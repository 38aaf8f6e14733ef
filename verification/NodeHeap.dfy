/** Search nodes and the open list: a 1-based binary heap of node references that is
    reordered in place. */
module NodeHeap {
  import opened GridPaths

  class Node {
    var position: Cell
    var g: int
    var h: int
    var f: int
    var pParent: Node?
  }

  /** The node pool's Alloc: a node that nothing else uses, with whatever its previous
      use left in its fields. */
  method Alloc() returns (n: Node)
    ensures fresh(n)
  {
    n := new Node;
  }

  /** A node with every field assigned. */
  method MakeNode(position: Cell, g: int, h: int, f: int, pParent: Node) returns (n: Node)
    ensures fresh(n)
    ensures n.position == position && n.g == g && n.h == h && n.f == f && n.pParent == pParent
  {
    n := Alloc();
    n.position, n.g, n.h, n.f := position, g, h, f;
    n.pParent := pParent;
  }

  /** A start node: its parent pointer keeps whatever value the pool left there. */
  method MakeRoot(position: Cell, h: int) returns (n: Node)
    ensures fresh(n)
    ensures n.position == position && n.g == 0 && n.h == h && n.f == h
  {
    n := Alloc();
    n.position, n.g, n.h, n.f := position, 0, h, h;
  }

  // ----- slots of the buffer, as a sequence of references -----

  /** Slots 1..n hold pairwise different nodes. */
  ghost predicate Distinct(b: seq<Node?>, n: nat) {
    && n < |b|
    && (forall i :: 1 <= i <= n ==> b[i] != null)
    && (forall i, j :: 1 <= i <= n && 1 <= j <= n ==> Different(b, i, j))
  }

  // Two slots hold different nodes. (A predicate of its own, so that the prover looks at
  // a pair of slots only when asked to.)
  ghost predicate Different(b: seq<Node?>, i: int, j: int) {
    0 <= i < |b| && 0 <= j < |b| && (i != j ==> b[i] != b[j])
  }

  ghost function Members(b: seq<Node?>, n: nat): (s: set<Node>)
    requires n < |b|
  {
    set i | 1 <= i <= n && b[i] != null :: b[i]
  }

  function Swapped(b: seq<Node?>, i: nat, j: nat): seq<Node?>
    requires i < |b| && j < |b|
  {
    b[i := b[j]][j := b[i]]
  }

  lemma SwapKeepsMembers(b: seq<Node?>, n: nat, i: nat, j: nat)
    requires Distinct(b, n) && 1 <= i <= n && 1 <= j <= n
    ensures Distinct(Swapped(b, i, j), n)
    ensures Members(Swapped(b, i, j), n) == Members(b, n)
  {
    var c := Swapped(b, i, j);
    forall k, l | 1 <= k <= n && 1 <= l <= n ensures Different(c, k, l) {
      assert Different(b, if k == i then j else if k == j then i else k, if l == i then j else if l == j then i else l);
    }
    forall x | x in Members(b, n) ensures x in Members(c, n) {
      var k :| 1 <= k <= n && b[k] == x;
      assert c[if k == i then j else if k == j then i else k] == x;
    }
    forall x | x in Members(c, n) ensures x in Members(b, n) {
      var k :| 1 <= k <= n && c[k] == x;
      assert b[if k == i then j else if k == j then i else k] == x;
    }
  }

  ghost function KeysOf(b: seq<Node?>, n: nat): (k: seq<int>)
    requires n < |b| && forall i :: 1 <= i <= n ==> b[i] != null
    reads Members(b, n)
    ensures |k| == n + 1 && k[0] == 0
    ensures forall i :: 1 <= i <= n ==> k[i] == b[i].f
  {
    if n == 0 then [0] else KeysOf(b, n - 1) + [b[n].f]
  }

  // ----- heap order, on the sequence of keys (slot 0 is unused) -----

  // Slot j is not smaller than slot i.
  ghost predicate Below(k: seq<int>, i: int, j: int) {
    0 <= i < |k| && 0 <= j < |k| && k[i] <= k[j]
  }

  ghost predicate Ordered(k: seq<int>) {
    forall j :: 2 <= j < |k| ==> Below(k, j / 2, j)
  }

  /** Ordered except that slot i may be smaller than its parent. */
  ghost predicate UpHole(k: seq<int>, i: nat) {
    && 1 <= i < |k|
    && (forall j :: 2 <= j < |k| && j != i ==> Below(k, j / 2, j))
    && (forall j :: 4 <= j < |k| && j / 2 == i ==> Below(k, i / 2, j))
  }

  /** Ordered except that slot i may be larger than its children. */
  ghost predicate DownHole(k: seq<int>, i: nat) {
    && 1 <= i
    && (forall j :: 2 <= j < |k| && j / 2 != i ==> Below(k, j / 2, j))
    && (forall j :: 4 <= j < |k| && j / 2 == i ==> Below(k, i / 2, j))
  }

  lemma UpStep(k: seq<int>, i: nat)
    requires UpHole(k, i) && i >= 2
    ensures k[i / 2] >= k[i] ==> UpHole(k[i / 2 := k[i]][i := k[i / 2]], i / 2)
    ensures k[i / 2] < k[i] ==> Ordered(k)
  {
    var p := i / 2;
    if k[p] >= k[i] {
      var c := k[p := k[i]][i := k[p]];
      forall j | 2 <= j < |c| && j != p ensures Below(c, j / 2, j) {
        assert j != i ==> Below(k, j / 2, j);
        assert j / 2 == i ==> Below(k, i / 2, j);
      }
      forall j | 4 <= j < |c| && j / 2 == p ensures Below(c, p / 2, j) {
        assert Below(k, p / 2, p);
        assert j != i ==> Below(k, j / 2, j);
      }
    } else {
      assert Below(k, i / 2, i);
    }
  }

  /** `next` is a least child of i: either the heap is in order or the hole moves down. */
  lemma DownStep(k: seq<int>, i: nat, next: nat)
    requires DownHole(k, i) && 2 <= next < |k| && next / 2 == i
    requires k[next] <= k[2 * i] && (2 * i + 1 < |k| ==> k[next] <= k[2 * i + 1])
    ensures k[i] > k[next] ==> DownHole(k[i := k[next]][next := k[i]], next)
    ensures k[i] <= k[next] ==> Ordered(k)
  {
    if k[i] <= k[next] {
      forall j | 2 <= j < |k| ensures Below(k, j / 2, j) {
        assert j / 2 == i ==> j == 2 * i || j == 2 * i + 1;
      }
    } else {
      var c := k[i := k[next]][next := k[i]];
      forall j | 2 <= j < |c| && j / 2 != next ensures Below(c, j / 2, j) {
        if j == i {
          assert Below(k, i / 2, next);
        } else if j / 2 == i {
          assert j == 2 * i || j == 2 * i + 1;
        } else {
          assert Below(k, j / 2, j);
        }
      }
      forall j | 4 <= j < |c| && j / 2 == next ensures Below(c, next / 2, j) {
        assert Below(k, j / 2, j);
      }
    }
  }

  lemma DownLeaf(k: seq<int>, i: nat)
    requires DownHole(k, i) && 2 * i >= |k|
    ensures Ordered(k)
  {
  }

  lemma {:induction false} RootIsLeast(k: seq<int>, j: nat)
    requires Ordered(k) && 1 <= j < |k|
    ensures k[1] <= k[j]
  {
    if j >= 2 {
      assert Below(k, j / 2, j);
      RootIsLeast(k, j / 2);
    }
  }

  lemma UpHoleAtEnd(k: seq<int>, f: int)
    requires Ordered(k) && |k| >= 1
    ensures UpHole(k + [f], |k|)
  {
    var c := k + [f];
    forall j | 2 <= j < |c| && j != |k| ensures Below(c, j / 2, j) {
      assert Below(k, j / 2, j);
    }
  }

  lemma UpHoleAfterDecrease(k: seq<int>, i: nat, f: int)
    requires Ordered(k) && 1 <= i < |k| && f <= k[i]
    ensures UpHole(k[i := f], i)
  {
    var c := k[i := f];
    forall j | 2 <= j < |c| && j != i ensures Below(c, j / 2, j) {
      assert Below(k, j / 2, j);
    }
    forall j | 4 <= j < |c| && j / 2 == i ensures Below(c, i / 2, j) {
      assert Below(k, j / 2, j) && Below(k, i / 2, i);
    }
  }

  lemma DownHoleAtRoot(k: seq<int>, c: seq<int>)
    requires Ordered(k) && 1 <= |c| == |k| - 1
    requires forall j :: 2 <= j < |c| ==> c[j] == k[j]
    ensures DownHole(c, 1)
  {
    forall j | 2 <= j < |c| && j / 2 != 1 ensures Below(c, j / 2, j) {
      assert Below(k, j / 2, j);
    }
  }

  lemma InsertMembers(b: seq<Node?>, n: nat, x: Node)
    requires Distinct(b, n) && n + 1 < |b| && x !in Members(b, n)
    ensures Distinct(b[n + 1 := x], n + 1)
    ensures Members(b[n + 1 := x], n + 1) == Members(b, n) + {x}
  {
    var c := b[n + 1 := x];
    assert c[n + 1] == x;
    forall i, j | 1 <= i <= n + 1 && 1 <= j <= n + 1 ensures Different(c, i, j) {
      assert i <= n && j <= n ==> Different(b, i, j);
      assert i <= n ==> b[i] in Members(b, n);
      assert j <= n ==> b[j] in Members(b, n);
    }
    forall y | y in Members(b, n) ensures y in Members(c, n + 1) {
      var k :| 1 <= k <= n && b[k] == y;
      assert c[k] == y;
    }
  }

  lemma RemoveMembers(b: seq<Node?>, n: nat)
    requires Distinct(b, n) && n >= 1
    ensures Distinct(b, n - 1)
    ensures Members(b, n - 1) == Members(b, n) - {b[n]}
  {
    forall i | 1 <= i < n ensures b[i] != b[n] {
      assert Different(b, i, n);
    }
  }

  class MyHeap {
    var mCapacity: nat
    var mSize: nat
    var mBuffer: array<Node?>
    ghost var nodes: set<Node>  // the stored nodes

    ghost predicate Shape()
      reads this, mBuffer
    {
      && mBuffer.Length == mCapacity + 1 && mSize <= mCapacity
      && Distinct(mBuffer[..], mSize) && nodes == Members(mBuffer[..], mSize)
    }

    /** The keys f of the stored nodes, slot by slot. */
    ghost function Keys(): (k: seq<int>)
      requires Shape()
      reads this, mBuffer, nodes
    {
      KeysOf(mBuffer[..], mSize)
    }

    ghost predicate Valid()
      reads this, mBuffer, nodes
    {
      Shape() && Ordered(Keys())
    }

    constructor (size: nat)
      ensures Valid() && fresh(mBuffer)
      ensures mCapacity == size && mSize == 0 && nodes == {}
    {
      mCapacity := size;
      mSize := 0;
      mBuffer := new Node?[size + 1];
      nodes := {};
    }

    method Swap(left: nat, right: nat)
      requires Shape() && 1 <= left <= mSize && 1 <= right <= mSize
      modifies mBuffer
      ensures mBuffer[..] == Swapped(old(mBuffer[..]), left, right)
      ensures Shape()
      ensures Keys() == old(Keys()[left := Keys()[right]][right := Keys()[left]])
    {
      SwapKeepsMembers(mBuffer[..], mSize, left, right);
      var temp := mBuffer[left];
      mBuffer[left] := mBuffer[right];
      mBuffer[right] := temp;
      assert mBuffer[..] == Swapped(old(mBuffer[..]), left, right);
      ghost var was := old(Keys());
      assert Keys() == was[left := was[right]][right := was[left]];
    }

    /** Sift up: order may fail only between `index` and its parent. */
    method Heapify(index: nat)
      requires Shape() && 1 <= index <= mSize && UpHole(Keys(), index)
      modifies mBuffer
      ensures Valid()
      ensures forall i :: mSize < i < mBuffer.Length ==> mBuffer[i] == old(mBuffer[i])
      decreases index
    {
      if index <= 1 {
        return;
      }
      UpStep(Keys(), index);
      var parent := index / 2;
      if mBuffer[parent].f >= mBuffer[index].f {
        Swap(parent, index);
        Heapify(parent);
      }
    }

    /** Sift down: order may fail only between `index` and its children. */
    method DeHeapify(index: nat)
      requires Shape() && DownHole(Keys(), index)
      modifies mBuffer
      ensures Valid()
      ensures forall i :: mSize < i < mBuffer.Length ==> mBuffer[i] == old(mBuffer[i])
      decreases mSize - index
    {
      ghost var k := Keys();
      var left := index * 2;
      var right := index * 2 + 1;
      if mSize >= right {
        var next := if mBuffer[left].f < mBuffer[right].f then left else right;
        assert next / 2 == index;
        DownStep(k, index, next);
        if mBuffer[index].f > mBuffer[next].f {
          Swap(index, next);
          DeHeapify(next);
        }
      } else if mSize >= left {
        DownStep(k, index, left);
        if mBuffer[left].f < mBuffer[index].f {
          Swap(left, index);
          assert Keys() == k[index := k[left]][left := k[index]];
          DeHeapify(left);
        }
      } else {
        DownLeaf(Keys(), index);
      }
    }

    /** Every stored node is found at some slot of the buffer. */
    lemma SlotOf(n: Node) returns (i: nat)
      requires Shape() && n in nodes
      ensures 1 <= i <= mSize && mBuffer[i] == n
    {
      i :| 1 <= i <= mSize && mBuffer[..][i] == n;
    }

    method InsertData(data: Node)
      requires Valid() && mSize < mCapacity && data !in nodes
      modifies this`mSize, this`nodes, mBuffer
      ensures Valid() && nodes == old(nodes) + {data}
      ensures mSize == old(mSize) + 1
    {
      ghost var b, k := mBuffer[..], Keys();
      mBuffer[mSize + 1] := data;
      mSize := mSize + 1;
      nodes := nodes + {data};
      assert mBuffer[..] == b[mSize := data];
      InsertMembers(b, mSize - 1, data);
      assert Keys() == k + [data.f];
      UpHoleAtEnd(k, data.f);
      Heapify(mSize);
    }

    /** Removes and returns a node of least f; null exactly when the heap is empty. */
    method GetMin() returns (min: Node?)
      requires Valid()
      modifies this`mSize, this`nodes, mBuffer
      ensures Valid()
      ensures min == null <==> old(mSize) == 0
      ensures min == null ==> nodes == old(nodes) && mSize == old(mSize)
      ensures min != null ==> min in old(nodes) && nodes == old(nodes) - {min} && mSize == old(mSize) - 1
      ensures min != null ==> forall n :: n in old(nodes) ==> min.f <= n.f
    {
      if mSize == 0 {
        return null;
      }
      ghost var k := Keys();
      forall n | n in nodes ensures mBuffer[1].f <= n.f {
        var i := SlotOf(n);
        RootIsLeast(k, i);
      }
      var retIndex := mSize;
      Swap(1, mSize);
      ghost var b, k1 := mBuffer[..], Keys();
      mSize := mSize - 1;
      nodes := nodes - {mBuffer[retIndex]};
      assert mBuffer[..] == b;
      RemoveMembers(b, mSize + 1);
      assert Keys() == k1[..mSize + 1];
      DownHoleAtRoot(k, k1[..mSize + 1]);
      DeHeapify(1);
      return mBuffer[retIndex];
    }

    /** Gives the node in slot i the smaller key of `other` and restores the order. */
    method DecreaseAt(i: nat, other: Node)
      requires Valid() && 1 <= i <= mSize && other !in nodes && other.f <= mBuffer[i].f
      modifies mBuffer, mBuffer[i]
      ensures Valid()
      ensures old(mBuffer[i]).g == other.g && old(mBuffer[i]).f == other.f && old(mBuffer[i]).pParent == other.pParent
      ensures old(mBuffer[i]).position == old(mBuffer[i].position) && old(mBuffer[i]).h == old(mBuffer[i].h)
    {
      ghost var b, k := mBuffer[..], Keys();
      var n := mBuffer[i];
      assert n in nodes by {
        assert b[i] == n;
      }
      n.g := other.g;
      n.f := other.f;
      n.pParent := other.pParent;
      assert mBuffer[..] == b;
      forall j | 1 <= j <= mSize ensures Keys()[j] == k[i := other.f][j] {
        assert Different(b, j, i);
      }
      assert Keys() == k[i := other.f];
      UpHoleAfterDecrease(k, i, other.f);
      Heapify(i);
    }

    /** Decrease-key by position: the stored node at `other`'s position, if it has a
        larger f, takes over other's g, f and parent. */
    method UpdateNode(other: Node) returns (changed: bool)
      requires Valid() && other !in nodes
      requires forall a, b :: a in nodes && b in nodes && a.position == b.position ==> a == b
      modifies mBuffer, nodes
      ensures Valid()
      ensures forall n :: n in nodes ==> n.position == old(n.position) && n.h == old(n.h)
      ensures forall n :: n in nodes && (n.position != other.position || old(n.f) <= other.f) ==>
                n.g == old(n.g) && n.f == old(n.f) && n.pParent == old(n.pParent)
      ensures forall n :: n in nodes && n.position == other.position && old(n.f) > other.f ==>
                n.g == other.g && n.f == other.f && n.pParent == other.pParent
      ensures changed <==> exists n :: n in nodes && n.position == other.position && old(n.f) > other.f
    {
      var i := 1;
      while i <= mSize
        invariant 1 <= i <= mSize + 1
        invariant forall j :: 1 <= j < i ==> mBuffer[j].position != other.position
      {
        var n := mBuffer[i];
        if n.position == other.position {
          if n.f > other.f {
            assert n in nodes by {
              assert mBuffer[..][i] == n;
            }
            DecreaseAt(i, other);
            return true;
          }
          return false;
        }
        i := i + 1;
      }
      forall n | n in nodes ensures n.position != other.position {
        var j := SlotOf(n);
      }
      return false;
    }
  }
}
