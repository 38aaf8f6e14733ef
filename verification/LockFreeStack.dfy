/** The tagged-top stack as atomic steps of any number of threads.

    Push swings the top pointer with a one-word compare-and-swap; Pop swings pointer and
    counter together, and only Pop bumps the counter. Popped nodes go back to a pool from
    which a later Push may take them at any moment, while other threads still hold stale
    copies of the pointer. One step is one shared access of the source. */
module LockFreeStack {
  import opened Basics
  import opened Sums

  type Ptr = nat
  const NULL: Ptr := 0

  /** Where a thread is, with its local variables. The comment names the access the
      thread performs next. */
  datatype Pc =
    | Idle
    | PushData(v: int, node: Ptr)               // node->data = data
    | PushTop(v: int, node: Ptr)                // ptop = mTop.ptr_node
    | PushNext(v: int, node: Ptr, ptop: Ptr)    // node->next = ptop
    | PushCas(v: int, node: Ptr, ptop: Ptr)     // compare-and-swap of mTop.ptr_node
    | PushCount                                 // ++mSize
    | PopUndo                                   // ++mSize after a failed size test
    | PopCounter                                // top.counter = mTop.counter
    | PopTop(c: nat)                            // top.ptr_node = mTop.ptr_node
    | PopNext(c: nat, p: Ptr)                   // next = top.ptr_node->next
    | PopCas(c: nat, p: Ptr, next: Ptr)         // compare-and-swap of the whole mTop
    | PopData(p: Ptr)                           // *result = top.ptr_node->data
    | PopFree(p: Ptr, v: int)                   // the node goes back to the pool

  /** The shared memory; `free` is the node pool. */
  datatype Memory = Memory(top: Ptr, counter: nat, size: int, data: map<Ptr, int>, next: map<Ptr, Ptr>, free: set<Ptr>)

  datatype State = State(m: Memory, threads: seq<Pc>)

  /** What an idle thread decides to do; the pool's answer and the contents of a node that
      was never used before are part of the choice. */
  datatype Choice = Go | CallPush(v: int, node: Ptr, junk: int, junkNext: Ptr) | CallPop

  datatype Event = Silent | Pushed(v: int) | Popped(v: int) | Returned(v: int) | Failed

  ghost predicate Init(s: State) {
    && s.m == Memory(NULL, 0, 0, map[], map[], {})
    && forall t :: 0 <= t < |s.threads| ==> s.threads[t] == Idle
  }

  ghost predicate Enabled(s: State, t: nat, a: Choice) {
    && t < |s.threads|
    && match s.threads[t]
       case Idle =>
         (match a
          case Go => false
          case CallPush(_, node, _, _) => node != NULL && (node in s.m.free || node !in s.m.data)
          case CallPop => true)
       case PopNext(_, p) => p in s.m.next  // reading through a pointer needs a node there
       case PopData(p) => p in s.m.data
       case _ => true
  }

  /** One access by a thread: the new memory, where the thread is then, and the event. */
  ghost function Act(m: Memory, pc: Pc, a: Choice): (Memory, Pc, Event)
    requires pc.PopNext? ==> pc.p in m.next
    requires pc.PopData? ==> pc.p in m.data
  {
    match pc
    case Idle =>
      (match a
       case CallPush(v, node, junk, junkNext) =>
         (if node in m.free then m.(free := m.free - {node})
          else m.(data := m.data[node := junk], next := m.next[node := junkNext]),
          PushData(v, node), Silent)
       case CallPop => (m.(size := m.size - 1), if m.size - 1 < 0 then PopUndo else PopCounter, Silent)
       case Go => (m, Idle, Silent))
    case PushData(v, node) => (m.(data := m.data[node := v]), PushTop(v, node), Silent)
    case PushTop(v, node) => (m, PushNext(v, node, m.top), Silent)
    case PushNext(v, node, ptop) => (m.(next := m.next[node := ptop]), PushCas(v, node, ptop), Silent)
    case PushCas(v, node, ptop) =>
      if m.top == ptop then (m.(top := node), PushCount, Pushed(v)) else (m, PushTop(v, node), Silent)
    case PushCount => (m.(size := m.size + 1), Idle, Silent)
    case PopUndo => (m.(size := m.size + 1), Idle, Failed)
    case PopCounter => (m, PopTop(m.counter), Silent)
    case PopTop(c) => (m, PopNext(c, m.top), Silent)
    case PopNext(c, p) => (m, PopCas(c, p, m.next[p]), Silent)
    case PopCas(c, p, next) =>
      if m.top == p && m.counter == c then
        (m.(top := next, counter := c + 1), PopData(p), Popped(if p in m.data then m.data[p] else 0))
      else (m, PopCounter, Silent)
    case PopData(p) => (m, PopFree(p, m.data[p]), Silent)
    case PopFree(p, v) => (m.(free := m.free + {p}), Idle, Returned(v))
  }

  ghost function Next(s: State, t: nat, a: Choice): (State, Event)
    requires Enabled(s, t, a)
  {
    var (m, pc, e) := Act(s.m, s.threads[t], a);
    (State(m, s.threads[t := pc]), e)
  }

  // ----- the sequential specification -----

  /** A LIFO sequence, last pushed first, and for each thread the value that its current
      Pop has taken but not yet returned. */
  datatype Spec = Spec(stack: seq<int>, owed: seq<Option<int>>)

  ghost predicate SpecStep(a: Spec, t: nat, e: Event, b: Spec) {
    && t < |a.owed|
    && match e
       case Silent => b == a
       case Failed => b == a
       case Pushed(v) => b == a.(stack := [v] + a.stack)
       case Popped(v) =>
         a.stack != [] && v == a.stack[0] && a.owed[t] == None &&
         b == Spec(a.stack[1..], a.owed[t := Some(v)])
       case Returned(v) => a.owed[t] == Some(v) && b == a.(owed := a.owed[t := None])
  }

  // ----- the invariant -----

  // The node a thread has to itself: not linked and not in the pool.
  function Held(pc: Pc): Ptr {
    match pc
    case PushData(_, node) => node
    case PushTop(_, node) => node
    case PushNext(_, node, _) => node
    case PushCas(_, node, _) => node
    case PopData(p) => p
    case PopFree(p, _) => p
    case _ => NULL
  }

  function Uncounted(pc: Pc): nat { if pc.PushCount? then 1 else 0 }

  function Failing(pc: Pc): nat { if pc.PopUndo? then 1 else 0 }

  // A Pop that has passed the size test and not yet unlinked its node.
  function Reserved(pc: Pc): nat {
    if pc.PopCounter? || pc.PopTop? || pc.PopNext? || pc.PopCas? then 1 else 0
  }

  function At(chain: seq<Ptr>, i: nat): Ptr {
    if i < |chain| then chain[i] else NULL
  }

  /** `chain` lists the linked nodes from the top down. */
  ghost predicate Linked(m: Memory, chain: seq<Ptr>) {
    && m.top == At(chain, 0)
    && (forall i: nat :: i < |chain| ==> LinkAt(m, chain, i))
    && (forall i: nat, j: nat :: i < j < |chain| ==> chain[i] != chain[j])
  }

  ghost predicate LinkAt(m: Memory, chain: seq<Ptr>, i: nat)
    requires i < |chain|
  {
    Known(m, chain[i]) && chain[i] !in m.free && m.next[chain[i]] == At(chain, i + 1)
  }

  ghost predicate Known(m: Memory, p: Ptr) {
    p != NULL && p in m.data && p in m.next
  }

  ghost predicate PoolOk(m: Memory) {
    m.data.Keys == m.next.Keys && forall p :: p in m.free ==> Known(m, p)
  }

  /** Held nodes are neither linked nor free, and no node is held twice. */
  ghost predicate HeldOk(m: Memory, threads: seq<Pc>, chain: seq<Ptr>) {
    && (forall t: nat :: t < |threads| && Held(threads[t]) != NULL ==>
          Known(m, Held(threads[t])) && Held(threads[t]) !in chain && Held(threads[t]) !in m.free)
    && (forall t: nat, u: nat :: t < |threads| && u < |threads| && t != u && Held(threads[t]) != NULL ==>
          Held(threads[t]) != Held(threads[u]))
  }

  /** What a thread's local variables say about the shared state. A stale pointer with an
      unchanged counter is still linked, and its next pointer is still the one read. */
  ghost predicate LocalOk(m: Memory, chain: seq<Ptr>, pc: Pc, owed: Option<int>) {
    match pc
    case PushData(_, node) => node != NULL && owed == None
    case PushTop(v, node) => node != NULL && node in m.data && m.data[node] == v && owed == None
    case PushNext(v, node, _) => node != NULL && node in m.data && m.data[node] == v && owed == None
    case PushCas(v, node, ptop) =>
      Known(m, node) && m.data[node] == v && m.next[node] == ptop && owed == None
    case PopTop(c) => c <= m.counter && owed == None
    case PopNext(c, p) => Known(m, p) && c <= m.counter && (c == m.counter ==> p in chain) && owed == None
    case PopCas(c, p, next) =>
      Known(m, p) && c <= m.counter && (c == m.counter ==> p in chain && m.next[p] == next) && owed == None
    case PopData(p) => Known(m, p) && owed == Some(m.data[p])
    case PopFree(p, v) => Known(m, p) && owed == Some(v)
    case _ => owed == None
  }

  ghost predicate LocalsOk(m: Memory, threads: seq<Pc>, chain: seq<Ptr>, owed: seq<Option<int>>) {
    |owed| == |threads| && forall t: nat :: t < |threads| ==> LocalOk(m, chain, threads[t], owed[t])
  }

  /** The size counter equals linked nodes minus uncounted pushes, minus reservations, minus
      failed pops that have not undone their decrement. */
  ghost predicate SizeOk(size: int, threads: seq<Pc>, linked: nat) {
    && size + Sum(threads, Uncounted) + Sum(threads, Reserved) + Sum(threads, Failing) == linked
    && size + Sum(threads, Failing) >= 0
  }

  ghost predicate Inv(s: State, chain: seq<Ptr>, owed: seq<Option<int>>) {
    && Linked(s.m, chain) && PoolOk(s.m) && HeldOk(s.m, s.threads, chain)
    && SizeOk(s.m.size, s.threads, |chain|) && LocalsOk(s.m, s.threads, chain, owed)
  }

  ghost function Contents(m: Memory, chain: seq<Ptr>): seq<int>
    requires Linked(m, chain)
  {
    seq(|chain|, i requires 0 <= i < |chain| => assert LinkAt(m, chain, i); m.data[chain[i]])
  }

  ghost function Abs(s: State, chain: seq<Ptr>, owed: seq<Option<int>>): Spec
    requires Linked(s.m, chain)
  {
    Spec(Contents(s.m, chain), owed)
  }

  lemma InitInv(s: State)
    requires Init(s)
    ensures Inv(s, [], seq(|s.threads|, _ => None))
  {
    SumZero(s.threads, Uncounted);
    SumZero(s.threads, Reserved);
    SumZero(s.threads, Failing);
  }

  lemma TopIsLinked(s: State, chain: seq<Ptr>, owed: seq<Option<int>>, t: nat)
    requires Inv(s, chain, owed) && t < |s.threads| && Reserved(s.threads[t]) == 1
    ensures |chain| > 0 && s.m.top == chain[0] && Known(s.m, s.m.top)
  {
    SumAtLeast(s.threads, Reserved, t);
    assert LinkAt(s.m, chain, 0);
  }

  // ----- every step keeps the invariant and is a step of the specification -----

  lemma SizeStep(threads: seq<Pc>, t: nat, pc: Pc, size: int, size': int, linked: nat, linked': nat)
    requires SizeOk(size, threads, linked) && t < |threads|
    requires size' - size + Uncounted(pc) + Reserved(pc) + Failing(pc)
          == linked' - linked + Uncounted(threads[t]) + Reserved(threads[t]) + Failing(threads[t])
    requires size' + Failing(pc) >= size + Failing(threads[t]) || (size' >= 0 && Failing(pc) == Failing(threads[t]))
    ensures SizeOk(size', threads[t := pc], linked')
  {
    SumUpdate(threads, Uncounted, t, pc);
    SumUpdate(threads, Reserved, t, pc);
    SumUpdate(threads, Failing, t, pc);
  }

  lemma HeldStep(m: Memory, m': Memory, threads: seq<Pc>, t: nat, pc: Pc, chain: seq<Ptr>, chain': seq<Ptr>)
    requires HeldOk(m, threads, chain) && t < |threads|
    requires forall p :: Known(m, p) ==> Known(m', p)
    requires forall u: nat :: u < |threads| && u != t && Held(threads[u]) != NULL ==>
               Held(threads[u]) !in chain' && Held(threads[u]) !in m'.free && Held(threads[u]) != Held(pc)
    requires Held(pc) != NULL ==> Known(m', Held(pc)) && Held(pc) !in chain' && Held(pc) !in m'.free
    ensures HeldOk(m', threads[t := pc], chain')
  {
  }

  lemma LocalsStep(m: Memory, m': Memory, threads: seq<Pc>, t: nat, pc: Pc, chain: seq<Ptr>, chain': seq<Ptr>,
                   owed: seq<Option<int>>, o: Option<int>)
    requires LocalsOk(m, threads, chain, owed) && t < |threads| && LocalOk(m', chain', pc, o)
    requires forall u: nat :: u < |threads| && u != t ==> LocalOk(m', chain', threads[u], owed[u])
    ensures LocalsOk(m', threads[t := pc], chain', owed[t := o])
  {
  }

  ghost predicate SameNode(m: Memory, m': Memory, p: Ptr) {
    Known(m, p) && Known(m', p) && m'.data[p] == m.data[p] && m'.next[p] == m.next[p]
  }

  /** Another thread's locals survive a step that leaves its node and the links alone. */
  lemma OtherLocal(m: Memory, m': Memory, pc: Pc, chain: seq<Ptr>, chain': seq<Ptr>, owed: Option<int>)
    requires LocalOk(m, chain, pc, owed)
    requires forall p :: Known(m, p) ==> Known(m', p)
    requires m'.counter >= m.counter
    requires m'.counter == m.counter ==> forall p :: p in chain ==> p in chain' && SameNode(m, m', p)
    requires Held(pc) != NULL ==> SameNode(m, m', Held(pc))
    ensures LocalOk(m', chain', pc, owed)
  {
  }

  lemma ChainKnown(m: Memory, chain: seq<Ptr>)
    requires Linked(m, chain)
    ensures forall p :: p in chain ==> Known(m, p) && p !in m.free
  {
    forall p | p in chain ensures Known(m, p) && p !in m.free {
      var i: nat :| i < |chain| && chain[i] == p;
      assert LinkAt(m, chain, i);
    }
  }

  /** A step on which the linked part of the memory stays as it is. */
  lemma LinkedKept(m: Memory, m': Memory, chain: seq<Ptr>)
    requires Linked(m, chain) && m'.top == m.top
    requires forall p :: p in chain ==> SameNode(m, m', p) && p !in m'.free
    ensures Linked(m', chain) && Contents(m', chain) == Contents(m, chain)
  {
    forall i: nat | i < |chain| ensures LinkAt(m', chain, i) && m'.data[chain[i]] == m.data[chain[i]] {
      assert LinkAt(m, chain, i) && SameNode(m, m', chain[i]);
    }
  }

  /** Every step that neither links nor unlinks a node. */
  lemma QuietStep(s: State, t: nat, m': Memory, pc: Pc, chain: seq<Ptr>, owed: seq<Option<int>>, o: Option<int>)
    requires Inv(s, chain, owed) && t < |s.threads|
    requires m'.top == s.m.top && m'.counter == s.m.counter && PoolOk(m')
    requires forall p :: Known(s.m, p) ==> Known(m', p)
    requires forall p :: Known(s.m, p) && p != Held(s.threads[t]) ==> SameNode(s.m, m', p)
    requires forall p :: p in m'.free ==> p in s.m.free || (p == Held(s.threads[t]) && Held(pc) == NULL)
    requires Held(pc) == NULL || (Known(m', Held(pc)) && Held(pc) !in m'.free)
    requires Held(pc) == Held(s.threads[t]) || Held(pc) == NULL || Held(pc) in s.m.free || !Known(s.m, Held(pc))
    requires SizeOk(m'.size, s.threads[t := pc], |chain|) && LocalOk(m', chain, pc, o)
    ensures Inv(State(m', s.threads[t := pc]), chain, owed[t := o])
    ensures Contents(m', chain) == Contents(s.m, chain)
  {
    hide Linked, LocalOk, Contents, SizeOk;
    ChainKnown(s.m, chain);
    LinkedKept(s.m, m', chain);
    HeldStep(s.m, m', s.threads, t, pc, chain, chain);
    forall u: nat | u < |s.threads| && u != t ensures LocalOk(m', chain, s.threads[u], owed[u]) {
      OtherLocal(s.m, m', s.threads[u], chain, chain, owed[u]);
    }
    LocalsStep(s.m, m', s.threads, t, pc, chain, chain, owed, o);
  }

  lemma LinkPushed(m: Memory, chain: seq<Ptr>, node: Ptr)
    requires Linked(m, chain) && Known(m, node) && node !in chain && node !in m.free && m.next[node] == m.top
    ensures Linked(m.(top := node), [node] + chain)
    ensures Contents(m.(top := node), [node] + chain) == [m.data[node]] + Contents(m, chain)
  {
    var m', c := m.(top := node), [node] + chain;
    forall i: nat | i < |c| ensures LinkAt(m', c, i) {
      if i > 0 {
        assert LinkAt(m, chain, i - 1);
      }
    }
    assert Linked(m', c);
    assert Contents(m', c) == [m.data[node]] + Contents(m, chain);
  }

  lemma LinkPopped(m: Memory, chain: seq<Ptr>, m': Memory)
    requires Linked(m, chain) && |chain| > 0 && Known(m, chain[0])
    requires m' == m.(top := m.next[chain[0]], counter := m'.counter)
    ensures Linked(m', chain[1..]) && chain[0] !in chain[1..]
    ensures Contents(m, chain) == [m.data[chain[0]]] + Contents(m', chain[1..])
  {
    var c := chain[1..];
    assert LinkAt(m, chain, 0);
    forall i: nat | i < |c| ensures LinkAt(m', c, i) {
      assert LinkAt(m, chain, i + 1);
    }
    assert Linked(m', c);
    assert Contents(m, chain) == [m.data[chain[0]]] + Contents(m', c);
  }

  lemma StepPushCas(s: State, t: nat, chain: seq<Ptr>, owed: seq<Option<int>>)
    requires Inv(s, chain, owed) && t < |s.threads| && s.threads[t].PushCas? && s.m.top == s.threads[t].ptop
    ensures var (u, e) := Next(s, t, Go); var c := [s.threads[t].node] + chain;
      Inv(u, c, owed) && SpecStep(Abs(s, chain, owed), t, e, Abs(u, c, owed))
  {
    var node, m := s.threads[t].node, s.m;
    var m', c := m.(top := node), [node] + chain;
    assert LocalOk(m, chain, s.threads[t], owed[t]);
    LinkPushed(m, chain, node);
    hide Linked, LocalOk, Contents, SizeOk;
    ChainKnown(m, chain);
    SizeStep(s.threads, t, PushCount, m.size, m.size, |chain|, |c|);
    HeldStep(m, m', s.threads, t, PushCount, chain, c);
    forall u: nat | u < |s.threads| && u != t ensures LocalOk(m', c, s.threads[u], owed[u]) {
      OtherLocal(m, m', s.threads[u], chain, c, owed[u]);
    }
    IdleLocal(m', c, PushCount);
    LocalsStep(m, m', s.threads, t, PushCount, chain, c, owed, None);
    assert owed[t := None] == owed;
  }

  lemma IdleLocal(m: Memory, chain: seq<Ptr>, pc: Pc)
    requires pc.Idle? || pc.PushCount? || pc.PopUndo? || pc.PopCounter?
    ensures LocalOk(m, chain, pc, None)
  {
  }

  lemma StepPopCas(s: State, t: nat, chain: seq<Ptr>, owed: seq<Option<int>>)
      returns (c: seq<Ptr>, o: seq<Option<int>>)
    requires Inv(s, chain, owed) && t < |s.threads| && s.threads[t].PopCas?
    requires s.m.top == s.threads[t].p && s.m.counter == s.threads[t].c
    ensures var (u, e) := Next(s, t, Go);
      Inv(u, c, o) && SpecStep(Abs(s, chain, owed), t, e, Abs(u, c, o))
    ensures chain == [s.threads[t].p] + c
  {
    var p, m := s.threads[t].p, s.m;
    assert LocalOk(m, chain, s.threads[t], owed[t]);
    TopIsLinked(s, chain, owed, t);
    var m' := m.(top := m.next[p], counter := m.counter + 1);
    c := chain[1..];
    o := owed[t := Some(m.data[p])];
    LinkPopped(m, chain, m');
    assert LocalOk(m', c, PopData(p), Some(m.data[p]));
    ChainKnown(m, chain);
    hide Linked, LocalOk, Contents, SizeOk;
    SizeStep(s.threads, t, PopData(p), m.size, m.size, |chain|, |c|);
    HeldStep(m, m', s.threads, t, PopData(p), chain, c);
    forall u: nat | u < |s.threads| && u != t ensures LocalOk(m', c, s.threads[u], owed[u]) {
      OtherLocal(m, m', s.threads[u], chain, c, owed[u]);
    }
    LocalsStep(m, m', s.threads, t, PopData(p), chain, c, owed, Some(m.data[p]));
  }

  lemma StepLocal(s: State, t: nat, a: Choice, chain: seq<Ptr>, owed: seq<Option<int>>)
    requires Inv(s, chain, owed) && Enabled(s, t, a) && Act(s.m, s.threads[t], a).0 == s.m
    requires !s.threads[t].PushCas? || s.m.top != s.threads[t].ptop
    requires !s.threads[t].PopCas? || s.m.top != s.threads[t].p || s.m.counter != s.threads[t].c
    ensures var (u, e) := Next(s, t, a);
      Inv(u, chain, owed) && Contents(u.m, chain) == Contents(s.m, chain) && e == Silent
  {
    var pc := s.threads[t];
    assert LocalOk(s.m, chain, pc, owed[t]);
    if pc.PopTop? {
      TopIsLinked(s, chain, owed, t);
    }
    var pc' := Act(s.m, pc, a).1;
    assert owed[t := owed[t]] == owed;
    SizeStep(s.threads, t, pc', s.m.size, s.m.size, |chain|, |chain|);
    hide Linked, Contents, SizeOk;
    QuietStep(s, t, s.m, pc', chain, owed, owed[t]);
  }

  lemma StepMemory(s: State, t: nat, a: Choice, chain: seq<Ptr>, owed: seq<Option<int>>, o: Option<int>)
    requires Inv(s, chain, owed) && Enabled(s, t, a)
    requires !s.threads[t].PushCas? && !s.threads[t].PopCas? && Act(s.m, s.threads[t], a).0 != s.m
    requires o == if s.threads[t].PopFree? then None else owed[t]
    ensures var (u, e) := Next(s, t, a);
      && Inv(u, chain, owed[t := o]) && Contents(u.m, chain) == Contents(s.m, chain)
      && e == if s.threads[t].PopFree? then Returned(s.threads[t].v)
              else if s.threads[t].PopUndo? then Failed else Silent
  {
    var pc := s.threads[t];
    assert LocalOk(s.m, chain, pc, owed[t]);
    var (m', pc', _) := Act(s.m, pc, a);
    SizeStep(s.threads, t, pc', s.m.size, m'.size, |chain|, |chain|);
    hide Linked, Contents, SizeOk;
    QuietStep(s, t, m', pc', chain, owed, o);
  }

  /** Only linking a pushed node and unlinking a popped one change the chain. */
  ghost predicate ChainStep(pc: Pc, pc': Pc, chain: seq<Ptr>, c: seq<Ptr>) {
    if pc.PushCas? && pc'.PushCount? then c == [pc.node] + chain
    else if pc.PopCas? && pc'.PopData? then chain == [pc'.p] + c
    else c == chain
  }

  /** Every step of every thread keeps the invariant, and on the contents of the stack it
      is a step of the sequential specification. */
  lemma StepRefines(s: State, t: nat, a: Choice, chain: seq<Ptr>, owed: seq<Option<int>>)
      returns (c: seq<Ptr>, o: seq<Option<int>>)
    requires Inv(s, chain, owed) && Enabled(s, t, a)
    ensures var (u, e) := Next(s, t, a);
      Inv(u, c, o) && SpecStep(Abs(s, chain, owed), t, e, Abs(u, c, o))
    ensures ChainStep(s.threads[t], Next(s, t, a).0.threads[t], chain, c)
  {
    var pc := s.threads[t];
    c, o := chain, owed;
    if pc.PushCas? && s.m.top == pc.ptop {
      StepPushCas(s, t, chain, owed);
      c := [pc.node] + chain;
    } else if pc.PopCas? && s.m.top == pc.p && s.m.counter == pc.c {
      c, o := StepPopCas(s, t, chain, owed);
    } else if Act(s.m, pc, a).0 == s.m {
      assert LocalOk(s.m, chain, pc, owed[t]);
      StepLocal(s, t, a, chain, owed);
    } else {
      assert LocalOk(s.m, chain, pc, owed[t]);
      StepMemory(s, t, a, chain, owed, if pc.PopFree? then None else owed[t]);
      o := owed[t := if pc.PopFree? then None else owed[t]];
      assert !pc.PopFree? ==> o == owed;
    }
  }

  // ----- whole runs -----

  datatype Move = Move(t: nat, a: Choice)

  /** The state after a schedule, any interleaving of any threads, or None when the
      schedule asks for a step that does not exist. */
  ghost function Run(s: State, moves: seq<Move>): Option<State> {
    if moves == [] then Some(s)
    else
      var last := moves[|moves| - 1];
      var before := Run(s, moves[..|moves| - 1]);
      if before.Some? && Enabled(before.value, last.t, last.a) then Some(Next(before.value, last.t, last.a).0)
      else None
  }

  ghost function Trace(s: State, moves: seq<Move>): seq<Event>
    requires Run(s, moves).Some?
  {
    if moves == [] then []
    else
      var last := moves[|moves| - 1];
      Trace(s, moves[..|moves| - 1]) + [Next(Run(s, moves[..|moves| - 1]).value, last.t, last.a).1]
  }

  /** The specification's states along a trace. */
  ghost predicate SpecRun(a: Spec, moves: seq<Move>, trace: seq<Event>, states: seq<Spec>) {
    && |moves| == |trace| && |states| == |trace| + 1 && states[0] == a
    && forall i: nat :: i < |trace| ==> SpecStep(states[i], moves[i].t, trace[i], states[i + 1])
  }

  /** Linearizability: the events of any schedule form a run of the LIFO specification,
      which ends with exactly the linked values. */
  lemma {:induction false} RunRefines(s: State, moves: seq<Move>)
      returns (states: seq<Spec>, chain: seq<Ptr>, owed: seq<Option<int>>)
    requires Init(s) && Run(s, moves).Some?
    ensures Inv(Run(s, moves).value, chain, owed)
    ensures SpecRun(Spec([], seq(|s.threads|, _ => None)), moves, Trace(s, moves), states)
    ensures states[|moves|] == Abs(Run(s, moves).value, chain, owed)
    decreases |moves|
  {
    if moves == [] {
      InitInv(s);
      chain, owed := [], seq(|s.threads|, _ => None);
      states := [Spec([], owed)];
      assert Contents(s.m, []) == [];
    } else {
      var n := |moves| - 1;
      var ss, c, o := RunRefines(s, moves[..n]);
      chain, owed := StepRefines(Run(s, moves[..n]).value, moves[n].t, moves[n].a, c, o);
      states := ss + [Abs(Run(s, moves).value, chain, owed)];
      var trace := Trace(s, moves);
      assert trace[..n] == Trace(s, moves[..n]);
      forall i: nat | i < |trace| ensures SpecStep(states[i], moves[i].t, trace[i], states[i + 1]) {
        if i < n {
          assert moves[..n][i] == moves[i] && trace[..n][i] == trace[i];
        }
      }
    }
  }

  /** In every run the size counter equals the linked nodes minus the pushes not yet counted,
      the reservations, and the failed pops that have not undone their decrement; and at least
      as many nodes are linked as there are reserved pops. */
  lemma ReservationsAreBacked(first: State, moves: seq<Move>) returns (chain: seq<Ptr>)
    requires Init(first) && Run(first, moves).Some?
    ensures var s := Run(first, moves).value;
      && Linked(s.m, chain) && |chain| >= Sum(s.threads, Reserved)
      && s.m.size == |chain| - Sum(s.threads, Uncounted) - Sum(s.threads, Reserved) - Sum(s.threads, Failing)
  {
    hide SpecRun, Abs, Init, Run;
    var states, owed;
    states, chain, owed := RunRefines(first, moves);
  }

  /** In every run, the size test of a Pop fails exactly when there are no more linked nodes than
      pushes not yet counted, reserved pops and failed pops under way. */
  lemma PopFailsIff(first: State, moves: seq<Move>, t: nat) returns (chain: seq<Ptr>)
    requires Init(first) && Run(first, moves).Some? && Enabled(Run(first, moves).value, t, CallPop)
    requires Run(first, moves).value.threads[t] == Idle
    ensures var s := Run(first, moves).value;
      && Linked(s.m, chain)
      && (Next(s, t, CallPop).0.threads[t] == PopUndo <==>
          |chain| <= Sum(s.threads, Uncounted) + Sum(s.threads, Reserved) + Sum(s.threads, Failing))
  {
    chain := ReservationsAreBacked(first, moves);
  }

  /** So with no other call under way a Pop fails exactly when the stack is empty. */
  lemma QuietPopFailsIff(first: State, moves: seq<Move>, t: nat) returns (chain: seq<Ptr>)
    requires Init(first) && Run(first, moves).Some? && Enabled(Run(first, moves).value, t, CallPop)
    requires forall u :: 0 <= u < |Run(first, moves).value.threads| ==> Run(first, moves).value.threads[u] == Idle
    ensures var s := Run(first, moves).value;
      && Linked(s.m, chain)
      && (Next(s, t, CallPop).0.threads[t] == PopUndo <==> Contents(s.m, chain) == [])
  {
    chain := PopFailsIff(first, moves, t);
    var threads := Run(first, moves).value.threads;
    SumZero(threads, Uncounted);
    SumZero(threads, Reserved);
    SumZero(threads, Failing);
  }

  /** In every run a Pop that has passed the size test finds a top that is linked and not free. */
  lemma ReservedPopSeesATop(first: State, moves: seq<Move>, t: nat)
    requires Init(first) && Run(first, moves).Some?
    requires var s := Run(first, moves).value; t < |s.threads| && Reserved(s.threads[t]) == 1
    ensures var s := Run(first, moves).value; Known(s.m, s.m.top) && s.m.top !in s.m.free
  {
    hide SpecRun, Abs, Init, Run;
    var states, chain, owed := RunRefines(first, moves);
    TopIsLinked(Run(first, moves).value, chain, owed, t);
    assert LinkAt(Run(first, moves).value.m, chain, 0);
  }

  /** In every run, if the counter is still the one a Pop has read, then the pointer it read
      after that is still linked, and the next it read from there is still that node's next,
      whatever was pushed, popped and recycled in between. */
  lemma StaleTopIsStillValid(first: State, moves: seq<Move>, t: nat) returns (chain: seq<Ptr>)
    requires Init(first) && Run(first, moves).Some?
    requires var s := Run(first, moves).value;
      t < |s.threads| && s.threads[t].PopCas? && s.threads[t].c == s.m.counter
    ensures var s := Run(first, moves).value; var pc := s.threads[t];
      && Linked(s.m, chain) && pc.p in chain && pc.p in s.m.next && s.m.next[pc.p] == pc.next
  {
    hide SpecRun, Abs, Init, Run;
    var states, owed;
    states, chain, owed := RunRefines(first, moves);
    assert LocalOk(Run(first, moves).value.m, chain, Run(first, moves).value.threads[t], owed[t]);
  }

  /** In every run no thread is about to read through a null or unallocated pointer. */
  lemma NeverStuck(first: State, moves: seq<Move>, t: nat)
    requires Init(first) && Run(first, moves).Some?
    requires var s := Run(first, moves).value; t < |s.threads| && s.threads[t] != Idle
    ensures Enabled(Run(first, moves).value, t, Go)
  {
    hide SpecRun, Abs, Init, Run;
    var states, chain, owed := RunRefines(first, moves);
    assert LocalOk(Run(first, moves).value.m, chain, Run(first, moves).value.threads[t], owed[t]);
  }

  // How often a trace pushes, or returns, the value v.
  function TimesPushed(trace: seq<Event>, v: int): nat {
    if trace == [] then 0
    else TimesPushed(trace[..|trace| - 1], v) + (if trace[|trace| - 1] == Pushed(v) then 1 else 0)
  }

  function TimesReturned(trace: seq<Event>, v: int): nat {
    if trace == [] then 0
    else TimesReturned(trace[..|trace| - 1], v) + (if trace[|trace| - 1] == Returned(v) then 1 else 0)
  }

  function TimesOwed(owed: seq<Option<int>>, v: int): nat {
    if owed == [] then 0 else TimesOwed(owed[1..], v) + (if owed[0] == Some(v) then 1 else 0)
  }

  lemma {:induction false} OwedUpdate(owed: seq<Option<int>>, t: nat, x: Option<int>, v: int)
    requires t < |owed|
    ensures TimesOwed(owed[t := x], v) + (if owed[t] == Some(v) then 1 else 0)
         == TimesOwed(owed, v) + (if x == Some(v) then 1 else 0)
  {
    var u := owed[t := x];
    if t == 0 {
      assert u[1..] == owed[1..];
    } else {
      OwedUpdate(owed[1..], t - 1, x, v);
      assert u[1..] == owed[1..][t - 1 := x];
    }
  }

  lemma {:induction false} OwedNothing(n: nat, v: int)
    ensures TimesOwed(seq(n, _ => None), v) == 0
  {
    if n > 0 {
      OwedNothing(n - 1, v);
      assert seq<Option<int>>(n, _ => None)[1..] == seq<Option<int>>(n - 1, _ => None);
    }
  }

  lemma SpecStepConserves(a: Spec, t: nat, e: Event, b: Spec, v: int)
    requires SpecStep(a, t, e, b)
    ensures (if e == Pushed(v) then 1 else 0) + TimesOwed(a.owed, v) + multiset(a.stack)[v]
         == (if e == Returned(v) then 1 else 0) + TimesOwed(b.owed, v) + multiset(b.stack)[v]
  {
    match e
    case Pushed(x) => assert multiset([x] + a.stack) == multiset([x]) + multiset(a.stack);
    case Popped(x) =>
      OwedUpdate(a.owed, t, Some(x), v);
      assert a.stack == [x] + b.stack;
      assert multiset([x] + b.stack) == multiset([x]) + multiset(b.stack);
    case Returned(x) => OwedUpdate(a.owed, t, None, v);
    case _ =>
  }

  /** In the specification nothing is lost and nothing is duplicated. */
  lemma {:induction false} SpecConserves(a: Spec, moves: seq<Move>, trace: seq<Event>, states: seq<Spec>, v: int)
    requires SpecRun(a, moves, trace, states) && a.stack == [] && TimesOwed(a.owed, v) == 0
    ensures var b := states[|trace|];
      TimesPushed(trace, v) == TimesReturned(trace, v) + TimesOwed(b.owed, v) + multiset(b.stack)[v]
    decreases |trace|
  {
    if trace != [] {
      var n := |trace| - 1;
      forall i: nat | i < n
        ensures SpecStep(states[..n + 1][i], moves[..n][i].t, trace[..n][i], states[..n + 1][i + 1])
      {
      }
      SpecConserves(a, moves[..n], trace[..n], states[..n + 1], v);
      SpecStepConserves(states[n], moves[n].t, trace[n], states[n + 1], v);
    }
  }

  /** In every run each value has been pushed as often as it has been returned, taken by a
      pop still under way, or is still linked: none lost, none twice. */
  lemma NothingLostOrDuplicated(s: State, moves: seq<Move>)
      returns (chain: seq<Ptr>, owed: seq<Option<int>>)
    requires Init(s) && Run(s, moves).Some?
    ensures Inv(Run(s, moves).value, chain, owed)
    ensures forall v :: TimesPushed(Trace(s, moves), v) == TimesReturned(Trace(s, moves), v)
              + TimesOwed(owed, v) + multiset(Contents(Run(s, moves).value.m, chain))[v]
  {
    hide Inv, SpecRun;
    var states;
    states, chain, owed := RunRefines(s, moves);
    forall v ensures TimesPushed(Trace(s, moves), v) == TimesReturned(Trace(s, moves), v)
              + TimesOwed(owed, v) + multiset(Contents(Run(s, moves).value.m, chain))[v] {
      OwedNothing(|s.threads|, v);
      SpecConserves(Spec([], seq(|s.threads|, _ => None)), moves, Trace(s, moves), states, v);
    }
  }
}
