/** What the two ring buffers have in common: a circular array of n slots read from a
    start slot, and block copies. */
module ByteRing {
  import opened Basics

  // Slot x of a circular array of n slots, for x below 2n.
  function Wrap(x: int, n: int): int {
    if x >= n then x - n else x
  }

  lemma WrapIsMod(x: int, n: int)
    requires 0 <= x < 2 * n
    ensures x % n == Wrap(x, n)
  {
    if x >= n {
      assert x == n + (x - n);
      assert (x - n) % n == x - n;
      assert x % n == (x - n) % n by {
        assert x / n == 1;
      }
    }
  }

  /** The `len` bytes met going round from slot `from`. */
  function Round(b: seq<Byte>, from: int, len: nat): (s: seq<Byte>)
    requires |b| > 0 && 0 <= from <= |b| && len <= |b|
    ensures |s| == len
    ensures forall i :: 0 <= i < len ==> s[i] == b[Wrap(from + i, |b|)]
  {
    seq(len, i requires 0 <= i < len => b[Wrap(from + i, |b|)])
  }

  /** Bytes between front and rear; one slot always stays empty. */
  function Used(front: int, rear: int, capacity: int): int {
    if rear >= front then rear - front else capacity + 1 - (front - rear)
  }

  /** Moving the rear takes the bytes behind it into the queue. */
  lemma RoundGrows(b: seq<Byte>, front: int, use: nat, rear: int, n: nat)
    requires |b| > 0 && 0 <= front <= |b| && 0 <= rear <= |b| && use + n <= |b|
    requires Wrap(rear, |b|) == Wrap(front + use, |b|)
    ensures Round(b, front, use + n) == Round(b, front, use) + Round(b, rear, n)
  {
  }

  /** Moving the front drops bytes from the queue. */
  lemma RoundShrinks(b: seq<Byte>, front: int, use: nat, n: nat, front': int)
    requires |b| > 0 && 0 <= front <= |b| && 0 <= front' <= |b| && n <= use <= |b|
    requires Wrap(front', |b|) == Wrap(front + n, |b|)
    ensures Round(b, front', use - n) == Round(b, front, use)[n..]
  {
  }

  method Memcpy(dst: array<Byte>, at: nat, src: seq<Byte>, from: nat, n: nat)
    requires at + n <= dst.Length && from + n <= |src|
    modifies dst
    ensures forall k :: at <= k < at + n ==> dst[k] == src[from + k - at]
    ensures forall k :: 0 <= k < dst.Length && (k < at || k >= at + n) ==> dst[k] == old(dst[k])
  {
    for i := 0 to n
      invariant forall k :: at <= k < at + i ==> dst[k] == src[from + k - at]
      invariant forall k :: 0 <= k < dst.Length && (k < at || k >= at + i) ==> dst[k] == old(dst[k])
    {
      dst[at + i] := src[from + i];
    }
  }

  /** How much of a request of iSize bytes is granted when `available` are there: all of it or
      all there is, and nothing for a request that is not positive. */
  function Granted(iSize: int, available: nat): (n: nat)
    ensures n <= available && (iSize <= 0 ==> n == 0)
    ensures iSize > 0 ==> n <= iSize && (n == iSize || n == available)
  {
    if iSize <= 0 then 0 else if iSize > available then available else iSize
  }
}
