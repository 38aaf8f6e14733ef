/** The painting program's ring buffer. Its indices are advanced by branches and may come to
    rest at capacity + 1, one past the last slot, which then stands for slot 0. It keeps the
    same contracts as the server's ring buffer. */
module PaintRing {
  import opened Basics
  import opened ByteRing

  class RingBuffer {
    var mFront: int
    var mRear: int
    var mBuffer: array<Byte>
    var mCapacity: int

    ghost predicate Valid()
      reads this, mBuffer
    {
      && mCapacity >= 0 && mBuffer.Length == mCapacity + 1
      && 0 <= mFront <= mCapacity + 1 && 0 <= mRear <= mCapacity + 1
      && Used(mFront, mRear, mCapacity) <= mCapacity
    }

    ghost function UseSize(): (n: int)
      requires Valid()
      reads this, mBuffer
      ensures 0 <= n <= mCapacity
    {
      Used(mFront, mRear, mCapacity)
    }

    ghost function FreeSize(): (n: int)
      requires Valid()
      reads this, mBuffer
      ensures 0 <= n <= mCapacity
    {
      mCapacity - UseSize()
    }

    /** The byte queue that the buffer stands for. */
    ghost function Contents(): (s: seq<Byte>)
      requires Valid()
      reads this, mBuffer
      ensures |s| == UseSize()
    {
      Round(mBuffer[..], mFront, UseSize())
    }

    /** The n bytes lying in the free slots after the rear, written there from outside. */
    ghost function Ahead(n: nat): (s: seq<Byte>)
      requires Valid() && n <= FreeSize()
      reads this, mBuffer
      ensures |s| == n
    {
      Round(mBuffer[..], mRear, n)
    }

    constructor (iBufferSize: int)
      requires iBufferSize >= 0
      ensures Valid() && mCapacity == iBufferSize && Contents() == [] && fresh(mBuffer)
    {
      mFront, mRear, mCapacity := 0, 0, iBufferSize;
      mBuffer := new Byte[iBufferSize + 1];
    }

    /** A larger capacity keeps the queued bytes; a smaller one is ignored. */
    method Resize(size: int)
      requires Valid()
      modifies this
      ensures Valid() && Contents() == old(Contents())
      ensures mCapacity == if size <= old(mCapacity) then old(mCapacity) else size
      ensures mBuffer == old(mBuffer) || fresh(mBuffer)
    {
      if size <= mCapacity {
        return;
      }
      ghost var contents := Contents();
      var temp := new Byte[size + 1];
      if mRear >= mFront {
        Memcpy(temp, 0, mBuffer[..], 0, mCapacity + 1);
        mBuffer := temp;
        mCapacity := size;
      } else {
        var poss := DirectDequeueSize();
        var useSize := GetUseSize();
        CopyOut(temp, useSize, poss);
        assert temp[..useSize] == contents;
        mBuffer := temp;
        mFront := 0;
        mRear := useSize;
        mCapacity := size;
      }
      assert Contents() == contents;
    }

    method GetUseSize() returns (n: int)
      requires Valid()
      ensures n == UseSize() == |Contents()|
    {
      if mRear >= mFront {
        n := mRear - mFront;
      } else {
        n := mCapacity - (mFront - mRear) + 1;
      }
    }

    method GetFreeSize() returns (n: int)
      requires Valid()
      ensures n == FreeSize() == mCapacity - |Contents()|
    {
      var use := GetUseSize();
      n := mCapacity - use;
    }

    /** Free bytes that lie in one piece after the rear; none when the rear rests one past
        the last slot. */
    method DirectEnqueueSize() returns (n: int)
      requires Valid()
      ensures n == Min(FreeSize(), mCapacity + 1 - mRear)
    {
      if mRear < mFront {
        return mFront - mRear - 1;
      }
      if mFront == 0 {
        return mCapacity - mRear;
      } else {
        return mCapacity - mRear + 1;
      }
    }

    /** Queued bytes that lie in one piece after the front. */
    method DirectDequeueSize() returns (n: int)
      requires Valid()
      ensures n == Min(UseSize(), mCapacity + 1 - mFront)
    {
      if mRear >= mFront {
        return mRear - mFront;
      }
      return mCapacity - mFront + 1;
    }

    /** Copies n bytes behind the rear, `first` of them up to the end of the array and the
        rest from its start; the queue does not change before the rear moves. */
    method CopyIn(chpData: seq<Byte>, n: nat, first: nat)
      requires Valid() && n <= |chpData| && n <= FreeSize()
      requires first <= n && first <= mCapacity + 1 - mRear
      requires first == n || first == mCapacity + 1 - mRear
      modifies mBuffer
      ensures Contents() == old(Contents()) && Ahead(n) == chpData[..n]
    {
      ghost var contents := Contents();
      Memcpy(mBuffer, mRear, chpData, 0, first);
      Memcpy(mBuffer, 0, chpData, first, n - first);
      assert Contents() == contents;
      assert Ahead(n) == chpData[..n];
    }

    /** Puts the rear n slots on, which takes the bytes it passes into the queue. */
    method SetRear(n: nat, rear: int)
      requires Valid() && n <= FreeSize() && 0 <= rear <= mCapacity + 1
      requires Used(mFront, rear, mCapacity) == UseSize() + n
      modifies this`mRear
      ensures Valid() && mRear == rear && Contents() == old(Contents()) + old(Ahead(n))
    {
      RoundGrows(mBuffer[..], mFront, UseSize(), mRear, n);
      mRear := rear;
    }

    /** Puts the front n slots on, which drops the bytes it passes from the queue. */
    method SetFront(n: nat, front: int)
      requires Valid() && n <= UseSize() && 0 <= front <= mCapacity + 1
      requires Used(front, mRear, mCapacity) == UseSize() - n
      modifies this`mFront
      ensures Valid() && mFront == front && Contents() == old(Contents())[n..]
    {
      RoundShrinks(mBuffer[..], mFront, UseSize(), n, front);
      mFront := front;
    }

    /** Appends as many of the bytes as fit and says how many. */
    method Enqueue(chpData: seq<Byte>, iSize: int) returns (n: int)
      requires Valid() && iSize <= |chpData|
      modifies this`mRear, mBuffer
      ensures Valid() && n == Granted(iSize, old(FreeSize()))
      ensures Contents() == old(Contents()) + chpData[..n]
      decreases iSize
    {
      hide Contents, Ahead, Round;
      if iSize <= 0 {
        return 0;
      }
      var free := GetFreeSize();
      if iSize > free {
        n := Enqueue(chpData, free);
        return;
      }
      if mRear >= mFront {
        var possibleToEnd := DirectEnqueueSize();
        if iSize <= possibleToEnd {
          CopyIn(chpData, iSize, iSize);
          SetRear(iSize, mRear + iSize);
          return iSize;
        }
        var remain := iSize - possibleToEnd;
        CopyIn(chpData, iSize, possibleToEnd);
        SetRear(iSize, remain);
        return iSize;
      }
      CopyIn(chpData, iSize, iSize);
      SetRear(iSize, mRear + iSize);
      return iSize;
    }

    /** Takes out as many bytes as asked for and available, oldest first. */
    method Dequeue(chpDest: array<Byte>, iSize: int) returns (n: int)
      requires Valid() && chpDest != mBuffer && Granted(iSize, UseSize()) <= chpDest.Length
      modifies this`mFront, chpDest
      ensures Valid() && n == Granted(iSize, old(UseSize()))
      ensures chpDest[..n] == old(Contents())[..n] && chpDest[n..] == old(chpDest[n..])
      ensures Contents() == old(Contents())[n..]
      decreases iSize
    {
      hide Contents, Ahead, Round;
      if iSize <= 0 {
        return 0;
      }
      var use := GetUseSize();
      if iSize > use {
        n := Dequeue(chpDest, use);
        return;
      }
      if mFront > mRear {
        var possibleToEnd := DirectDequeueSize();
        if iSize <= possibleToEnd {
          CopyOut(chpDest, iSize, iSize);
          SetFront(iSize, mFront + iSize);
          return iSize;
        }
        var remain := iSize - possibleToEnd;
        CopyOut(chpDest, iSize, possibleToEnd);
        SetFront(iSize, remain);
        return iSize;
      }
      CopyOut(chpDest, iSize, iSize);
      SetFront(iSize, mFront + iSize);
      return iSize;
    }

    /** Copies the first n queued bytes, `first` of them up to the end of the array and the
        rest from its start. */
    method CopyOut(chpDest: array<Byte>, n: nat, first: nat)
      requires Valid() && chpDest != mBuffer && n <= UseSize() && n <= chpDest.Length
      requires first <= n && first <= mCapacity + 1 - mFront
      requires first == n || first == mCapacity + 1 - mFront
      modifies chpDest
      ensures chpDest[..n] == Contents()[..n] && chpDest[n..] == old(chpDest[n..])
    {
      Memcpy(chpDest, 0, mBuffer[..], mFront, first);
      Memcpy(chpDest, first, mBuffer[..], 0, n - first);
      assert chpDest[..n] == Contents()[..n];
      assert chpDest[n..] == old(chpDest[n..]);
    }

    /** Like Dequeue, but the bytes stay queued. */
    method Peek(chpDest: array<Byte>, iSize: int) returns (n: int)
      requires Valid() && chpDest != mBuffer && Granted(iSize, UseSize()) <= chpDest.Length
      modifies chpDest
      ensures n == Granted(iSize, UseSize())
      ensures chpDest[..n] == Contents()[..n] && chpDest[n..] == old(chpDest[n..])
      ensures Contents() == old(Contents())
      decreases iSize
    {
      if iSize <= 0 {
        return 0;
      }
      var use := GetUseSize();
      if iSize > use {
        n := Peek(chpDest, use);
        return;
      }
      if mFront > mRear {
        var possibleToEnd := DirectDequeueSize();
        if iSize <= possibleToEnd {
          CopyOut(chpDest, iSize, iSize);
          return iSize;
        }
        CopyOut(chpDest, iSize, possibleToEnd);
        return iSize;
      }
      CopyOut(chpDest, iSize, iSize);
      return iSize;
    }

    /** Takes over bytes that were written behind the rear from outside. */
    method MoveRear(iSize: int) returns (ok: bool)
      requires Valid()
      modifies this`mRear
      ensures Valid() && ok == (0 < iSize <= old(FreeSize()))
      ensures Contents() == if ok then old(Contents()) + old(Ahead(iSize)) else old(Contents())
    {
      hide Contents, Ahead, Round;
      var free := GetFreeSize();
      if iSize > free || iSize <= 0 {
        return false;
      }
      if mRear >= mFront {
        var possibleToEnd := DirectEnqueueSize();
        if iSize <= possibleToEnd {
          SetRear(iSize, mRear + iSize);
        } else {
          SetRear(iSize, iSize - possibleToEnd);
        }
      } else {
        SetRear(iSize, mRear + iSize);
      }
      return true;
    }

    /** Drops bytes from the front. */
    method MoveFront(iSize: int) returns (ok: bool)
      requires Valid()
      modifies this`mFront
      ensures Valid() && ok == (0 < iSize <= old(UseSize()))
      ensures Contents() == if ok then old(Contents())[iSize..] else old(Contents())
    {
      hide Contents, Ahead, Round;
      var use := GetUseSize();
      if iSize > use || iSize <= 0 {
        return false;
      }
      if mFront > mRear {
        var possibleToEnd := DirectDequeueSize();
        if iSize <= possibleToEnd {
          SetFront(iSize, mFront + iSize);
        } else {
          SetFront(iSize, iSize - possibleToEnd);
        }
      } else {
        SetFront(iSize, mFront + iSize);
      }
      return true;
    }

    method ClearBuffer()
      requires Valid()
      modifies this`mFront
      ensures Valid() && Contents() == []
    {
      mFront := mRear;
    }
  }
}
