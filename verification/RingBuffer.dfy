/** The server's ring buffer: both indices stay below capacity + 1 by modular arithmetic. */
module ServerRing {
  import opened Basics
  import opened ByteRing

  class RingBuffer {
    var mFront: int
    var mRear: int
    var mBuffer: array<Byte>
    var mCapacity: int

    ghost predicate Valid()
      reads this, mBuffer
    {
      && mCapacity >= 0 && mBuffer.Length == mCapacity + 1
      && 0 <= mFront <= mCapacity && 0 <= mRear <= mCapacity
    }

    ghost function UseSize(): (n: int)
      requires Valid()
      reads this, mBuffer
      ensures 0 <= n <= mCapacity
    {
      Used(mFront, mRear, mCapacity)
    }

    ghost function FreeSize(): (n: int)
      requires Valid()
      reads this, mBuffer
      ensures 0 <= n <= mCapacity
    {
      mCapacity - UseSize()
    }

    /** The byte queue that the buffer stands for. */
    ghost function Contents(): (s: seq<Byte>)
      requires Valid()
      reads this, mBuffer
      ensures |s| == UseSize()
    {
      Round(mBuffer[..], mFront, UseSize())
    }

    /** The n bytes lying in the free slots after the rear, written there from outside. */
    ghost function Ahead(n: nat): (s: seq<Byte>)
      requires Valid() && n <= FreeSize()
      reads this, mBuffer
      ensures |s| == n
    {
      Round(mBuffer[..], mRear, n)
    }

    constructor (iBufferSize: int)
      requires iBufferSize >= 0
      ensures Valid() && mCapacity == iBufferSize && Contents() == [] && fresh(mBuffer)
    {
      mFront, mRear, mCapacity := 0, 0, iBufferSize;
      mBuffer := new Byte[iBufferSize + 1](_ => 0);
    }

    /** A larger capacity keeps the queued bytes; a smaller one is ignored. */
    method Resize(size: int)
      requires Valid()
      modifies this
      ensures Valid() && Contents() == old(Contents())
      ensures mCapacity == if size <= old(mCapacity) then old(mCapacity) else size
      ensures mBuffer == old(mBuffer) || fresh(mBuffer)
    {
      if size <= mCapacity {
        return;
      }
      ghost var contents := Contents();
      var temp := new Byte[size + 1](_ => 0);
      if mRear >= mFront {
        Memcpy(temp, 0, mBuffer[..], 0, mCapacity + 1);
        mBuffer := temp;
        mCapacity := size;
      } else {
        // the queue wraps, so this copies the end of the array and then its start
        var useSize := GetUseSize();
        CopyFront(temp, useSize);
        assert temp[..useSize] == contents;
        mBuffer := temp;
        mFront := 0;
        mRear := useSize;
        mCapacity := size;
      }
      assert Contents() == contents;
    }

    method GetUseSize() returns (n: int)
      requires Valid()
      ensures n == UseSize() == |Contents()|
    {
      var rear := mRear;
      if rear >= mFront {
        n := rear - mFront;
      } else {
        n := mCapacity - (mFront - rear - 1);
      }
    }

    method GetFreeSize() returns (n: int)
      requires Valid()
      ensures n == FreeSize() == mCapacity - |Contents()|
    {
      var use := GetUseSize();
      n := mCapacity - use;
    }

    /** Free bytes that lie in one piece after the rear. */
    method DirectEnqueueSize() returns (n: int)
      requires Valid()
      ensures n == Min(FreeSize(), mCapacity + 1 - mRear)
    {
      if mRear < mFront {
        return mFront - mRear - 1;
      }
      if mFront == 0 {
        return mCapacity - mRear;
      } else {
        return mCapacity - mRear + 1;
      }
    }

    /** Queued bytes that lie in one piece after the front. */
    method DirectDequeueSize() returns (n: int)
      requires Valid()
      ensures n == Min(UseSize(), mCapacity + 1 - mFront)
    {
      if mRear >= mFront {
        return mRear - mFront;
      }
      return mCapacity - mFront + 1;
    }

    /** Copies n bytes behind the rear, `first` of them up to the end of the array and the
        rest from its start; the queue does not change before the rear moves. */
    method CopyIn(chpData: seq<Byte>, n: nat, first: nat)
      requires Valid() && n <= |chpData| && n <= FreeSize()
      requires first <= n && first <= mCapacity + 1 - mRear
      requires first == n || first == mCapacity + 1 - mRear
      modifies mBuffer
      ensures Contents() == old(Contents()) && Ahead(n) == chpData[..n]
    {
      ghost var contents := Contents();
      Memcpy(mBuffer, mRear, chpData, 0, first);
      Memcpy(mBuffer, 0, chpData, first, n - first);
      assert Contents() == contents;
      assert Ahead(n) == chpData[..n];
    }

    /** Puts the rear n slots on, which takes the bytes it passes into the queue. */
    method SetRear(n: nat, rear: int)
      requires Valid() && n <= FreeSize() && 0 <= rear <= mCapacity
      requires Used(mFront, rear, mCapacity) == UseSize() + n
      modifies this`mRear
      ensures Valid() && mRear == rear && Contents() == old(Contents()) + old(Ahead(n))
    {
      RoundGrows(mBuffer[..], mFront, UseSize(), mRear, n);
      mRear := rear;
    }

    /** Puts the front n slots on, which drops the bytes it passes from the queue. */
    method SetFront(n: nat, front: int)
      requires Valid() && n <= UseSize() && 0 <= front <= mCapacity
      requires Used(front, mRear, mCapacity) == UseSize() - n
      modifies this`mFront
      ensures Valid() && mFront == front && Contents() == old(Contents())[n..]
    {
      RoundShrinks(mBuffer[..], mFront, UseSize(), n, front);
      mFront := front;
    }

    /** Appends as many of the bytes as fit and says how many. */
    method Enqueue(chpData: seq<Byte>, iSize: int) returns (n: int)
      requires Valid() && iSize <= |chpData|
      modifies this`mRear, mBuffer
      ensures Valid() && n == Granted(iSize, old(FreeSize()))
      ensures Contents() == old(Contents()) + chpData[..n]
    {
      hide Contents, Ahead, Round;
      if iSize <= 0 {
        return 0;
      }
      var size := iSize;
      var curFront := mFront;
      var freeSize := 0;
      if mRear >= curFront {
        freeSize := mCapacity - (mRear - curFront);
      } else {
        freeSize := curFront - mRear - 1;
      }
      if size > freeSize {
        size := freeSize;
      }
      if mRear + size > mCapacity + 1 {
        var possibleToEnd := mCapacity - mRear + 1;
        CopyIn(chpData, size, possibleToEnd);
      } else {
        CopyIn(chpData, size, size);
      }
      WrapIsMod(mRear + size, mCapacity + 1);
      SetRear(size, (mRear + size) % (mCapacity + 1));
      return size;
    }

    /** Copies out the first n queued bytes. */
    method CopyFront(chpDest: array<Byte>, n: nat)
      requires Valid() && chpDest != mBuffer && n <= |Contents()| && n <= chpDest.Length
      modifies chpDest
      ensures chpDest[..n] == Contents()[..n] && chpDest[n..] == old(chpDest[n..])
    {
      if mFront + n >= mCapacity + 1 {
        var possibleToEnd := mCapacity + 1 - mFront;
        Memcpy(chpDest, 0, mBuffer[..], mFront, possibleToEnd);
        Memcpy(chpDest, possibleToEnd, mBuffer[..], 0, n - possibleToEnd);
      } else {
        Memcpy(chpDest, 0, mBuffer[..], mFront, n);
      }
      assert chpDest[..n] == Contents()[..n];
      assert chpDest[n..] == old(chpDest[n..]);
    }

    /** Takes out as many bytes as asked for and available, oldest first. */
    method Dequeue(chpDest: array<Byte>, iSize: int) returns (n: int)
      requires Valid() && chpDest != mBuffer && Granted(iSize, UseSize()) <= chpDest.Length
      modifies this`mFront, chpDest
      ensures Valid() && n == Granted(iSize, old(UseSize()))
      ensures chpDest[..n] == old(Contents())[..n] && chpDest[n..] == old(chpDest[n..])
      ensures Contents() == old(Contents())[n..]
    {
      hide Contents, Ahead, Round;
      if iSize <= 0 {
        return 0;
      }
      var size := iSize;
      var useSize;
      var curRear := mRear;
      if curRear >= mFront {
        useSize := curRear - mFront;
      } else {
        useSize := mCapacity - (mFront - curRear - 1);
      }
      if size > useSize {
        size := useSize;
      }
      CopyFront(chpDest, size);
      WrapIsMod(mFront + size, mCapacity + 1);
      SetFront(size, (mFront + size) % (mCapacity + 1));
      return size;
    }

    /** Like Dequeue, but the bytes stay queued. */
    method Peek(chpDest: array<Byte>, iSize: int) returns (n: int)
      requires Valid() && chpDest != mBuffer && Granted(iSize, UseSize()) <= chpDest.Length
      modifies chpDest
      ensures n == Granted(iSize, UseSize())
      ensures chpDest[..n] == Contents()[..n] && chpDest[n..] == old(chpDest[n..])
      ensures Contents() == old(Contents())
    {
      if iSize <= 0 {
        return 0;
      }
      var useSize;
      var curRear := mRear;
      if curRear >= mFront {
        useSize := curRear - mFront;
      } else {
        useSize := mCapacity - (mFront - curRear - 1);
      }
      var size := if iSize > useSize then useSize else iSize;
      CopyFront(chpDest, size);
      return size;
    }

    /** Takes over bytes that were written behind the rear from outside. */
    method MoveRear(iSize: int) returns (ok: bool)
      requires Valid()
      modifies this`mRear
      ensures Valid() && ok == (0 < iSize <= old(FreeSize()))
      ensures Contents() == if ok then old(Contents()) + old(Ahead(iSize)) else old(Contents())
    {
      var free := GetFreeSize();
      if iSize > free || iSize <= 0 {
        return false;
      }
      WrapIsMod(mRear + iSize, mCapacity + 1);
      SetRear(iSize, (mRear + iSize) % (mCapacity + 1));
      return true;
    }

    /** Drops bytes from the front. */
    method MoveFront(iSize: int) returns (ok: bool)
      requires Valid()
      modifies this`mFront
      ensures Valid() && ok == (0 < iSize <= old(UseSize()))
      ensures Contents() == if ok then old(Contents())[iSize..] else old(Contents())
    {
      var use := GetUseSize();
      if iSize > use || iSize <= 0 {
        return false;
      }
      WrapIsMod(mFront + iSize, mCapacity + 1);
      SetFront(iSize, (mFront + iSize) % (mCapacity + 1));
      return true;
    }

    method ClearBuffer()
      requires Valid()
      modifies this`mFront
      ensures Valid() && Contents() == []
    {
      mFront := mRear;
    }
  }
}
