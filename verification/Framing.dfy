/** How the client cuts the received byte stream into packets: each is two length bytes,
    low byte first, and then the payload. */
module Framing {
  import opened Basics
  import opened ByteRing
  import ServerRing

  const MAX_PAYLOAD := 400 // CLanPacket::eBUFFER_DEFAULT

  // The length that two header bytes stand for.
  function Length(header: seq<Byte>): (n: nat)
    requires |header| >= 2
    ensures n < 0x1_0000
  {
    header[0] as nat + 0x100 * header[1] as nat
  }

  function Frame(payload: seq<Byte>): (s: seq<Byte>)
    requires |payload| <= MAX_PAYLOAD
    ensures |s| == 2 + |payload| && Length(s) == |payload| && s[2..] == payload
  {
    [(|payload| % 0x100) as Byte, (|payload| / 0x100) as Byte] + payload
  }

  ghost predicate AllFit(payloads: seq<seq<Byte>>) {
    forall p :: p in payloads ==> |p| <= 400
  }

  /** What a sender of these payloads puts on the wire. */
  ghost function Wire(payloads: seq<seq<Byte>>): seq<Byte>
    requires AllFit(payloads)
  {
    if payloads == [] then [] else Frame(payloads[0]) + Wire(payloads[1..])
  }

  lemma FrameFromHeader(s: seq<Byte>)
    requires |s| >= 2 && Length(s) <= MAX_PAYLOAD && |s| == 2 + Length(s)
    ensures s == Frame(s[2..])
  {
    var f := Frame(s[2..]);
    assert s[0] as int == |s[2..]| % 0x100 && s[1] as int == |s[2..]| / 0x100;
    assert s == f;
  }

  lemma {:induction false} WireOfBoth(ps: seq<seq<Byte>>, ps': seq<seq<Byte>>)
    requires AllFit(ps) && AllFit(ps')
    ensures AllFit(ps + ps') && Wire(ps + ps') == Wire(ps) + Wire(ps')
  {
    if ps == [] {
      assert ps + ps' == ps';
    } else {
      WireOfBoth(ps[1..], ps');
      assert (ps + ps')[1..] == ps[1..] + ps';
      Regroup(Frame(ps[0]), Wire(ps[1..]), Wire(ps'));
      hide Frame, Length;
    }
  }

  lemma FrameHead(p: seq<Byte>, p': seq<Byte>, s: seq<Byte>, s': seq<Byte>)
    requires |p| <= MAX_PAYLOAD && |p'| <= MAX_PAYLOAD && Frame(p) + s == Frame(p') + s'
    ensures p == p' && s == s'
  {
    var w, w' := Frame(p) + s, Frame(p') + s';
    assert w[..2] == Frame(p)[..2] && w'[..2] == Frame(p')[..2];
    assert |p| == Length(w[..2]) == |p'|;
    assert w[..2 + |p|] == Frame(p) && w'[..2 + |p|] == Frame(p');
    assert w[2 + |p|..] == s && w'[2 + |p|..] == s';
  }

  /** Frames parse in one way only: two readings of the same bytes agree as far as both go. */
  lemma {:induction false} ParsesAgree(ds: seq<seq<Byte>>, rest: seq<Byte>, fs: seq<seq<Byte>>, left: seq<Byte>)
    requires AllFit(ds) && AllFit(fs) && Wire(ds) + rest == Wire(fs) + left
    ensures |ds| <= |fs| ==> ds <= fs && rest == Wire(fs[|ds|..]) + left
    ensures |fs| <= |ds| ==> fs <= ds && left == Wire(ds[|fs|..]) + rest
  {
    if ds == [] || fs == [] {
      assert ds[0..] == ds && fs[0..] == fs;
      assert Wire([]) + rest == rest && Wire([]) + left == left;
    } else {
      Regroup(Frame(ds[0]), Wire(ds[1..]), rest);
      Regroup(Frame(fs[0]), Wire(fs[1..]), left);
      hide Frame;
      FrameHead(ds[0], fs[0], Wire(ds[1..]) + rest, Wire(fs[1..]) + left);
      ParsesAgree(ds[1..], rest, fs[1..], left);
      assert |ds| <= |fs| ==> fs[1..][|ds[1..]|..] == fs[|ds|..];
      assert |fs| <= |ds| ==> ds[1..][|fs[1..]|..] == ds[|fs|..];
    }
  }

  /** The bytes start with a whole frame that fits. */
  predicate StartsFrame(b: seq<Byte>) {
    |b| >= 2 && Length(b) <= MAX_PAYLOAD && |b| >= 2 + Length(b)
  }

  predicate TooLong(b: seq<Byte>) {
    |b| >= 2 && Length(b) > 400
  }

  /** What one call does with the bytes q queued when it starts to cut. */
  ghost predicate Outcome(q: seq<Byte>, transferred: int, delivered: seq<seq<Byte>>, rest: seq<Byte>, status: bool) {
    && AllFit(delivered) && q == Wire(delivered) + rest
    // it went on while fewer bytes than just received had been cut off,
    && (delivered != [] ==> |Wire(delivered[..|delivered| - 1])| < transferred)
    // and a frame that is only a header was taken only with a byte behind it
    && (delivered != [] && delivered[|delivered| - 1] == [] ==> rest != [])
    && if status then
         |Wire(delivered)| >= transferred || |rest| == 2 || (!StartsFrame(rest) && !TooLong(rest))
       else
         |Wire(delivered)| < transferred && |rest| > 2 && TooLong(rest)
  }

  method PeekLength(recvQ: ServerRing.RingBuffer) returns (len: nat)
    requires recvQ.Valid() && |recvQ.Contents()| >= 2
    ensures len == Length(recvQ.Contents())
  {
    var header := new Byte[2];
    var n := recvQ.Peek(header, 2);
    assert header[..2] == recvQ.Contents()[..2];
    assert header[0] == recvQ.Contents()[0] && header[1] == recvQ.Contents()[1];
    len := header[0] as nat + 0x100 * header[1] as nat;
  }

  /** Cuts one whole frame off the queue and gives its payload. */
  method TakeFrame(recvQ: ServerRing.RingBuffer, len: nat) returns (packet: seq<Byte>)
    requires recvQ.Valid() && |recvQ.Contents()| >= 2 + len && len == Length(recvQ.Contents()) <= MAX_PAYLOAD
    modifies recvQ`mFront
    ensures recvQ.Valid() && |packet| == len && old(recvQ.Contents()) == Frame(packet) + recvQ.Contents()
  {
    hide ServerRing.RingBuffer.Contents, Round, Used;
    ghost var q := recvQ.Contents();
    var ok := recvQ.MoveFront(2);
    var front := new Byte[len];
    var ret := recvQ.Dequeue(front, len);
    packet := front[..];
    FrameFromHeader(q[..2 + len]);
    assert packet == q[2..][..len] == q[..2 + len][2..];
    assert q == q[..2 + len] + q[2 + len..];
  }

  lemma WireOfNone()
    ensures AllFit([]) && Wire([]) == []
  {
  }

  lemma WireOfOne(p: seq<Byte>)
    requires |p| <= MAX_PAYLOAD
    ensures AllFit([p]) && Wire([p]) == Frame(p)
  {
    assert [p][1..] == [];
  }

  lemma AppendFrame(ds: seq<seq<Byte>>, p: seq<Byte>, q: seq<Byte>, rest: seq<Byte>)
    requires AllFit(ds) && |p| <= MAX_PAYLOAD && q == Wire(ds) + (Frame(p) + rest)
    ensures AllFit(ds + [p]) && q == Wire(ds + [p]) + rest && |Wire(ds + [p])| == |Wire(ds)| + 2 + |p|
    ensures (ds + [p])[..|ds + [p]| - 1] == ds
  {
    WireOfBoth(ds, [p]);
    WireOfOne(p);
    Regroup(Wire(ds), Frame(p), rest);
    hide Length;
  }

  /** The bytes that MoveRear takes over: none if it is told of more than the free ones, and
      CompleteRecv does not look at its answer. */
  ghost function TakenOver(recvQ: ServerRing.RingBuffer, transferredSize: nat): seq<Byte>
    requires recvQ.Valid()
    reads recvQ, recvQ.mBuffer
  {
    if transferredSize <= recvQ.FreeSize() then recvQ.Ahead(transferredSize) else []
  }

  /** With the rear not before the front, SetWSABuf offers the slots up to the end of the array
      and those before the front: one byte more than the queue has room for. */
  lemma OfferIsOneTooMany(recvQ: ServerRing.RingBuffer)
    requires recvQ.Valid() && recvQ.mRear >= recvQ.mFront
    ensures var offered := (recvQ.mCapacity + 1 - recvQ.mRear) + recvQ.mFront;
            offered == recvQ.FreeSize() + 1 && TakenOver(recvQ, offered) == []
  {
  }

  method CompleteRecv(recvQ: ServerRing.RingBuffer, transferredSize: nat)
      returns (delivered: seq<seq<Byte>>, status: bool)
    requires recvQ.Valid()
    modifies recvQ`mFront, recvQ`mRear
    ensures recvQ.Valid()
    ensures Outcome(old(recvQ.Contents()) + old(TakenOver(recvQ, transferredSize)), transferredSize,
                    delivered, recvQ.Contents(), status)
  {
    hide ServerRing.RingBuffer.Contents, ServerRing.RingBuffer.Ahead, Round, Used, Frame, Wire, Length;
    var moved := recvQ.MoveRear(transferredSize);
    ghost var q := recvQ.Contents();
    var count := 0;
    delivered, status := [], true;
    WireOfNone();
    while count < transferredSize
      invariant recvQ.Valid() && status
      invariant AllFit(delivered) && count == |Wire(delivered)| && q == Wire(delivered) + recvQ.Contents()
      invariant delivered != [] ==> |Wire(delivered[..|delivered| - 1])| < transferredSize
      invariant delivered != [] && delivered[|delivered| - 1] == [] ==> recvQ.Contents() != []
      decreases transferredSize - count
    {
      var use := recvQ.GetUseSize();
      if use <= 2 {
        break;
      }
      var len := PeekLength(recvQ);
      if len > MAX_PAYLOAD {
        status := false;
        break;
      }
      if use < 2 + len {
        break;
      }
      var packet := TakeFrame(recvQ, len);
      AppendFrame(delivered, packet, q, recvQ.Contents());
      delivered := delivered + [packet];
      count := count + (len + 2);
    }
  }

  lemma {:induction false} WireGrows(ds: seq<seq<Byte>>, n: nat)
    requires AllFit(ds) && n <= |ds|
    ensures |Wire(ds[..n])| <= |Wire(ds)|
  {
    if n > 0 {
      assert ds[..n][1..] == ds[1..][..n - 1];
      WireGrows(ds[1..], n - 1);
    }
  }

  lemma {:induction false} WireHead(ps: seq<seq<Byte>>)
    requires AllFit(ps) && ps != []
    ensures Wire(ps) == Frame(ps[0]) + Wire(ps[1..]) && |Wire(ps)| >= 2 * |ps| + |ps[0]|
  {
    if |ps| > 1 {
      WireHead(ps[1..]);
    }
  }

  lemma LengthOfHead(p: seq<Byte>, s: seq<Byte>, w: seq<Byte>)
    requires |p| <= MAX_PAYLOAD && w == Frame(p) + s
    ensures Length(w) == |p|
  {
    assert w[0] == Frame(p)[0] && w[1] == Frame(p)[1];
  }

  /** Where one reading stops before the other, a whole frame follows. */
  lemma NextIsFrame(ds: seq<seq<Byte>>, rest: seq<Byte>, fs: seq<seq<Byte>>, left: seq<Byte>)
    requires AllFit(ds) && AllFit(fs) && Wire(ds) + rest == Wire(fs) + left && |ds| < |fs|
    ensures ds == fs[..|ds|] && |rest| >= 2 + |fs[|ds|]| && Length(rest) == |fs[|ds|]| <= MAX_PAYLOAD
    ensures |rest| == 2 ==> |fs| == |ds| + 1 && fs[|ds|] == left == []
  {
    hide Wire, Frame, Length;
    ParsesAgree(ds, rest, fs, left);
    var more := fs[|ds|..];
    WireHead(more);
    Regroup(Frame(more[0]), Wire(more[1..]), left);
    LengthOfHead(more[0], Wire(more[1..]) + left, rest);
  }

  /** A call that could have cut off one more frame stopped for one of two reasons. */
  lemma StoppedEarly(q: seq<Byte>, t: int, ds: seq<seq<Byte>>, rest: seq<Byte>, ok: bool,
                     fs: seq<seq<Byte>>, left: seq<Byte>)
    requires Outcome(q, t, ds, rest, ok) && AllFit(fs) && q == Wire(fs) + left && |ds| < |fs|
    ensures |Wire(fs[..|fs| - 1])| >= t || (fs[|fs| - 1] == [] && left == [])
  {
    NextIsFrame(ds, rest, fs, left);
    hide Wire, Frame, Length;
    if |rest| != 2 {
      assert fs[..|fs| - 1][..|ds|] == ds;
      WireGrows(fs[..|fs| - 1], |ds|);
    }
  }

  /** The queued bytes and the size of the completion decide what a call does. */
  lemma OutcomeIsUnique(q: seq<Byte>, t: int, ds: seq<seq<Byte>>, rest: seq<Byte>, ok: bool,
                        ds': seq<seq<Byte>>, rest': seq<Byte>, ok': bool)
    requires Outcome(q, t, ds, rest, ok) && Outcome(q, t, ds', rest', ok')
    ensures ds == ds' && rest == rest' && ok == ok'
  {
    if |ds| < |ds'| {
      StoppedEarly(q, t, ds, rest, ok, ds', rest');
    } else if |ds'| < |ds| {
      StoppedEarly(q, t, ds', rest', ok', ds, rest);
    } else {
      ParsesAgree(ds, rest, ds', rest');
      assert ds'[|ds|..] == [];
    }
  }

  /** A whole frame can stay queued until more bytes come: exactly when the frames before the
      last whole one are already as long as this completion, or when the last whole one is a
      bare header with nothing behind it. */
  lemma AllDeliveredIff(q: seq<Byte>, t: int, ds: seq<seq<Byte>>, rest: seq<Byte>, ok: bool,
                        whole: seq<seq<Byte>>, left: seq<Byte>)
    requires Outcome(q, t, ds, rest, ok)
    requires AllFit(whole) && q == Wire(whole) + left && !StartsFrame(left)
    ensures ds == whole <==>
              whole == [] || (|Wire(whole[..|whole| - 1])| < t && !(whole[|whole| - 1] == [] && left == []))
  {
    if |ds| < |whole| {
      StoppedEarly(q, t, ds, rest, ok, whole, left);
    } else {
      ParsesAgree(ds, rest, whole, left);
      if |ds| > |whole| {
        NextIsFrame(whole, left, ds, rest);
        assert false;
      }
    }
  }

  /** Any bytes are whole frames followed by something that does not start with one. */
  lemma {:induction false} WholeFrames(q: seq<Byte>) returns (whole: seq<seq<Byte>>, left: seq<Byte>)
    ensures AllFit(whole) && q == Wire(whole) + left && !StartsFrame(left)
  {
    if StartsFrame(q) {
      var n := 2 + Length(q);
      FrameFromHeader(q[..n]);
      var more;
      more, left := WholeFrames(q[n..]);
      whole := [q[..n][2..]] + more;
      assert whole[1..] == more;
      Regroup(Frame(whole[0]), Wire(more), left);
      assert q == q[..n] + q[n..];
    } else {
      whole, left := [], q;
    }
  }

  /** Two frames of four and three bytes, three bytes of the first received before: the
      completion of the other four delivers the first frame only. */
  lemma SecondFrameWaits()
    ensures var first: seq<Byte>, second: seq<Byte>, q: seq<Byte> := [7, 8], [9], [2, 0, 7, 8, 1, 0, 9];
            q == Wire([first, second]) && Outcome(q, 4, [first], Frame(second), true)
  {
    var first: seq<Byte>, second: seq<Byte> := [7, 8], [9];
    assert Frame(first) == [2, 0, 7, 8] && Frame(second) == [1, 0, 9];
    assert [first, second][1..] == [second];
    WireOfOne(first);
    WireOfOne(second);
    assert [first][..0] == [];
  }

  /** Fewer bytes than one largest frame stay queued, so the receive queue never fills up. */
  lemma BufferedStaysSmall(queued: seq<Byte>, chunk: seq<Byte>, ds: seq<seq<Byte>>, rest: seq<Byte>)
    requires Outcome(queued + chunk, |chunk|, ds, rest, true) && |queued| < 402
    ensures |rest| < 402
  {
  }

  lemma WithinStream(frames: seq<seq<Byte>>, all: seq<seq<Byte>>, rest: seq<Byte>)
    requires AllFit(frames) && AllFit(all) && Wire(all) + rest <= Wire(frames)
    ensures all <= frames && (|rest| >= 2 ==> Length(rest) <= MAX_PAYLOAD)
  {
    var tail := Wire(frames)[|Wire(all) + rest|..];
    Regroup(Wire(all), rest, tail);
    assert Wire(all) + (rest + tail) == Wire(frames) + [];
    hide Wire, Frame, AllFit;
    if |all| < |frames| {
      NextIsFrame(all, rest + tail, frames, []);
    } else {
      ParsesAgree(all, rest + tail, frames, []);
      if |all| > |frames| {
        NextIsFrame(frames, [], all, rest + tail);
      }
    }
  }

  /** One completion of a stream of frames, whatever piece of the stream it brings. */
  lemma StreamStep(frames: seq<seq<Byte>>, got: seq<seq<Byte>>, queued: seq<Byte>, chunk: seq<Byte>,
                   ds: seq<seq<Byte>>, rest: seq<Byte>, ok: bool)
    requires AllFit(frames) && AllFit(got) && Wire(got) + (queued + chunk) <= Wire(frames)
    requires Outcome(queued + chunk, |chunk|, ds, rest, ok)
    ensures ok && got + ds <= frames && Wire(got + ds) + rest == Wire(got) + (queued + chunk)
  {
    WireOfBoth(got, ds);
    Regroup(Wire(got), Wire(ds), rest);
    hide Wire, Frame, AllFit, Length;
    WithinStream(frames, got + ds, rest);
  }

  /** A completion: the next n bytes of the stream lie in the free slots when CompleteRecv is called. */
  method ReceivePiece(recvQ: ServerRing.RingBuffer, stream: seq<Byte>, received: nat, n: nat,
                      ghost frames: seq<seq<Byte>>, ghost got: seq<seq<Byte>>)
      returns (delivered: seq<seq<Byte>>, status: bool)
    requires recvQ.Valid() && 0 < n <= recvQ.FreeSize() && received + n <= |stream|
    requires AllFit(frames) && stream <= Wire(frames)
    requires InStep(stream[..received], frames, got, recvQ.Contents()) && |recvQ.Contents()| < 402
    modifies recvQ`mFront, recvQ`mRear, recvQ.mBuffer
    ensures recvQ.Valid() && status
    ensures InStep(stream[..received + n], frames, got + delivered, recvQ.Contents())
    ensures |recvQ.Contents()| < 402
  {
    hide ServerRing.RingBuffer.Contents, ServerRing.RingBuffer.Ahead, Outcome, InStep, Wire, Used, Round;
    ghost var queued := recvQ.Contents();
    var chunk := stream[received..received + n];
    recvQ.CopyIn(chunk, n, Min(n, recvQ.mCapacity + 1 - recvQ.mRear));
    assert chunk[..n] == chunk;
    delivered, status := CompleteRecv(recvQ, n);
    NextCompletion(stream, frames, got, received, queued, chunk, delivered, recvQ.Contents(), status);
  }

  /** The stream of frames received in pieces of any sizes that fit the queue: the packets
      handed on are the first frames, in order; the connection is never given up; fewer than
      402 bytes wait at any time, so a queue of that size takes in something each time. */
  method ReceiveStream(stream: seq<Byte>, ghost frames: seq<seq<Byte>>, sizes: seq<nat>, capacity: nat)
      returns (got: seq<seq<Byte>>, received: nat, status: bool)
    requires AllFit(frames) && stream <= Wire(frames)
    ensures status && got <= frames && received <= |stream|
    ensures AllFit(got) && Wire(got) <= stream[..received] && received - |Wire(got)| < 402
    ensures capacity >= 402 && 0 !in sizes ==> received >= Min(|stream|, |sizes|)
  {
    var recvQ := new ServerRing.RingBuffer(capacity);
    got, received, status := [], 0, true;
    assert InStep(stream[..received], frames, got, recvQ.Contents());
    hide InStep, Wire, Outcome, ServerRing.RingBuffer.Contents, ServerRing.RingBuffer.Ahead, Used, Round;
    for i := 0 to |sizes|
      invariant recvQ.Valid() && fresh(recvQ) && fresh(recvQ.mBuffer) && recvQ.mCapacity == capacity
      invariant received <= |stream| && |recvQ.Contents()| < 402
      invariant status && InStep(stream[..received], frames, got, recvQ.Contents())
      invariant capacity >= 402 && 0 !in sizes ==> received >= Min(|stream|, i)
    {
      var free := recvQ.GetFreeSize();
      var n := Min(sizes[i], Min(free, |stream| - received));
      if n > 0 {
        var delivered, ok := ReceivePiece(recvQ, stream, received, n, frames, got);
        got, received, status := got + delivered, received + n, ok;
      }
    }
    InStepMeans(stream[..received], frames, got, recvQ.Contents());
  }

  // The bytes received so far are the packets handed on, the first ones of the stream, and the queue.
  ghost predicate InStep(soFar: seq<Byte>, frames: seq<seq<Byte>>, got: seq<seq<Byte>>, queued: seq<Byte>) {
    AllFit(got) && got <= frames && soFar == Wire(got) + queued
  }

  lemma InStepMeans(soFar: seq<Byte>, frames: seq<seq<Byte>>, got: seq<seq<Byte>>, queued: seq<Byte>)
    requires InStep(soFar, frames, got, queued)
    ensures AllFit(got) && got <= frames && Wire(got) <= soFar && |soFar| == |Wire(got)| + |queued|
  {
  }

  lemma NextCompletion(stream: seq<Byte>, frames: seq<seq<Byte>>, got: seq<seq<Byte>>, received: nat,
                       queued: seq<Byte>, chunk: seq<Byte>, ds: seq<seq<Byte>>, rest: seq<Byte>, ok: bool)
    requires AllFit(frames) && stream <= Wire(frames) && received + |chunk| <= |stream|
    requires InStep(stream[..received], frames, got, queued)
    requires chunk == stream[received..received + |chunk|]
    requires Outcome(queued + chunk, |chunk|, ds, rest, ok) && |queued| < 402
    ensures ok && InStep(stream[..received + |chunk|], frames, got + ds, rest) && |rest| < 402
  {
    Regroup(Wire(got), queued, chunk);
    hide Wire, Frame, Length;
    assert stream[..received] + chunk == stream[..received + |chunk|];
    StreamStep(frames, got, queued, chunk, ds, rest, ok);
    BufferedStaysSmall(queued, chunk, ds, rest);
  }
}
