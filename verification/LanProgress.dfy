/** Progress of the client session: the chain of receives goes on unless something ends it, and
    a thread left alone in SendPacket or a completion does what the call is for. */
module LanProgress {
  import opened Basics
  import opened Sums
  import opened LanSession

  /** In every run in which nothing has ended the receives, exactly one receive is outstanding or
      being handled, and the session is not released. */
  lemma ReceiveGoesOn(first: State, moves: seq<Move>, s: State)
    requires Init(first) && Reaches(first, moves, s) && !s.h.ended
    ensures Sum(s.threads, RecvToken) + s.m.recvs == 1
    ensures s.h.bodies == 0
  {
    RunKeeps(first, moves, s);
  }

  /** The receives are ended by a completion without bytes, by a frame that is too long, or by a
      WSARecv that fails, and by nothing else. */
  lemma ReceivesEndIff(s: State, t: nat, a: Choice)
    requires Enabled(s, t, a) && !s.h.ended
    ensures Next(s, t, a).h.ended <==>
              || (s.threads[t].Idle? && a == TakeRecv(false)) || (s.threads[t].CrLoop? && a == EndRecv(false))
              || ((s.threads[t].RpRecv? || s.threads[t].CoRecv?) && a == Io(false))
  {
  }

  // The state with thread t at pc.
  function With(m: Session, h: History, threads: seq<Pc>, t: nat, pc: Pc): State
    requires t < |threads|
  {
    State(m, h, threads[t := pc])
  }

  lemma MoveOne(first: State, moves: seq<Move>, m: Session, h: History, threads: seq<Pc>, t: nat, pc: Pc, a: Choice)
      returns (longer: seq<Move>)
    requires t < |threads| && Reaches(first, moves, With(m, h, threads, t, pc)) && Allowed(m, pc, a)
    ensures var (m', h', pc') := Act(m, h, pc, a); Reaches(first, longer, With(m', h', threads, t, pc'))
  {
    longer := moves + [Move(t, a)];
    var s, n := With(m, h, threads, t, pc), |moves|;
    var (m', h', pc') := Act(m, h, pc, a);
    hide Act, Allowed;
    assert longer[..n] == moves && longer[n] == Move(t, a);
    assert Next(s, t, a) == With(m', h', threads, t, pc');
    assert Reaches(first, longer[..n], s) && Enabled(s, longer[n].t, longer[n].a)
        && With(m', h', threads, t, pc') == Next(s, longer[n].t, longer[n].a);
  }

  // What is posted of a queue.
  function Batch(q: seq<Packet>): seq<Packet> {
    q[..if |q| > 100 then 100 else |q|]
  }

  /** SendPost with the flag clear and a packet waiting posts the queue, up to 100 packets. */
  lemma PostAlone(first: State, moves: seq<Move>, m: Session, h: History, threads: seq<Pc>, t: nat, k: Caller)
      returns (longer: seq<Move>)
    requires t < |threads| && Reaches(first, moves, With(m, h, threads, t, PoExchange(k)))
    requires !m.isSending && m.sendQ != []
    ensures var n := |Batch(m.sendQ)|;
      Reaches(first, longer, With(m.(io := m.io + 1, isSending := true, numSending := n, sends := m.sends + 1),
                                  h.(wire := h.wire + Batch(m.sendQ)), threads, t, Resume(AfterPost(k))))
  {
    hide Reaches, With;
    longer := MoveOne(first, moves, m, h, threads, t, PoExchange(k), Go);
    var m1 := m.(isSending := true);
    longer := MoveOne(first, longer, m1, h, threads, t, PoEmpty(k), Go);
    longer := MoveOne(first, longer, m1, h, threads, t, PoBuf(k), Go);
    var batch := Batch(m.sendQ);
    var m2 := m1.(numSending := |batch|);
    longer := MoveOne(first, longer, m2, h, threads, t, PoInc(k, batch), Go);
    longer := MoveOne(first, longer, m2.(io := m.io + 1), h, threads, t, PoSend(k, batch), Io(true));
  }

  /** SendPost with the flag clear and nothing waiting leaves the flag clear. */
  lemma NothingToPost(first: State, moves: seq<Move>, m: Session, h: History, threads: seq<Pc>, t: nat, k: Caller)
      returns (longer: seq<Move>)
    requires t < |threads| && Reaches(first, moves, With(m, h, threads, t, PoExchange(k)))
    requires !m.isSending && m.sendQ == []
    ensures Reaches(first, longer, With(m, h, threads, t, Resume(AfterPost(k))))
  {
    hide Reaches, With;
    longer := MoveOne(first, moves, m, h, threads, t, PoExchange(k), Go);
    longer := MoveOne(first, longer, m.(isSending := true), h, threads, t, PoEmpty(k), Go);
    longer := MoveOne(first, longer, m.(isSending := true), h, threads, t, PoClear(k), Go);
    longer := MoveOne(first, longer, m, h, threads, t, PoRecheck(k), Go);
  }

  // SendPacket up to SendPost, on a session with a count that is neither zero nor released.
  lemma AcceptAlone(first: State, moves: seq<Move>, m: Session, h: History, threads: seq<Pc>, t: nat, p: Packet)
      returns (longer: seq<Move>)
    requires t < |threads| && Reaches(first, moves, With(m, h, threads, t, Idle)) && 0 < m.io < 0xffff
    ensures Reaches(first, longer, With(m.(io := m.io + 1, sendQ := m.sendQ + [p]), h.(accepted := h.accepted + [p]),
                                        threads, t, PoExchange(FromSend(App))))
  {
    hide Reaches, With;
    longer := MoveOne(first, moves, m, h, threads, t, Idle, CallSend(p));
    longer := MoveOne(first, longer, m, h, threads, t, SpCheck(App, p), Go);
    longer := MoveOne(first, longer, m, h, threads, t, SpInc(App, p), Go);
    longer := MoveOne(first, longer, m.(io := m.io + 1), h, threads, t, SpTest(App, p), Go);
    longer := MoveOne(first, longer, m.(io := m.io + 1), h, threads, t, SpEnqueue(App, p), Go);
  }

  // The state's count, while it is not released.
  lemma CountBounds(s: State)
    requires Inv(s) && s.h.bodies == 0
    ensures s.m.io == Sum(s.threads, Refs) + s.m.recvs + s.m.sends && 0 <= s.m.io <= 0x7fff
    ensures !s.m.isSending ==> s.m.sends == 0 && |s.h.wire| == |s.h.dropped| && s.h.wire == s.h.dropped
  {
    TotalsBounded(s.threads);
    BoundOfGlobal(s.m, s.h, TotalsOf(s.threads));
  }

  lemma BoundOfGlobal(m: Session, h: History, n: Totals)
    requires Global(m, h, n) && Bounded(n) && h.bodies == 0 && n.refs >= 0 && n.sendTokens >= 0 && n.recvTokens >= 0
    ensures m.io == n.refs + m.recvs + m.sends && 0 <= m.io <= 0x7fff
    ensures !m.isSending ==> m.sends == 0 && |h.wire| == |h.dropped| && h.wire == h.dropped
  {
    if !m.isSending {
      assert h.wire == h.accepted[..|h.wire|] == h.dropped;
    }
  }

  lemma CountIsLow(io: int)
    requires 0 <= io <= 0x7fff
    ensures CountOf(io) == io
  {
  }

  // The decrement at the end of SendPacket.
  lemma ReturnAlone(first: State, moves: seq<Move>, m: Session, h: History, threads: seq<Pc>, t: nat)
      returns (longer: seq<Move>)
    requires Init(first) && t < |threads| && threads[t] == Idle
    requires Reaches(first, moves, With(m, h, threads, t, SpDec(App)))
    requires h.bodies == 0 && m.io >= 2
    ensures Reaches(first, longer, State(m.(io := m.io - 1), h, threads))
  {
    var s := With(m, h, threads, t, SpDec(App));
    WithParts(m, h, threads, t, SpDec(App));
    hide Inv, Reaches, With, Init, Refs, CountOf;
    RunKeeps(first, moves, s);
    CountBounds(s);
    CountIsLow(m.io - 1);
    longer := MoveOne(first, moves, m, h, threads, t, SpDec(App), Go);
    WithIdle(m.(io := m.io - 1), h, threads, t);
  }

  /** In every run, on a session that is not released and has a reference, a SendPacket left alone
      while isSending is clear accepts its packet and posts the queue, the packet last, up to 100
      packets. */
  lemma SendAlone(first: State, moves: seq<Move>, s: State, t: nat, p: Packet) returns (longer: seq<Move>, u: State)
    requires Init(first) && Reaches(first, moves, s) && t < |s.threads| && s.threads[t] == Idle
    requires s.h.bodies == 0 && s.m.io > 0 && !s.m.isSending
    ensures Reaches(first, longer, u) && u.threads == s.threads
    ensures u.h.accepted == s.h.accepted + [p] && u.m.sendQ == s.m.sendQ + [p] && u.m.isSending && u.m.sends == 1
    ensures u.h.wire == s.h.wire + Batch(s.m.sendQ + [p]) && u.m.io == s.m.io + 1
  {
    RunKeeps(first, moves, s);
    CountBounds(s);
    var m, h, threads := s.m, s.h, s.threads;
    WithIdle(m, h, threads, t);
    hide Inv, Reaches, With, Init;
    longer := AcceptAlone(first, moves, m, h, threads, t, p);
    var m1, h1 := m.(io := m.io + 1, sendQ := m.sendQ + [p]), h.(accepted := h.accepted + [p]);
    longer := PostAlone(first, longer, m1, h1, threads, t, FromSend(App));
    var batch := Batch(m1.sendQ);
    var m2 := m1.(io := m1.io + 1, isSending := true, numSending := |batch|, sends := m1.sends + 1);
    longer := ReturnAlone(first, longer, m2, h1.(wire := h1.wire + batch), threads, t);
    u := State(m2.(io := m2.io - 1), h1.(wire := h1.wire + batch), threads);
  }

  /** While isSending is set it accepts and queues its packet and leaves the posting to the owner
      of the flag. */
  lemma SendWhileSending(first: State, moves: seq<Move>, s: State, t: nat, p: Packet)
      returns (longer: seq<Move>, u: State)
    requires Init(first) && Reaches(first, moves, s) && t < |s.threads| && s.threads[t] == Idle
    requires s.h.bodies == 0 && s.m.io > 0 && s.m.isSending
    ensures Reaches(first, longer, u)
    ensures u == State(s.m.(sendQ := s.m.sendQ + [p]), s.h.(accepted := s.h.accepted + [p]), s.threads)
  {
    RunKeeps(first, moves, s);
    CountBounds(s);
    var m, h, threads := s.m, s.h, s.threads;
    WithIdle(m, h, threads, t);
    hide Inv, Reaches, With, Init;
    longer := AcceptAlone(first, moves, m, h, threads, t, p);
    var m1, h1 := m.(io := m.io + 1, sendQ := m.sendQ + [p]), h.(accepted := h.accepted + [p]);
    longer := MoveOne(first, longer, m1, h1, threads, t, PoExchange(FromSend(App)), Go);
    longer := ReturnAlone(first, longer, m1, h1, threads, t);
    u := State(m1.(io := m1.io - 1), h1, threads);
  }

  /** SendPacket refuses a packet exactly where it sees the count at zero or the session released. */
  lemma RefusedIff(first: State, moves: seq<Move>, s: State, t: nat)
    requires Init(first) && Reaches(first, moves, s) && t < |s.threads|
    requires s.threads[t].SpCheck? || s.threads[t].SpTest?
    ensures Enabled(s, t, Go)
    ensures var pc := Next(s, t, Go).threads[t];
      if s.threads[t].SpCheck? then !pc.SpInc? <==> s.m.io == 0 else !pc.SpEnqueue? <==> s.h.bodies == 1
  {
    ReleasedOnce(first, moves, s);
    hide Init, Reaches;
  }

  // The completion takes the posted packets off the queue.
  lemma {:induction false} TakeOffAlone(first: State, moves: seq<Move>, m: Session, h: History, threads: seq<Pc>,
                                        t: nat, i: nat) returns (longer: seq<Move>)
    requires t < |threads| && Reaches(first, moves, With(m, h, threads, t, CsLoop(i)))
    requires i <= m.numSending && m.numSending - i <= |m.sendQ|
    ensures var n := m.numSending - i;
      Reaches(first, longer, With(m.(sendQ := m.sendQ[n..]), h.(dropped := h.dropped + m.sendQ[..n]),
                                  threads, t, CsZero))
    decreases m.numSending - i
  {
    hide Reaches, With;
    var n := m.numSending - i;
    TakingOff(h.dropped, m.sendQ, n);
    longer := MoveOne(first, moves, m, h, threads, t, CsLoop(i), Go);
    if n > 0 {
      var m', h' := m.(sendQ := m.sendQ[1..]), h.(dropped := h.dropped + [m.sendQ[0]]);
      hide Act, Allowed;
      longer := TakeOffAlone(first, longer, m', h', threads, t, i + 1);
    }
  }

  lemma TakingOff(dropped: seq<Packet>, q: seq<Packet>, n: nat)
    requires n <= |q|
    ensures n == 0 ==> q[n..] == q && dropped + q[..n] == dropped
    ensures n > 0 ==> q[1..][n - 1..] == q[n..] && (dropped + [q[0]]) + q[1..][..n - 1] == dropped + q[..n]
  {
    if n > 0 {
      Regroup(dropped, [q[0]], q[1..][..n - 1]);
      assert [q[0]] + q[1..][..n - 1] == q[..n];
    }
  }

  // CompleteSend with n posted packets at the front of the queue.
  lemma CompleteAlone(first: State, moves: seq<Move>, m: Session, h: History, threads: seq<Pc>, t: nat)
      returns (longer: seq<Move>, m': Session, h': History)
    requires t < |threads| && Reaches(first, moves, With(m, h, threads, t, CsLoop(0)))
    requires m.numSending <= |m.sendQ| && m.sends == 0
    ensures Reaches(first, longer, With(m', h', threads, t, CqDec)) && m'.sendQ == m.sendQ[m.numSending..]
    ensures h' == h.(dropped := h.dropped + m.sendQ[..m.numSending], wire := h.wire + Batch(m'.sendQ))
    ensures m'.isSending == (m'.sendQ != []) && m'.sends == if m'.sendQ == [] then 0 else 1
  {
    hide Reaches, With;
    var n := m.numSending;
    longer := TakeOffAlone(first, moves, m, h, threads, t, 0);
    m', h' := m.(sendQ := m.sendQ[n..]), h.(dropped := h.dropped + m.sendQ[..n]);
    longer := MoveOne(first, longer, m', h', threads, t, CsZero, Go);
    m' := m'.(numSending := 0);
    longer := MoveOne(first, longer, m', h', threads, t, CsClear, Go);
    m' := m'.(isSending := false);
    var batch := Batch(m'.sendQ);
    if m'.sendQ == [] {
      longer := NothingToPost(first, longer, m', h', threads, t, FromCompletion);
      assert h'.wire + batch == h'.wire;
    } else {
      longer := PostAlone(first, longer, m', h', threads, t, FromCompletion);
      m' := m'.(io := m'.io + 1, isSending := true, numSending := |batch|, sends := m'.sends + 1);
      h' := h'.(wire := h'.wire + batch);
    }
  }

  /** In every run, a send completion left alone drops exactly the packets that were posted and
      posts what waits behind them, up to 100 packets; with nothing behind them it clears
      isSending. What is left is to give back its reference. */
  lemma CompletionAlone(first: State, moves: seq<Move>, s: State, t: nat) returns (longer: seq<Move>, u: State)
    requires Init(first) && Reaches(first, moves, s) && t < |s.threads| && s.threads[t] == Idle && s.m.sends == 1
    ensures Reaches(first, longer, u) && u.threads == s.threads[t := CqDec]
    ensures s.h.wire <= s.h.accepted && u.h.dropped == s.h.wire && u.h.accepted == s.h.accepted
    ensures var rest := s.h.accepted[|s.h.wire|..];
      && u.m.sendQ == rest && u.h.wire == s.h.wire + Batch(rest)
      && u.m.isSending == (rest != []) && u.m.sends == if rest == [] then 0 else 1
  {
    hide Inv, Reaches, With, Init, Batch;
    FifoExactlyOnce(first, moves, s);
    WhatIsLeft(s);
    WithIdle(s.m, s.h, s.threads, t);
    var m', h';
    longer := MoveOne(first, moves, s.m, s.h, s.threads, t, Idle, TakeSend(true));
    longer, m', h' := CompleteAlone(first, longer, s.m.(sends := 0), s.h, s.threads, t);
    u := With(m', h', s.threads, t, CqDec);
    WithParts(m', h', s.threads, t, CqDec);
  }

  lemma WithParts(m: Session, h: History, threads: seq<Pc>, t: nat, pc: Pc)
    requires t < |threads|
    ensures var u := With(m, h, threads, t, pc); u.m == m && u.h == h && u.threads == threads[t := pc]
  {
  }

  lemma WhatIsLeft(s: State)
    requires s.h.accepted == s.h.dropped + s.m.sendQ && s.m.numSending <= |s.m.sendQ|
    requires s.h.wire == s.h.dropped + s.m.sendQ[..s.m.numSending]
    ensures s.h.wire <= s.h.accepted && s.h.accepted[|s.h.wire|..] == s.m.sendQ[s.m.numSending..]
  {
    assert s.m.sendQ == s.m.sendQ[..s.m.numSending] + s.m.sendQ[s.m.numSending..];
    assert s.h.accepted == s.h.wire + s.m.sendQ[s.m.numSending..];
  }

  /** In every run, a receive completion that brings bytes and whose frames are all right, left
      alone, posts the next receive before it gives back its reference. */
  lemma ReceiveAlone(first: State, moves: seq<Move>, s: State, t: nat) returns (longer: seq<Move>, u: State)
    requires Init(first) && Reaches(first, moves, s) && t < |s.threads| && s.threads[t] == Idle && s.m.recvs == 1
    ensures Reaches(first, longer, u) && u == State(s.m.(io := s.m.io + 1), s.h, s.threads[t := CqDec])
  {
    hide Reaches, With, Init;
    var m, h, threads := s.m, s.h, s.threads;
    WithIdle(m, h, threads, t);
    longer := MoveOne(first, moves, m, h, threads, t, Idle, TakeRecv(true));
    var taken := m.(recvs := 0);
    longer := MoveOne(first, longer, taken, h, threads, t, CrLoop, EndRecv(true));
    longer := MoveOne(first, longer, taken, h, threads, t, RpInc, Go);
    longer := RecvStarts(first, longer, taken.(io := m.io + 1), h, threads, t);
    u := With(m.(io := m.io + 1), h, threads, t, CqDec);
    WithParts(m.(io := m.io + 1), h, threads, t, CqDec);
  }

  lemma RecvStarts(first: State, moves: seq<Move>, m: Session, h: History, threads: seq<Pc>, t: nat)
      returns (longer: seq<Move>)
    requires t < |threads| && Reaches(first, moves, With(m, h, threads, t, RpRecv))
    ensures Reaches(first, longer, With(m.(recvs := m.recvs + 1), h, threads, t, CqDec))
  {
    hide Reaches, With;
    longer := MoveOne(first, moves, m, h, threads, t, RpRecv, Io(true));
  }

  lemma WithIdle(m: Session, h: History, threads: seq<Pc>, t: nat)
    requires t < |threads| && threads[t] == Idle
    ensures With(m, h, threads, t, Idle) == State(m, h, threads)
  {
  }
}
