/** Progress of the thread-local chunk pool: a complete chunk does go back to the shared pool, a
    thread goes on with its own chunk until that is exhausted, and an Alloc left alone ends. */
module ChunkProgress {
  import opened Basics
  import opened ChunkPool

  ghost predicate ReturnedBySome(threads: seq<Thread>, c: ChunkId) {
    exists t: nat :: t < |threads| && threads[t].pc == Recycle(c)
  }

  /** A generation whose slots are all freed has a thread that is about to return the chunk. */
  ghost predicate Attended(s: State, g: map<ChunkId, Gen>) {
    forall c :: c in g && AllSlots(g[c].freed) ==> ReturnedBySome(s.threads, c)
  }

  predicate InSetup(pc: Pc) {
    pc.SetOwner? || pc.SetAlloc? || pc.SetFree? || pc.SetTls?
  }

  /** The chunk is the one that the thread is setting up, or else the one its TLS slot names. */
  ghost predicate IsCurrent(th: Thread, c: ChunkId) {
    if InSetup(th.pc) then Setup(th.pc, c) else th.tls == Some(c) && th.pc != Acquire
  }

  /** A running generation that the thread owns and that has slots left. */
  ghost predicate Open(g: map<ChunkId, Gen>, t: nat, c: ChunkId) {
    Owns(g, t, c) && g[c].handed < MAX_SIZE
  }

  ghost predicate OpenOk(g: map<ChunkId, Gen>, t: nat, th: Thread) {
    forall c :: Open(g, t, c) ==> IsCurrent(th, c)
  }

  ghost predicate AllOpenOk(g: map<ChunkId, Gen>, threads: seq<Thread>) {
    forall t: nat :: t < |threads| ==> OpenOk(g, t, threads[t])
  }

  lemma AttendedStep(s: State, t: nat, a: Choice, g: map<ChunkId, Gen>)
    requires Inv(s, g) && Enabled(s, t, a) && Attended(s, g)
    ensures var (u, e) := Next(s, t, a); SpecEnabled(g, e) && Attended(u, SpecNext(g, e))
  {
    StepEvent(s, t, a, g);
    var (u, e) := Next(s, t, a);
    var g' := SpecNext(g, e);
    forall c | c in g' && AllSlots(g'[c].freed) ensures ReturnedBySome(u.threads, c) {
      if e.Freed? && e.s.c == c {
        LastFree(s, t, a, g);
        assert u.threads[t].pc == Recycle(c);
      } else {
        assert g'[c].freed == {} || g'[c].freed == g[c].freed;
        assert 0 in g'[c].freed;
        assert c in g && AllSlots(g[c].freed);
        var w: nat :| w < |s.threads| && s.threads[w].pc == Recycle(c);
        assert w != t;
        assert u.threads[w] == s.threads[w];
      }
    }
  }

  /** The increment that makes a generation's slots all freed is the one that reaches MAX_SIZE. */
  lemma LastFree(s: State, t: nat, a: Choice, g: map<ChunkId, Gen>)
    requires Inv(s, g) && Enabled(s, t, a) && s.threads[t].pc.FreeInc?
    ensures var sl := s.threads[t].pc.s;
      sl.c in g && (AllSlots(g[sl.c].freed + {sl.k}) <==> Next(s, t, a).0.threads[t].pc == Recycle(sl.c))
  {
    var sl := s.threads[t].pc.s;
    assert ThreadOk(s.m, g, t, s.threads[t]);
    assert ChunkOkAt(s.m, g, s.threads, sl.c);
    var freed := g[sl.c].freed;
    assert |freed + {sl.k}| == |freed| + 1;
    if AllSlots(freed + {sl.k}) {
      FullSet(freed + {sl.k});
    }
    AllFreed(freed + {sl.k}, g[sl.c].handed);
  }

  lemma OpenStep(s: State, t: nat, a: Choice, g: map<ChunkId, Gen>)
    requires Inv(s, g) && Enabled(s, t, a) && AllOpenOk(g, s.threads)
    ensures var (u, e) := Next(s, t, a); SpecEnabled(g, e) && AllOpenOk(SpecNext(g, e), u.threads)
  {
    StepEvent(s, t, a, g);
    var (u, e) := Next(s, t, a);
    var g' := SpecNext(g, e);
    forall w: nat, c | w < |u.threads| && Open(g', w, c) ensures IsCurrent(u.threads[w], c) {
      if w == t {
        OpenMover(s, t, a, g, c);
      } else {
        assert e.Acquired? ==> e.t == t;
        assert e.Handed? ==> e.t == t;
        assert Open(g, w, c);
        assert OpenOk(g, w, s.threads[w]);
      }
    }
    forall w: nat | w < |u.threads| ensures OpenOk(g', w, u.threads[w]) {
    }
  }

  lemma OpenMover(s: State, t: nat, a: Choice, g: map<ChunkId, Gen>, c: ChunkId)
    requires Inv(s, g) && Enabled(s, t, a) && OpenOk(g, t, s.threads[t]) && SpecEnabled(g, Next(s, t, a).1)
    requires Open(SpecNext(g, Next(s, t, a).1), t, c)
    ensures IsCurrent(Next(s, t, a).0.threads[t], c)
  {
    assert ThreadOk(s.m, g, t, s.threads[t]);
    if c in g {
      assert ChunkOkAt(s.m, g, s.threads, c);
    }
    hide Inv;
    if s.threads[t].pc == Acquire {
      assert !Open(g, t, c);
    } else {
      assert Open(g, t, c);
      OpenStays(s.m, g, t, s.threads[t], a, c);
    }
  }

  lemma OpenStays(m: Memory, g: map<ChunkId, Gen>, t: nat, th: Thread, a: Choice, c: ChunkId)
    requires ThreadOk(m, g, t, th) && Allowed(m, th.pc, a) && Open(g, t, c) && IsCurrent(th, c)
    requires c in m.chunks && ChunkOk(m.chunks[c], g[c], c, th.pc)
    ensures IsCurrent(Act(m, t, th, a).1, c)
  {
  }

  /** What holds in every state of every run. */
  lemma {:induction false} RunSteady(first: State, moves: seq<Move>, trace: seq<Event>, s: State)
      returns (g: map<ChunkId, Gen>)
    requires Init(first) && Reaches(first, moves, trace, s)
    ensures Inv(s, g) && SpecReaches(trace, g) && Attended(s, g) && AllOpenOk(g, s.threads)
    decreases |moves|
  {
    if moves == [] {
      g := map[];
    } else {
      var n := |moves| - 1;
      var before :| && Reaches(first, moves[..n], trace[..n], before) && Enabled(before, moves[n].t, moves[n].a)
                    && (s, trace[n]) == Next(before, moves[n].t, moves[n].a);
      var g0 := RunSteady(first, moves[..n], trace[..n], before);
      hide Inv, Init, SpecEnabled, Enabled, Attended, AllOpenOk, Next;
      StepRefines(before, moves[n].t, moves[n].a, g0);
      AttendedStep(before, moves[n].t, moves[n].a, g0);
      OpenStep(before, moves[n].t, moves[n].a, g0);
      g := SpecNext(g0, trace[n]);
    }
  }

  /** In every run, each running generation whose 1000 slots are all freed has exactly one thread
      that is about to return its chunk. */
  lemma CompleteChunkHasAReturner(first: State, moves: seq<Move>, trace: seq<Event>, s: State)
      returns (g: map<ChunkId, Gen>)
    requires Init(first) && Reaches(first, moves, trace, s)
    ensures SpecReaches(trace, g)
    ensures forall c :: c in g && AllSlots(g[c].freed) ==> ReturnedBySome(s.threads, c)
    ensures forall c, t, u :: (0 <= t < |s.threads| && 0 <= u < |s.threads| &&
              s.threads[t].pc == Recycle(c) && s.threads[u].pc == Recycle(c)) ==> t == u
  {
    g := RunSteady(first, moves, trace, s);
    hide Reaches, SpecReaches, Init;
    forall c, t: nat, u: nat | t < |s.threads| && u < |s.threads| &&
      s.threads[t].pc == Recycle(c) && s.threads[u].pc == Recycle(c)
      ensures t == u
    {
      assert t != u ==> Compatible(s.threads[t].pc, s.threads[u].pc);
    }
  }

  lemma {:induction false} AcquiredStays(first: State, moves: seq<Move>, trace: seq<Event>, s: State, c: ChunkId)
    requires Init(first) && Reaches(first, moves, trace, s) && Acquisitions(trace, c) > 0
    ensures c in s.m.chunks
    decreases |moves|
  {
    if moves != [] {
      var n := |moves| - 1;
      var before :| && Reaches(first, moves[..n], trace[..n], before) && Enabled(before, moves[n].t, moves[n].a)
                    && (s, trace[n]) == Next(before, moves[n].t, moves[n].a);
      if Acquisitions(trace[..n], c) > 0 {
        AcquiredStays(first, moves[..n], trace[..n], before, c);
      }
      hide Init, Acquisitions;
      var g := RunRefines(first, moves[..n], trace[..n], before);
      ChunksStay(before, moves[n].t, moves[n].a, g, c);
    }
  }

  lemma ChunksStay(s: State, t: nat, a: Choice, g: map<ChunkId, Gen>, c: ChunkId)
    requires Inv(s, g) && Enabled(s, t, a)
    ensures var (u, e) := Next(s, t, a); (c in s.m.chunks || (e.Acquired? && e.c == c)) ==> c in u.m.chunks
  {
    assert ThreadOk(s.m, g, t, s.threads[t]);
  }

  /** In every run, once all threads are idle, a chunk that was acquired, and of which 1000 slots
      were freed for every time that it was, is back in the shared pool. */
  lemma FreedChunkIsPooled(first: State, moves: seq<Move>, trace: seq<Event>, s: State, c: ChunkId)
    requires Init(first) && Reaches(first, moves, trace, s)
    requires forall t :: 0 <= t < |s.threads| ==> s.threads[t].pc == Idle
    requires Acquisitions(trace, c) > 0 && Frees(trace, c) == 1000 * Acquisitions(trace, c)
    ensures c in s.m.pool
  {
    var g := RunSteady(first, moves, trace, s);
    GenerationsBalance(trace, g, c);
    AcquiredStays(first, moves, trace, s, c);
    hide Reaches, SpecReaches, Init;
    NobodyReturns(s.threads, c);
    if c in g {
      AllFreed(g[c].freed, g[c].handed);
    }
  }

  lemma NobodyReturns(threads: seq<Thread>, c: ChunkId)
    requires forall t :: 0 <= t < |threads| ==> threads[t].pc == Idle
    ensures !ReturnedBySome(threads, c)
  {
  }

  /** In every run a thread owns at most one running generation that has slots left. */
  lemma OneOpenChunk(first: State, moves: seq<Move>, trace: seq<Event>, s: State)
      returns (g: map<ChunkId, Gen>)
    requires Init(first) && Reaches(first, moves, trace, s)
    ensures SpecReaches(trace, g)
    ensures forall c, d :: (c in g && d in g && g[c].owner == g[d].owner && g[c].owner < |s.threads| &&
              g[c].handed < 1000 && g[d].handed < 1000) ==> c == d
  {
    g := RunSteady(first, moves, trace, s);
    hide Reaches, SpecReaches, Init, Inv;
    forall c, d | c in g && d in g && g[c].owner == g[d].owner && g[c].owner < |s.threads| &&
      g[c].handed < 1000 && g[d].handed < 1000
      ensures c == d
    {
      var t := g[c].owner;
      assert OpenOk(g, t, s.threads[t]) && Open(g, t, c) && Open(g, t, d);
    }
  }

  // ----- an Alloc left alone -----

  lemma OneMore(first: State, moves: seq<Move>, trace: seq<Event>, s: State, t: nat, a: Choice)
    requires Reaches(first, moves, trace, s) && Enabled(s, t, a)
    ensures Reaches(first, moves + [Move(t, a)], trace + [Next(s, t, a).1], Next(s, t, a).0)
  {
    var n := |moves|;
    EventsMatch(first, moves, trace, s);
    var moves', trace', u := moves + [Move(t, a)], trace + [Next(s, t, a).1], Next(s, t, a).0;
    hide Enabled, Next;
    assert moves'[..n] == moves && trace'[..n] == trace;
    assert Reaches(first, moves'[..n], trace'[..n], s) && Enabled(s, moves'[n].t, moves'[n].a);
    assert (u, trace'[n]) == Next(s, moves'[n].t, moves'[n].a);
  }

  lemma EventsMatch(s: State, moves: seq<Move>, events: seq<Event>, u: State)
    requires Reaches(s, moves, events, u)
    ensures |events| == |moves|
  {
  }

  lemma {:induction false} OneAfterTheOther(first: State, moves: seq<Move>, trace: seq<Event>, s: State,
                                            moves': seq<Move>, trace': seq<Event>, u: State)
    requires Reaches(first, moves, trace, s) && Reaches(s, moves', trace', u)
    ensures Reaches(first, moves + moves', trace + trace', u)
    decreases |moves'|
  {
    EventsMatch(s, moves', trace', u);
    if moves' == [] {
      assert moves + moves' == moves && trace + trace' == trace;
    } else {
      var n := |moves'| - 1;
      var before :| && Reaches(s, moves'[..n], trace'[..n], before) && Enabled(before, moves'[n].t, moves'[n].a)
                    && (u, trace'[n]) == Next(before, moves'[n].t, moves'[n].a);
      hide Enabled, Next, Reaches;
      OneAfterTheOther(first, moves, trace, s, moves'[..n], trace'[..n], before);
      OneMore(first, moves + moves'[..n], trace + trace'[..n], before, moves'[n].t, moves'[n].a);
      Regroup(moves, moves'[..n], [moves'[n]]);
      Regroup(trace, trace'[..n], [trace'[n]]);
      assert moves' == moves'[..n] + [moves'[n]] && trace' == trace'[..n] + [trace'[n]];
      assert moves'[n] == Move(moves'[n].t, moves'[n].a);
    }
  }

  /** n accesses of thread t. */
  function Solo(t: nat, n: nat): (moves: seq<Move>)
    ensures |moves| == n
  {
    seq(n, _ => Move(t, Go))
  }

  lemma StepFirst(s: State, t: nat, a: Choice, moves: seq<Move>, events: seq<Event>, u: State)
    requires Enabled(s, t, a) && Reaches(Next(s, t, a).0, moves, events, u)
    ensures Reaches(s, [Move(t, a)] + moves, [Next(s, t, a).1] + events, u)
  {
    var (v, e) := Next(s, t, a);
    var move, event := [Move(t, a)], [e];
    assert Reaches(s, [], [], s);
    hide Reaches;
    OneMore(s, [], [], s, t, a);
    assert [] + [Move(t, a)] == move && [] + [e] == event;
    OneAfterTheOther(s, move, event, v, moves, events, u);
  }

  // How many accesses an Alloc on its way needs.
  function AllocRank(pc: Pc): nat {
    match pc
    case TestNull => 6
    case TestCount(_) => 5
    case TestOwner(_) => 4
    case SetOwner(_) => 7
    case SetAlloc(_) => 6
    case SetFree(_) => 5
    case SetTls(_) => 4
    case BumpRead(_) => 3
    case BumpWrite(_, _) => 2
    case HandOut(_, _) => 1
    case _ => 0
  }

  ghost predicate Steady(s: State, g: map<ChunkId, Gen>) {
    Inv(s, g) && AllOpenOk(g, s.threads)
  }

  lemma AllocStep(s: State, t: nat, g: map<ChunkId, Gen>, c: ChunkId)
    requires Steady(s, g) && t < |s.threads| && Open(g, t, c) && AllocRank(s.threads[t].pc) > 0
    ensures Enabled(s, t, Go)
    ensures var (u, e) := Next(s, t, Go); var pc, pc' := s.threads[t].pc, u.threads[t].pc;
      && AllocRank(pc') == AllocRank(pc) - 1
      && if AllocRank(pc) == 1 then e == Handed(t, Slot(c, g[c].handed)) && pc' == Idle
         else e == Silent && Steady(u, g)
  {
    AllocCurrent(s, t, g, c);
    hide Inv, AllOpenOk;
    var pc := s.threads[t].pc;
    if pc.HandOut? {
      AllocHands(s, t, g, c);
    } else {
      StepRefines(s, t, Go, g);
      OpenStep(s, t, Go, g);
      AllocMoves(s, t, g, c);
    }
  }

  // The chunk that a thread on its way works on is its open one.
  lemma AllocCurrent(s: State, t: nat, g: map<ChunkId, Gen>, c: ChunkId)
    requires Steady(s, g) && t < |s.threads| && Open(g, t, c) && AllocRank(s.threads[t].pc) > 0
    ensures IsCurrent(s.threads[t], c) && ThreadOk(s.m, g, t, s.threads[t])
    ensures c in s.m.chunks && ChunkOk(s.m.chunks[c], g[c], c, s.threads[t].pc)
    ensures Enabled(s, t, Go)
    ensures var pc := s.threads[t].pc; pc.BumpRead? || pc.BumpWrite? || pc.HandOut? ==> pc.c == c
  {
    assert OpenOk(g, t, s.threads[t]);
    assert ChunkOkAt(s.m, g, s.threads, c);
    assert ThreadOk(s.m, g, t, s.threads[t]);
    var pc := s.threads[t].pc;
    if pc.BumpRead? || pc.BumpWrite? || pc.HandOut? {
      assert Open(g, t, pc.c);
    }
  }

  lemma AllocHands(s: State, t: nat, g: map<ChunkId, Gen>, c: ChunkId)
    requires Enabled(s, t, Go) && s.threads[t].pc.HandOut? && s.threads[t].pc.c == c && c in g && c in s.m.chunks
    requires ChunkOk(s.m.chunks[c], g[c], c, s.threads[t].pc)
    ensures var (u, e) := Next(s, t, Go); e == Handed(t, Slot(c, g[c].handed)) && u.threads[t].pc == Idle
  {
  }

  lemma AllocMoves(s: State, t: nat, g: map<ChunkId, Gen>, c: ChunkId)
    requires Enabled(s, t, Go) && AllocRank(s.threads[t].pc) > 1 && IsCurrent(s.threads[t], c) && Open(g, t, c)
    requires c in s.m.chunks && ChunkOk(s.m.chunks[c], g[c], c, s.threads[t].pc) && ThreadOk(s.m, g, t, s.threads[t])
    ensures var (u, e) := Next(s, t, Go);
      e == Silent && AllocRank(u.threads[t].pc) == AllocRank(s.threads[t].pc) - 1
  {
  }

  /** An Alloc on its way, left alone, hands out the next slot of the thread's open chunk. */
  lemma {:induction false} AllocOn(s: State, t: nat, g: map<ChunkId, Gen>, c: ChunkId)
      returns (events: seq<Event>, u: State)
    requires Steady(s, g) && t < |s.threads| && Open(g, t, c) && AllocRank(s.threads[t].pc) > 0
    ensures Reaches(s, Solo(t, AllocRank(s.threads[t].pc)), events, u)
    ensures |events| == AllocRank(s.threads[t].pc) && events[|events| - 1] == Handed(t, Slot(c, g[c].handed))
    ensures t < |u.threads| && u.threads[t].pc == Idle
    decreases AllocRank(s.threads[t].pc)
  {
    hide Reaches, Steady, AllocRank, Next, Enabled, Open;
    AllocStep(s, t, g, c);
    var rank := AllocRank(s.threads[t].pc);
    var v, e := Next(s, t, Go).0, Next(s, t, Go).1;
    ThreadsStay(s, t, Go);
    if rank == 1 {
      NoStep(v);
      u := v;
      StepFirst(s, t, Go, [], [], u);
      events := [e] + [];
      assert Solo(t, 1) == [Move(t, Go)] + [];
    } else {
      var later;
      later, u := AllocOn(v, t, g, c);
      StepFirst(s, t, Go, Solo(t, rank - 1), later, u);
      events := [e] + later;
      assert Solo(t, rank) == [Move(t, Go)] + Solo(t, rank - 1);
    }
  }

  lemma NoStep(s: State)
    ensures Reaches(s, [], [], s)
  {
  }

  lemma ThreadsStay(s: State, t: nat, a: Choice)
    requires Enabled(s, t, a)
    ensures |Next(s, t, a).0.threads| == |s.threads|
  {
  }

  /** In every run, an Alloc of a thread that owns a running generation with slots left, and is
      then left alone, hands out the next slot of that generation within six accesses. */
  lemma AllocGoesOn(first: State, moves: seq<Move>, trace: seq<Event>, s: State, t: nat, c: ChunkId)
      returns (g: map<ChunkId, Gen>, events: seq<Event>, u: State)
    requires Init(first) && Reaches(first, moves, trace, s) && t < |s.threads| && s.threads[t].pc == Idle
    ensures SpecReaches(trace, g)
    ensures c in g && g[c].owner == t && g[c].handed < 1000 ==>
      && Reaches(s, [Move(t, CallAlloc)] + Solo(t, 6), events, u) && t < |u.threads| && u.threads[t].pc == Idle
      && |events| == 7 && events[6] == Handed(t, Slot(c, g[c].handed))
  {
    g := RunSteady(first, moves, trace, s);
    events, u := [], s;
    if c in g && g[c].owner == t && g[c].handed < 1000 {
      AllocCalled(s, t, g);
      hide Reaches, SpecReaches, Init, Steady, Inv, AllOpenOk, Next, Enabled, Solo, AllocRank, Attended;
      events, u := StepThenAlloc(s, t, CallAlloc, g, c);
    }
  }

  // One more access, after which the thread is on its way with chunk c as its open one.
  lemma StepThenAlloc(s: State, t: nat, a: Choice, g: map<ChunkId, Gen>, c: ChunkId)
      returns (events: seq<Event>, u: State)
    requires Enabled(s, t, a) && Steady(Next(s, t, a).0, g) && t < |Next(s, t, a).0.threads| && Open(g, t, c)
    requires AllocRank(Next(s, t, a).0.threads[t].pc) > 0
    ensures var n := AllocRank(Next(s, t, a).0.threads[t].pc);
      && Reaches(s, [Move(t, a)] + Solo(t, n), events, u) && t < |u.threads| && u.threads[t].pc == Idle
      && |events| == n + 1 && events[0] == Next(s, t, a).1 && events[n] == Handed(t, Slot(c, g[c].handed))
  {
    hide Reaches, Steady, Next, Enabled, Solo, Open, AllocRank;
    var v := Next(s, t, a).0;
    var later;
    later, u := AllocOn(v, t, g, c);
    StepFirst(s, t, a, Solo(t, AllocRank(v.threads[t].pc)), later, u);
    events := [Next(s, t, a).1] + later;
  }

  lemma AllocCalled(s: State, t: nat, g: map<ChunkId, Gen>)
    requires Inv(s, g) && AllOpenOk(g, s.threads) && t < |s.threads| && s.threads[t].pc == Idle
    ensures Enabled(s, t, CallAlloc)
    ensures var (v, e) := Next(s, t, CallAlloc);
      e == Silent && Steady(v, g) && |v.threads| == |s.threads| && AllocRank(v.threads[t].pc) == 6
  {
    StepRefines(s, t, CallAlloc, g);
    OpenStep(s, t, CallAlloc, g);
  }

  /** In every run, a thread that has found no chunk to go on with, is given chunk c by the pool
      and is then left alone, hands out slot 0 of it after seven accesses. */
  lemma AllocFromPool(first: State, moves: seq<Move>, trace: seq<Event>, s: State, t: nat, a: Choice)
      returns (events: seq<Event>, u: State)
    requires Init(first) && Reaches(first, moves, trace, s) && t < |s.threads| && s.threads[t].pc == Acquire
    requires a.Give? && (a.c in s.m.pool || a.c !in s.m.chunks)
    ensures Reaches(s, [Move(t, a)] + Solo(t, 7), events, u) && t < |u.threads| && u.threads[t].pc == Idle
    ensures |events| == 8 && events[0] == Acquired(t, a.c) && events[7] == Handed(t, Slot(a.c, 0))
  {
    var g := RunSteady(first, moves, trace, s);
    ChunkGiven(s, t, a, g);
    hide Reaches, SpecReaches, Init, Steady, Inv, AllOpenOk, Next, Enabled, Solo, AllocRank, Attended;
    events, u := StepThenAlloc(s, t, a, SpecNext(g, Next(s, t, a).1), a.c);
  }

  lemma ChunkGiven(s: State, t: nat, a: Choice, g: map<ChunkId, Gen>)
    requires Inv(s, g) && AllOpenOk(g, s.threads) && t < |s.threads| && s.threads[t].pc == Acquire
    requires a.Give? && (a.c in s.m.pool || a.c !in s.m.chunks)
    ensures Enabled(s, t, a)
    ensures var (v, e) := Next(s, t, a);
      && e == Acquired(t, a.c) && SpecEnabled(g, e) && SpecNext(g, e)[a.c].handed == 0
      && Steady(v, SpecNext(g, e)) && Open(SpecNext(g, e), t, a.c)
      && |v.threads| == |s.threads| && AllocRank(v.threads[t].pc) == 7
  {
    StepRefines(s, t, a, g);
    OpenStep(s, t, a, g);
  }
}
