/** Progress of the lock-free stack: from any state of any run, a thread that is left to run
    alone finishes its call within nine accesses, and the call does what it is for. */
module LockFreeProgress {
  import opened Basics
  import opened Sums
  import opened LockFreeStack

  /** n accesses of thread t. */
  function Solo(t: nat, n: nat): seq<Move> {
    seq(n, _ => Move(t, Go))
  }

  lemma RunOne(first: State, moves: seq<Move>, t: nat, a: Choice)
    requires Run(first, moves).Some? && Enabled(Run(first, moves).value, t, a)
    ensures var (u, e) := Next(Run(first, moves).value, t, a);
      && Run(first, moves + [Move(t, a)]) == Some(u)
      && Trace(first, moves + [Move(t, a)]) == Trace(first, moves) + [e]
  {
    assert (moves + [Move(t, a)])[..|moves|] == moves;
  }

  lemma SoloLonger(moves: seq<Move>, t: nat, n: nat)
    ensures moves + Solo(t, n + 1) == (moves + [Move(t, Go)]) + Solo(t, n)
  {
  }

  // How many accesses a running pop needs, at most: a stale one first fails and starts again.
  function PopRank(m: Memory, pc: Pc): nat {
    match pc
    case PopCounter => 6
    case PopTop(c) => if c == m.counter then 5 else 9
    case PopNext(c, p) => if c == m.counter && p == m.top then 4 else 8
    case PopCas(c, p, _) => if c == m.counter && p == m.top then 3 else 7
    case PopData(_) => 2
    case PopFree(_, _) => 1
    case _ => 0
  }

  function PushRank(m: Memory, pc: Pc): nat {
    match pc
    case PushData(_, _) => 5
    case PushTop(_, _) => 4
    case PushNext(_, _, ptop) => if ptop == m.top then 3 else 6
    case PushCas(_, _, ptop) => if ptop == m.top then 2 else 5
    case PushCount => 1
    case _ => 0
  }

  lemma SoloNone(moves: seq<Move>, t: nat)
    ensures moves + Solo(t, 0) == moves
  {
  }

  // The run is possible and keeps the invariant.
  ghost predicate Holds(first: State, moves: seq<Move>, chain: seq<Ptr>, owed: seq<Option<int>>) {
    && Run(first, moves).Some? && Linked(Run(first, moves).value.m, chain)
    && Inv(Run(first, moves).value, chain, owed)
  }

  /** The values on the stack after the run, the top one first. */
  ghost function Stack(first: State, moves: seq<Move>, chain: seq<Ptr>): seq<int>
    requires Run(first, moves).Some? && Linked(Run(first, moves).value.m, chain)
  {
    Contents(Run(first, moves).value.m, chain)
  }

  lemma Reached(first: State, moves: seq<Move>) returns (chain: seq<Ptr>, owed: seq<Option<int>>)
    requires Init(first) && Run(first, moves).Some?
    ensures Holds(first, moves, chain, owed)
  {
    var states;
    states, chain, owed := RunRefines(first, moves);
  }

  /** One access, with what it does to the stack. */
  lemma StepAlone(first: State, moves: seq<Move>, t: nat, a: Choice, chain: seq<Ptr>, owed: seq<Option<int>>)
      returns (longer: seq<Move>, e: Event, c: seq<Ptr>, o: seq<Option<int>>)
    requires Holds(first, moves, chain, owed) && Enabled(Run(first, moves).value, t, a)
    ensures longer == moves + [Move(t, a)] && Holds(first, longer, c, o)
    ensures (Run(first, longer).value, e) == Next(Run(first, moves).value, t, a)
    ensures Trace(first, longer) == Trace(first, moves) + [e]
    ensures SpecStep(Spec(Stack(first, moves, chain), owed), t, e, Spec(Stack(first, longer, c), o))
  {
    c, o := StepRefines(Run(first, moves).value, t, a, chain, owed);
    e := Next(Run(first, moves).value, t, a).1;
    RunOne(first, moves, t, a);
    longer := moves + [Move(t, a)];
    hide Run, Trace, Inv, Act;
  }

  lemma CanGo(s: State, chain: seq<Ptr>, owed: seq<Option<int>>, t: nat)
    requires Inv(s, chain, owed) && t < |s.threads| && s.threads[t] != Idle
    ensures Enabled(s, t, Go)
  {
    assert LocalOk(s.m, chain, s.threads[t], owed[t]);
  }

  ghost function PcOf(first: State, moves: seq<Move>, t: nat): Pc
    requires Run(first, moves).Some? && t < |Run(first, moves).value.threads|
  {
    Run(first, moves).value.threads[t]
  }

  ghost function RankOf(first: State, moves: seq<Move>, t: nat): nat
    requires Run(first, moves).Some? && t < |Run(first, moves).value.threads|
  {
    PopRank(Run(first, moves).value.m, PcOf(first, moves, t))
  }

  lemma PopStep(first: State, moves: seq<Move>, t: nat, chain: seq<Ptr>, owed: seq<Option<int>>)
      returns (longer: seq<Move>, e: Event, c: seq<Ptr>, o: seq<Option<int>>)
    requires Holds(first, moves, chain, owed) && t < |Run(first, moves).value.threads| && RankOf(first, moves, t) > 0
    ensures longer == moves + [Move(t, Go)] && Holds(first, longer, c, o) && |owed| > t && |o| > t
    ensures Trace(first, longer) == Trace(first, moves) + [e]
    ensures t < |Run(first, longer).value.threads| && RankOf(first, longer, t) == RankOf(first, moves, t) - 1
    ensures Run(first, longer).value.threads == Run(first, moves).value.threads[t := PcOf(first, longer, t)]
    ensures RankOf(first, moves, t) == 1 ==>
              PcOf(first, longer, t) == Idle && owed[t].Some? && e == Returned(owed[t].value)
    ensures var stack, stack' := Stack(first, moves, chain), Stack(first, longer, c);
      if e.Popped? then owed[t] == None && stack != [] && e.v == stack[0] && stack' == stack[1..] && o[t] == Some(e.v)
      else stack' == stack && (RankOf(first, moves, t) > 1 ==> o[t] == owed[t])
    ensures owed[t] == None && RankOf(first, moves, t) > 1 && !e.Popped? ==> o[t] == None
  {
    var s := Run(first, moves).value;
    CanGo(s, chain, owed, t);
    PopLocal(s, chain, owed, t);
    PopGoes(s, chain, owed, t);
    hide Inv, Run, Trace, LocalOk, Contents, PopRank, Linked;
    longer, e, c, o := StepAlone(first, moves, t, Go, chain, owed);
    hide Enabled, Act;
  }

  /** A pop that is under way and runs alone: once its node is unlinked it returns that value;
      before, it takes the top value off and returns it. */
  lemma {:induction false} PopOn(first: State, moves: seq<Move>, t: nat, chain: seq<Ptr>, owed: seq<Option<int>>)
      returns (longer: seq<Move>, events: seq<Event>, c: seq<Ptr>, o: seq<Option<int>>)
    requires Holds(first, moves, chain, owed) && t < |Run(first, moves).value.threads| && RankOf(first, moves, t) > 0
    requires |owed| > t
    ensures longer == moves + Solo(t, RankOf(first, moves, t))
    ensures Holds(first, longer, c, o) && Trace(first, longer) == Trace(first, moves) + events
    ensures Run(first, longer).value.threads == Run(first, moves).value.threads[t := Idle]
    ensures var stack, stack' := Stack(first, moves, chain), Stack(first, longer, c);
      if owed[t].Some? then Returned(owed[t].value) in events && stack' == stack
      else stack != [] && Popped(stack[0]) in events && Returned(stack[0]) in events && stack' == stack[1..]
    decreases RankOf(first, moves, t)
  {
    hide Inv, Run, Trace, RankOf, PcOf, Stack, Solo;
    var e;
    var rank := RankOf(first, moves, t);
    longer, e, c, o := PopStep(first, moves, t, chain, owed);
    SoloLonger(moves, t, rank - 1);
    events := [e];
    if rank == 1 {
      SoloNone(longer, t);
    } else {
      var more;
      longer, more, c, o := PopOn(first, longer, t, c, o);
      events := [e] + more;
    }
  }

  // What a popping thread has to show.
  lemma PopLocal(s: State, chain: seq<Ptr>, owed: seq<Option<int>>, t: nat)
    requires Inv(s, chain, owed) && t < |s.threads| && PopRank(s.m, s.threads[t]) > 0
    ensures |owed| == |s.threads|
    ensures owed[t].Some? <==> s.threads[t].PopData? || s.threads[t].PopFree?
    ensures s.threads[t].PopFree? ==> owed[t] == Some(s.threads[t].v)
  {
    assert LocalOk(s.m, chain, s.threads[t], owed[t]);
  }

  // Alone, each access brings a pop one step nearer to its end.
  lemma PopGoes(s: State, chain: seq<Ptr>, owed: seq<Option<int>>, t: nat)
    requires Inv(s, chain, owed) && Enabled(s, t, Go) && PopRank(s.m, s.threads[t]) > 0
    ensures var (u, e) := Next(s, t, Go); var pc, pc' := s.threads[t], u.threads[t];
      && PopRank(u.m, pc') == PopRank(s.m, pc) - 1
      && (PopRank(s.m, pc) == 1 ==> pc' == Idle && e.Returned?)
      && (PopRank(s.m, pc) == 3 <==> e.Popped?) && (e.Returned? ==> PopRank(s.m, pc) == 1)
      && !e.Pushed?
  {
  }

  ghost function PushRankOf(first: State, moves: seq<Move>, t: nat): nat
    requires Run(first, moves).Some? && t < |Run(first, moves).value.threads|
  {
    PushRank(Run(first, moves).value.m, PcOf(first, moves, t))
  }

  lemma PushStep(first: State, moves: seq<Move>, t: nat, v: int, chain: seq<Ptr>, owed: seq<Option<int>>)
      returns (longer: seq<Move>, e: Event, c: seq<Ptr>, o: seq<Option<int>>)
    requires Holds(first, moves, chain, owed) && t < |Run(first, moves).value.threads|
    requires Pushing(PcOf(first, moves, t), v) || PcOf(first, moves, t) == PushCount
    ensures longer == moves + [Move(t, Go)] && Holds(first, longer, c, o)
    ensures Trace(first, longer) == Trace(first, moves) + [e]
    ensures t < |Run(first, longer).value.threads|
    ensures PushRankOf(first, moves, t) > 0 && PushRankOf(first, longer, t) == PushRankOf(first, moves, t) - 1
    ensures Run(first, longer).value.threads == Run(first, moves).value.threads[t := PcOf(first, longer, t)]
    ensures PushRankOf(first, moves, t) == 1 <==> PcOf(first, moves, t) == PushCount
    ensures PushRankOf(first, moves, t) == 1 ==> PcOf(first, longer, t) == Idle
    ensures var stack, stack' := Stack(first, moves, chain), Stack(first, longer, c);
      if PcOf(first, longer, t) == PushCount then e == Pushed(v) && stack' == [v] + stack
      else stack' == stack && (PushRankOf(first, moves, t) > 1 ==> Pushing(PcOf(first, longer, t), v))
  {
    var s := Run(first, moves).value;
    CanGo(s, chain, owed, t);
    PushGoes(s, chain, owed, t, v);
    hide Inv, Run, Trace, LocalOk, Contents, PushRank, Linked;
    longer, e, c, o := StepAlone(first, moves, t, Go, chain, owed);
    hide Enabled, Act;
  }

  /** A push that is under way and runs alone: before its node is linked, it puts its value on
      top; after, only the counting is left. */
  lemma {:induction false} PushOn(first: State, moves: seq<Move>, t: nat, v: int,
                                  chain: seq<Ptr>, owed: seq<Option<int>>)
      returns (longer: seq<Move>, events: seq<Event>, c: seq<Ptr>, o: seq<Option<int>>)
    requires Holds(first, moves, chain, owed) && t < |Run(first, moves).value.threads|
    requires Pushing(PcOf(first, moves, t), v) || PcOf(first, moves, t) == PushCount
    ensures longer == moves + Solo(t, PushRankOf(first, moves, t))
    ensures Holds(first, longer, c, o) && Trace(first, longer) == Trace(first, moves) + events
    ensures Run(first, longer).value.threads == Run(first, moves).value.threads[t := Idle]
    ensures var stack, stack' := Stack(first, moves, chain), Stack(first, longer, c);
      if PcOf(first, moves, t) == PushCount then stack' == stack
      else Pushed(v) in events && stack' == [v] + stack
    decreases PushRankOf(first, moves, t)
  {
    hide Inv, Run, Trace, PushRankOf, PcOf, Stack, Solo, Pushing;
    var e;
    var rank := PushRankOf(first, moves, t);
    longer, e, c, o := PushStep(first, moves, t, v, chain, owed);
    SoloLonger(moves, t, rank - 1);
    events := [e];
    if rank == 1 {
      SoloNone(longer, t);
    } else {
      var more;
      longer, more, c, o := PushOn(first, longer, t, v, c, o);
      events := [e] + more;
    }
  }

  /** A push of v that has not linked its node. */
  predicate Pushing(pc: Pc, v: int) {
    (pc.PushData? || pc.PushTop? || pc.PushNext? || pc.PushCas?) && pc.v == v
  }

  // Alone, each access brings a push one step nearer to its end.
  lemma PushGoes(s: State, chain: seq<Ptr>, owed: seq<Option<int>>, t: nat, v: int)
    requires Inv(s, chain, owed) && Enabled(s, t, Go)
    requires Pushing(s.threads[t], v) || s.threads[t] == PushCount
    ensures var (u, e) := Next(s, t, Go); var pc, pc' := s.threads[t], u.threads[t];
      && PushRank(s.m, pc) > 0 && PushRank(u.m, pc') == PushRank(s.m, pc) - 1
      && (PushRank(s.m, pc) == 1 ==> pc == PushCount && pc' == Idle)
      && (if Pushing(pc, v) then (Pushing(pc', v) && e == Silent) || (pc' == PushCount && e == Pushed(v))
          else e == Silent)
  {
  }

  /** In every run, a pop that has passed the size test, or has just unlinked its node, and is
      then left alone returns within nine accesses: the top value, which it takes off, or the
      value it has unlinked. */
  lemma PopEndsAlone(first: State, moves: seq<Move>, t: nat)
      returns (n: nat, longer: seq<Move>, events: seq<Event>, chain: seq<Ptr>, c: seq<Ptr>, v: int)
    requires Init(first) && Run(first, moves).Some? && t < |Run(first, moves).value.threads|
    requires var pc := Run(first, moves).value.threads[t]; Reserved(pc) == 1 || pc.PopData? || pc.PopFree?
    ensures n <= 9 && longer == moves + Solo(t, n) && Run(first, longer).Some?
    ensures Trace(first, longer) == Trace(first, moves) + events && Returned(v) in events
    ensures Run(first, longer).value.threads == Run(first, moves).value.threads[t := Idle]
    ensures Linked(Run(first, moves).value.m, chain) && Linked(Run(first, longer).value.m, c)
    ensures if Reserved(Run(first, moves).value.threads[t]) == 1 then
              Stack(first, moves, chain) == [v] + Stack(first, longer, c) && Popped(v) in events
            else Stack(first, longer, c) == Stack(first, moves, chain)
  {
    var owed, o;
    chain, owed := Reached(first, moves);
    hide Init, Run, Trace;
    var s := Run(first, moves).value;
    n := PopRank(s.m, s.threads[t]);
    PopLocal(s, chain, owed, t);
    longer, events, c, o := PopOn(first, moves, t, chain, owed);
    v := if owed[t].Some? then owed[t].value else Stack(first, moves, chain)[0];
  }

  /** In every run, a push that is under way and then left alone ends within six accesses, with
      its value on top. */
  lemma PushEndsAlone(first: State, moves: seq<Move>, t: nat, v: int)
      returns (n: nat, longer: seq<Move>, events: seq<Event>, chain: seq<Ptr>, c: seq<Ptr>)
    requires Init(first) && Run(first, moves).Some? && t < |Run(first, moves).value.threads|
    requires Pushing(Run(first, moves).value.threads[t], v)
    ensures n <= 6 && longer == moves + Solo(t, n) && Run(first, longer).Some?
    ensures Trace(first, longer) == Trace(first, moves) + events && Pushed(v) in events
    ensures Run(first, longer).value.threads == Run(first, moves).value.threads[t := Idle]
    ensures Linked(Run(first, moves).value.m, chain) && Linked(Run(first, longer).value.m, c)
    ensures Stack(first, longer, c) == [v] + Stack(first, moves, chain)
  {
    var owed, o;
    chain, owed := Reached(first, moves);
    hide Init, Run, Trace;
    n := PushRank(Run(first, moves).value.m, Run(first, moves).value.threads[t]);
    longer, events, c, o := PushOn(first, moves, t, v, chain, owed);
  }

  lemma PopCalled(first: State, moves: seq<Move>, t: nat, chain: seq<Ptr>, owed: seq<Option<int>>)
      returns (called: seq<Move>, e: Event, c: seq<Ptr>, o: seq<Option<int>>)
    requires Holds(first, moves, chain, owed) && t < |Run(first, moves).value.threads|
    requires PcOf(first, moves, t) == Idle && Run(first, moves).value.m.size > 0
    ensures called == moves + [Move(t, CallPop)] && Holds(first, called, c, o) && |o| > t && o[t] == None
    ensures t < |Run(first, called).value.threads| && RankOf(first, called, t) == 6
    ensures Trace(first, called) == Trace(first, moves) + [e]
    ensures Run(first, called).value.threads[t := Idle] == Run(first, moves).value.threads
    ensures Stack(first, called, c) == Stack(first, moves, chain)
  {
    IdleOwesNothing(Run(first, moves).value, chain, owed, t);
    hide Inv, Run, Trace, LocalOk, Contents, Linked;
    called, e, c, o := StepAlone(first, moves, t, CallPop, chain, owed);
  }

  lemma PushCalled(first: State, moves: seq<Move>, t: nat, a: Choice, chain: seq<Ptr>, owed: seq<Option<int>>)
      returns (called: seq<Move>, e: Event, c: seq<Ptr>, o: seq<Option<int>>)
    requires Holds(first, moves, chain, owed) && Enabled(Run(first, moves).value, t, a)
    requires PcOf(first, moves, t) == Idle && a.CallPush?
    ensures called == moves + [Move(t, a)] && Holds(first, called, c, o)
    ensures t < |Run(first, called).value.threads| && Pushing(PcOf(first, called, t), a.v)
    ensures PushRankOf(first, called, t) == 5 && Trace(first, called) == Trace(first, moves) + [e]
    ensures PcOf(first, called, t) != PushCount
    ensures Run(first, called).value.threads[t := Idle] == Run(first, moves).value.threads
    ensures Stack(first, called, c) == Stack(first, moves, chain)
  {
    hide Inv, Run, Trace, LocalOk, Contents, Linked;
    called, e, c, o := StepAlone(first, moves, t, a, chain, owed);
  }

  /** In every run, with no other call under way and the stack not empty, a Pop takes exactly six
      accesses after its size test and takes off and returns the top value. */
  lemma PopAlone(first: State, moves: seq<Move>, t: nat)
      returns (longer: seq<Move>, events: seq<Event>, chain: seq<Ptr>, c: seq<Ptr>, v: int)
    requires Init(first) && Run(first, moves).Some? && t < |Run(first, moves).value.threads|
    requires forall u :: 0 <= u < |Run(first, moves).value.threads| ==> Run(first, moves).value.threads[u] == Idle
    requires Run(first, moves).value.m.top != NULL
    ensures longer == moves + [Move(t, CallPop)] + Solo(t, 6) && Run(first, longer).Some?
    ensures Trace(first, longer) == Trace(first, moves) + events && Popped(v) in events && Returned(v) in events
    ensures Run(first, longer).value.threads == Run(first, moves).value.threads
    ensures Linked(Run(first, moves).value.m, chain) && Linked(Run(first, longer).value.m, c)
    ensures Stack(first, moves, chain) == [v] + Stack(first, longer, c)
  {
    hide Init, Run, Trace, Contents, Linked, RankOf, Solo, Stack, Inv;
    var owed;
    chain, owed := Reached(first, moves);
    SizeWhenQuiet(Run(first, moves).value, chain, owed);
    var called, e, c1, o1 := PopCalled(first, moves, t, chain, owed);
    var more, o;
    longer, more, c, o := PopOn(first, called, t, c1, o1);
    events := [e] + more;
    v := Stack(first, called, c1)[0];
  }

  /** Likewise a Push of v, whoever else is in the middle of a call, takes five accesses after it
      has got its node, and puts v on top. */
  lemma PushAlone(first: State, moves: seq<Move>, t: nat, v: int, node: Ptr, junk: int, junkNext: Ptr)
      returns (longer: seq<Move>, events: seq<Event>, chain: seq<Ptr>, c: seq<Ptr>)
    requires Init(first) && Run(first, moves).Some? && t < |Run(first, moves).value.threads|
    requires Run(first, moves).value.threads[t] == Idle
    requires Enabled(Run(first, moves).value, t, CallPush(v, node, junk, junkNext))
    ensures longer == moves + [Move(t, CallPush(v, node, junk, junkNext))] + Solo(t, 5) && Run(first, longer).Some?
    ensures Trace(first, longer) == Trace(first, moves) + events && Pushed(v) in events
    ensures Run(first, longer).value.threads == Run(first, moves).value.threads
    ensures Linked(Run(first, moves).value.m, chain) && Linked(Run(first, longer).value.m, c)
    ensures Stack(first, longer, c) == [v] + Stack(first, moves, chain)
  {
    var owed;
    chain, owed := Reached(first, moves);
    hide Init, Run, Trace, Contents, Linked, Stack, PushRankOf, Pushing, Solo, Enabled;
    var called, e, c1, o1 := PushCalled(first, moves, t, CallPush(v, node, junk, junkNext), chain, owed);
    var more, o;
    longer, more, c, o := PushOn(first, called, t, v, c1, o1);
    events := [e] + more;
  }

  // With no call under way the size counter is the number of linked nodes.
  lemma SizeWhenQuiet(s: State, chain: seq<Ptr>, owed: seq<Option<int>>)
    requires Inv(s, chain, owed) && forall u :: 0 <= u < |s.threads| ==> s.threads[u] == Idle
    ensures s.m.size == |chain| && (s.m.top != NULL ==> |chain| > 0)
  {
    SumZero(s.threads, Uncounted);
    SumZero(s.threads, Reserved);
    SumZero(s.threads, Failing);
  }

  lemma IdleOwesNothing(s: State, chain: seq<Ptr>, owed: seq<Option<int>>, t: nat)
    requires Inv(s, chain, owed) && t < |s.threads| && s.threads[t] == Idle
    ensures |owed| == |s.threads| && owed[t] == None
  {
    assert LocalOk(s.m, chain, s.threads[t], owed[t]);
  }

  /** Every node ever allocated is linked, free for reuse, or in the hands of one thread. */
  ghost predicate Accounted(s: State, chain: seq<Ptr>) {
    forall p :: p in s.m.data && p != NULL ==> p in chain || p in s.m.free || HeldBySome(s.threads, p)
  }

  ghost predicate HeldBySome(threads: seq<Pc>, p: Ptr) {
    exists t: nat :: t < |threads| && Held(threads[t]) == p
  }

  lemma StepAccounts(s: State, t: nat, a: Choice, chain: seq<Ptr>, c: seq<Ptr>)
    requires Enabled(s, t, a) && Accounted(s, chain) && ChainStep(s.threads[t], Next(s, t, a).0.threads[t], chain, c)
    ensures Accounted(Next(s, t, a).0, c)
  {
    var (u, e) := Next(s, t, a);
    var pc, pc' := s.threads[t], u.threads[t];
    forall p | p in u.m.data && p != NULL ensures p in c || p in u.m.free || HeldBySome(u.threads, p) {
      assert Held(pc') == p ==> HeldBySome(u.threads, p);
      if p in s.m.data && p !in s.m.free {
        if p in chain {
          assert p in c || p == Held(pc');
        } else {
          var w: nat :| w < |s.threads| && Held(s.threads[w]) == p;
          if w == t {
            assert p in c || p in u.m.free || p == Held(pc');
          } else {
            assert u.threads[w] == s.threads[w];
          }
        }
      } else {
        assert p in u.m.free || p == Held(pc');
      }
    }
  }

  /** In every run no node is lost, so every popped node can be pushed again. */
  lemma {:induction false} NoNodeLost(first: State, moves: seq<Move>) returns (chain: seq<Ptr>, owed: seq<Option<int>>)
    requires Init(first) && Run(first, moves).Some?
    ensures Inv(Run(first, moves).value, chain, owed) && Accounted(Run(first, moves).value, chain)
    decreases |moves|
  {
    if moves == [] {
      InitInv(first);
      chain, owed := [], seq(|first.threads|, _ => None);
    } else {
      var n := |moves| - 1;
      var before, o := NoNodeLost(first, moves[..n]);
      hide Inv, Init, Accounted;
      chain, owed := StepRefines(Run(first, moves[..n]).value, moves[n].t, moves[n].a, before, o);
      StepAccounts(Run(first, moves[..n]).value, moves[n].t, moves[n].a, before, chain);
    }
  }
}
