/** The thread-local chunk pool as atomic, sequentially consistent steps.

    Each thread bump-allocates from the chunk its TLS slot names. Any thread may free any
    slot; the free that completes a chunk returns it to the shared pool, from which another
    thread may acquire it while the first thread's TLS slot still names it. One step is one
    shared access of the source; the shared pool is an atomic set. */
module ChunkPool {
  import opened Basics

  const MAX_SIZE: nat := 1000

  type ChunkId = nat

  datatype Chunk = Chunk(threadID: nat, allocCount: int, freeCount: int)

  datatype Slot = Slot(c: ChunkId, k: nat)

  /** Where a thread is; the comment names the access it performs next. */
  datatype Pc =
    | Idle
    | TestNull                       // chunk == nullptr, on the thread's own TLS value
    | TestCount(c: ChunkId)          // chunk->mAllocCount == MAX_SIZE
    | TestOwner(c: ChunkId)          // chunk->threadID != myID
    | Acquire                        // mMemoryPool->Alloc()
    | SetOwner(c: ChunkId)           // chunk->threadID = myID
    | SetAlloc(c: ChunkId)           // chunk->mAllocCount = 0
    | SetFree(c: ChunkId)            // chunk->mFreeCount = 0
    | SetTls(c: ChunkId)             // TlsSetValue
    | BumpRead(c: ChunkId)           // read of mAllocCount in mAllocCount++
    | BumpWrite(c: ChunkId, k: nat)  // write of mAllocCount
    | HandOut(c: ChunkId, k: nat)    // fill the element and return it
    | FreeInc(s: Slot)               // ++mFreeCount
    | Recycle(c: ChunkId)            // the chunk goes back to the shared pool

  datatype Thread = Thread(tls: Option<ChunkId>, pc: Pc)

  /** `live` are the slots that clients hold. */
  datatype Memory = Memory(chunks: map<ChunkId, Chunk>, pool: set<ChunkId>, live: set<Slot>)

  datatype State = State(m: Memory, threads: seq<Thread>)

  /** An idle thread allocates, or frees a slot that some client holds. The pool answers
      with a recycled chunk or with a new one, whose threadID and mFreeCount are not
      initialised. */
  datatype Choice = Go | CallAlloc | CallFree(s: Slot) | Give(c: ChunkId, junkOwner: nat, junkFree: int)

  datatype Event =
    | Silent
    | Acquired(t: nat, c: ChunkId)
    | Handed(t: nat, s: Slot)
    | Released(s: Slot)     // a client starts to free a slot
    | Freed(s: Slot)
    | Recycled(c: ChunkId)

  ghost predicate Init(s: State) {
    && s.m == Memory(map[], {}, {})
    && forall t :: 0 <= t < |s.threads| ==> s.threads[t] == Thread(None, Idle)
  }

  ghost predicate Allowed(m: Memory, pc: Pc, a: Choice) {
    match pc
    case Idle => a.CallAlloc? || (a.CallFree? && a.s in m.live)
    case Acquire => a.Give? && (a.c in m.pool || a.c !in m.chunks)
    case TestCount(c) => a.Go? && c in m.chunks
    case TestOwner(c) => a.Go? && c in m.chunks
    case SetOwner(c) => a.Go? && c in m.chunks
    case SetAlloc(c) => a.Go? && c in m.chunks
    case SetFree(c) => a.Go? && c in m.chunks
    case BumpRead(c) => a.Go? && c in m.chunks && m.chunks[c].allocCount >= 0
    case BumpWrite(c, _) => a.Go? && c in m.chunks
    case FreeInc(s) => a.Go? && s.c in m.chunks
    case _ => a.Go?
  }

  function Put(m: Memory, c: ChunkId, ch: Chunk): Memory {
    m.(chunks := m.chunks[c := ch])
  }

  ghost function Act(m: Memory, t: nat, th: Thread, a: Choice): (Memory, Thread, Event)
    requires Allowed(m, th.pc, a)
  {
    match th.pc
    case Idle =>
      if a.CallFree? then (m.(live := m.live - {a.s}), th.(pc := FreeInc(a.s)), Released(a.s))
      else (m, th.(pc := TestNull), Silent)
    case TestNull => (m, th.(pc := if th.tls == None then Acquire else TestCount(th.tls.value)), Silent)
    case TestCount(c) => (m, th.(pc := if m.chunks[c].allocCount == MAX_SIZE then Acquire else TestOwner(c)), Silent)
    case TestOwner(c) => (m, th.(pc := if m.chunks[c].threadID != t then Acquire else BumpRead(c)), Silent)
    case Acquire =>
      (if a.c in m.pool then m.(pool := m.pool - {a.c}) else Put(m, a.c, Chunk(a.junkOwner, 0, a.junkFree)),
       th.(pc := SetOwner(a.c)), Acquired(t, a.c))
    case SetOwner(c) => (Put(m, c, m.chunks[c].(threadID := t)), th.(pc := SetAlloc(c)), Silent)
    case SetAlloc(c) => (Put(m, c, m.chunks[c].(allocCount := 0)), th.(pc := SetFree(c)), Silent)
    case SetFree(c) => (Put(m, c, m.chunks[c].(freeCount := 0)), th.(pc := SetTls(c)), Silent)
    case SetTls(c) => (m, Thread(Some(c), BumpRead(c)), Silent)
    case BumpRead(c) => (m, th.(pc := BumpWrite(c, m.chunks[c].allocCount)), Silent)
    case BumpWrite(c, k) => (Put(m, c, m.chunks[c].(allocCount := k + 1)), th.(pc := HandOut(c, k)), Silent)
    case HandOut(c, k) => (m.(live := m.live + {Slot(c, k)}), th.(pc := Idle), Handed(t, Slot(c, k)))
    case FreeInc(s) =>
      var n := m.chunks[s.c].freeCount + 1;
      (Put(m, s.c, m.chunks[s.c].(freeCount := n)), th.(pc := if n == MAX_SIZE then Recycle(s.c) else Idle), Freed(s))
    case Recycle(c) => (m.(pool := m.pool + {c}), th.(pc := Idle), Recycled(c))
  }

  // ----- the specification: generations of chunks -----

  /** One generation of a chunk: the thread that acquired it, how many slots it has handed
      out (slots 0, 1, 2, ... in this order), and which of them have been freed. */
  datatype Gen = Gen(owner: nat, handed: nat, freed: set<nat>)

  function Range(n: nat): (r: set<nat>)
    ensures forall i: nat :: i in r <==> i < n
    ensures |r| == n
  {
    if n == 0 then {} else Range(n - 1) + {n - 1}
  }

  ghost predicate AllSlots(freed: set<nat>) {
    forall k: nat :: k < MAX_SIZE ==> k in freed
  }

  ghost predicate SpecEnabled(g: map<ChunkId, Gen>, e: Event) {
    match e
    case Silent => true
    case Released(s) => s.c in g && s.k < g[s.c].handed && s.k !in g[s.c].freed
    case Acquired(t, c) => c !in g
    case Handed(t, s) => s.c in g && g[s.c].owner == t && s.k == g[s.c].handed && s.k < MAX_SIZE
    case Freed(s) => s.c in g && s.k < g[s.c].handed && s.k !in g[s.c].freed
    case Recycled(c) => c in g && g[c].handed == MAX_SIZE && AllSlots(g[c].freed)
  }

  ghost function SpecNext(g: map<ChunkId, Gen>, e: Event): map<ChunkId, Gen>
    requires SpecEnabled(g, e)
  {
    match e
    case Silent => g
    case Released(_) => g
    case Acquired(t, c) => g[c := Gen(t, 0, {})]
    case Handed(_, s) => g[s.c := g[s.c].(handed := s.k + 1)]
    case Freed(s) => g[s.c := g[s.c].(freed := g[s.c].freed + {s.k})]
    case Recycled(c) => g - {c}
  }

  // ----- the invariant -----

  ghost predicate Setup(pc: Pc, c: ChunkId) {
    pc == SetOwner(c) || pc == SetAlloc(c) || pc == SetFree(c) || pc == SetTls(c)
  }

  /** A chunk of a running generation, given where its owner is. */
  ghost predicate ChunkOk(ch: Chunk, gen: Gen, c: ChunkId, pc: Pc) {
    && gen.handed <= MAX_SIZE
    && (forall k :: k in gen.freed ==> k < gen.handed)
    && (Setup(pc, c) ==> gen.handed == 0 && gen.freed == {})
    && (pc != SetOwner(c) ==> ch.threadID == gen.owner)
    && (pc != SetOwner(c) && pc != SetAlloc(c) ==>
          ch.allocCount == gen.handed + (if pc.HandOut? && pc.c == c then 1 else 0))
    && (pc != SetOwner(c) && pc != SetAlloc(c) && pc != SetFree(c) ==> ch.freeCount == |gen.freed|)
    && (pc.BumpWrite? && pc.c == c ==> pc.k == gen.handed)
    && (pc.HandOut? && pc.c == c ==> pc.k == gen.handed)
  }

  ghost predicate Owns(g: map<ChunkId, Gen>, t: nat, c: ChunkId) {
    c in g && g[c].owner == t
  }

  ghost predicate TlsOk(m: Memory, g: map<ChunkId, Gen>, t: nat, c: ChunkId) {
    c in m.chunks && (Owns(g, t, c) || m.chunks[c].allocCount == MAX_SIZE || m.chunks[c].threadID != t)
  }

  /** The chunk a thread may bump-allocate from is its own and not exhausted; a TLS slot
      that names somebody else's chunk, or a pooled one, fails one of the two tests,
      whichever chunk fields change between them. */
  ghost predicate ThreadOk(m: Memory, g: map<ChunkId, Gen>, t: nat, th: Thread) {
    && (th.tls.Some? ==> TlsOk(m, g, t, th.tls.value))
    && match th.pc
       case TestCount(c) => th.tls == Some(c)
       case TestOwner(c) =>
         th.tls == Some(c) && (if Owns(g, t, c) then g[c].handed < MAX_SIZE else m.chunks[c].threadID != t)
       case SetOwner(c) => Owns(g, t, c)
       case SetAlloc(c) => Owns(g, t, c)
       case SetFree(c) => Owns(g, t, c)
       case SetTls(c) => Owns(g, t, c)
       case BumpRead(c) => Owns(g, t, c) && g[c].handed < MAX_SIZE
       case BumpWrite(c, _) => Owns(g, t, c) && g[c].handed < MAX_SIZE
       case HandOut(c, _) => Owns(g, t, c) && g[c].handed < MAX_SIZE
       case FreeInc(s) => Outstanding(g, s) && s !in m.live
       case Recycle(c) => c in g && g[c].handed == MAX_SIZE && AllSlots(g[c].freed)
       case _ => true
  }

  /** Handed out in the running generation of its chunk and not freed yet. */
  ghost predicate Outstanding(g: map<ChunkId, Gen>, s: Slot) {
    s.c in g && s.k < g[s.c].handed && s.k !in g[s.c].freed
  }

  ghost predicate PoolOk(m: Memory, g: map<ChunkId, Gen>) {
    && m.pool !! g.Keys && m.chunks.Keys == m.pool + g.Keys
    && (forall c :: c in m.pool ==> m.chunks[c].allocCount == MAX_SIZE)
    && (forall s :: s in m.live ==> Outstanding(g, s))
  }

  // No two threads free the same slot, or return the same chunk.
  ghost predicate Compatible(a: Pc, b: Pc) {
    && (a.FreeInc? && b.FreeInc? ==> a.s != b.s)
    && (a.Recycle? && b.Recycle? ==> a.c != b.c)
  }

  ghost predicate ChunksOk(m: Memory, g: map<ChunkId, Gen>, threads: seq<Thread>) {
    forall c :: c in g ==> ChunkOkAt(m, g, threads, c)
  }

  ghost predicate ChunkOkAt(m: Memory, g: map<ChunkId, Gen>, threads: seq<Thread>, c: ChunkId)
    requires c in g
  {
    c in m.chunks && g[c].owner < |threads| && ChunkOk(m.chunks[c], g[c], c, threads[g[c].owner].pc)
  }

  ghost predicate ThreadsOk(m: Memory, g: map<ChunkId, Gen>, threads: seq<Thread>) {
    forall t: nat :: t < |threads| ==> ThreadOk(m, g, t, threads[t])
  }

  ghost predicate AllCompatible(threads: seq<Thread>) {
    forall t: nat, u: nat :: t < |threads| && u < |threads| && t != u ==> Compatible(threads[t].pc, threads[u].pc)
  }

  ghost predicate Inv(s: State, g: map<ChunkId, Gen>) {
    PoolOk(s.m, g) && ChunksOk(s.m, g, s.threads) && ThreadsOk(s.m, g, s.threads) && AllCompatible(s.threads)
  }

  // ----- one step -----

  /** All MAX_SIZE slots are freed exactly when that many different ones are. */
  lemma AllFreed(freed: set<nat>, handed: nat)
    requires handed <= MAX_SIZE && forall k :: k in freed ==> k < handed
    ensures |freed| <= handed
    ensures |freed| == MAX_SIZE ==> handed == MAX_SIZE && AllSlots(freed)
  {
    var r := Range(handed);
    assert freed <= r;
    assert r == freed + (r - freed);
    assert |r| == |freed| + |r - freed|;
    if |freed| == MAX_SIZE {
      assert r - freed == {};
    }
  }

  ghost predicate Enabled(s: State, t: nat, a: Choice) {
    t < |s.threads| && Allowed(s.m, s.threads[t].pc, a)
  }

  ghost function Next(s: State, t: nat, a: Choice): (State, Event)
    requires Enabled(s, t, a)
  {
    var (m, th, e) := Act(s.m, t, s.threads[t], a);
    (State(m, s.threads[t := th]), e)
  }

  lemma StepEvent(s: State, t: nat, a: Choice, g: map<ChunkId, Gen>)
    requires Inv(s, g) && Enabled(s, t, a)
    ensures SpecEnabled(g, Next(s, t, a).1)
  {
    assert ThreadOk(s.m, g, t, s.threads[t]);
  }

  // The steps, in six groups: those that only read shared fields, those that write a
  // field of a chunk, the start of a generation, the handing out of a slot, the count of a
  // freed slot, and the return of a chunk.

  predicate Reading(pc: Pc) { pc.Idle? || pc.TestNull? || pc.TestCount? || pc.TestOwner? || pc.SetTls? || pc.BumpRead? }

  predicate Writing(pc: Pc) { pc.SetOwner? || pc.SetAlloc? || pc.SetFree? || pc.BumpWrite? }

  predicate Acquiring(pc: Pc) { pc.Acquire? }

  predicate Handing(pc: Pc) { pc.HandOut? }

  predicate Freeing(pc: Pc) { pc.FreeInc? }

  predicate Returning(pc: Pc) { pc.Recycle? }

  /** What every step lemma starts from. */
  ghost predicate StepPre(m: Memory, g: map<ChunkId, Gen>, threads: seq<Thread>, t: nat, a: Choice) {
    && PoolOk(m, g) && ChunksOk(m, g, threads) && t < |threads| && ThreadOk(m, g, t, threads[t])
    && Allowed(m, threads[t].pc, a) && SpecEnabled(g, Act(m, t, threads[t], a).2)
  }

  lemma OtherThreadReading(m: Memory, g: map<ChunkId, Gen>, threads: seq<Thread>, t: nat, a: Choice, u: nat)
    requires StepPre(m, g, threads, t, a) && Reading(threads[t].pc)
    requires u < |threads| && t != u && ThreadOk(m, g, u, threads[u]) && Compatible(threads[t].pc, threads[u].pc)
    ensures var (m', _, e) := Act(m, t, threads[t], a); ThreadOk(m', SpecNext(g, e), u, threads[u])
  {
  }

  lemma OtherThreadWriting(m: Memory, g: map<ChunkId, Gen>, threads: seq<Thread>, t: nat, a: Choice, u: nat)
    requires StepPre(m, g, threads, t, a) && Writing(threads[t].pc)
    requires u < |threads| && t != u && ThreadOk(m, g, u, threads[u]) && Compatible(threads[t].pc, threads[u].pc)
    ensures var (m', _, e) := Act(m, t, threads[t], a); ThreadOk(m', SpecNext(g, e), u, threads[u])
  {
  }

  lemma OtherThreadAcquiring(m: Memory, g: map<ChunkId, Gen>, threads: seq<Thread>, t: nat, a: Choice, u: nat)
    requires StepPre(m, g, threads, t, a) && Acquiring(threads[t].pc)
    requires u < |threads| && t != u && ThreadOk(m, g, u, threads[u]) && Compatible(threads[t].pc, threads[u].pc)
    ensures var (m', _, e) := Act(m, t, threads[t], a); ThreadOk(m', SpecNext(g, e), u, threads[u])
  {
  }

  lemma OtherThreadHanding(m: Memory, g: map<ChunkId, Gen>, threads: seq<Thread>, t: nat, a: Choice, u: nat)
    requires StepPre(m, g, threads, t, a) && Handing(threads[t].pc)
    requires u < |threads| && t != u && ThreadOk(m, g, u, threads[u]) && Compatible(threads[t].pc, threads[u].pc)
    ensures var (m', _, e) := Act(m, t, threads[t], a); ThreadOk(m', SpecNext(g, e), u, threads[u])
  {
  }

  lemma OtherThreadFreeing(m: Memory, g: map<ChunkId, Gen>, threads: seq<Thread>, t: nat, a: Choice, u: nat)
    requires StepPre(m, g, threads, t, a) && Freeing(threads[t].pc)
    requires u < |threads| && t != u && ThreadOk(m, g, u, threads[u]) && Compatible(threads[t].pc, threads[u].pc)
    ensures var (m', _, e) := Act(m, t, threads[t], a); ThreadOk(m', SpecNext(g, e), u, threads[u])
  {
  }

  lemma OtherThreadReturning(m: Memory, g: map<ChunkId, Gen>, threads: seq<Thread>, t: nat, a: Choice, u: nat)
    requires StepPre(m, g, threads, t, a) && Returning(threads[t].pc)
    requires u < |threads| && t != u && ThreadOk(m, g, u, threads[u]) && Compatible(threads[t].pc, threads[u].pc)
    ensures var (m', _, e) := Act(m, t, threads[t], a); ThreadOk(m', SpecNext(g, e), u, threads[u])
  {
  }

  lemma MoverThreadReading(m: Memory, g: map<ChunkId, Gen>, threads: seq<Thread>, t: nat, a: Choice)
    requires StepPre(m, g, threads, t, a) && Reading(threads[t].pc)
    ensures var (m', th', e) := Act(m, t, threads[t], a); ThreadOk(m', SpecNext(g, e), t, th')
  {
  }

  lemma MoverThreadWriting(m: Memory, g: map<ChunkId, Gen>, threads: seq<Thread>, t: nat, a: Choice)
    requires StepPre(m, g, threads, t, a) && Writing(threads[t].pc)
    ensures var (m', th', e) := Act(m, t, threads[t], a); ThreadOk(m', SpecNext(g, e), t, th')
  {
  }

  lemma MoverThreadAcquiring(m: Memory, g: map<ChunkId, Gen>, threads: seq<Thread>, t: nat, a: Choice)
    requires StepPre(m, g, threads, t, a) && Acquiring(threads[t].pc)
    ensures var (m', th', e) := Act(m, t, threads[t], a); ThreadOk(m', SpecNext(g, e), t, th')
  {
  }

  lemma MoverThreadHanding(m: Memory, g: map<ChunkId, Gen>, threads: seq<Thread>, t: nat, a: Choice)
    requires StepPre(m, g, threads, t, a) && Handing(threads[t].pc)
    ensures var (m', th', e) := Act(m, t, threads[t], a); ThreadOk(m', SpecNext(g, e), t, th')
  {
  }

  lemma MoverThreadFreeing(m: Memory, g: map<ChunkId, Gen>, threads: seq<Thread>, t: nat, a: Choice)
    requires StepPre(m, g, threads, t, a) && Freeing(threads[t].pc)
    ensures var (m', th', e) := Act(m, t, threads[t], a); ThreadOk(m', SpecNext(g, e), t, th')
  {
    var s := threads[t].pc.s;
    AllFreed(g[s.c].freed + {s.k}, g[s.c].handed);
  }

  lemma MoverThreadReturning(m: Memory, g: map<ChunkId, Gen>, threads: seq<Thread>, t: nat, a: Choice)
    requires StepPre(m, g, threads, t, a) && Returning(threads[t].pc)
    ensures var (m', th', e) := Act(m, t, threads[t], a); ThreadOk(m', SpecNext(g, e), t, th')
  {
  }

  lemma PoolReading(m: Memory, g: map<ChunkId, Gen>, threads: seq<Thread>, t: nat, a: Choice)
    requires StepPre(m, g, threads, t, a) && ThreadsOk(m, g, threads) && Reading(threads[t].pc)
    ensures var (m', _, e) := Act(m, t, threads[t], a); PoolOk(m', SpecNext(g, e))
  {
  }

  lemma PoolWriting(m: Memory, g: map<ChunkId, Gen>, threads: seq<Thread>, t: nat, a: Choice)
    requires StepPre(m, g, threads, t, a) && ThreadsOk(m, g, threads) && Writing(threads[t].pc)
    ensures var (m', _, e) := Act(m, t, threads[t], a); PoolOk(m', SpecNext(g, e))
  {
  }

  lemma PoolAcquiring(m: Memory, g: map<ChunkId, Gen>, threads: seq<Thread>, t: nat, a: Choice)
    requires StepPre(m, g, threads, t, a) && ThreadsOk(m, g, threads) && Acquiring(threads[t].pc)
    ensures var (m', _, e) := Act(m, t, threads[t], a); PoolOk(m', SpecNext(g, e))
  {
  }

  lemma PoolHanding(m: Memory, g: map<ChunkId, Gen>, threads: seq<Thread>, t: nat, a: Choice)
    requires StepPre(m, g, threads, t, a) && ThreadsOk(m, g, threads) && Handing(threads[t].pc)
    ensures var (m', _, e) := Act(m, t, threads[t], a); PoolOk(m', SpecNext(g, e))
  {
  }

  lemma PoolFreeing(m: Memory, g: map<ChunkId, Gen>, threads: seq<Thread>, t: nat, a: Choice)
    requires StepPre(m, g, threads, t, a) && ThreadsOk(m, g, threads) && Freeing(threads[t].pc)
    ensures var (m', _, e) := Act(m, t, threads[t], a); PoolOk(m', SpecNext(g, e))
  {
  }

  lemma PoolReturning(m: Memory, g: map<ChunkId, Gen>, threads: seq<Thread>, t: nat, a: Choice)
    requires StepPre(m, g, threads, t, a) && ThreadsOk(m, g, threads) && Returning(threads[t].pc)
    ensures var (m', _, e) := Act(m, t, threads[t], a); PoolOk(m', SpecNext(g, e))
  {
    var c := threads[t].pc.c;
    assert ChunkOkAt(m, g, threads, c) && ThreadOk(m, g, g[c].owner, threads[g[c].owner]);
  }

  lemma ChunkReading(m: Memory, g: map<ChunkId, Gen>, threads: seq<Thread>, t: nat, a: Choice, c: ChunkId)
    requires StepPre(m, g, threads, t, a) && Reading(threads[t].pc)
    requires c in SpecNext(g, Act(m, t, threads[t], a).2)
    ensures var (m', th', e) := Act(m, t, threads[t], a); ChunkOkAt(m', SpecNext(g, e), threads[t := th'], c)
  {
    hide PoolOk, AllCompatible;
    assert ChunkOkAt(m, g, threads, c);
  }

  lemma ChunkWriting(m: Memory, g: map<ChunkId, Gen>, threads: seq<Thread>, t: nat, a: Choice, c: ChunkId)
    requires StepPre(m, g, threads, t, a) && Writing(threads[t].pc)
    requires c in SpecNext(g, Act(m, t, threads[t], a).2)
    ensures var (m', th', e) := Act(m, t, threads[t], a); ChunkOkAt(m', SpecNext(g, e), threads[t := th'], c)
  {
    hide PoolOk, AllCompatible;
    assert ChunkOkAt(m, g, threads, c);
  }

  lemma ChunkAcquiring(m: Memory, g: map<ChunkId, Gen>, threads: seq<Thread>, t: nat, a: Choice, c: ChunkId)
    requires StepPre(m, g, threads, t, a) && Acquiring(threads[t].pc)
    requires c in SpecNext(g, Act(m, t, threads[t], a).2)
    ensures var (m', th', e) := Act(m, t, threads[t], a); ChunkOkAt(m', SpecNext(g, e), threads[t := th'], c)
  {
  }

  lemma ChunkHanding(m: Memory, g: map<ChunkId, Gen>, threads: seq<Thread>, t: nat, a: Choice, c: ChunkId)
    requires StepPre(m, g, threads, t, a) && Handing(threads[t].pc)
    requires c in SpecNext(g, Act(m, t, threads[t], a).2)
    ensures var (m', th', e) := Act(m, t, threads[t], a); ChunkOkAt(m', SpecNext(g, e), threads[t := th'], c)
  {
    hide PoolOk, AllCompatible;
    assert ChunkOkAt(m, g, threads, c);
  }

  lemma ChunkFreeing(m: Memory, g: map<ChunkId, Gen>, threads: seq<Thread>, t: nat, a: Choice, c: ChunkId)
    requires StepPre(m, g, threads, t, a) && Freeing(threads[t].pc)
    requires c in SpecNext(g, Act(m, t, threads[t], a).2)
    ensures var (m', th', e) := Act(m, t, threads[t], a); ChunkOkAt(m', SpecNext(g, e), threads[t := th'], c)
  {
    assert ChunkOkAt(m, g, threads, c);
    var s, owner := threads[t].pc.s, threads[g[c].owner].pc;
    hide ChunksOk, PoolOk;
    if c == s.c {
      FreedOne(m.chunks[c], g[c], c, owner, s.k);
    }
    var pc' := Act(m, t, threads[t], a).1.pc;
    assert g[c].owner == t ==> ChunkOk(m.chunks[c], g[c], c, pc');
  }

  lemma FreedOne(ch: Chunk, gen: Gen, c: ChunkId, owner: Pc, k: nat)
    requires ChunkOk(ch, gen, c, owner) && k < gen.handed && k !in gen.freed
    ensures ChunkOk(ch.(freeCount := ch.freeCount + 1), gen.(freed := gen.freed + {k}), c, owner)
    ensures forall pc: Pc :: (pc.Idle? || pc.Recycle?) && (owner.FreeInc? || owner.Idle?) ==>
              ChunkOk(ch.(freeCount := ch.freeCount + 1), gen.(freed := gen.freed + {k}), c, pc)
  {
    assert |gen.freed + {k}| == |gen.freed| + 1;
  }

  lemma ChunkReturning(m: Memory, g: map<ChunkId, Gen>, threads: seq<Thread>, t: nat, a: Choice, c: ChunkId)
    requires StepPre(m, g, threads, t, a) && Returning(threads[t].pc)
    requires c in SpecNext(g, Act(m, t, threads[t], a).2)
    ensures var (m', th', e) := Act(m, t, threads[t], a); ChunkOkAt(m', SpecNext(g, e), threads[t := th'], c)
  {
    assert ChunkOkAt(m, g, threads, c);
    hide ChunksOk, PoolOk;
  }

  lemma CompatibleFreeing(m: Memory, g: map<ChunkId, Gen>, threads: seq<Thread>, t: nat, a: Choice, u: nat)
    requires StepPre(m, g, threads, t, a) && threads[t].pc.FreeInc?
    requires u < |threads| && ThreadOk(m, g, u, threads[u]) && threads[u].pc.Recycle?
    ensures threads[u].pc.c != threads[t].pc.s.c
  {
    var c := threads[t].pc.s.c;
    assert ChunkOkAt(m, g, threads, c);
  }

  lemma CompatibleStep(m: Memory, g: map<ChunkId, Gen>, threads: seq<Thread>, t: nat, a: Choice, u: nat)
    requires StepPre(m, g, threads, t, a)
    requires u < |threads| && t != u && ThreadOk(m, g, u, threads[u]) && Compatible(threads[t].pc, threads[u].pc)
    ensures Compatible(Act(m, t, threads[t], a).1.pc, threads[u].pc)
    ensures Compatible(threads[u].pc, Act(m, t, threads[t], a).1.pc)
  {
    var pc, pc' := threads[t].pc, Act(m, t, threads[t], a).1.pc;
    if pc.FreeInc? && threads[u].pc.Recycle? {
      CompatibleFreeing(m, g, threads, t, a, u);
    }
    hide ChunksOk, SpecEnabled;
    assert pc'.FreeInc? ==> pc.Idle? && pc'.s in m.live;
    assert pc'.Recycle? ==> pc.FreeInc? && pc'.c == pc.s.c;
  }

  lemma OtherThread(m: Memory, g: map<ChunkId, Gen>, threads: seq<Thread>, t: nat, a: Choice, u: nat)
    requires StepPre(m, g, threads, t, a)
    requires u < |threads| && t != u && ThreadOk(m, g, u, threads[u]) && Compatible(threads[t].pc, threads[u].pc)
    ensures Allowed(m, threads[t].pc, a) && SpecEnabled(g, Act(m, t, threads[t], a).2)
    ensures var (m', _, e) := Act(m, t, threads[t], a); ThreadOk(m', SpecNext(g, e), u, threads[u])
  {
    var pc := threads[t].pc;
    hide ThreadOk, Act, SpecNext, SpecEnabled, Allowed, PoolOk, ChunksOk;
    if Reading(pc) {
      OtherThreadReading(m, g, threads, t, a, u);
    } else if Writing(pc) {
      OtherThreadWriting(m, g, threads, t, a, u);
    } else if Acquiring(pc) {
      OtherThreadAcquiring(m, g, threads, t, a, u);
    } else if Handing(pc) {
      OtherThreadHanding(m, g, threads, t, a, u);
    } else if Freeing(pc) {
      OtherThreadFreeing(m, g, threads, t, a, u);
    } else {
      OtherThreadReturning(m, g, threads, t, a, u);
    }
  }

  lemma Mover(m: Memory, g: map<ChunkId, Gen>, threads: seq<Thread>, t: nat, a: Choice)
    requires StepPre(m, g, threads, t, a) && ThreadsOk(m, g, threads)
    ensures Allowed(m, threads[t].pc, a) && SpecEnabled(g, Act(m, t, threads[t], a).2)
    ensures var (m', th', e) := Act(m, t, threads[t], a);
      ThreadOk(m', SpecNext(g, e), t, th') && PoolOk(m', SpecNext(g, e))
  {
    var pc := threads[t].pc;
    hide ThreadOk, Act, SpecNext, SpecEnabled, Allowed, PoolOk, ChunksOk, ThreadsOk;
    if Reading(pc) {
      MoverThreadReading(m, g, threads, t, a);
    } else if Writing(pc) {
      MoverThreadWriting(m, g, threads, t, a);
    } else if Acquiring(pc) {
      MoverThreadAcquiring(m, g, threads, t, a);
    } else if Handing(pc) {
      MoverThreadHanding(m, g, threads, t, a);
    } else if Freeing(pc) {
      MoverThreadFreeing(m, g, threads, t, a);
    } else {
      MoverThreadReturning(m, g, threads, t, a);
    }
    if Reading(pc) {
      PoolReading(m, g, threads, t, a);
    } else if Writing(pc) {
      PoolWriting(m, g, threads, t, a);
    } else if Acquiring(pc) {
      PoolAcquiring(m, g, threads, t, a);
    } else if Handing(pc) {
      PoolHanding(m, g, threads, t, a);
    } else if Freeing(pc) {
      PoolFreeing(m, g, threads, t, a);
    } else {
      PoolReturning(m, g, threads, t, a);
    }
  }

  lemma Chunks(m: Memory, g: map<ChunkId, Gen>, threads: seq<Thread>, t: nat, a: Choice)
    requires StepPre(m, g, threads, t, a)
    ensures Allowed(m, threads[t].pc, a) && SpecEnabled(g, Act(m, t, threads[t], a).2)
    ensures var (m', th', e) := Act(m, t, threads[t], a); ChunksOk(m', SpecNext(g, e), threads[t := th'])
  {
    var pc := threads[t].pc;
    hide ThreadOk, Act, SpecNext, SpecEnabled, Allowed, PoolOk, ChunkOkAt;
    var (m', th', e) := Act(m, t, threads[t], a);
    var g' := SpecNext(g, e);
    forall c | c in g' ensures ChunkOkAt(m', g', threads[t := th'], c) {
      if Reading(pc) {
        ChunkReading(m, g, threads, t, a, c);
      } else if Writing(pc) {
        ChunkWriting(m, g, threads, t, a, c);
      } else if Acquiring(pc) {
        ChunkAcquiring(m, g, threads, t, a, c);
      } else if Handing(pc) {
        ChunkHanding(m, g, threads, t, a, c);
      } else if Freeing(pc) {
        ChunkFreeing(m, g, threads, t, a, c);
      } else {
        ChunkReturning(m, g, threads, t, a, c);
      }
    }
  }

  /** Every step keeps the invariant, and on the generations it is a step of the
      specification. */
  lemma StepRefines(s: State, t: nat, a: Choice, g: map<ChunkId, Gen>)
    requires Inv(s, g) && Enabled(s, t, a)
    ensures var (u, e) := Next(s, t, a); SpecEnabled(g, e) && Inv(u, SpecNext(g, e))
  {
    StepEvent(s, t, a, g);
    assert ThreadOk(s.m, g, t, s.threads[t]);
    assert StepPre(s.m, g, s.threads, t, a);
    hide StepPre, ThreadOk, Act, SpecNext, SpecEnabled, Allowed, PoolOk, ChunksOk, Compatible;
    var (m', th', e) := Act(s.m, t, s.threads[t], a);
    Mover(s.m, g, s.threads, t, a);
    Chunks(s.m, g, s.threads, t, a);
    forall u: nat | u < |s.threads| && u != t
      ensures ThreadOk(m', SpecNext(g, e), u, s.threads[u])
      ensures Compatible(th'.pc, s.threads[u].pc) && Compatible(s.threads[u].pc, th'.pc)
    {
      OtherThread(s.m, g, s.threads, t, a, u);
      CompatibleStep(s.m, g, s.threads, t, a, u);
    }
  }

  // ----- whole runs -----

  datatype Move = Move(t: nat, a: Choice)

  /** `s` is reached from `first` by the schedule `moves`, any interleaving of the threads,
      with the events `trace`. */
  ghost predicate Reaches(first: State, moves: seq<Move>, trace: seq<Event>, s: State) {
    |trace| == |moves| &&
    if moves == [] then s == first
    else
      var n := |moves| - 1;
      exists before ::
        && Reaches(first, moves[..n], trace[..n], before)
        && Enabled(before, moves[n].t, moves[n].a) && (s, trace[n]) == Next(before, moves[n].t, moves[n].a)
  }

  /** The generations after a trace, if the specification allows every event of it. */
  ghost predicate SpecReaches(trace: seq<Event>, g: map<ChunkId, Gen>) {
    if trace == [] then g == map[]
    else
      var n := |trace| - 1;
      exists before ::
        SpecReaches(trace[..n], before) && SpecEnabled(before, trace[n]) && g == SpecNext(before, trace[n])
  }

  /** Refinement: the events of any schedule form a run of the specification, in which a
      slot is handed out only by the owner of its chunk's running generation and only once
      per generation, and a chunk returns only complete. */
  lemma {:induction false} RunRefines(first: State, moves: seq<Move>, trace: seq<Event>, s: State)
      returns (g: map<ChunkId, Gen>)
    requires Init(first) && Reaches(first, moves, trace, s)
    ensures Inv(s, g) && SpecReaches(trace, g)
    decreases |moves|
  {
    if moves == [] {
      g := map[];
    } else {
      var n := |moves| - 1;
      var before :| && Reaches(first, moves[..n], trace[..n], before) && Enabled(before, moves[n].t, moves[n].a)
                    && (s, trace[n]) == Next(before, moves[n].t, moves[n].a);
      var g0 := RunRefines(first, moves[..n], trace[..n], before);
      hide Inv, Init, SpecEnabled, Enabled;
      StepRefines(before, moves[n].t, moves[n].a, g0);
      g := SpecNext(g0, trace[n]);
    }
  }

  // ----- what holds in every state of every run -----

  predicate Bumping(pc: Pc, c: ChunkId) {
    pc == BumpRead(c) || (pc.BumpWrite? && pc.c == c) || (pc.HandOut? && pc.c == c)
  }

  /** No two threads ever bump-allocate from the same chunk, however stale their TLS slots. */
  lemma ExclusiveBump(first: State, moves: seq<Move>, trace: seq<Event>, s: State, t: nat, u: nat, c: ChunkId)
    requires Init(first) && Reaches(first, moves, trace, s) && t < |s.threads| && u < |s.threads|
    requires Bumping(s.threads[t].pc, c) && Bumping(s.threads[u].pc, c)
    ensures t == u
  {
    hide Reaches, SpecReaches, Init;
    var g := RunRefines(first, moves, trace, s);
    assert ThreadOk(s.m, g, t, s.threads[t]) && ThreadOk(s.m, g, u, s.threads[u]);
  }

  /** A slot that is being handed out lies inside the chunk, no client holds it and no
      thread is freeing it; and the chunk it lies in is not in the shared pool. */
  lemma HandedSlotIsFresh(first: State, moves: seq<Move>, trace: seq<Event>, s: State, t: nat)
    requires Init(first) && Reaches(first, moves, trace, s) && t < |s.threads| && s.threads[t].pc.HandOut?
    ensures var slot := Slot(s.threads[t].pc.c, s.threads[t].pc.k);
      && slot.k < MAX_SIZE && slot !in s.m.live && slot.c !in s.m.pool
      && forall u: nat :: u < |s.threads| ==> s.threads[u].pc != FreeInc(slot)
  {
    hide Reaches, SpecReaches, Init;
    var g := RunRefines(first, moves, trace, s);
    assert ThreadOk(s.m, g, t, s.threads[t]);
    var slot := Slot(s.threads[t].pc.c, s.threads[t].pc.k);
    assert ChunkOkAt(s.m, g, s.threads, slot.c);
    forall u: nat | u < |s.threads| ensures s.threads[u].pc != FreeInc(slot) {
      assert ThreadOk(s.m, g, u, s.threads[u]);
    }
  }

  /** When a chunk is about to return to the pool every one of its slots has been handed
      out and freed, and only one thread returns it. */
  lemma ReturnedChunkIsDone(first: State, moves: seq<Move>, trace: seq<Event>, s: State, t: nat)
    requires Init(first) && Reaches(first, moves, trace, s) && t < |s.threads| && s.threads[t].pc.Recycle?
    ensures var c := s.threads[t].pc.c;
      && c !in s.m.pool
      && (forall k: nat :: Slot(c, k) !in s.m.live)
      && (forall u: nat :: u < |s.threads| && u != t ==> s.threads[u].pc != Recycle(c) && !Bumping(s.threads[u].pc, c))
      && (forall u: nat :: u < |s.threads| && s.threads[u].pc.FreeInc? ==> s.threads[u].pc.s.c != c)
  {
    hide Reaches, SpecReaches, Init;
    var g := RunRefines(first, moves, trace, s);
    assert ThreadOk(s.m, g, t, s.threads[t]);
    var c := s.threads[t].pc.c;
    assert ChunkOkAt(s.m, g, s.threads, c);
    forall u: nat | u < |s.threads| && u != t
      ensures s.threads[u].pc != Recycle(c) && !Bumping(s.threads[u].pc, c)
    {
      assert ThreadOk(s.m, g, u, s.threads[u]) && Compatible(s.threads[t].pc, s.threads[u].pc);
    }
    forall u: nat | u < |s.threads| && s.threads[u].pc.FreeInc? ensures s.threads[u].pc.s.c != c {
      assert ThreadOk(s.m, g, u, s.threads[u]);
    }
  }

  /** A thread never finds a chunk field missing: every non-idle thread can take its step. */
  lemma NeverStuck(first: State, moves: seq<Move>, trace: seq<Event>, s: State, t: nat)
    requires Init(first) && Reaches(first, moves, trace, s)
    requires t < |s.threads| && !s.threads[t].pc.Idle? && !s.threads[t].pc.Acquire?
    ensures Enabled(s, t, Go)
  {
    hide Reaches, SpecReaches, Init;
    var g := RunRefines(first, moves, trace, s);
    assert ThreadOk(s.m, g, t, s.threads[t]);
    var pc := s.threads[t].pc;
    if pc.BumpRead? {
      assert ChunkOkAt(s.m, g, s.threads, pc.c);
    } else if pc.BumpWrite? {
      assert ChunkOkAt(s.m, g, s.threads, pc.c);
    } else if pc.FreeInc? {
      assert ChunkOkAt(s.m, g, s.threads, pc.s.c);
    } else if pc.SetOwner? || pc.SetAlloc? || pc.SetFree? {
      assert ChunkOkAt(s.m, g, s.threads, pc.c);
    }
  }

  // How often a trace acquires, hands out from, frees into, or recycles the chunk c.
  function Acquisitions(trace: seq<Event>, c: ChunkId): nat {
    if trace == [] then 0
    else var e := trace[|trace| - 1];
      Acquisitions(trace[..|trace| - 1], c) + (if e.Acquired? && e.c == c then 1 else 0)
  }

  function Allocations(trace: seq<Event>, c: ChunkId): nat {
    if trace == [] then 0
    else var e := trace[|trace| - 1];
      Allocations(trace[..|trace| - 1], c) + (if e.Handed? && e.s.c == c then 1 else 0)
  }

  function Frees(trace: seq<Event>, c: ChunkId): nat {
    if trace == [] then 0
    else var e := trace[|trace| - 1];
      Frees(trace[..|trace| - 1], c) + (if e.Freed? && e.s.c == c then 1 else 0)
  }

  function Recyclings(trace: seq<Event>, c: ChunkId): nat {
    if trace == [] then 0
    else var e := trace[|trace| - 1];
      Recyclings(trace[..|trace| - 1], c) + (if e == Recycled(c) then 1 else 0)
  }

  // The sizes of the freed sets, kept inside the generation's slots.
  ghost predicate GensOk(g: map<ChunkId, Gen>) {
    forall c :: c in g ==> g[c].handed <= MAX_SIZE && forall k :: k in g[c].freed ==> k < g[c].handed
  }

  ghost function HandedIn(g: map<ChunkId, Gen>, c: ChunkId): nat { if c in g then g[c].handed else 0 }

  ghost function FreedIn(g: map<ChunkId, Gen>, c: ChunkId): nat { if c in g then |g[c].freed| else 0 }

  lemma StepBalance(g: map<ChunkId, Gen>, e: Event, c: ChunkId)
    requires GensOk(g) && SpecEnabled(g, e)
    ensures var g' := SpecNext(g, e);
      && GensOk(g')
      && HandedIn(g', c) == (if e == Recycled(c) then HandedIn(g, c) - MAX_SIZE
                           else HandedIn(g, c) + (if e.Handed? && e.s.c == c then 1 else 0))
      && FreedIn(g', c) == (if e == Recycled(c) then FreedIn(g, c) - MAX_SIZE
                            else FreedIn(g, c) + (if e.Freed? && e.s.c == c then 1 else 0))
  {
    if e == Recycled(c) {
      FullSet(g[c].freed);
    } else if e.Freed? && e.s.c == c {
      assert |g[c].freed + {e.s.k}| == |g[c].freed| + 1;
    }
  }

  /** Every return of a chunk pays for exactly MAX_SIZE allocations and MAX_SIZE frees of
      its slots, and ends exactly one acquisition: a generation returns at most once, when
      it is complete, and what is not yet returned is what the running generation has
      handed out and got back. */
  lemma {:induction false} GenerationsBalance(trace: seq<Event>, g: map<ChunkId, Gen>, c: ChunkId)
    requires SpecReaches(trace, g)
    ensures GensOk(g)
    ensures Acquisitions(trace, c) == Recyclings(trace, c) + (if c in g then 1 else 0)
    ensures Allocations(trace, c) == MAX_SIZE * Recyclings(trace, c) + HandedIn(g, c)
    ensures Frees(trace, c) == MAX_SIZE * Recyclings(trace, c) + FreedIn(g, c)
    decreases |trace|
  {
    if trace != [] {
      var n := |trace| - 1;
      var before: map<ChunkId, Gen> :|
        SpecReaches(trace[..n], before) && SpecEnabled(before, trace[n]) && g == SpecNext(before, trace[n]);
      GenerationsBalance(trace[..n], before, c);
      hide GensOk, HandedIn, FreedIn;
      StepBalance(before, trace[n], c);
    }
  }

  lemma FullSet(freed: set<nat>)
    requires AllSlots(freed) && forall k :: k in freed ==> k < MAX_SIZE
    ensures |freed| == MAX_SIZE
  {
    FullRange(freed, MAX_SIZE);
  }

  lemma {:induction false} FullRange(freed: set<nat>, n: nat)
    requires forall k: nat :: k in freed <==> k < n
    ensures |freed| == n
  {
    assert freed == Range(n);
  }
}
