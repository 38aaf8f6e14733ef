/** One connection of the LAN client, from the registration with the completion port to the
    end of its release: the I/O count that decides when the session is released, and the
    isSending flag that keeps one send in flight.

    Any number of threads up to MAX_THREADS run SendPacket, Disconnect, the receive and send
    completions and ReleaseProc, one shared access at a time. What the completion port, the
    socket calls and the OnRecv handler do is nondeterministic. */
module LanSession {
  import opened Sums

  type Packet = int

  // The most threads for which the 16-bit count cannot overflow: each may hold one reference,
  // and sending and receiving take one more each.
  const MAX_THREADS: nat := 0x7fff - 2
  const MAX_BATCH: nat := 100

  // ----- the 32-bit word that holds the count and the released flag -----

  const RELEASED: int := 0x1_0000

  // Low half as a signed 16-bit count.
  function CountOf(io: int): int {
    var low := io % 0x1_0000;
    if low >= 0x8000 then low - 0x1_0000 else low
  }

  // High half of a non-negative word.
  function IsReleased(io: int): bool {
    io / 0x1_0000 == 1
  }

  // ----- threads -----

  /** Who called SendPacket: the application, or the OnRecv handler of a completion. */
  datatype Ctx = App | InRecv

  /** Who called SendPost. */
  datatype Caller = FromSend(ctx: Ctx) | FromCompletion

  /** Where a thread continues once a decrement and a possible release are over. */
  datatype Cont = ToCtx(ctx: Ctx) | ToSpDec(ctx: Ctx) | ToCqDec

  datatype Pc =
    | Idle
    // SendPacket
    | SpCheck(ctx: Ctx, p: Packet) | SpInc(ctx: Ctx, p: Packet) | SpTest(ctx: Ctx, p: Packet)
    | SpUndo(ctx: Ctx) | SpEnqueue(ctx: Ctx, p: Packet) | SpDec(ctx: Ctx)
    // SendPost
    | PoExchange(k: Caller) | PoEmpty(k: Caller) | PoClear(k: Caller) | PoRecheck(k: Caller)
    | PoBuf(k: Caller) | PoInc(k: Caller, batch: seq<Packet>) | PoSend(k: Caller, batch: seq<Packet>)
    | PoFail(k: Caller)
    // CompleteRecv and RecvPost
    | CrLoop | RpInc | RpRecv | RpFail
    // CompleteSend
    | CsLoop(i: nat) | CsZero | CsClear
    // end of a completion, the first receive
    | CqDec | CoRecv | CoFail
    // Disconnect
    | DcInc(ctx: Ctx) | DcTest(ctx: Ctx) | DcUndo(ctx: Ctx) | DcCancel(ctx: Ctx) | DcDec(ctx: Ctx)
    // ReleaseProc
    | Rel(after: Cont) | RbClear(after: Cont) | RbDrain(after: Cont)
    | Crashed

  function Resume(k: Cont): Pc {
    match k
    case ToCtx(App) => Idle
    case ToCtx(InRecv) => CrLoop
    case ToSpDec(ctx) => SpDec(ctx)
    case ToCqDec => CqDec
  }

  function AfterPost(k: Caller): Cont {
    match k
    case FromSend(ctx) => ToSpDec(ctx)
    case FromCompletion => ToCqDec
  }

  // ----- shared state -----

  /** recvs and sends count the receive and send operations that have been started and whose
      completion no thread has taken yet. */
  datatype Session = Session(io: int, isSending: bool, numSending: nat, sendQ: seq<Packet>, recvs: nat, sends: nat)

  /** What has happened so far; no step looks at it. `wire` lists the packets handed to
      WSASend, `bodies` counts releases, `stuck` says that a send failed, so that nobody will
      clear isSending before the release, and `ended` that the chain of receives has ended: by a
      completion without bytes, a frame too long, or a WSARecv that failed. */
  datatype History = History(
    accepted: seq<Packet>, dropped: seq<Packet>, wire: seq<Packet>, bodies: nat, stuck: bool, ended: bool)

  datatype State = State(m: Session, h: History, threads: seq<Pc>)

  datatype Choice =
    | Go
    | CallSend(p: Packet) | CallDisconnect
    | TakeRecv(ok: bool) | TakeSend(ok: bool)  // ok: bytes were transferred
    | EndRecv(status: bool)                     // the frame loop is over
    | Io(started: bool)                         // outcome of WSASend or WSARecv

  ghost predicate Init(s: State) {
    && s.m == Session(1, false, 0, [], 0, 0)
    && s.h == History([], [], [], 0, false, false)
    && 1 <= |s.threads| <= MAX_THREADS
    && s.threads[0] == CoRecv
    && forall t :: 1 <= t < |s.threads| ==> s.threads[t] == Idle
  }

  predicate Allowed(m: Session, pc: Pc, a: Choice) {
    match pc
    case Idle => a.CallSend? || a.CallDisconnect? || (a.TakeRecv? && m.recvs > 0) || (a.TakeSend? && m.sends > 0)
    case CrLoop => a.CallSend? || a.CallDisconnect? || a.EndRecv?
    case PoSend(_, _) => a.Io?
    case RpRecv => a.Io?
    case CoRecv => a.Io?
    case Crashed => false
    case _ => a.Go?
  }

  // InterlockedDecrement and the two tests on its result.
  function Decrement(m: Session, k: Cont): (Session, Pc) {
    var io := m.io - 1;
    (m.(io := io), if CountOf(io) < 0 then Crashed else if io == 0 then Rel(k) else Resume(k))
  }

  function Increment(m: Session): Session {
    m.(io := m.io + 1)
  }

  function Act(m: Session, h: History, pc: Pc, a: Choice): (Session, History, Pc)
    requires Allowed(m, pc, a)
  {
    match pc
    case Idle =>
      (match a
       case CallSend(p) => (m, h, SpCheck(App, p))
       case CallDisconnect => (m, h, DcInc(App))
       case TakeRecv(ok) =>
         (m.(recvs := m.recvs - 1), if ok then h else h.(ended := true), if ok then CrLoop else CqDec)
       case TakeSend(ok) =>
         (m.(sends := m.sends - 1), if ok then h else h.(stuck := true), if ok then CsLoop(0) else CqDec)
       case _ => (m, h, Idle))
    case SpCheck(ctx, p) => (m, h, if m.io == 0 then Resume(ToCtx(ctx)) else SpInc(ctx, p))
    case SpInc(ctx, p) => (Increment(m), h, SpTest(ctx, p))
    case SpTest(ctx, p) => (m, h, if IsReleased(m.io) then SpUndo(ctx) else SpEnqueue(ctx, p))
    case SpUndo(ctx) => var (m', pc') := Decrement(m, ToCtx(ctx)); (m', h, pc')
    case SpEnqueue(ctx, p) =>
      (m.(sendQ := m.sendQ + [p]), h.(accepted := h.accepted + [p]), PoExchange(FromSend(ctx)))
    case SpDec(ctx) => var (m', pc') := Decrement(m, ToCtx(ctx)); (m', h, pc')
    case PoExchange(k) => (m.(isSending := true), h, if m.isSending then Resume(AfterPost(k)) else PoEmpty(k))
    case PoEmpty(k) => (m, h, if m.sendQ == [] then PoClear(k) else PoBuf(k))
    case PoClear(k) => (m.(isSending := false), h, PoRecheck(k))
    case PoRecheck(k) => (m, h, if m.sendQ == [] then Resume(AfterPost(k)) else PoExchange(k))
    case PoBuf(k) =>
      var n := if |m.sendQ| > MAX_BATCH then MAX_BATCH else |m.sendQ|;
      (m.(numSending := n), h, PoInc(k, m.sendQ[..n]))
    case PoInc(k, batch) => (Increment(m), h, PoSend(k, batch))
    case PoSend(k, batch) =>
      if a.started then (m.(sends := m.sends + 1), h.(wire := h.wire + batch), Resume(AfterPost(k)))
      else (m, h, PoFail(k))
    case PoFail(k) => var (m', pc') := Decrement(m, AfterPost(k)); (m', h.(stuck := true), pc')
    case CrLoop =>
      (match a
       case CallSend(p) => (m, h, SpCheck(InRecv, p))
       case CallDisconnect => (m, h, DcInc(InRecv))
       case EndRecv(status) => (m, if status then h else h.(ended := true), if status then RpInc else CqDec)
       case _ => (m, h, CrLoop))
    case RpInc => (Increment(m), h, RpRecv)
    case RpRecv => if a.started then (m.(recvs := m.recvs + 1), h, CqDec) else (m, h.(ended := true), RpFail)
    case RpFail => var (m', pc') := Decrement(m, ToCqDec); (m', h, pc')
    case CsLoop(i) =>
      if i >= m.numSending then (m, h, CsZero)
      else if m.sendQ == [] then (m, h, Crashed)
      else (m.(sendQ := m.sendQ[1..]), h.(dropped := h.dropped + [m.sendQ[0]]), CsLoop(i + 1))
    case CsZero => (m.(numSending := 0), h, CsClear)
    case CsClear => (m.(isSending := false), h, PoExchange(FromCompletion))
    case CqDec => var (m', pc') := Decrement(m, ToCtx(App)); (m', h, pc')
    case DcInc(ctx) => (Increment(m), h, DcTest(ctx))
    case DcTest(ctx) => (m, h, if IsReleased(m.io) then DcUndo(ctx) else DcCancel(ctx))
    case DcUndo(ctx) => var (m', pc') := Decrement(m, ToCtx(ctx)); (m', h, pc')
    case DcCancel(ctx) => (m, h, DcDec(ctx)) // CancelIoEx on the socket
    case DcDec(ctx) => var (m', pc') := Decrement(m, ToCtx(ctx)); (m', h, pc')
    case CoRecv => if a.started then (m.(recvs := m.recvs + 1), h, Idle) else (m, h.(ended := true), CoFail)
    case CoFail => var (m', pc') := Decrement(m, ToCtx(App)); (m', h, pc')
    case Rel(k) =>
      if m.io == 0 then (m.(io := RELEASED), h.(bodies := h.bodies + 1), RbClear(k)) else (m, h, Resume(k))
    case RbClear(k) => (m.(isSending := false), h.(stuck := false), RbDrain(k))
    case RbDrain(k) =>
      if m.sendQ == [] then (m, h, Resume(k))
      else (m.(sendQ := m.sendQ[1..]), h.(dropped := h.dropped + [m.sendQ[0]]), RbDrain(k))
    case Crashed => (m, h, Crashed)
  }

  // ----- what each thread contributes to the totals -----

  function CtxRefs(ctx: Ctx): nat { if ctx.InRecv? then 1 else 0 }

  function CallerRefs(k: Caller): nat { if k.FromSend? then CtxRefs(k.ctx) + 1 else 1 }

  function ContRefs(k: Cont): nat {
    match k
    case ToCtx(ctx) => CtxRefs(ctx)
    case ToSpDec(ctx) => CtxRefs(ctx) + 1
    case ToCqDec => 1
  }

  /** References a thread holds on the session. */
  function Refs(pc: Pc): nat {
    match pc
    case SpCheck(ctx, _) => CtxRefs(ctx)
    case SpInc(ctx, _) => CtxRefs(ctx)
    case SpTest(ctx, _) => CtxRefs(ctx) + 1
    case SpUndo(ctx) => CtxRefs(ctx) + 1
    case SpEnqueue(ctx, _) => CtxRefs(ctx) + 1
    case SpDec(ctx) => CtxRefs(ctx) + 1
    case PoExchange(k) => CallerRefs(k)
    case PoEmpty(k) => CallerRefs(k)
    case PoClear(k) => CallerRefs(k)
    case PoRecheck(k) => CallerRefs(k)
    case PoBuf(k) => CallerRefs(k)
    case PoInc(k, _) => CallerRefs(k)
    case PoSend(k, _) => CallerRefs(k) + 1
    case PoFail(k) => CallerRefs(k) + 1
    case RpRecv => 2
    case RpFail => 2
    case Rel(k) => ContRefs(k)
    case RbClear(k) => ContRefs(k)
    case RbDrain(k) => ContRefs(k)
    case DcInc(ctx) => CtxRefs(ctx)
    case DcTest(ctx) => CtxRefs(ctx) + 1
    case DcUndo(ctx) => CtxRefs(ctx) + 1
    case DcCancel(ctx) => CtxRefs(ctx) + 1
    case DcDec(ctx) => CtxRefs(ctx) + 1
    case Idle => 0
    case Crashed => 0
    case _ => 1
  }

  function InHandler(pc: Pc): bool {
    match pc
    case SpCheck(ctx, _) => ctx.InRecv?
    case SpInc(ctx, _) => ctx.InRecv?
    case SpTest(ctx, _) => ctx.InRecv?
    case SpUndo(ctx) => ctx.InRecv?
    case SpEnqueue(ctx, _) => ctx.InRecv?
    case SpDec(ctx) => ctx.InRecv?
    case DcInc(ctx) => ctx.InRecv?
    case DcTest(ctx) => ctx.InRecv?
    case DcUndo(ctx) => ctx.InRecv?
    case DcCancel(ctx) => ctx.InRecv?
    case DcDec(ctx) => ctx.InRecv?
    case PoExchange(k) => k == FromSend(InRecv)
    case PoEmpty(k) => k == FromSend(InRecv)
    case PoClear(k) => k == FromSend(InRecv)
    case PoRecheck(k) => k == FromSend(InRecv)
    case PoBuf(k) => k == FromSend(InRecv)
    case PoInc(k, _) => k == FromSend(InRecv)
    case PoSend(k, _) => k == FromSend(InRecv)
    case PoFail(k) => k == FromSend(InRecv)
    case Rel(k) => k == ToCtx(InRecv) || k == ToSpDec(InRecv)
    case RbClear(k) => k == ToCtx(InRecv) || k == ToSpDec(InRecv)
    case RbDrain(k) => k == ToCtx(InRecv) || k == ToSpDec(InRecv)
    case _ => false
  }

  /** Threads that may still post the next receive, or have just failed to. */
  function RecvToken(pc: Pc): nat {
    if pc.CrLoop? || pc.RpInc? || pc.RpRecv? || pc.RpFail? || pc.CoRecv? || InHandler(pc) then 1 else 0
  }

  /** Threads that own the isSending flag. */
  function SendToken(pc: Pc): nat {
    if pc.PoEmpty? || pc.PoClear? || pc.PoBuf? || pc.PoInc? || pc.PoSend? || pc.PoFail? ||
       pc.CsLoop? || pc.CsZero? || pc.CsClear? then 1 else 0
  }

  /** Threads that have yet to exchange isSending or to look at the queue again. */
  function Waking(pc: Pc): nat {
    if pc.PoExchange? || pc.PoRecheck? then 1 else 0
  }

  function InBody(pc: Pc): nat {
    if pc.RbClear? || pc.RbDrain? then 1 else 0
  }

  /** Threads that have seen the count at zero and are about to try the release. */
  function Releasing(pc: Pc): nat {
    if pc.Rel? then 1 else 0
  }

  /** Threads whose reference was there before any release: they have seen isReleased = 0
      after their increment, or took over the reference of a started operation. */
  predicate Privileged(pc: Pc) {
    match pc
    case SpCheck(ctx, _) => ctx.InRecv?
    case SpInc(ctx, _) => ctx.InRecv?
    case SpTest(ctx, _) => ctx.InRecv?
    case SpUndo(ctx) => ctx.InRecv?
    case Rel(k) => ContRefs(k) > 0
    case RbClear(k) => ContRefs(k) > 0
    case RbDrain(k) => ContRefs(k) > 0
    case DcInc(ctx) => ctx.InRecv?
    case DcTest(ctx) => ctx.InRecv?
    case DcUndo(ctx) => ctx.InRecv?
    case Idle => false
    case Crashed => false
    case _ => true
  }

  datatype Totals = Totals(refs: int, recvTokens: int, sendTokens: int, waking: int, inBody: int, releasing: int)

  function WeightOf(pc: Pc): Totals {
    Totals(Refs(pc), RecvToken(pc), SendToken(pc), Waking(pc), InBody(pc), Releasing(pc))
  }

  function Add(a: Totals, b: Totals): Totals {
    Totals(a.refs + b.refs, a.recvTokens + b.recvTokens, a.sendTokens + b.sendTokens, a.waking + b.waking,
           a.inBody + b.inBody, a.releasing + b.releasing)
  }

  // Totals after one thread has moved from pc to pc'.
  function Moved(n: Totals, pc: Pc, pc': Pc): Totals {
    Totals(n.refs - Refs(pc) + Refs(pc'), n.recvTokens - RecvToken(pc) + RecvToken(pc'),
           n.sendTokens - SendToken(pc) + SendToken(pc'), n.waking - Waking(pc) + Waking(pc'),
           n.inBody - InBody(pc) + InBody(pc'), n.releasing - Releasing(pc) + Releasing(pc'))
  }

  ghost predicate Covers(n: Totals, w: Totals) {
    n.refs >= w.refs && n.recvTokens >= w.recvTokens && n.sendTokens >= w.sendTokens &&
    n.waking >= w.waking && n.inBody >= w.inBody && n.releasing >= w.releasing
  }

  ghost function TotalsOf(threads: seq<Pc>): Totals {
    Totals(Sum(threads, Refs), Sum(threads, RecvToken), Sum(threads, SendToken), Sum(threads, Waking),
           Sum(threads, InBody), Sum(threads, Releasing))
  }

  function Bit(b: bool): int { if b then 1 else 0 }

  // ----- the invariant -----

  /** The shared fields against the totals over all threads. */
  ghost predicate Global(m: Session, h: History, n: Totals) {
    var released := h.bodies == 1;
    // the count is the number of references, and the release happens once
    && h.bodies <= 1
    && m.io == n.refs + m.recvs + m.sends + (if released then RELEASED else 0)
    && (released ==> m.recvs == 0 && m.sends == 0)
    && n.inBody <= 1 && (!released ==> n.inBody == 0)
    && (released ==> n.sendTokens == 0 && n.waking == 0)
    // one receive and one send at a time
    && n.recvTokens + m.recvs <= 1
    && (!h.ended ==> n.recvTokens + m.recvs == 1 && !released)
    && n.sendTokens + m.sends + Bit(h.stuck) == Bit(m.isSending)
    // packets leave in the order in which they were accepted
    && h.accepted == h.dropped + m.sendQ
    && h.wire <= h.accepted
    && (!released ==> |h.dropped| <= |h.wire|)
    && (!released && !m.isSending ==> |h.wire| == |h.dropped|)
    && (m.sends == 1 ==> 1 <= m.numSending <= |m.sendQ| && |h.wire| == |h.dropped| + m.numSending)
    // no wakeup is lost, and nothing is left behind
    && (!released && !m.isSending && m.sendQ != [] ==> n.waking >= 1)
    && (released && n.inBody == 0 ==> m.sendQ == [])
    // a count of zero is always noticed
    && (!released && m.io == 0 ==> n.releasing >= 1)
  }

  // The batch is the first numSending packets of the queue.
  ghost predicate IsBatch(m: Session, batch: seq<Packet>) {
    1 <= m.numSending <= |m.sendQ| && batch == m.sendQ[..m.numSending]
  }

  ghost predicate LocalOk(m: Session, h: History, pc: Pc) {
    && pc != Crashed
    && (Privileged(pc) ==> h.bodies == 0)
    && (pc.SpUndo? || pc.DcUndo? ==> h.bodies == 1)
    && (pc.PoInc? ==> IsBatch(m, pc.batch))
    && (pc.PoSend? ==> IsBatch(m, pc.batch))
    && (pc.PoBuf? ==> m.sendQ != [])
    && (pc.RpFail? ==> h.ended)
    && (pc.CsLoop? ==> pc.i <= m.numSending && |h.wire| == |h.dropped| + m.numSending - pc.i)
    && (SendToken(pc) == 1 && !pc.CsLoop? ==> |h.wire| == |h.dropped|)
  }

  ghost predicate Inv(s: State) {
    && |s.threads| <= MAX_THREADS
    && Global(s.m, s.h, TotalsOf(s.threads))
    && forall t :: 0 <= t < |s.threads| ==> LocalOk(s.m, s.h, s.threads[t])
  }

  // ----- one step, on values -----

  ghost predicate Bounded(n: Totals) {
    && n.refs <= MAX_THREADS + n.recvTokens + n.sendTokens
    && n.sendTokens + n.waking <= n.refs && n.recvTokens <= n.refs
  }

  ghost predicate MoverOk(m: Session, h: History, n: Totals, pc: Pc, a: Choice)
    requires Allowed(m, pc, a)
  {
    var (m', h', pc') := Act(m, h, pc, a);
    Global(m', h', Moved(n, pc, pc')) && LocalOk(m', h', pc')
  }

  ghost predicate MoverPre(m: Session, h: History, n: Totals, pc: Pc, a: Choice) {
    Allowed(m, pc, a) && Global(m, h, n) && Covers(n, WeightOf(pc)) && LocalOk(m, h, pc) && Bounded(n)
  }

  lemma MoverIdle(m: Session, h: History, n: Totals, a: Choice)
    requires MoverPre(m, h, n, Idle, a) && !a.TakeRecv? && !a.TakeSend?
    ensures MoverOk(m, h, n, Idle, a)
  {
  }

  lemma MoverTakeRecv(m: Session, h: History, n: Totals, a: Choice)
    requires MoverPre(m, h, n, Idle, a) && a.TakeRecv?
    ensures MoverOk(m, h, n, Idle, a)
  {
  }

  lemma MoverTakeSend(m: Session, h: History, n: Totals, a: Choice)
    requires MoverPre(m, h, n, Idle, a) && a.TakeSend?
    ensures MoverOk(m, h, n, Idle, a)
  {
  }

  lemma MoverCrLoop(m: Session, h: History, n: Totals, a: Choice)
    requires MoverPre(m, h, n, CrLoop, a)
    ensures MoverOk(m, h, n, CrLoop, a)
  {
  }

  lemma MoverSpCheck(m: Session, h: History, n: Totals, ctx: Ctx, p: Packet, a: Choice)
    requires MoverPre(m, h, n, SpCheck(ctx, p), a)
    ensures MoverOk(m, h, n, SpCheck(ctx, p), a)
  {
  }

  lemma MoverSpInc(m: Session, h: History, n: Totals, ctx: Ctx, p: Packet, a: Choice)
    requires MoverPre(m, h, n, SpInc(ctx, p), a)
    ensures MoverOk(m, h, n, SpInc(ctx, p), a)
  {
  }

  lemma MoverSpTest(m: Session, h: History, n: Totals, ctx: Ctx, p: Packet, a: Choice)
    requires MoverPre(m, h, n, SpTest(ctx, p), a)
    ensures MoverOk(m, h, n, SpTest(ctx, p), a)
  {
  }

  lemma MoverSpEnqueue(m: Session, h: History, n: Totals, ctx: Ctx, p: Packet, a: Choice)
    requires MoverPre(m, h, n, SpEnqueue(ctx, p), a)
    ensures MoverOk(m, h, n, SpEnqueue(ctx, p), a)
  {
  }

  lemma MoverPoExchange(m: Session, h: History, n: Totals, k: Caller, a: Choice)
    requires MoverPre(m, h, n, PoExchange(k), a)
    ensures MoverOk(m, h, n, PoExchange(k), a)
  {
  }

  lemma MoverPoEmpty(m: Session, h: History, n: Totals, k: Caller, a: Choice)
    requires MoverPre(m, h, n, PoEmpty(k), a)
    ensures MoverOk(m, h, n, PoEmpty(k), a)
  {
  }

  lemma MoverPoClear(m: Session, h: History, n: Totals, k: Caller, a: Choice)
    requires MoverPre(m, h, n, PoClear(k), a)
    ensures MoverOk(m, h, n, PoClear(k), a)
  {
  }

  lemma MoverPoRecheck(m: Session, h: History, n: Totals, k: Caller, a: Choice)
    requires MoverPre(m, h, n, PoRecheck(k), a)
    ensures MoverOk(m, h, n, PoRecheck(k), a)
  {
  }

  lemma MoverPoBuf(m: Session, h: History, n: Totals, k: Caller, a: Choice)
    requires MoverPre(m, h, n, PoBuf(k), a)
    ensures MoverOk(m, h, n, PoBuf(k), a)
  {
  }

  lemma MoverPoInc(m: Session, h: History, n: Totals, k: Caller, batch: seq<Packet>, a: Choice)
    requires MoverPre(m, h, n, PoInc(k, batch), a)
    ensures MoverOk(m, h, n, PoInc(k, batch), a)
  {
  }

  lemma MoverPosted(m: Session, h: History, n: Totals, k: Caller, batch: seq<Packet>)
    requires MoverPre(m, h, n, PoSend(k, batch), Io(true))
    ensures MoverOk(m, h, n, PoSend(k, batch), Io(true))
  {
  }

  lemma MoverPostFailed(m: Session, h: History, n: Totals, k: Caller, batch: seq<Packet>)
    requires MoverPre(m, h, n, PoSend(k, batch), Io(false))
    ensures MoverOk(m, h, n, PoSend(k, batch), Io(false))
  {
  }

  lemma MoverPoSend(m: Session, h: History, n: Totals, k: Caller, batch: seq<Packet>, a: Choice)
    requires MoverPre(m, h, n, PoSend(k, batch), a)
    ensures MoverOk(m, h, n, PoSend(k, batch), a)
  {
    assert a == Io(true) || a == Io(false);
    hide MoverPre, MoverOk;
    if a == Io(true) {
      MoverPosted(m, h, n, k, batch);
    } else {
      MoverPostFailed(m, h, n, k, batch);
    }
  }

  lemma MoverRpInc(m: Session, h: History, n: Totals, a: Choice)
    requires MoverPre(m, h, n, RpInc, a)
    ensures MoverOk(m, h, n, RpInc, a)
  {
  }

  lemma MoverRpRecv(m: Session, h: History, n: Totals, a: Choice)
    requires MoverPre(m, h, n, RpRecv, a)
    ensures MoverOk(m, h, n, RpRecv, a)
  {
  }

  lemma MoverCoRecv(m: Session, h: History, n: Totals, a: Choice)
    requires MoverPre(m, h, n, CoRecv, a)
    ensures MoverOk(m, h, n, CoRecv, a)
  {
  }

  lemma MoverCsLoop(m: Session, h: History, n: Totals, i: nat, a: Choice)
    requires MoverPre(m, h, n, CsLoop(i), a)
    ensures MoverOk(m, h, n, CsLoop(i), a)
  {
  }

  lemma MoverCsZero(m: Session, h: History, n: Totals, a: Choice)
    requires MoverPre(m, h, n, CsZero, a)
    ensures MoverOk(m, h, n, CsZero, a)
  {
  }

  lemma MoverCsClear(m: Session, h: History, n: Totals, a: Choice)
    requires MoverPre(m, h, n, CsClear, a)
    ensures MoverOk(m, h, n, CsClear, a)
  {
  }

  lemma MoverDcInc(m: Session, h: History, n: Totals, ctx: Ctx, a: Choice)
    requires MoverPre(m, h, n, DcInc(ctx), a)
    ensures MoverOk(m, h, n, DcInc(ctx), a)
  {
  }

  lemma MoverDcTest(m: Session, h: History, n: Totals, ctx: Ctx, a: Choice)
    requires MoverPre(m, h, n, DcTest(ctx), a)
    ensures MoverOk(m, h, n, DcTest(ctx), a)
  {
  }

  lemma MoverDcCancel(m: Session, h: History, n: Totals, ctx: Ctx, a: Choice)
    requires MoverPre(m, h, n, DcCancel(ctx), a)
    ensures MoverOk(m, h, n, DcCancel(ctx), a)
  {
  }

  lemma MoverRel(m: Session, h: History, n: Totals, k: Cont, a: Choice)
    requires MoverPre(m, h, n, Rel(k), a)
    ensures MoverOk(m, h, n, Rel(k), a)
  {
  }

  lemma MoverRbClear(m: Session, h: History, n: Totals, k: Cont, a: Choice)
    requires MoverPre(m, h, n, RbClear(k), a)
    ensures MoverOk(m, h, n, RbClear(k), a)
  {
  }

  lemma MoverRbDrain(m: Session, h: History, n: Totals, k: Cont, a: Choice)
    requires MoverPre(m, h, n, RbDrain(k), a)
    ensures MoverOk(m, h, n, RbDrain(k), a)
  {
  }

  // The continuation of each decrement.
  predicate Decrementing(pc: Pc) {
    pc.SpUndo? || pc.SpDec? || pc.PoFail? || pc.RpFail? || pc.CqDec? ||
    pc.DcUndo? || pc.DcDec? || pc.CoFail?
  }

  function Target(pc: Pc): Cont {
    match pc
    case SpUndo(ctx) => ToCtx(ctx)
    case SpDec(ctx) => ToCtx(ctx)
    case PoFail(k) => AfterPost(k)
    case RpFail => ToCqDec
    case DcUndo(ctx) => ToCtx(ctx)
    case DcDec(ctx) => ToCtx(ctx)
    case _ => ToCtx(App)
  }

  // A thread whose send has failed leaves isSending behind.
  function Orphaned(h: History, pc: Pc): History {
    if pc.PoFail? then h.(stuck := true) else h
  }

  // What a decrementing thread contributes afterwards: one reference less and no failed post.
  function Given(pc: Pc): Totals {
    WeightOf(pc).(refs := Refs(pc) - 1, sendTokens := 0, recvTokens := if pc.RpFail? then 0 else RecvToken(pc))
  }

  lemma DecrementTarget(m: Session, h: History, pc: Pc, a: Choice)
    requires Allowed(m, pc, a)
    requires Decrementing(pc)
    ensures Act(m, h, pc, a) == (Decrement(m, Target(pc)).0, Orphaned(h, pc), Decrement(m, Target(pc)).1)
  {
  }

  /** What a thread contributes before the decrement and after. */
  lemma ResumeWeights(pc: Pc)
    requires Decrementing(pc)
    ensures WeightOf(Resume(Target(pc))) == Given(pc)
    ensures Refs(pc) >= 1 && Releasing(pc) == 0 && (Privileged(Resume(Target(pc))) ==> Privileged(pc))
  {
  }

  /** What it contributes in the release attempt. */
  lemma ReleaseWeights(pc: Pc)
    requires Decrementing(pc)
    ensures WeightOf(Rel(Target(pc))) == Given(pc).(releasing := 1)
    ensures Privileged(Rel(Target(pc))) ==> Privileged(pc)
  {
  }

  lemma PreParts(m: Session, h: History, n: Totals, pc: Pc, a: Choice)
    requires MoverPre(m, h, n, pc, a)
    ensures Allowed(m, pc, a) && Global(m, h, n) && Covers(n, WeightOf(pc)) && LocalOk(m, h, pc) && Bounded(n)
    ensures n.recvTokens >= 0 && n.sendTokens >= 0 && n.releasing >= 0
  {
  }

  lemma DecrementIsReferenced(m: Session, h: History, n: Totals, pc: Pc)
    requires Global(m, h, n) && Covers(n, WeightOf(pc)) && Refs(pc) >= 1 && LocalOk(m, h, pc)
    ensures n.refs >= 1 && m.recvs + m.sends >= 0 && (Privileged(pc) ==> h.bodies == 0)
  {
  }

  // The totals without what the thread gives up besides its reference.
  function WithoutTokens(n: Totals, pc: Pc): Totals {
    n.(sendTokens := n.sendTokens - SendToken(pc),
       recvTokens := n.recvTokens - if pc.RpFail? then RecvToken(pc) else 0)
  }

  lemma OrphanGlobal(m: Session, h: History, n: Totals, pc: Pc)
    requires Global(m, h, n) && Covers(n, WeightOf(pc)) && Bounded(n) && Decrementing(pc)
    requires pc.RpFail? ==> h.ended
    ensures Global(m, Orphaned(h, pc), WithoutTokens(n, pc)) && n.refs + m.recvs + m.sends <= 0x7fff
    ensures WithoutTokens(n, pc).recvTokens >= 0 && WithoutTokens(n, pc).sendTokens >= 0
  {
  }

  lemma DecrementGlobal(m: Session, h: History, n: Totals)
    requires Global(m, h, n) && 1 <= n.refs && n.refs + m.recvs + m.sends <= 0x7fff
    requires n.recvTokens >= 0 && n.sendTokens >= 0 && n.releasing >= 0
    ensures Global(m.(io := m.io - 1), h, n.(refs := n.refs - 1, releasing := n.releasing + 1))
    ensures m.io != 1 ==> Global(m.(io := m.io - 1), h, n.(refs := n.refs - 1))
    ensures CountOf(m.io - 1) == n.refs - 1 + m.recvs + m.sends
  {
  }

  lemma ContLocal(m: Session, h: History, k: Cont)
    requires Privileged(Resume(k)) || Privileged(Rel(k)) ==> h.bodies == 0
    ensures LocalOk(m, h, Resume(k)) && LocalOk(m, h, Rel(k))
  {
  }

  /** Giving back a reference: the thread goes on, or finds the count at zero. */
  lemma MoverDecrement(m: Session, h: History, n: Totals, pc: Pc, a: Choice)
    requires MoverPre(m, h, n, pc, a)
    requires Decrementing(pc)
    ensures MoverOk(m, h, n, pc, a)
  {
    hide MoverPre, Global, Act, Privileged, Allowed, LocalOk, Resume, Target, CountOf;
    hide Refs, RecvToken, SendToken, Waking, InBody, Releasing;
    PreParts(m, h, n, pc, a);
    var k := Target(pc);
    DecrementTarget(m, h, pc, a);
    ResumeWeights(pc);
    ReleaseWeights(pc);
    DecrementIsReferenced(m, h, n, pc);
    OrphanGlobal(m, h, n, pc);
    var h', w := Orphaned(h, pc), WithoutTokens(n, pc);
    DecrementGlobal(m, h', w);
    ContLocal(m.(io := m.io - 1), h', k);
    var pc' := Act(m, h, pc, a).2;
    assert pc' == Rel(k) || pc' == Resume(k);
    assert Moved(n, pc, pc') == w.(refs := n.refs - 1, releasing := n.releasing + if pc' == Rel(k) then 1 else 0);
  }

  /** The moving thread: the shared fields stay consistent and its own facts hold again. */
  lemma StepMover(m: Session, h: History, n: Totals, pc: Pc, a: Choice)
    requires MoverPre(m, h, n, pc, a)
    ensures MoverOk(m, h, n, pc, a)
  {
    hide MoverPre, MoverOk;
    AllowedNow(m, h, n, pc, a);
    match pc
    case Idle =>
      if a.TakeRecv? {
        MoverTakeRecv(m, h, n, a);
      } else if a.TakeSend? {
        MoverTakeSend(m, h, n, a);
      } else {
        MoverIdle(m, h, n, a);
      }
    case CrLoop => MoverCrLoop(m, h, n, a);
    case SpCheck(ctx, p) => MoverSpCheck(m, h, n, ctx, p, a);
    case SpInc(ctx, p) => MoverSpInc(m, h, n, ctx, p, a);
    case SpTest(ctx, p) => MoverSpTest(m, h, n, ctx, p, a);
    case SpEnqueue(ctx, p) => MoverSpEnqueue(m, h, n, ctx, p, a);
    case PoExchange(k) => MoverPoExchange(m, h, n, k, a);
    case PoEmpty(k) => MoverPoEmpty(m, h, n, k, a);
    case PoClear(k) => MoverPoClear(m, h, n, k, a);
    case PoRecheck(k) => MoverPoRecheck(m, h, n, k, a);
    case PoBuf(k) => MoverPoBuf(m, h, n, k, a);
    case PoInc(k, batch) => MoverPoInc(m, h, n, k, batch, a);
    case PoSend(k, batch) => MoverPoSend(m, h, n, k, batch, a);
    case RpInc => MoverRpInc(m, h, n, a);
    case RpRecv => MoverRpRecv(m, h, n, a);
    case CoRecv => MoverCoRecv(m, h, n, a);
    case CsLoop(i) => MoverCsLoop(m, h, n, i, a);
    case CsZero => MoverCsZero(m, h, n, a);
    case CsClear => MoverCsClear(m, h, n, a);
    case DcInc(ctx) => MoverDcInc(m, h, n, ctx, a);
    case DcTest(ctx) => MoverDcTest(m, h, n, ctx, a);
    case DcCancel(ctx) => MoverDcCancel(m, h, n, ctx, a);
    case Rel(k) => MoverRel(m, h, n, k, a);
    case RbClear(k) => MoverRbClear(m, h, n, k, a);
    case RbDrain(k) => MoverRbDrain(m, h, n, k, a);
    case _ => MoverDecrement(m, h, n, pc, a);
  }

  lemma AllowedNow(m: Session, h: History, n: Totals, pc: Pc, a: Choice)
    requires MoverPre(m, h, n, pc, a)
    ensures Allowed(m, pc, a) && pc != Crashed
  {
  }

  /** Without the isSending flag, and outside the release, a step only appends to the queue. */
  lemma OnlyTheSenderDequeues(m: Session, h: History, pc: Pc, a: Choice)
    requires Allowed(m, pc, a) && SendToken(pc) == 0 && InBody(pc) == 0
    ensures var (m', h', _) := Act(m, h, pc, a);
      && m'.numSending == m.numSending && m.sendQ <= m'.sendQ
      && h'.dropped == h.dropped && h'.wire == h.wire
  {
  }

  lemma OnlyReleaseCounts(m: Session, h: History, pc: Pc, a: Choice)
    requires Allowed(m, pc, a)
    ensures Act(m, h, pc, a).1.bodies == h.bodies + (if pc.Rel? && m.io == 0 then 1 else 0)
    ensures h.ended ==> Act(m, h, pc, a).1.ended
  {
  }

  lemma PrivilegedHoldsAReference(pc: Pc)
    ensures Privileged(pc) ==> Refs(pc) >= 1
    ensures SendToken(pc) == 1 ==> Privileged(pc)
    ensures pc.SpUndo? || pc.DcUndo? ==> Refs(pc) >= 1
  {
  }

  /** A release cannot overtake a privileged thread. */
  lemma BodiesKept(m: Session, h: History, n: Totals, pc: Pc, a: Choice, q: Pc)
    requires MoverPre(m, h, n, pc, a) && Covers(n, Add(WeightOf(pc), WeightOf(q))) && LocalOk(m, h, q)
    ensures Allowed(m, pc, a)
    ensures Privileged(q) ==> Act(m, h, pc, a).1.bodies == 0
    ensures h.ended ==> Act(m, h, pc, a).1.ended
    ensures q.SpUndo? || q.DcUndo? ==> Act(m, h, pc, a).1.bodies == 1
  {
    OnlyReleaseCounts(m, h, pc, a);
    hide Act, Allowed;
    PrivilegedHoldsAReference(q);
  }

  /** What an owner of isSending relies on. */
  ghost predicate SameForSender(m: Session, h: History, m': Session, h': History) {
    m'.numSending == m.numSending && m.sendQ <= m'.sendQ && h'.dropped == h.dropped && h'.wire == h.wire
  }

  /** The owner of isSending is the only one to move the queue, so another owner's batch
      stays at the front of the queue. */
  lemma SenderKept(m: Session, h: History, n: Totals, pc: Pc, a: Choice, q: Pc)
    requires MoverPre(m, h, n, pc, a) && Covers(n, Add(WeightOf(pc), WeightOf(q)))
    requires LocalOk(m, h, q) && SendToken(q) == 1
    ensures Allowed(m, pc, a) && SameForSender(m, h, Act(m, h, pc, a).0, Act(m, h, pc, a).1)
  {
    PreParts(m, h, n, pc, a);
    hide MoverPre, Allowed, Act, Privileged, LocalOk;
    SoleSender(m, h, n, pc, q);
    OnlyTheSenderDequeues(m, h, pc, a);
  }

  lemma SendersAndBodies(m: Session, h: History, n: Totals)
    requires Global(m, h, n)
    ensures n.sendTokens <= 1 && (h.bodies == 0 ==> n.inBody == 0)
  {
  }

  lemma SoleSender(m: Session, h: History, n: Totals, pc: Pc, q: Pc)
    requires Global(m, h, n) && Covers(n, Add(WeightOf(pc), WeightOf(q))) && LocalOk(m, h, q) && SendToken(q) == 1
    ensures SendToken(pc) == 0 && InBody(pc) == 0
  {
    PrivilegedHoldsAReference(q);
    assert h.bodies == 0;
    hide Global, LocalOk, Privileged, Refs, RecvToken, Waking, Releasing, SendToken, InBody;
    SendersAndBodies(m, h, n);
  }

  lemma LocalKept(m: Session, h: History, m': Session, h': History, q: Pc)
    requires LocalOk(m, h, q)
    requires Privileged(q) ==> h'.bodies == 0
    requires q.SpUndo? || q.DcUndo? ==> h'.bodies == 1
    requires SendToken(q) == 1 ==> SameForSender(m, h, m', h')
    requires h.ended ==> h'.ended
    ensures LocalOk(m', h', q)
  {
    if SendToken(q) == 1 && m.numSending <= |m.sendQ| {
      assert m'.sendQ[..m.numSending] == m.sendQ[..m.numSending];
    }
  }

  /** Any other thread: its facts survive the step. */
  lemma StepOther(m: Session, h: History, n: Totals, pc: Pc, a: Choice, q: Pc)
    requires MoverPre(m, h, n, pc, a) && Covers(n, Add(WeightOf(pc), WeightOf(q))) && LocalOk(m, h, q)
    ensures Allowed(m, pc, a) && LocalOk(Act(m, h, pc, a).0, Act(m, h, pc, a).1, q)
  {
    hide MoverPre, Allowed, Act, Global, Privileged, Covers, LocalOk, SendToken, SameForSender;
    BodiesKept(m, h, n, pc, a, q);
    if SendToken(q) == 1 {
      SenderKept(m, h, n, pc, a, q);
    }
    LocalKept(m, h, Act(m, h, pc, a).0, Act(m, h, pc, a).1, q);
  }

  // ----- one step of the whole session -----

  ghost predicate Enabled(s: State, t: nat, a: Choice) {
    t < |s.threads| && Allowed(s.m, s.threads[t], a)
  }

  ghost function Next(s: State, t: nat, a: Choice): State
    requires Enabled(s, t, a)
  {
    var (m, h, pc) := Act(s.m, s.h, s.threads[t], a);
    State(m, h, s.threads[t := pc])
  }

  function TokenOrWaking(pc: Pc): nat { SendToken(pc) + Waking(pc) }

  function OneAndTokens(pc: Pc): nat { 1 + RecvToken(pc) + SendToken(pc) }

  lemma WeightBounds(pc: Pc)
    ensures Refs(pc) <= OneAndTokens(pc) && RecvToken(pc) <= Refs(pc) && TokenOrWaking(pc) <= Refs(pc)
  {
  }

  lemma {:induction false} SumOfTokens(threads: seq<Pc>)
    ensures Sum(threads, TokenOrWaking) == Sum(threads, SendToken) + Sum(threads, Waking)
    ensures Sum(threads, OneAndTokens) == |threads| + Sum(threads, RecvToken) + Sum(threads, SendToken)
  {
    if |threads| > 0 {
      SumOfTokens(threads[1..]);
    }
  }

  lemma TotalsBounded(threads: seq<Pc>)
    requires |threads| <= MAX_THREADS
    ensures Bounded(TotalsOf(threads))
  {
    forall i | 0 <= i < |threads|
      ensures Refs(threads[i]) <= OneAndTokens(threads[i]) && RecvToken(threads[i]) <= Refs(threads[i])
      ensures TokenOrWaking(threads[i]) <= Refs(threads[i])
    {
      WeightBounds(threads[i]);
    }
    SumLessOrEqual(threads, Refs, OneAndTokens);
    SumLessOrEqual(threads, RecvToken, Refs);
    SumLessOrEqual(threads, TokenOrWaking, Refs);
    SumOfTokens(threads);
  }

  lemma TotalsCover(threads: seq<Pc>, t: nat)
    requires t < |threads|
    ensures Covers(TotalsOf(threads), WeightOf(threads[t]))
  {
    SumAtLeast(threads, Refs, t);
    SumAtLeast(threads, RecvToken, t);
    SumAtLeast(threads, SendToken, t);
    SumAtLeast(threads, Waking, t);
    SumAtLeast(threads, InBody, t);
    SumAtLeast(threads, Releasing, t);
  }

  lemma TotalsCoverTwo(threads: seq<Pc>, t: nat, u: nat)
    requires t < |threads| && u < |threads| && t != u
    ensures Covers(TotalsOf(threads), Add(WeightOf(threads[t]), WeightOf(threads[u])))
  {
    SumAtLeastTwo(threads, Refs, t, u);
    SumAtLeastTwo(threads, RecvToken, t, u);
    SumAtLeastTwo(threads, SendToken, t, u);
    SumAtLeastTwo(threads, Waking, t, u);
    SumAtLeastTwo(threads, InBody, t, u);
    SumAtLeastTwo(threads, Releasing, t, u);
  }

  lemma TotalsMoved(threads: seq<Pc>, t: nat, pc: Pc)
    requires t < |threads|
    ensures TotalsOf(threads[t := pc]) == Moved(TotalsOf(threads), threads[t], pc)
  {
    SumUpdate(threads, Refs, t, pc);
    SumUpdate(threads, RecvToken, t, pc);
    SumUpdate(threads, SendToken, t, pc);
    SumUpdate(threads, Waking, t, pc);
    SumUpdate(threads, InBody, t, pc);
    SumUpdate(threads, Releasing, t, pc);
  }

  /** The invariant survives every step of every thread. */
  lemma StepKeeps(s: State, t: nat, a: Choice)
    requires Inv(s) && Enabled(s, t, a)
    ensures Inv(Next(s, t, a))
  {
    hide Act, Global, LocalOk, Allowed, TotalsOf, Covers, Bounded, Moved, Add, WeightOf;
    var n, pc := TotalsOf(s.threads), s.threads[t];
    var (m', h', pc') := Act(s.m, s.h, pc, a);
    TotalsBounded(s.threads);
    TotalsCover(s.threads, t);
    TotalsMoved(s.threads, t, pc');
    StepMover(s.m, s.h, n, pc, a);
    forall u | 0 <= u < |s.threads| && u != t ensures LocalOk(m', h', s.threads[u]) {
      TotalsCoverTwo(s.threads, t, u);
      StepOther(s.m, s.h, n, pc, a, s.threads[u]);
    }
  }

  lemma IdleTotals(threads: seq<Pc>)
    requires forall t :: 0 <= t < |threads| ==> threads[t] == Idle
    ensures TotalsOf(threads) == Totals(0, 0, 0, 0, 0, 0)
  {
    SumZero(threads, Refs);
    SumZero(threads, RecvToken);
    SumZero(threads, SendToken);
    SumZero(threads, Waking);
    SumZero(threads, InBody);
    SumZero(threads, Releasing);
  }

  lemma InitGlobal()
    ensures Global(Session(1, false, 0, [], 0, 0), History([], [], [], 0, false, false), Totals(1, 1, 0, 0, 0, 0))
    ensures forall pc :: pc == CoRecv || pc == Idle ==>
              LocalOk(Session(1, false, 0, [], 0, 0), History([], [], [], 0, false, false), pc)
  {
  }

  lemma InitTotals(threads: seq<Pc>)
    requires |threads| >= 1 && threads[0] == CoRecv
    requires forall t :: 1 <= t < |threads| ==> threads[t] == Idle
    ensures TotalsOf(threads) == Totals(1, 1, 0, 0, 0, 0)
  {
    assert TotalsOf(threads[1..]) == Totals(0, 0, 0, 0, 0, 0) by {
      IdleTotals(threads[1..]);
    }
    var first := threads[0];
    assert Refs(first) == 1 && RecvToken(first) == 1 && SendToken(first) == 0;
    assert Waking(first) == 0 && InBody(first) == 0 && Releasing(first) == 0;
  }

  lemma InitKeeps(s: State)
    requires Init(s)
    ensures Inv(s)
  {
    hide TotalsOf, Global, LocalOk;
    InitGlobal();
    InitTotals(s.threads);
  }

  // ----- whole runs -----

  datatype Move = Move(t: nat, a: Choice)

  /** `s` is reached from `first` by the schedule `moves`, any interleaving of the threads. */
  ghost predicate Reaches(first: State, moves: seq<Move>, s: State) {
    if moves == [] then s == first
    else
      var last := moves[|moves| - 1];
      exists before ::
        && Reaches(first, moves[..|moves| - 1], before)
        && Enabled(before, last.t, last.a) && s == Next(before, last.t, last.a)
  }

  lemma {:induction false} RunKeeps(first: State, moves: seq<Move>, s: State)
    requires Init(first) && Reaches(first, moves, s)
    ensures Inv(s)
    decreases |moves|
  {
    if moves == [] {
      InitKeeps(first);
    } else {
      var n := |moves| - 1;
      var before :| Reaches(first, moves[..n], before) && Enabled(before, moves[n].t, moves[n].a) &&
                    s == Next(before, moves[n].t, moves[n].a);
      RunKeeps(first, moves[..n], before);
      StepKeeps(before, moves[n].t, moves[n].a);
    }
  }

  /** Single sender: in every run at most one send and one receive are outstanding, and a
      thread owns isSending exactly when no send is outstanding and none has failed. */
  lemma SingleSender(first: State, moves: seq<Move>, s: State)
    requires Init(first) && Reaches(first, moves, s)
    ensures s.m.sends <= 1 && s.m.recvs <= 1
    ensures Sum(s.threads, SendToken) + s.m.sends + Bit(s.h.stuck) == Bit(s.m.isSending)
  {
    RunKeeps(first, moves, s);
  }

  /** In every run the packets dropped from the queue, followed by those still queued, are
      the packets accepted, in order; and the packets handed to WSASend are a prefix of them:
      each is sent at most once, in order of acceptance, and dropped exactly once. */
  lemma FifoExactlyOnce(first: State, moves: seq<Move>, s: State)
    requires Init(first) && Reaches(first, moves, s)
    ensures s.h.accepted == s.h.dropped + s.m.sendQ
    ensures s.h.wire <= s.h.accepted
    ensures s.m.sends == 1 ==> s.m.numSending <= |s.m.sendQ| && s.h.wire == s.h.dropped + s.m.sendQ[..s.m.numSending]
  {
    RunKeeps(first, moves, s);
    if s.m.sends == 1 {
      var h, m := s.h, s.m;
      assert h.wire == h.accepted[..|h.wire|];
      assert h.wire == h.dropped + m.sendQ[..m.numSending];
    }
  }

  /** No lost wakeup: while the session lives, a packet that waits in the queue with
      isSending clear has a thread that is about to exchange the flag or to look again. */
  lemma NoLostWakeup(first: State, moves: seq<Move>, s: State) returns (t: nat)
    requires Init(first) && Reaches(first, moves, s)
    requires s.m.sendQ != [] && !s.m.isSending && s.h.bodies == 0
    ensures t < |s.threads| && (s.threads[t].PoExchange? || s.threads[t].PoRecheck?)
  {
    RunKeeps(first, moves, s);
    t := SumPositive(s.threads, Waking);
  }

  /** The body of ReleaseProc runs at most once, and the count is exactly the number of
      references: it neither overflows its 16 bits nor goes negative. */
  lemma ReleasedOnce(first: State, moves: seq<Move>, s: State)
    requires Init(first) && Reaches(first, moves, s)
    ensures s.h.bodies <= 1 && Sum(s.threads, InBody) <= s.h.bodies
    ensures CountOf(s.m.io) == Sum(s.threads, Refs) + s.m.recvs + s.m.sends
    ensures IsReleased(s.m.io) <==> s.h.bodies == 1
  {
    RunKeeps(first, moves, s);
    TotalsBounded(s.threads);
    CountIsExact(s.m, s.h, TotalsOf(s.threads));
  }

  lemma CountIsExact(m: Session, h: History, n: Totals)
    requires Global(m, h, n) && Bounded(n) && n.refs >= 0 && n.waking >= 0
    requires n.sendTokens >= 0 && n.recvTokens >= 0 && n.inBody >= 0
    ensures CountOf(m.io) == n.refs + m.recvs + m.sends && (IsReleased(m.io) <==> h.bodies == 1)
    ensures h.bodies <= 1 && n.inBody <= h.bodies
  {
  }

  /** No thread ever crashes: the count is never seen negative and CompleteSend never finds
      the queue empty before it has taken out what was sent. */
  lemma NeverCrashes(first: State, moves: seq<Move>, s: State, t: nat)
    requires Init(first) && Reaches(first, moves, s) && t < |s.threads|
    ensures s.threads[t] != Crashed
  {
    RunKeeps(first, moves, s);
    assert LocalOk(s.m, s.h, s.threads[t]);
  }

  /** Threads about to pass the socket to CancelIoEx, WSASend or WSARecv. */
  predicate UsesSocket(pc: Pc) {
    pc.DcCancel? || pc.PoSend? || pc.RpRecv? || pc.CoRecv?
  }

  /** While, and after, the body runs, nobody holds a reference from before the release:
      no send or receive is outstanding, no thread of SendPacket or Disconnect that has seen
      isReleased = 0 after its increment is still between that and its decrement, and no
      thread uses the socket that the body closes. */
  lemma ReleaseIsExclusive(first: State, moves: seq<Move>, s: State)
    requires Init(first) && Reaches(first, moves, s) && s.h.bodies == 1
    ensures s.m.sends == 0 && s.m.recvs == 0
    ensures forall t :: 0 <= t < |s.threads| ==> !Privileged(s.threads[t]) && !UsesSocket(s.threads[t])
    ensures Sum(s.threads, SendToken) == 0
  {
    RunKeeps(first, moves, s);
    forall t | 0 <= t < |s.threads| ensures !Privileged(s.threads[t]) && !UsesSocket(s.threads[t]) {
      assert LocalOk(s.m, s.h, s.threads[t]);
    }
  }

  /** Once the body is over every accepted packet has been dropped, and it stays that way. */
  lemma ReleaseDrainsEverything(first: State, moves: seq<Move>, s: State)
    requires Init(first) && Reaches(first, moves, s)
    requires s.h.bodies == 1 && Sum(s.threads, InBody) == 0
    ensures s.m.sendQ == [] && s.h.dropped == s.h.accepted
  {
    RunKeeps(first, moves, s);
  }

  /** The session is released whenever its last reference is given back: once no thread
      holds or is about to give back a reference, nothing is outstanding and no thread is
      inside ReleaseProc, the release has happened. */
  lemma QuiescentIsReleased(first: State, moves: seq<Move>, s: State)
    requires Init(first) && Reaches(first, moves, s)
    requires s.m.sends == 0 && s.m.recvs == 0
    requires forall t :: 0 <= t < |s.threads| ==> s.threads[t] == Idle
    ensures s.h.bodies == 1 && s.m.io == RELEASED
  {
    RunKeeps(first, moves, s);
    IdleTotals(s.threads);
  }

  // ----- after a send has failed -----

  /** With no thread owning isSending and no send outstanding, the flag is set exactly when a
      send has failed. */
  lemma OrphanedFlagIff(first: State, moves: seq<Move>, s: State)
    requires Init(first) && Reaches(first, moves, s)
    requires Sum(s.threads, SendToken) == 0 && s.m.sends == 0
    ensures s.m.isSending <==> s.h.stuck
  {
    RunKeeps(first, moves, s);
  }

  lemma StuckStep(s: State, t: nat, a: Choice)
    requires Inv(s) && Enabled(s, t, a) && (s.h.stuck || s.h.bodies == 1)
    ensures var u := Next(s, t, a);
      && u.h.wire == s.h.wire && u.h.bodies >= s.h.bodies
      && (u.h.bodies == 0 ==> u.h.stuck && u.m.isSending && u.h.dropped == s.h.dropped && s.m.sendQ <= u.m.sendQ)
  {
    hide Global;
    assert LocalOk(s.m, s.h, s.threads[t]);
    TotalsCover(s.threads, t);
    StuckOwnsNothing(s.m, s.h, TotalsOf(s.threads), s.threads[t]);
    hide LocalOk, TotalsOf, Inv;
    StuckMove(s.m, s.h, s.threads[t], a);
  }

  // While the flag is orphaned, or the session released, no thread owns the flag.
  lemma StuckOwnsNothing(m: Session, h: History, n: Totals, pc: Pc)
    requires Global(m, h, n) && Covers(n, WeightOf(pc)) && LocalOk(m, h, pc) && (h.stuck || h.bodies == 1)
    ensures SendToken(pc) == 0 && (h.bodies == 0 ==> InBody(pc) == 0 && m.isSending && m.sends == 0)
    ensures h.bodies == 1 ==> m.sends == 0
    ensures h.bodies <= 1
  {
  }

  lemma StuckMove(m: Session, h: History, pc: Pc, a: Choice)
    requires Allowed(m, pc, a) && SendToken(pc) == 0 && m.sends == 0 && (h.bodies == 0 ==> InBody(pc) == 0)
    requires h.bodies == 0 ==> h.stuck && m.isSending
    ensures var (m', h', _) := Act(m, h, pc, a);
      && h'.wire == h.wire && h'.bodies >= h.bodies
      && (h'.bodies == 0 ==> h'.stuck && m'.isSending && h'.dropped == h.dropped && m.sendQ <= m'.sendQ)
  {
  }

  /** After a send has failed nothing is ever sent again: in every later state the packets
      handed to WSASend are still the same, and until the release isSending stays set and
      what is accepted only piles up in the queue. */
  lemma {:induction false} StuckUntilReleased(first: State, moves: seq<Move>, s: State, later: seq<Move>, u: State)
    requires Init(first) && Reaches(first, moves, s) && s.h.stuck && Reaches(s, later, u)
    ensures Inv(u) && u.h.wire == s.h.wire && (u.h.stuck || u.h.bodies == 1)
    ensures u.h.bodies == 0 ==> u.m.isSending && u.h.dropped == s.h.dropped && s.m.sendQ <= u.m.sendQ
    decreases |later|
  {
    if later == [] {
      RunKeeps(first, moves, s);
      hide Reaches, Init;
    } else {
      var n := |later| - 1;
      var before :| Reaches(s, later[..n], before) && Enabled(before, later[n].t, later[n].a) &&
                    u == Next(before, later[n].t, later[n].a);
      hide Inv, Init, Next, Enabled;
      StuckUntilReleased(first, moves, s, later[..n], before);
      StepKeeps(before, later[n].t, later[n].a);
      StuckStep(before, later[n].t, later[n].a);
      ReleasedAtMostOnce(u);
    }
  }

  lemma ReleasedAtMostOnce(s: State)
    requires Inv(s)
    ensures s.h.bodies <= 1
  {
  }

  /** The first thread about to post the first receive, the second one at pc. */
  function Pair(m: Session, h: History, pc: Pc): State {
    State(m, h, [CoRecv, pc])
  }

  lemma SecondMoves(first: State, moves: seq<Move>, m: Session, h: History, pc: Pc, a: Choice)
      returns (longer: seq<Move>)
    requires Reaches(first, moves, Pair(m, h, pc)) && Allowed(m, pc, a)
    ensures var (m', h', pc') := Act(m, h, pc, a); Reaches(first, longer, Pair(m', h', pc'))
  {
    longer := moves + [Move(1, a)];
    var s, n := Pair(m, h, pc), |moves|;
    var (m', h', pc') := Act(m, h, pc, a);
    hide Act, Allowed;
    assert longer[..n] == moves && longer[n] == Move(1, a);
    assert Next(s, 1, a) == Pair(m', h', pc');
    assert Reaches(first, longer[..n], s) && Enabled(s, longer[n].t, longer[n].a)
        && Pair(m', h', pc') == Next(s, longer[n].t, longer[n].a);
  }

  // SendPacket up to the call of SendPost.
  lemma SecondAccepts(first: State, moves: seq<Move>, m: Session, h: History, p: Packet) returns (longer: seq<Move>)
    requires Reaches(first, moves, Pair(m, h, Idle)) && m.io == 1
    ensures Reaches(first, longer, Pair(m.(io := 2, sendQ := m.sendQ + [p]), h.(accepted := h.accepted + [p]),
                                        PoExchange(FromSend(App))))
  {
    hide Reaches;
    longer := SecondMoves(first, moves, m, h, Idle, CallSend(p));
    longer := SecondMoves(first, longer, m, h, SpCheck(App, p), Go);
    longer := SecondMoves(first, longer, m, h, SpInc(App, p), Go);
    longer := SecondMoves(first, longer, m.(io := 2), h, SpTest(App, p), Go);
    longer := SecondMoves(first, longer, m.(io := 2), h, SpEnqueue(App, p), Go);
  }

  // SendPost up to a call of WSASend that fails at once.
  lemma SecondFails(first: State, moves: seq<Move>, m: Session, h: History, p: Packet) returns (longer: seq<Move>)
    requires Reaches(first, moves, Pair(m, h, PoExchange(FromSend(App)))) && m.sendQ == [p] && !m.isSending
    ensures Reaches(first, longer, Pair(m.(io := m.io + 1, isSending := true, numSending := 1), h,
                                        PoFail(FromSend(App))))
  {
    hide Reaches;
    var k := FromSend(App);
    longer := SecondMoves(first, moves, m, h, PoExchange(k), Go);
    var m1 := m.(isSending := true);
    longer := SecondMoves(first, longer, m1, h, PoEmpty(k), Go);
    longer := SecondMoves(first, longer, m1, h, PoBuf(k), Go);
    var m2 := m1.(numSending := 1);
    assert m.sendQ[..1] == [p];
    longer := SecondMoves(first, longer, m2, h, PoInc(k, [p]), Go);
    longer := SecondMoves(first, longer, m2.(io := m.io + 1), h, PoSend(k, [p]), Io(false));
  }

  // The two decrements on the way out.
  lemma SecondReturns(first: State, moves: seq<Move>, m: Session, h: History) returns (longer: seq<Move>)
    requires Reaches(first, moves, Pair(m, h, PoFail(FromSend(App)))) && m.io == 3
    ensures Reaches(first, longer, Pair(m.(io := 1), h.(stuck := true), Idle))
  {
    hide Reaches;
    longer := SecondMoves(first, moves, m, h, PoFail(FromSend(App)), Go);
    longer := SecondMoves(first, longer, m.(io := 2), h.(stuck := true), SpDec(App), Go);
  }

  /** It does happen: a thread sends a packet, WSASend fails at once, and SendPacket returns;
      the packet is accepted, in the queue and never sent, and nobody is left to send it. */
  lemma SendFailureIsReached(p: Packet) returns (first: State, moves: seq<Move>, s: State)
    ensures Init(first) && Reaches(first, moves, s) && s.h.stuck && s.h.bodies == 0
    ensures s.h.accepted == s.m.sendQ == [p] && s.h.wire == [] && s.m.isSending
    ensures s.threads == [CoRecv, Idle] && s.m.sends == 0
  {
    var m, h := Session(1, false, 0, [], 0, 0), History([], [], [], 0, false, false);
    first := Pair(m, h, Idle);
    assert Reaches(first, [], first);
    hide Reaches;
    moves := SecondAccepts(first, [], m, h, p);
    m, h := m.(io := 2, sendQ := [p]), h.(accepted := [p]);
    moves := SecondFails(first, moves, m, h, p);
    m := m.(io := 3, isSending := true, numSending := 1);
    moves := SecondReturns(first, moves, m, h);
    s := Pair(m.(io := 1), h.(stuck := true), Idle);
  }
}
