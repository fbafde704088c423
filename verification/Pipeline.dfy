/**
 * The capture pipeline: transport, dispatcher, analysis worker, persistence worker and the
 * stopping main thread, one move per queue operation, counter update or write call. The queues
 * answer as the ring does: an answer that is not exact may be a stale "full" or "empty".
 */
module Pipeline {
  import opened Options
  import opened BoundedFifo
  import opened Frames
  import opened LittleEndian

  type FrameQueue = Fifo<FramePtr>
  type QueueAnswer = Observation<FramePtr>

  datatype Config = Config(shmSize: nat, ingressCapacity: nat, ringCapacity: nat, flushBytes: nat, fsyncOnFlush: bool)

  // ---- Transport ----

  datatype TransportPc = Polling | Received(desc: Descriptor) | Offering(frame: FramePtr) | TransportDone

  /** The ingest thread and its counters; descs and accepted record what it read and enqueued. */
  datatype Transport = Transport(
    pc: TransportPc, running: bool, received: nat, malformed: nat, dropped: nat,
    descs: seq<Descriptor>, accepted: seq<FramePtr>)

  datatype TransportMove =
    | Read(desc: Descriptor)
    | Build(memory: seq<byte>)
    | Offer(answer: QueueAnswer)
    | PollError
    | LeaveIngest

  /** What a push of the frame can answer. */
  ghost predicate PushAnswers(q: FrameQueue, frame: FramePtr, answer: QueueAnswer) {
    && FifoAllows(q, answer)
    && (answer == Accepted(frame) || (answer.AnsweredFull? && answer.item == frame))
  }

  ghost predicate PopAnswers(q: FrameQueue, answer: QueueAnswer) {
    FifoAllows(q, answer) && (answer.Delivered? || answer.AnsweredEmpty?)
  }

  ghost predicate TransportEnabled(cfg: Config, t: Transport, ingress: FrameQueue, m: TransportMove) {
    match m
    case Read(_) => t.pc.Polling?
    case Build(memory) => t.pc.Received? && |memory| == cfg.shmSize
    case Offer(answer) => t.pc.Offering? && PushAnswers(ingress, t.pc.frame, answer)
    case PollError => t.pc.Polling?
    case LeaveIngest => t.pc.Polling? && !t.running
  }

  function TransportNext(t: Transport, m: TransportMove): Transport {
    match m
    case Read(d) => t.(pc := Received(d), received := t.received + 1, descs := t.descs + [d])
    case Build(memory) =>
      var frame := if t.pc.Received? then BuiltFrame(t.pc.desc, memory) else None;
      if frame.None? then t.(pc := Polling, malformed := t.malformed + 1) else t.(pc := Offering(frame))
    case Offer(answer) =>
      if answer.Accepted? then t.(pc := Polling, accepted := t.accepted + [answer.item])
      else t.(pc := Polling, dropped := t.dropped + 1)
    case PollError => t.(running := false)
    case LeaveIngest => t.(pc := TransportDone)
  }

  function TransportQueueAnswer(m: TransportMove): QueueAnswer {
    if m.Offer? then m.answer else Silent
  }

  // ---- Dispatcher ----

  datatype DispatcherPc =
    | Testing
    | Popping
    | Inspecting(frame: FramePtr)
    | OfferingDsp(frame: FramePtr)
    | OfferingPersist(frame: FramePtr)
    | Counting
    | DispatcherDone

  datatype Dispatcher = Dispatcher(
    pc: DispatcherPc, running: bool, haveLast: bool, lastSequence: uint32,
    dispatched: nat, droppedDsp: nat, droppedPersist: nat, gaps: nat,
    taken: seq<FramePtr>, dspIn: seq<FramePtr>, persistIn: seq<FramePtr>)

  datatype DispatcherMove =
    | TestRunning
    | TestStopped(estimate: nat)
    | Pop(answer: QueueAnswer)
    | Inspect
    | OfferDsp(answer: QueueAnswer)
    | OfferPersist(answer: QueueAnswer)
    | Count

  function Successor(s: uint32): uint32 { (s + 1) % 0x1_0000_0000 }

  /** The size estimate is never above the queue, and exact once the producer has been joined. */
  ghost predicate EstimateAllowed(q: FrameQueue, producerJoined: bool, estimate: nat) {
    estimate <= |q.items| && (producerJoined ==> estimate == |q.items|)
  }

  ghost predicate DispatcherEnabled(d: Dispatcher, ingress: FrameQueue, dsp: FrameQueue, persist: FrameQueue,
                                    transportDone: bool, m: DispatcherMove) {
    match m
    case TestRunning => d.pc.Testing? && d.running
    case TestStopped(e) => d.pc.Testing? && !d.running && EstimateAllowed(ingress, transportDone, e)
    case Pop(answer) => d.pc.Popping? && PopAnswers(ingress, answer)
    case Inspect => d.pc.Inspecting?
    case OfferDsp(answer) => d.pc.OfferingDsp? && PushAnswers(dsp, d.pc.frame, answer)
    case OfferPersist(answer) => d.pc.OfferingPersist? && PushAnswers(persist, d.pc.frame, answer)
    case Count => d.pc.Counting?
  }

  function DispatcherNext(d: Dispatcher, m: DispatcherMove): Dispatcher {
    match m
    case TestRunning => d.(pc := Popping)
    case TestStopped(e) => d.(pc := if e > 0 then Popping else DispatcherDone)
    case Pop(answer) =>
      if answer.Delivered? then d.(pc := Inspecting(answer.item), taken := d.taken + [answer.item])
      else d.(pc := Testing)
    case Inspect =>
      if !d.pc.Inspecting? || d.pc.frame.None? then d.(pc := Testing)
      else
        var sequence := d.pc.frame.value.desc.sequence;
        var gap := d.haveLast && sequence != Successor(d.lastSequence);
        d.(pc := OfferingDsp(d.pc.frame), gaps := d.gaps + (if gap then 1 else 0),
           haveLast := true, lastSequence := sequence)
    case OfferDsp(answer) =>
      var frame := if d.pc.OfferingDsp? then d.pc.frame else None;
      if answer.Accepted? then d.(pc := OfferingPersist(frame), dspIn := d.dspIn + [answer.item])
      else d.(pc := OfferingPersist(frame), droppedDsp := d.droppedDsp + 1)
    case OfferPersist(answer) =>
      if answer.Accepted? then d.(pc := Counting, persistIn := d.persistIn + [answer.item])
      else d.(pc := Counting, droppedPersist := d.droppedPersist + 1)
    case Count => d.(pc := Testing, dispatched := d.dispatched + 1)
  }

  // ---- Analysis worker: it stops without draining its queue ----

  datatype Analysis = Analysis(running: bool, done: bool, seen: seq<FramePtr>)

  datatype AnalysisMove = Analyse(answer: QueueAnswer) | LeaveAnalysis

  ghost predicate AnalysisEnabled(a: Analysis, dsp: FrameQueue, m: AnalysisMove) {
    match m
    case Analyse(answer) => !a.done && PopAnswers(dsp, answer)
    case LeaveAnalysis => !a.done && !a.running
  }

  function AnalysisNext(a: Analysis, m: AnalysisMove): Analysis {
    match m
    case Analyse(answer) => if answer.Delivered? then a.(seen := a.seen + [answer.item]) else a
    case LeaveAnalysis => a.(done := true)
  }

  // ---- Persistence worker ----

  /** The loop that asked for a flush: the worker's own, the drain after its join, or the close. */
  datatype Stage = InLoop | InDrain | AtClose

  datatype PersisterPc =
    | TestingLoop
    | Taking(stage: Stage)
    | Appending(frame: FramePtr, stage: Stage)
    | Flushing(sent: nat, stage: Stage)
    | LoopDone
    | Closed

  /**
   * The cache and the file it feeds. failures counts flushes that returned false and wasted the
   * bytes those had already written; settled is the part of the stream that left the cache.
   */
  datatype Persister = Persister(
    pc: PersisterPc, running: bool, cache: seq<int32>, file: seq<byte>,
    failures: nat, wasted: nat, settled: seq<byte>, taken: seq<FramePtr>)

  datatype PersisterMove =
    | LoopRunning
    | LoopStopped(estimate: nat)
    | Take(answer: QueueAnswer)
    | Append
    | Write(count: nat)
    | Interrupted
    | WriteFails
    | FinishFlush(synced: bool)

  /** Where the worker goes after a flush, and after a round without one. */
  function AfterFlush(stage: Stage): PersisterPc {
    match stage
    case InLoop => TestingLoop
    case InDrain => Taking(InDrain)
    case AtClose => Closed
  }

  /** flush_cache returns at once when there is nothing to write. */
  function BeginFlush(p: Persister, stage: Stage): Persister {
    p.(pc := if p.cache == [] then AfterFlush(stage) else Flushing(0, stage))
  }

  /** A flush that returns false keeps its cache; the worker's own loop gives up. */
  function FailFlush(p: Persister): Persister
    requires p.pc.Flushing?
  {
    var failed := p.(failures := p.failures + 1, wasted := p.wasted + p.pc.sent);
    if p.pc.stage.InLoop? then failed.(running := false, pc := LoopDone) else failed.(pc := AfterFlush(p.pc.stage))
  }

  function AppendFrame(cfg: Config, p: Persister, frame: FramePtr, stage: Stage): Persister {
    if frame.None? then p.(pc := AfterFlush(stage))
    else
      var appended := p.(cache := p.cache + frame.value.samples);
      if 4 * |appended.cache| >= cfg.flushBytes then BeginFlush(appended, stage)
      else appended.(pc := AfterFlush(stage))
  }

  ghost predicate PersisterEnabled(p: Persister, persist: FrameQueue, dispatcherDone: bool, m: PersisterMove) {
    match m
    case LoopRunning => p.pc.TestingLoop? && p.running
    case LoopStopped(e) => p.pc.TestingLoop? && !p.running && EstimateAllowed(persist, dispatcherDone, e)
    case Take(answer) =>
      && p.pc.Taking? && !p.pc.stage.AtClose? && PopAnswers(persist, answer)
      && (p.pc.stage.InDrain? && answer.AnsweredEmpty? ==> answer.exact)
    case Append => p.pc.Appending?
    case Write(n) => p.pc.Flushing? && p.pc.sent < 4 * |p.cache| && n <= 4 * |p.cache| - p.pc.sent
    case Interrupted => p.pc.Flushing? && p.pc.sent < 4 * |p.cache|
    case WriteFails => p.pc.Flushing? && p.pc.sent < 4 * |p.cache|
    case FinishFlush(_) => p.pc.Flushing? && p.pc.sent == 4 * |p.cache|
  }

  ghost function PersisterNext(cfg: Config, p: Persister, m: PersisterMove): Persister {
    match m
    case LoopRunning => p.(pc := Taking(InLoop))
    case LoopStopped(e) => p.(pc := if e > 0 then Taking(InLoop) else LoopDone)
    case Take(answer) =>
      var stage := if p.pc.Taking? then p.pc.stage else InLoop;
      if answer.Delivered? then p.(pc := Appending(answer.item, stage), taken := p.taken + [answer.item])
      else if stage.InDrain? then BeginFlush(p, AtClose)
      else p.(pc := TestingLoop)
    case Append => if p.pc.Appending? then AppendFrame(cfg, p, p.pc.frame, p.pc.stage) else p
    case Write(n) =>
      if p.pc.Flushing? && p.pc.sent + n <= |Bytes(p.cache)|
      then p.(file := p.file + Bytes(p.cache)[p.pc.sent..p.pc.sent + n], pc := Flushing(p.pc.sent + n, p.pc.stage))
      else p
    case Interrupted => p
    case WriteFails => if p.pc.Flushing? then FailFlush(p) else p
    case FinishFlush(synced) =>
      if !p.pc.Flushing? then p
      else if cfg.fsyncOnFlush && !synced then FailFlush(p)
      else p.(cache := [], settled := p.settled + Bytes(p.cache), pc := AfterFlush(p.pc.stage))
  }

  // ---- The whole system ----

  /** The main thread stops the stages in the order of the data and joins each before the next. */
  datatype Main = Serving | StoppingTransport | StoppingDispatcher | StoppingAnalysis | StoppingPersister | Draining

  datatype MainMove = StopTransport | JoinTransport | JoinDispatcher | JoinAnalysis | JoinPersister

  datatype State = State(
    cfg: Config, main: Main,
    transport: Transport, ingress: FrameQueue,
    dispatcher: Dispatcher, dsp: FrameQueue, persist: FrameQueue,
    analysis: Analysis, persister: Persister)

  datatype Move =
    | ByTransport(tm: TransportMove)
    | ByDispatcher(dm: DispatcherMove)
    | ByAnalysis(am: AnalysisMove)
    | ByPersister(pm: PersisterMove)
    | ByMain(mm: MainMove)

  function Start(cfg: Config): State {
    State(cfg, Serving,
          Transport(Polling, true, 0, 0, 0, [], []), Fifo([], cfg.ingressCapacity),
          Dispatcher(Testing, true, false, 0, 0, 0, 0, 0, [], [], []),
          Fifo([], cfg.ringCapacity), Fifo([], cfg.ringCapacity),
          Analysis(true, false, []), Persister(TestingLoop, true, [], [], 0, 0, [], []))
  }

  ghost predicate MainEnabled(s: State, m: MainMove) {
    match m
    case StopTransport => s.main.Serving?
    case JoinTransport => s.main.StoppingTransport? && s.transport.pc.TransportDone?
    case JoinDispatcher => s.main.StoppingDispatcher? && s.dispatcher.pc.DispatcherDone?
    case JoinAnalysis => s.main.StoppingAnalysis? && s.analysis.done
    case JoinPersister => s.main.StoppingPersister? && s.persister.pc.LoopDone?
  }

  function MainNext(s: State, m: MainMove): State {
    match m
    case StopTransport => s.(main := StoppingTransport, transport := s.transport.(running := false))
    case JoinTransport => s.(main := StoppingDispatcher, dispatcher := s.dispatcher.(running := false))
    case JoinDispatcher => s.(main := StoppingAnalysis, analysis := s.analysis.(running := false))
    case JoinAnalysis => s.(main := StoppingPersister, persister := s.persister.(running := false))
    case JoinPersister => s.(main := Draining, persister := s.persister.(pc := Taking(InDrain)))
  }

  ghost predicate Enabled(s: State, m: Move) {
    match m
    case ByTransport(tm) => TransportEnabled(s.cfg, s.transport, s.ingress, tm)
    case ByDispatcher(dm) =>
      DispatcherEnabled(s.dispatcher, s.ingress, s.dsp, s.persist, s.transport.pc.TransportDone?, dm)
    case ByAnalysis(am) => AnalysisEnabled(s.analysis, s.dsp, am)
    case ByPersister(pm) => PersisterEnabled(s.persister, s.persist, s.dispatcher.pc.DispatcherDone?, pm)
    case ByMain(mm) => MainEnabled(s, mm)
  }

  ghost function Next(s: State, m: Move): State {
    match m
    case ByTransport(tm) =>
      s.(transport := TransportNext(s.transport, tm), ingress := FifoNext(s.ingress, TransportQueueAnswer(tm)))
    case ByDispatcher(dm) =>
      s.(dispatcher := DispatcherNext(s.dispatcher, dm),
         ingress := if dm.Pop? then FifoNext(s.ingress, dm.answer) else s.ingress,
         dsp := if dm.OfferDsp? then FifoNext(s.dsp, dm.answer) else s.dsp,
         persist := if dm.OfferPersist? then FifoNext(s.persist, dm.answer) else s.persist)
    case ByAnalysis(am) =>
      s.(analysis := AnalysisNext(s.analysis, am), dsp := if am.Analyse? then FifoNext(s.dsp, am.answer) else s.dsp)
    case ByPersister(pm) =>
      s.(persister := PersisterNext(s.cfg, s.persister, pm),
         persist := if pm.Take? then FifoNext(s.persist, pm.answer) else s.persist)
    case ByMain(mm) => MainNext(s, mm)
  }

  ghost predicate Runs(s: State, moves: seq<Move>)
    decreases |moves|
  {
    moves == [] || (Enabled(s, moves[0]) && Runs(Next(s, moves[0]), moves[1..]))
  }

  ghost function Final(s: State, moves: seq<Move>): State
    decreases |moves|
  {
    if moves == [] then s else Final(Next(s, moves[0]), moves[1..])
  }
}
