/**
 * The capture pipeline over three rings: every push, pop and size estimate is taken apart into its
 * atomic loads, stores and slot accesses, interleaved with those of all other threads. Each such
 * move is either silent or one move of the pipeline over bounded queues, so every state the
 * threads reach stands for a state the pipeline reaches.
 */
module RingPipeline {
  import opened Options
  import opened BoundedFifo
  import opened Frames
  import opened Pipeline
  import opened PipelineTheorems
  import Ring = SpscRing

  type FrameRing = Ring.State<FramePtr>
  type RingMove = Ring.Move<FramePtr>

  /** The stages as in the pipeline, and the three rings between them. */
  datatype Threads = Threads(
    cfg: Config, main: Main, transport: Transport, dispatcher: Dispatcher, analysis: Analysis, persister: Persister,
    ingress: FrameRing, dsp: FrameRing, persist: FrameRing)

  datatype ThreadMove =
    | Local(m: Move)
    | PushIngress(rm: RingMove)
    | PopIngress(rm: RingMove)
    | PushDsp(rm: RingMove)
    | PopDsp(rm: RingMove)
    | PushPersist(rm: RingMove)
    | PopPersist(rm: RingMove)
    | EstimateIngress(pos: nat)
    | EstimatePersist(pos: nat)

  function StartThreads(cfg: Config): Threads {
    var s := Start(cfg);
    Threads(cfg, s.main, s.transport, s.dispatcher, s.analysis, s.persister,
            Ring.Init(cfg.ingressCapacity), Ring.Init(cfg.ringCapacity), Ring.Init(cfg.ringCapacity))
  }

  // ---- Moves ----

  /** The moves of the pipeline that touch no queue. */
  predicate IsLocal(m: Move) {
    match m
    case ByTransport(tm) => !tm.Offer?
    case ByDispatcher(dm) => dm.TestRunning? || dm.Inspect? || dm.Count?
    case ByAnalysis(am) => am.LeaveAnalysis?
    case ByPersister(pm) => !pm.Take? && !pm.LoopStopped?
    case ByMain(_) => true
  }

  /** The stages with empty queues: all that a local move looks at. */
  function Stages(c: Threads): State {
    var none: FrameQueue := Fifo([], 0);
    State(c.cfg, c.main, c.transport, none, c.dispatcher, none, none, c.analysis, c.persister)
  }

  predicate IsPush(m: RingMove) {
    m.CallPush? || m.LoadTail? || m.WriteSlot? || m.StoreHead?
  }

  predicate IsPop(m: RingMove) {
    m.CallPop? || m.LoadHead? || m.ReadSlot? || m.StoreTail?
  }

  /** A thread starts a push only of the frame it offers, and a pop only where it asks for a frame. */
  predicate PushEnabled(r: FrameRing, offering: bool, frame: FramePtr, m: RingMove) {
    IsPush(m) && Ring.Enabled(r, m) && (m.CallPush? ==> offering && m.item == frame)
  }

  predicate PopEnabled(r: FrameRing, asking: bool, m: RingMove) {
    IsPop(m) && Ring.Enabled(r, m) && (m.CallPop? ==> asking)
  }

  /** The newest index: the only one left to a thread that has synchronised with the other one's end. */
  predicate Newest(r: FrameRing, pos: nat) {
    pos + 1 == |r.headOrder|
  }

  function Offered(c: Threads): FramePtr {
    if c.transport.pc.Offering? then c.transport.pc.frame else None
  }

  function OfferedToDsp(c: Threads): FramePtr {
    if c.dispatcher.pc.OfferingDsp? then c.dispatcher.pc.frame else None
  }

  function OfferedToPersist(c: Threads): FramePtr {
    if c.dispatcher.pc.OfferingPersist? then c.dispatcher.pc.frame else None
  }

  predicate AsksPersist(p: Persister) {
    p.pc.Taking? && !p.pc.stage.AtClose?
  }

  ghost predicate ThreadEnabled(c: Threads, m: ThreadMove) {
    match m
    case Local(lm) =>
      IsLocal(lm) && Enabled(Stages(c), lm) && (lm.ByAnalysis? ==> c.dsp.consumer.PopIdle?)
    case PushIngress(rm) => PushEnabled(c.ingress, c.transport.pc.Offering?, Offered(c), rm)
    case PopIngress(rm) => PopEnabled(c.ingress, c.dispatcher.pc.Popping?, rm)
    case PushDsp(rm) => PushEnabled(c.dsp, c.dispatcher.pc.OfferingDsp?, OfferedToDsp(c), rm)
    case PopDsp(rm) => PopEnabled(c.dsp, !c.analysis.done, rm)
    case PushPersist(rm) => PushEnabled(c.persist, c.dispatcher.pc.OfferingPersist?, OfferedToPersist(c), rm)
    case PopPersist(rm) =>
      && PopEnabled(c.persist, AsksPersist(c.persister), rm)
      && (rm.LoadHead? && c.persister.pc.Taking? && c.persister.pc.stage.InDrain? ==> Newest(c.persist, rm.pos))
    case EstimateIngress(pos) =>
      && c.dispatcher.pc.Testing? && !c.dispatcher.running && Ring.Enabled(c.ingress, Ring.ConsumerSize(pos))
      && (c.transport.pc.TransportDone? ==> Newest(c.ingress, pos))
    case EstimatePersist(pos) =>
      && c.persister.pc.TestingLoop? && !c.persister.running && Ring.Enabled(c.persist, Ring.ConsumerSize(pos))
      && (c.dispatcher.pc.DispatcherDone? ==> Newest(c.persist, pos))
  }

  /** Whether an observation ends the call that is under way. */
  predicate Returns(o: QueueAnswer) {
    !o.Silent?
  }

  function Estimate(r: FrameRing, pos: nat): nat
    requires Ring.Enabled(r, Ring.ConsumerSize(pos))
  {
    var e := Ring.ApproxSize(r.headOrder[pos], Ring.Last(r.tailOrder), r.slots);
    if e < 0 then 0 else e
  }

  ghost function ThreadNext(c: Threads, m: ThreadMove): Threads
    requires ThreadEnabled(c, m)
  {
    match m
    case Local(lm) =>
      var s := Next(Stages(c), lm);
      c.(main := s.main, transport := s.transport, dispatcher := s.dispatcher, analysis := s.analysis,
         persister := s.persister)
    case PushIngress(rm) =>
      var o := Ring.Observe(c.ingress, rm);
      c.(ingress := Ring.Apply(c.ingress, rm),
         transport := if Returns(o) then TransportNext(c.transport, Offer(o)) else c.transport)
    case PopIngress(rm) =>
      var o := Ring.Observe(c.ingress, rm);
      c.(ingress := Ring.Apply(c.ingress, rm),
         dispatcher := if Returns(o) then DispatcherNext(c.dispatcher, Pop(o)) else c.dispatcher)
    case PushDsp(rm) =>
      var o := Ring.Observe(c.dsp, rm);
      c.(dsp := Ring.Apply(c.dsp, rm),
         dispatcher := if Returns(o) then DispatcherNext(c.dispatcher, OfferDsp(o)) else c.dispatcher)
    case PopDsp(rm) =>
      var o := Ring.Observe(c.dsp, rm);
      c.(dsp := Ring.Apply(c.dsp, rm),
         analysis := if Returns(o) then AnalysisNext(c.analysis, Analyse(o)) else c.analysis)
    case PushPersist(rm) =>
      var o := Ring.Observe(c.persist, rm);
      c.(persist := Ring.Apply(c.persist, rm),
         dispatcher := if Returns(o) then DispatcherNext(c.dispatcher, OfferPersist(o)) else c.dispatcher)
    case PopPersist(rm) =>
      var o := Ring.Observe(c.persist, rm);
      c.(persist := Ring.Apply(c.persist, rm),
         persister := if Returns(o) then PersisterNext(c.cfg, c.persister, Take(o)) else c.persister)
    case EstimateIngress(pos) =>
      c.(ingress := Ring.Apply(c.ingress, Ring.ConsumerSize(pos)),
         dispatcher := DispatcherNext(c.dispatcher, TestStopped(Estimate(c.ingress, pos))))
    case EstimatePersist(pos) =>
      c.(persist := Ring.Apply(c.persist, Ring.ConsumerSize(pos)),
         persister := PersisterNext(c.cfg, c.persister, LoopStopped(Estimate(c.persist, pos))))
  }

  // ---- What a state of the threads stands for ----

  ghost predicate RingsInv(c: Threads) {
    Ring.Inv(c.ingress) && Ring.Inv(c.dsp) && Ring.Inv(c.persist)
  }

  /** A push under way is of the frame its stage offers; a pop under way is of a stage that asks. */
  predicate PushFits(r: FrameRing, offering: bool, frame: FramePtr) {
    !r.producer.PushIdle? ==> offering && r.producer.item == frame
  }

  predicate PopFits(r: FrameRing, asking: bool) {
    !r.consumer.PopIdle? ==> asking
  }

  ghost predicate CallsFit(c: Threads) {
    && PushFits(c.ingress, c.transport.pc.Offering?, Offered(c))
    && PopFits(c.ingress, c.dispatcher.pc.Popping?)
    && PushFits(c.dsp, c.dispatcher.pc.OfferingDsp?, OfferedToDsp(c))
    && PopFits(c.dsp, !c.analysis.done)
    && PushFits(c.persist, c.dispatcher.pc.OfferingPersist?, OfferedToPersist(c))
    && PopFits(c.persist, AsksPersist(c.persister))
  }

  ghost predicate ThreadsInv(c: Threads) {
    RingsInv(c) && CallsFit(c)
  }

  /** The pipeline's state: each ring stands for what is published and not yet released. */
  ghost function Abstract(c: Threads): State
    requires RingsInv(c)
  {
    State(c.cfg, c.main, c.transport, Ring.Queue(c.ingress), c.dispatcher, Ring.Queue(c.dsp), Ring.Queue(c.persist),
          c.analysis, c.persister)
  }

  /** The pipeline's move that a thread's move makes, if any. */
  ghost function Image(c: Threads, m: ThreadMove): Option<Move>
    requires ThreadEnabled(c, m)
  {
    match m
    case Local(lm) => Some(lm)
    case PushIngress(rm) => Answering(Ring.Observe(c.ingress, rm), ByTransport(Offer(Ring.Observe(c.ingress, rm))))
    case PopIngress(rm) => Answering(Ring.Observe(c.ingress, rm), ByDispatcher(Pop(Ring.Observe(c.ingress, rm))))
    case PushDsp(rm) => Answering(Ring.Observe(c.dsp, rm), ByDispatcher(OfferDsp(Ring.Observe(c.dsp, rm))))
    case PopDsp(rm) => Answering(Ring.Observe(c.dsp, rm), ByAnalysis(Analyse(Ring.Observe(c.dsp, rm))))
    case PushPersist(rm) =>
      Answering(Ring.Observe(c.persist, rm), ByDispatcher(OfferPersist(Ring.Observe(c.persist, rm))))
    case PopPersist(rm) => Answering(Ring.Observe(c.persist, rm), ByPersister(Take(Ring.Observe(c.persist, rm))))
    case EstimateIngress(pos) => Some(ByDispatcher(TestStopped(Estimate(c.ingress, pos))))
    case EstimatePersist(pos) => Some(ByPersister(LoopStopped(Estimate(c.persist, pos))))
  }

  function Answering(o: QueueAnswer, m: Move): Option<Move> {
    if Returns(o) then Some(m) else None
  }

  /** A thread's move is silent or is its image. */
  ghost predicate Simulated(c: Threads, m: ThreadMove)
    requires ThreadEnabled(c, m) && RingsInv(c) && RingsInv(ThreadNext(c, m))
  {
    var s, s', image := Abstract(c), Abstract(ThreadNext(c, m)), Image(c, m);
    if image.None? then s' == s else Enabled(s, image.value) && s' == Next(s, image.value)
  }

  // ---- One ring ----

  /** A move of a ring, seen as the queue it stands for. */
  lemma RingSteps(r: FrameRing, m: RingMove)
    requires Ring.Inv(r) && Ring.Enabled(r, m)
    ensures Ring.Inv(Ring.Apply(r, m))
    ensures FifoAllows(Ring.Queue(r), Ring.Observe(r, m))
    ensures Ring.Queue(Ring.Apply(r, m)) == FifoNext(Ring.Queue(r), Ring.Observe(r, m))
  {
    Ring.MoveRefines(r, m);
  }

  /** A push answers only about the frame it was called with, and only when it ends. */
  lemma PushAnswersOffer(r: FrameRing, offering: bool, frame: FramePtr, m: RingMove)
    requires Ring.Inv(r) && PushEnabled(r, offering, frame, m) && PushFits(r, offering, frame)
    ensures var o, r' := Ring.Observe(r, m), Ring.Apply(r, m);
            && r'.consumer == r.consumer
            && (Returns(o) ==> offering && PushAnswers(Ring.Queue(r), frame, o) && r'.producer.PushIdle?)
            && (!Returns(o) ==> PushFits(r', offering, frame))
  {
    RingSteps(r, m);
    hide Ring.Inv, Ring.Queue;
  }

  lemma PopAnswersAsk(r: FrameRing, asking: bool, m: RingMove)
    requires Ring.Inv(r) && PopEnabled(r, asking, m) && PopFits(r, asking)
    ensures var o, r' := Ring.Observe(r, m), Ring.Apply(r, m);
            && r'.producer == r.producer
            && (Returns(o) ==> asking && PopAnswers(Ring.Queue(r), o) && r'.consumer.PopIdle?)
            && (!Returns(o) ==> PopFits(r', asking))
  {
    RingSteps(r, m);
    hide Ring.Inv, Ring.Queue;
  }

  /** The estimate never exceeds the queue, and a load of the newest index makes it exact. */
  lemma EstimateSteps(r: FrameRing, pos: nat)
    requires Ring.Inv(r) && Ring.Enabled(r, Ring.ConsumerSize(pos))
    ensures var r' := Ring.Apply(r, Ring.ConsumerSize(pos));
            && Ring.Inv(r') && Ring.Queue(r') == Ring.Queue(r)
            && r'.producer == r.producer && r'.consumer == r.consumer
            && EstimateAllowed(Ring.Queue(r), Newest(r, pos), Estimate(r, pos))
  {
    RingSteps(r, Ring.ConsumerSize(pos));
    Ring.ApproxSizeMeaning(r, pos);
  }

  // ---- Simulation, stage by stage ----

  lemma LocalSimulated(c: Threads, m: Move)
    requires ThreadsInv(c) && ThreadEnabled(c, Local(m))
    ensures ThreadsInv(ThreadNext(c, Local(m))) && Simulated(c, Local(m))
  {
    hide Ring.Inv, Ring.Queue, PersisterNext, DispatcherNext, TransportNext, AnalysisNext;
    LocalPcs(c, m);
  }

  /** A local move leaves a thread alone that is inside a call. */
  lemma LocalPcs(c: Threads, m: Move)
    requires CallsFit(c) && ThreadEnabled(c, Local(m))
    ensures CallsFit(ThreadNext(c, Local(m)))
  {
    hide Ring.Inv, Ring.Queue, Ring.Observe, Ring.Apply, Ring.Enabled;
  }

  lemma PushIngressSimulated(c: Threads, rm: RingMove)
    requires ThreadsInv(c) && ThreadEnabled(c, PushIngress(rm))
    ensures ThreadsInv(ThreadNext(c, PushIngress(rm))) && Simulated(c, PushIngress(rm))
  {
    RingSteps(c.ingress, rm);
    PushAnswersOffer(c.ingress, c.transport.pc.Offering?, Offered(c), rm);
  }

  lemma PopIngressSimulated(c: Threads, rm: RingMove)
    requires ThreadsInv(c) && ThreadEnabled(c, PopIngress(rm))
    ensures ThreadsInv(ThreadNext(c, PopIngress(rm))) && Simulated(c, PopIngress(rm))
  {
    hide Ring.Inv, Ring.Queue, Ring.Observe, Ring.Apply, Ring.Enabled;
    RingSteps(c.ingress, rm);
    PopAnswersAsk(c.ingress, c.dispatcher.pc.Popping?, rm);
  }

  lemma PushDspSimulated(c: Threads, rm: RingMove)
    requires ThreadsInv(c) && ThreadEnabled(c, PushDsp(rm))
    ensures ThreadsInv(ThreadNext(c, PushDsp(rm))) && Simulated(c, PushDsp(rm))
  {
    hide Ring.Inv, Ring.Queue, Ring.Observe, Ring.Apply, Ring.Enabled;
    RingSteps(c.dsp, rm);
    PushAnswersOffer(c.dsp, c.dispatcher.pc.OfferingDsp?, OfferedToDsp(c), rm);
  }

  lemma PopDspSimulated(c: Threads, rm: RingMove)
    requires ThreadsInv(c) && ThreadEnabled(c, PopDsp(rm))
    ensures ThreadsInv(ThreadNext(c, PopDsp(rm))) && Simulated(c, PopDsp(rm))
  {
    hide Ring.Inv, Ring.Queue, Ring.Observe, Ring.Apply, Ring.Enabled;
    RingSteps(c.dsp, rm);
    PopAnswersAsk(c.dsp, !c.analysis.done, rm);
  }

  lemma PushPersistSimulated(c: Threads, rm: RingMove)
    requires ThreadsInv(c) && ThreadEnabled(c, PushPersist(rm))
    ensures ThreadsInv(ThreadNext(c, PushPersist(rm))) && Simulated(c, PushPersist(rm))
  {
    hide Ring.Inv, Ring.Queue, Ring.Observe, Ring.Apply, Ring.Enabled;
    RingSteps(c.persist, rm);
    PushAnswersOffer(c.persist, c.dispatcher.pc.OfferingPersist?, OfferedToPersist(c), rm);
  }

  /** In the drain a pop that answers empty has read the newest index. */
  lemma DrainAnswersExactly(c: Threads, rm: RingMove)
    requires ThreadEnabled(c, PopPersist(rm)) && c.persister.pc.Taking? && c.persister.pc.stage.InDrain?
    ensures Ring.Observe(c.persist, rm).AnsweredEmpty? ==> Ring.Observe(c.persist, rm).exact
  {
  }

  lemma PopPersistSimulated(c: Threads, rm: RingMove)
    requires ThreadsInv(c) && ThreadEnabled(c, PopPersist(rm))
    ensures ThreadsInv(ThreadNext(c, PopPersist(rm))) && Simulated(c, PopPersist(rm))
  {
    hide Ring.Inv, Ring.Queue, Ring.Observe, Ring.Apply, Ring.Enabled, PersisterNext;
    RingSteps(c.persist, rm);
    PopAnswersAsk(c.persist, AsksPersist(c.persister), rm);
    if c.persister.pc.Taking? && c.persister.pc.stage.InDrain? {
      DrainAnswersExactly(c, rm);
    }
  }

  lemma EstimateSimulated(c: Threads, m: ThreadMove)
    requires ThreadsInv(c) && ThreadEnabled(c, m) && (m.EstimateIngress? || m.EstimatePersist?)
    ensures ThreadsInv(ThreadNext(c, m)) && Simulated(c, m)
  {
    hide Ring.Inv, Ring.Queue, Ring.Observe, Ring.Apply, Ring.Enabled, Estimate;
    EstimateSteps(if m.EstimateIngress? then c.ingress else c.persist, m.pos);
  }

  /** Every move of a thread is silent or a move of the pipeline over bounded queues. */
  lemma MoveSimulated(c: Threads, m: ThreadMove)
    requires ThreadsInv(c) && ThreadEnabled(c, m)
    ensures ThreadsInv(ThreadNext(c, m)) && Simulated(c, m)
  {
    hide ThreadsInv, ThreadNext, Simulated;
    match m
    case Local(lm) => LocalSimulated(c, lm);
    case PushIngress(rm) => PushIngressSimulated(c, rm);
    case PopIngress(rm) => PopIngressSimulated(c, rm);
    case PushDsp(rm) => PushDspSimulated(c, rm);
    case PopDsp(rm) => PopDspSimulated(c, rm);
    case PushPersist(rm) => PushPersistSimulated(c, rm);
    case PopPersist(rm) => PopPersistSimulated(c, rm);
    case _ => EstimateSimulated(c, m);
  }

  // ---- Whole runs ----

  ghost predicate ThreadsRun(c: Threads, moves: seq<ThreadMove>)
    decreases |moves|
  {
    moves == [] || (ThreadEnabled(c, moves[0]) && ThreadsRun(ThreadNext(c, moves[0]), moves[1..]))
  }

  ghost function FinalThreads(c: Threads, moves: seq<ThreadMove>): Threads
    requires ThreadsRun(c, moves)
    decreases |moves|
  {
    if moves == [] then c else FinalThreads(ThreadNext(c, moves[0]), moves[1..])
  }

  lemma StartSimulated(cfg: Config)
    ensures ThreadsInv(StartThreads(cfg)) && Abstract(StartThreads(cfg)) == Start(cfg)
  {
    Ring.InitInv<FramePtr>(cfg.ingressCapacity);
    Ring.InitInv<FramePtr>(cfg.ringCapacity);
  }

  lemma {:induction false} RunSimulated(c: Threads, moves: seq<ThreadMove>)
    requires ThreadsInv(c) && Reachable(Abstract(c)) && ThreadsRun(c, moves)
    ensures ThreadsInv(FinalThreads(c, moves)) && Reachable(Abstract(FinalThreads(c, moves)))
    decreases |moves|
  {
    hide Reachable, Abstract, RingsInv, CallsFit, ThreadEnabled, ThreadNext, Image, Enabled, Next;
    if moves != [] {
      MoveSimulated(c, moves[0]);
      var image := Image(c, moves[0]);
      if image.Some? {
        ReachableStep(Abstract(c), image.value);
      }
      RunSimulated(ThreadNext(c, moves[0]), moves[1..]);
    }
  }

  /**
   * Every state the threads reach over the three rings, under every interleaving of single loads,
   * stores and slot accesses and with stale indices, stands for a reachable state of the pipeline.
   */
  lemma ThreadsRefinePipeline(cfg: Config, moves: seq<ThreadMove>)
    requires ThreadsRun(StartThreads(cfg), moves)
    ensures var c := FinalThreads(StartThreads(cfg), moves);
            RingsInv(c) && Reachable(Abstract(c))
  {
    StartSimulated(cfg);
    assert Runs(Start(cfg), []) && Final(Start(cfg), []) == Start(cfg);
    RunSimulated(StartThreads(cfg), moves);
  }

  /**
   * So the rings keep the pipeline's promises: without a failed flush the closed file is exactly
   * the stream of the frames the persist ring accepted, and no frame is left in it.
   */
  lemma RingsFileIsStream(cfg: Config, moves: seq<ThreadMove>)
    requires ThreadsRun(StartThreads(cfg), moves)
    ensures var c := FinalThreads(StartThreads(cfg), moves);
            c.persister.pc.Closed? && c.persister.failures == 0 ==>
              && c.persister.file == StreamBytes(c.dispatcher.persistIn)
              && c.persist.pushed == c.persist.popped
  {
    ThreadsRefinePipeline(cfg, moves);
    var c := FinalThreads(StartThreads(cfg), moves);
    if c.persister.pc.Closed? && c.persister.failures == 0 {
      FileIsStream(Abstract(c));
      NothingStranded(Abstract(c));
      assert c.persist.popped == c.persist.pushed[..|c.persist.popped|];
    }
  }
}
