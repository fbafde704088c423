/**
 * The other direction: whatever the pipeline over bounded queues does with exact answers, the threads
 * over the three rings can do, so nothing the pipeline promises to carry is stuck in a ring.
 */
module RingRealizes {
  import opened BoundedFifo
  import opened ExactRuns
  import opened Frames
  import opened Options
  import opened Pipeline
  import opened RingPipeline
  import Ring = SpscRing

  datatype QueueName = IngressQueue | DspQueue | PersistQueue

  function RingAt(c: Threads, q: QueueName): FrameRing {
    match q
    case IngressQueue => c.ingress
    case DspQueue => c.dsp
    case PersistQueue => c.persist
  }

  function WithRing(c: Threads, q: QueueName, r: FrameRing): Threads {
    match q
    case IngressQueue => c.(ingress := r)
    case DspQueue => c.(dsp := r)
    case PersistQueue => c.(persist := r)
  }

  // ---- One push ----

  function PushOn(q: QueueName, rm: RingMove): ThreadMove {
    match q
    case IngressQueue => PushIngress(rm)
    case DspQueue => PushDsp(rm)
    case PersistQueue => PushPersist(rm)
  }

  predicate Offering(c: Threads, q: QueueName) {
    match q
    case IngressQueue => c.transport.pc.Offering?
    case DspQueue => c.dispatcher.pc.OfferingDsp?
    case PersistQueue => c.dispatcher.pc.OfferingPersist?
  }

  function OfferedAt(c: Threads, q: QueueName): FramePtr {
    match q
    case IngressQueue => Offered(c)
    case DspQueue => OfferedToDsp(c)
    case PersistQueue => OfferedToPersist(c)
  }

  /** The pipeline's move for an answer to a push. */
  function PushMove(q: QueueName, o: QueueAnswer): Move {
    match q
    case IngressQueue => ByTransport(Offer(o))
    case DspQueue => ByDispatcher(OfferDsp(o))
    case PersistQueue => ByDispatcher(OfferPersist(o))
  }

  /** The stage after the answer. */
  function AfterPush(c: Threads, q: QueueName, o: QueueAnswer): Threads {
    match q
    case IngressQueue => c.(transport := TransportNext(c.transport, Offer(o)))
    case DspQueue => c.(dispatcher := DispatcherNext(c.dispatcher, OfferDsp(o)))
    case PersistQueue => c.(dispatcher := DispatcherNext(c.dispatcher, OfferPersist(o)))
  }

  lemma PushStep(c: Threads, q: QueueName, rm: RingMove)
    requires PushEnabled(RingAt(c, q), Offering(c, q), OfferedAt(c, q), rm)
    ensures ThreadEnabled(c, PushOn(q, rm))
    ensures var o, c' := Ring.Observe(RingAt(c, q), rm), WithRing(c, q, Ring.Apply(RingAt(c, q), rm));
            ThreadNext(c, PushOn(q, rm)) == if Returns(o) then AfterPush(c', q, o) else c'
  {
    hide Ring.Observe, Ring.Apply, Ring.Enabled, TransportNext, DispatcherNext;
  }

  // ---- One pop ----

  function PopOn(q: QueueName, rm: RingMove): ThreadMove {
    match q
    case IngressQueue => PopIngress(rm)
    case DspQueue => PopDsp(rm)
    case PersistQueue => PopPersist(rm)
  }

  predicate Asking(c: Threads, q: QueueName) {
    match q
    case IngressQueue => c.dispatcher.pc.Popping?
    case DspQueue => !c.analysis.done
    case PersistQueue => AsksPersist(c.persister)
  }

  function PopMove(q: QueueName, o: QueueAnswer): Move {
    match q
    case IngressQueue => ByDispatcher(Pop(o))
    case DspQueue => ByAnalysis(Analyse(o))
    case PersistQueue => ByPersister(Take(o))
  }

  ghost function AfterPop(c: Threads, q: QueueName, o: QueueAnswer): Threads {
    match q
    case IngressQueue => c.(dispatcher := DispatcherNext(c.dispatcher, Pop(o)))
    case DspQueue => c.(analysis := AnalysisNext(c.analysis, Analyse(o)))
    case PersistQueue => c.(persister := PersisterNext(c.cfg, c.persister, Take(o)))
  }

  lemma PopStep(c: Threads, q: QueueName, rm: RingMove)
    requires PopEnabled(RingAt(c, q), Asking(c, q), rm)
    requires rm.LoadHead? ==> Newest(RingAt(c, q), rm.pos)
    ensures ThreadEnabled(c, PopOn(q, rm))
    ensures var o, c' := Ring.Observe(RingAt(c, q), rm), WithRing(c, q, Ring.Apply(RingAt(c, q), rm));
            ThreadNext(c, PopOn(q, rm)) == if Returns(o) then AfterPop(c', q, o) else c'
  {
    hide Ring.Observe, Ring.Apply, Ring.Enabled, PersisterNext, DispatcherNext;
  }

  // ---- Runs from one state to another ----

  ghost predicate Leads(c: Threads, c': Threads) {
    exists moves :: ThreadsRun(c, moves) && FinalThreads(c, moves) == c'
  }

  lemma LeadsToSelf(c: Threads)
    ensures Leads(c, c)
  {
    assert ThreadsRun(c, []) && FinalThreads(c, []) == c;
  }

  lemma {:induction false} ThreadsRunThen(c: Threads, moves: seq<ThreadMove>, m: ThreadMove)
    requires ThreadsRun(c, moves) && ThreadEnabled(FinalThreads(c, moves), m)
    ensures ThreadsRun(c, moves + [m])
    ensures FinalThreads(c, moves + [m]) == ThreadNext(FinalThreads(c, moves), m)
    decreases |moves|
  {
    hide ThreadEnabled, ThreadNext;
    if moves == [] {
      assert [m][1..] == [];
    } else {
      ThreadsRunThen(ThreadNext(c, moves[0]), moves[1..], m);
      assert (moves + [m])[1..] == moves[1..] + [m];
    }
  }

  lemma LeadsThen(c: Threads, c': Threads, m: ThreadMove)
    requires Leads(c, c') && ThreadEnabled(c', m)
    ensures Leads(c, ThreadNext(c', m))
  {
    hide ThreadEnabled, ThreadNext;
    var moves :| ThreadsRun(c, moves) && FinalThreads(c, moves) == c';
    ThreadsRunThen(c, moves, m);
  }

  // ---- Whole calls ----

  predicate Idle(r: FrameRing) {
    r.producer.PushIdle? && r.consumer.PopIdle?
  }

  ghost predicate AllIdle(c: Threads) {
    RingsInv(c) && Idle(c.ingress) && Idle(c.dsp) && Idle(c.persist)
  }

  function HasRoom(q: FrameQueue): bool { |q.items| < q.capacity }

  /** The exact answer of a queue to a push of this frame, and to a pop. */
  function PushAnswer(q: FrameQueue, f: FramePtr): QueueAnswer {
    if HasRoom(q) then Accepted(f) else AnsweredFull(f, true)
  }

  function PopAnswer(q: FrameQueue): QueueAnswer {
    if q.items != [] then Delivered(q.items[0]) else AnsweredEmpty(true)
  }

  /** The threads can carry a push from its call to its exact answer. */
  lemma PushRealized(c0: Threads, c: Threads, q: QueueName) returns (c': Threads, r: FrameRing)
    requires Leads(c0, c) && AllIdle(c) && Offering(c, q)
    ensures var queue, f := Ring.Queue(RingAt(c, q)), OfferedAt(c, q);
            && Leads(c0, c') && c' == AfterPush(WithRing(c, q, r), q, PushAnswer(queue, f))
            && Ring.Inv(r) && Idle(r) && Ring.Queue(r) == FifoNext(queue, PushAnswer(queue, f))
  {
    var r0, f := RingAt(c, q), OfferedAt(c, q);
    var m0: RingMove, m1: RingMove := Ring.CallPush(f), Ring.LoadTail(|r0.tailOrder| - 1);
    Ring.PushLooks(r0, f);
    hide Leads, Ring.Inv, Ring.Queue, Ring.Apply, Ring.Observe, Ring.Enabled, ThreadEnabled, ThreadNext, AfterPush;
    PushStep(c, q, m0);
    LeadsThen(c0, c, PushOn(q, m0));
    var r1 := Ring.Apply(r0, m0);
    var c1 := WithRing(c, q, r1);
    PushStep(c1, q, m1);
    LeadsThen(c0, c1, PushOn(q, m1));
    r := Ring.Apply(r1, m1);
    c' := ThreadNext(c1, PushOn(q, m1));
    if HasRoom(Ring.Queue(r0)) {
      Ring.PushFinishes(r);
      PushStep(c', q, Ring.WriteSlot);
      LeadsThen(c0, c', PushOn(q, Ring.WriteSlot));
      r := Ring.Apply(r, Ring.WriteSlot);
      c' := WithRing(c, q, r);
      PushStep(c', q, Ring.StoreHead);
      LeadsThen(c0, c', PushOn(q, Ring.StoreHead));
      r := Ring.Apply(r, Ring.StoreHead);
      c' := ThreadNext(c', PushOn(q, Ring.StoreHead));
    }
  }

  /** And a pop. */
  lemma PopRealized(c0: Threads, c: Threads, q: QueueName) returns (c': Threads, r: FrameRing)
    requires Leads(c0, c) && AllIdle(c) && Asking(c, q)
    ensures var queue := Ring.Queue(RingAt(c, q));
            && Leads(c0, c') && c' == AfterPop(WithRing(c, q, r), q, PopAnswer(queue))
            && Ring.Inv(r) && Idle(r) && Ring.Queue(r) == FifoNext(queue, PopAnswer(queue))
  {
    var r0 := RingAt(c, q);
    var m0: RingMove, m1: RingMove := Ring.CallPop, Ring.LoadHead(|r0.headOrder| - 1);
    Ring.PopLooks(r0);
    hide Leads, Ring.Inv, Ring.Queue, Ring.Apply, Ring.Observe, Ring.Enabled, ThreadEnabled, ThreadNext, AfterPop;
    PopStep(c, q, m0);
    LeadsThen(c0, c, PopOn(q, m0));
    var r1 := Ring.Apply(r0, m0);
    var c1 := WithRing(c, q, r1);
    PopStep(c1, q, m1);
    LeadsThen(c0, c1, PopOn(q, m1));
    r := Ring.Apply(r1, m1);
    c' := ThreadNext(c1, PopOn(q, m1));
    if Ring.Queue(r0).items != [] {
      Ring.PopFinishes(r);
      PopStep(c', q, Ring.ReadSlot);
      LeadsThen(c0, c', PopOn(q, Ring.ReadSlot));
      r := Ring.Apply(r, Ring.ReadSlot);
      c' := WithRing(c, q, r);
      PopStep(c', q, Ring.StoreTail);
      LeadsThen(c0, c', PopOn(q, Ring.StoreTail));
      r := Ring.Apply(r, Ring.StoreTail);
      c' := ThreadNext(c', PopOn(q, Ring.StoreTail));
    }
  }

  // ---- Moves of the pipeline ----

  /** The queue a push or a pop is about. */
  function PushQueue(m: Move): Option<QueueName> {
    match m
    case ByTransport(tm) => if tm.Offer? then Some(IngressQueue) else None
    case ByDispatcher(dm) =>
      if dm.OfferDsp? then Some(DspQueue) else if dm.OfferPersist? then Some(PersistQueue) else None
    case _ => None
  }

  function PopQueue(m: Move): Option<QueueName> {
    match m
    case ByDispatcher(dm) => if dm.Pop? then Some(IngressQueue) else None
    case ByAnalysis(am) => if am.Analyse? then Some(DspQueue) else None
    case ByPersister(pm) => if pm.Take? then Some(PersistQueue) else None
    case _ => None
  }

  /** An enabled push with an exact answer has the answer of its queue. */
  lemma PushIsExact(c: Threads, m: Move)
    requires RingsInv(c) && Enabled(Abstract(c), m) && ExactAt(Abstract(c), m) && PushQueue(m).Some?
    ensures var q := PushQueue(m).value;
            && Offering(c, q) && m == PushMove(q, PushAnswer(Ring.Queue(RingAt(c, q)), OfferedAt(c, q)))
  {
    hide Ring.Inv, Ring.Queue;
  }

  lemma PopIsExact(c: Threads, m: Move)
    requires RingsInv(c) && Enabled(Abstract(c), m) && ExactAt(Abstract(c), m) && PopQueue(m).Some?
    ensures var q := PopQueue(m).value;
            Asking(c, q) && m == PopMove(q, PopAnswer(Ring.Queue(RingAt(c, q))))
  {
    hide Ring.Inv, Ring.Queue;
  }

  lemma PushImage(c: Threads, q: QueueName, r: FrameRing, o: QueueAnswer)
    requires AllIdle(c) && Ring.Inv(r) && Idle(r) && Ring.Queue(r) == FifoNext(Ring.Queue(RingAt(c, q)), o)
    ensures var c' := AfterPush(WithRing(c, q, r), q, o);
            AllIdle(c') && Abstract(c') == Next(Abstract(c), PushMove(q, o))
  {
    hide Ring.Inv, Ring.Queue, TransportNext, DispatcherNext;
  }

  lemma PopImage(c: Threads, q: QueueName, r: FrameRing, o: QueueAnswer)
    requires AllIdle(c) && Ring.Inv(r) && Idle(r) && Ring.Queue(r) == FifoNext(Ring.Queue(RingAt(c, q)), o)
    ensures var c' := AfterPop(WithRing(c, q, r), q, o);
            AllIdle(c') && Abstract(c') == Next(Abstract(c), PopMove(q, o))
  {
    hide Ring.Inv, Ring.Queue, PersisterNext, DispatcherNext, AnalysisNext;
  }

  lemma LocalRealized(c0: Threads, c: Threads, m: Move) returns (c': Threads)
    requires Leads(c0, c) && AllIdle(c) && Enabled(Abstract(c), m) && IsLocal(m)
    ensures Leads(c0, c') && AllIdle(c') && Abstract(c') == Next(Abstract(c), m)
  {
    LeadsThen(c0, c, Local(m));
    hide Leads, Ring.Inv, Ring.Queue, PersisterNext, DispatcherNext, TransportNext, AnalysisNext;
    c' := ThreadNext(c, Local(m));
  }

  lemma EstimateRealized(c0: Threads, c: Threads, m: Move) returns (c': Threads)
    requires Leads(c0, c) && AllIdle(c) && Enabled(Abstract(c), m) && ExactAt(Abstract(c), m)
    requires (m.ByDispatcher? && m.dm.TestStopped?) || (m.ByPersister? && m.pm.LoopStopped?)
    ensures Leads(c0, c') && AllIdle(c') && Abstract(c') == Next(Abstract(c), m)
  {
    var r := if m.ByDispatcher? then c.ingress else c.persist;
    var pos := |r.headOrder| - 1;
    assert Ring.Enabled(r, Ring.ConsumerSize(pos));
    EstimateSteps(r, pos);
    hide Leads, Ring.Inv, Ring.Queue, PersisterNext, DispatcherNext, Ring.Apply, Ring.Enabled, Estimate;
    var tm := if m.ByDispatcher? then EstimateIngress(pos) else EstimatePersist(pos);
    LeadsThen(c0, c, tm);
    c' := ThreadNext(c, tm);
  }

  /** Every move of the pipeline with an exact answer can be carried out by the threads. */
  lemma MoveRealized(c0: Threads, c: Threads, m: Move) returns (c': Threads)
    requires Leads(c0, c) && AllIdle(c) && Enabled(Abstract(c), m) && ExactAt(Abstract(c), m)
    ensures Leads(c0, c') && AllIdle(c') && Abstract(c') == Next(Abstract(c), m)
  {
    hide Leads, Enabled, Next, ExactAt, Abstract;
    var r;
    if PushQueue(m).Some? {
      var q := PushQueue(m).value;
      PushIsExact(c, m);
      c', r := PushRealized(c0, c, q);
      PushImage(c, q, r, PushAnswer(Ring.Queue(RingAt(c, q)), OfferedAt(c, q)));
    } else if PopQueue(m).Some? {
      PopIsExact(c, m);
      c', r := PopRealized(c0, c, PopQueue(m).value);
      PopImage(c, PopQueue(m).value, r, PopAnswer(Ring.Queue(RingAt(c, PopQueue(m).value))));
    } else if IsLocal(m) {
      c' := LocalRealized(c0, c, m);
    } else {
      c' := EstimateRealized(c0, c, m);
    }
  }

  // ---- Whole runs ----

  lemma {:induction false} RunRealized(c0: Threads, c: Threads, moves: seq<Move>) returns (c': Threads)
    requires Leads(c0, c) && AllIdle(c) && RunsExactly(Abstract(c), moves)
    ensures Leads(c0, c') && AllIdle(c') && Abstract(c') == Final(Abstract(c), moves)
    decreases |moves|
  {
    hide Leads, AllIdle, Abstract, Enabled, ExactAt, Next;
    if moves == [] {
      c' := c;
    } else {
      c' := MoveRealized(c0, c, moves[0]);
      c' := RunRealized(c0, c', moves[1..]);
    }
  }

  /** Every run of the pipeline with exact answers is a run of the threads over the three rings. */
  lemma RingsRealizePipeline(cfg: Config, moves: seq<Move>) returns (c: Threads)
    requires RunsExactly(Start(cfg), moves)
    ensures Leads(StartThreads(cfg), c) && AllIdle(c) && Abstract(c) == Final(Start(cfg), moves)
  {
    StartSimulated(cfg);
    LeadsToSelf(StartThreads(cfg));
    c := RunRealized(StartThreads(cfg), StartThreads(cfg), moves);
  }
}
