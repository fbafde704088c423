/**
 * Frames do get through: for every list of well-formed descriptors there is a run of the threads over
 * the rings that carries all their samples into the file and closes it.
 */
module FrameDelivery {
  import opened BoundedFifo
  import opened ExactRuns
  import opened Frames
  import opened LittleEndian
  import opened Pipeline
  import opened RingPipeline
  import opened RingRealizes

  /** A descriptor and the shared memory when it is handled. */
  datatype Input = Input(desc: Descriptor, memory: seq<byte>)

  predicate Acceptable(cfg: Config, x: Input) {
    |x.memory| == cfg.shmSize && WellFormed(x.desc, cfg.shmSize)
  }

  function AreaOf(x: Input): seq<byte>
    requires WellFormed(x.desc, |x.memory|)
  {
    x.memory[x.desc.shmOffset..x.desc.shmOffset + AreaBytes(x.desc)]
  }

  /** The areas of the inputs, one after the other. */
  function Areas(cfg: Config, inputs: seq<Input>): seq<byte>
    requires forall x | x in inputs :: Acceptable(cfg, x)
  {
    if inputs == [] then []
    else
      var last := inputs[|inputs| - 1];
      assert Acceptable(cfg, last);
      Areas(cfg, inputs[..|inputs| - 1]) + AreaOf(last)
  }

  /** Nothing is queued or under way, and nothing has been lost; the file and the cache hold these bytes. */
  ghost predicate Settled(s: State, received: seq<byte>) {
    && s.main == Serving
    && s.transport.pc.Polling? && s.transport.running
    && s.transport.malformed == s.transport.dropped == 0
    && s.dispatcher.pc.Testing? && s.dispatcher.running
    && s.dispatcher.droppedDsp == s.dispatcher.droppedPersist == 0
    && !s.analysis.done && s.analysis.running
    && s.persister.pc.TestingLoop? && s.persister.running && s.persister.failures == 0
    && s.ingress == Fifo([], s.cfg.ingressCapacity)
    && s.dsp == Fifo([], s.cfg.ringCapacity) && s.persist == Fifo([], s.cfg.ringCapacity)
    && s.persister.file + Bytes(s.persister.cache) == received
  }

  // ---- One frame, stage by stage ----

  lemma FrameRead(s: State, x: Input, received: seq<byte>) returns (s': State)
    requires ExactlyReached(s) && Settled(s, received) && Acceptable(s.cfg, x) && s.cfg.ingressCapacity > 0
    ensures var f := BuiltFrame(x.desc, x.memory);
            && ExactlyReached(s')
            && s' == s.(ingress := Fifo([f], s.cfg.ingressCapacity),
                        transport := s.transport.(received := s.transport.received + 1,
                                                  descs := s.transport.descs + [x.desc],
                                                  accepted := s.transport.accepted + [f]))
  {
    var f := BuiltFrame(x.desc, x.memory);
    assert f.Some?;
    hide ExactlyReached, BuiltFrame, Bytes;
    s' := Advance(s, ByTransport(Read(x.desc)));
    s' := Advance(s', ByTransport(Build(x.memory)));
    s' := Advance(s', ByTransport(Offer(Accepted(f))));
  }

  /** The dispatcher between two rounds, with its counters after one more frame. */
  function AfterDispatch(d: Dispatcher, f: FramePtr): Dispatcher
    requires f.Some?
  {
    var number := f.value.desc.sequence;
    var gap := d.haveLast && number != Successor(d.lastSequence);
    d.(haveLast := true, lastSequence := number, gaps := d.gaps + (if gap then 1 else 0),
       dispatched := d.dispatched + 1,
       taken := d.taken + [f], dspIn := d.dspIn + [f], persistIn := d.persistIn + [f])
  }

  lemma FrameInHand(s: State, f: FramePtr) returns (s': State)
    requires ExactlyReached(s) && f.Some? && s.dispatcher.pc.Testing? && s.dispatcher.running
    requires s.ingress.items == [f]
    ensures ExactlyReached(s')
    ensures var a := AfterDispatch(s.dispatcher, f);
            s' == s.(ingress := s.ingress.(items := []),
                     dispatcher := a.(pc := OfferingDsp(f), dispatched := s.dispatcher.dispatched,
                                      dspIn := s.dispatcher.dspIn, persistIn := s.dispatcher.persistIn))
  {
    hide ExactlyReached;
    s' := Advance(s, ByDispatcher(TestRunning));
    s' := Advance(s', ByDispatcher(Pop(Delivered(f))));
    s' := Advance(s', ByDispatcher(Inspect));
  }

  lemma FrameFannedOut(s: State, f: FramePtr) returns (s': State)
    requires ExactlyReached(s) && s.dispatcher.pc == OfferingDsp(f)
    requires s.dsp.items == [] && s.dsp.capacity > 0 && s.persist.items == [] && s.persist.capacity > 0
    ensures ExactlyReached(s')
    ensures var d := s.dispatcher;
            s' == s.(dsp := s.dsp.(items := [f]), persist := s.persist.(items := [f]),
                     dispatcher := d.(pc := Testing, dispatched := d.dispatched + 1,
                                      dspIn := d.dspIn + [f], persistIn := d.persistIn + [f]))
  {
    hide ExactlyReached;
    s' := Advance(s, ByDispatcher(OfferDsp(Accepted(f))));
    s' := Advance(s', ByDispatcher(OfferPersist(Accepted(f))));
    s' := Advance(s', ByDispatcher(Count));
  }

  /** The analysis takes its frame, and the persistence worker has its own in hand. */
  lemma FrameTaken(s: State, f: FramePtr) returns (s': State)
    requires ExactlyReached(s) && s.dsp.items == [f] && s.persist.items == [f] && !s.analysis.done
    requires s.persister.pc.TestingLoop? && s.persister.running
    ensures ExactlyReached(s')
    ensures s' == s.(dsp := s.dsp.(items := []), persist := s.persist.(items := []),
                     analysis := s.analysis.(seen := s.analysis.seen + [f]),
                     persister := s.persister.(pc := Appending(f, InLoop), taken := s.persister.taken + [f]))
  {
    hide ExactlyReached;
    s' := Advance(s, ByAnalysis(Analyse(Delivered(f))));
    s' := Advance(s', ByPersister(LoopRunning));
    s' := Advance(s', ByPersister(Take(Delivered(f))));
  }

  /** A flush that the system takes whole. */
  lemma Flushed(s: State) returns (s': State)
    requires ExactlyReached(s) && s.persister.pc.Flushing? && s.persister.pc.sent == 0
    requires s.persister.cache != []
    ensures ExactlyReached(s')
    ensures var p := s.persister;
            s' == s.(persister := p.(pc := AfterFlush(p.pc.stage), cache := [], file := p.file + Bytes(p.cache),
                                     settled := p.settled + Bytes(p.cache)))
  {
    hide ExactlyReached, Bytes;
    var b := Bytes(s.persister.cache);
    assert b[0..|b|] == b;
    s' := Advance(s, ByPersister(Write(|b|)));
    s' := Advance(s', ByPersister(FinishFlush(true)));
  }

  /** Appending makes the cache longer, and begins a flush if it is long enough. */
  lemma Appends(s: State, f: FramePtr)
    requires s.persister.pc == Appending(f, InLoop) && f.Some? && f.value.samples != []
    ensures var m := ByPersister(Append);
            && Enabled(s, m) && ExactAt(s, m)
            && var p, p' := s.persister, Next(s, m).persister;
            && Next(s, m) == s.(persister := p') && p'.cache == p.cache + f.value.samples && p'.cache != []
            && p'.file == p.file && p'.failures == p.failures && p'.running == p.running
            && (p'.pc.TestingLoop? || p'.pc == Flushing(0, InLoop))
  {
  }

  lemma FrameCached(s: State, f: FramePtr) returns (s': State)
    requires ExactlyReached(s) && s.persister.pc == Appending(f, InLoop) && f.Some? && f.value.samples != []
    ensures ExactlyReached(s')
    ensures var p, p' := s.persister, s'.persister;
            && s' == s.(persister := p') && p'.pc.TestingLoop? && p'.running == p.running
            && p'.failures == p.failures
            && p'.file + Bytes(p'.cache) == p.file + Bytes(p.cache) + PtrBytes(f)
  {
    BytesConcat(s.persister.cache, f.value.samples);
    hide ExactlyReached, Bytes, Enabled, ExactAt, Next;
    Appends(s, f);
    s' := Advance(s, ByPersister(Append));
    if s'.persister.pc.Flushing? {
      s' := Flushed(s');
      assert Bytes([]) == [] by { NoBytes(); }
    }
    assert s.persister.file + (Bytes(s.persister.cache) + PtrBytes(f))
        == s.persister.file + Bytes(s.persister.cache) + PtrBytes(f);
  }

  lemma NoBytes()
    ensures Bytes([]) == []
  {
  }

  /** One input is carried all the way, and the stages are at rest again. */
  lemma FrameCarried(s: State, x: Input, received: seq<byte>) returns (s': State)
    requires ExactlyReached(s) && Settled(s, received) && Acceptable(s.cfg, x)
    requires s.cfg.ingressCapacity > 0 && s.cfg.ringCapacity > 0
    ensures ExactlyReached(s') && s'.cfg == s.cfg && Settled(s', received + AreaOf(x))
    ensures s'.transport.descs == s.transport.descs + [x.desc]
  {
    var f := BuiltFrame(x.desc, x.memory);
    FrameCarriesArea(x.desc, x.memory);
    TotalSamplesBounds(x.desc);
    hide ExactlyReached, BuiltFrame, Bytes, TotalSamples, AreaBytes;
    s' := FrameRead(s, x, received);
    s' := FrameInHand(s', f);
    s' := FrameFannedOut(s', f);
    s' := FrameTaken(s', f);
    s' := FrameCached(s', f);
  }

  lemma {:induction false} FramesCarried(cfg: Config, inputs: seq<Input>) returns (s: State)
    requires cfg.ingressCapacity > 0 && cfg.ringCapacity > 0
    requires forall x | x in inputs :: Acceptable(cfg, x)
    ensures ExactlyReached(s) && s.cfg == cfg && Settled(s, Areas(cfg, inputs))
    ensures s.transport.descs == seq(|inputs|, i requires 0 <= i < |inputs| => inputs[i].desc)
  {
    if inputs == [] {
      s := Start(cfg);
      StartReached(cfg);
    } else {
      s := FramesCarried(cfg, inputs[..|inputs| - 1]);
      s := FrameCarried(s, inputs[|inputs| - 1], Areas(cfg, inputs[..|inputs| - 1]));
    }
  }

  // ---- The stop ----

  lemma FirstStagesStop(s: State, received: seq<byte>) returns (s': State)
    requires ExactlyReached(s) && Settled(s, received)
    ensures ExactlyReached(s') && s'.cfg == s.cfg && s'.main == StoppingAnalysis
    ensures s'.persister == s.persister && s'.persist == s.persist && s'.transport.descs == s.transport.descs
    ensures s'.analysis == s.analysis.(running := false)
  {
    hide ExactlyReached, Bytes;
    s' := Advance(s, ByMain(StopTransport));
    s' := Advance(s', ByTransport(LeaveIngest));
    s' := Advance(s', ByMain(JoinTransport));
    s' := Advance(s', ByDispatcher(TestStopped(0)));
    s' := Advance(s', ByMain(JoinDispatcher));
  }

  lemma LastStagesStop(s: State) returns (s': State)
    requires ExactlyReached(s) && s.main == StoppingAnalysis && !s.analysis.running && !s.analysis.done
    requires s.persister.pc.TestingLoop? && s.persist.items == []
    ensures ExactlyReached(s') && s'.cfg == s.cfg && s'.transport == s.transport
    ensures s'.persister == BeginFlush(s.persister.(running := false), AtClose)
  {
    hide ExactlyReached;
    s' := Advance(s, ByAnalysis(LeaveAnalysis));
    s' := Advance(s', ByMain(JoinAnalysis));
    s' := Advance(s', ByPersister(LoopStopped(0)));
    s' := Advance(s', ByMain(JoinPersister));
    s' := Advance(s', ByPersister(Take(AnsweredEmpty(true))));
  }

  lemma Stopped(s: State, received: seq<byte>) returns (s': State)
    requires ExactlyReached(s) && Settled(s, received)
    ensures ExactlyReached(s') && s'.cfg == s.cfg && s'.transport.descs == s.transport.descs
    ensures s'.persister.pc.Closed? && s'.persister.file == received
  {
    s' := FirstStagesStop(s, received);
    s' := LastStagesStop(s');
    NoBytes();
    hide ExactlyReached, Bytes;
    if s'.persister.pc.Flushing? {
      s' := Flushed(s');
    }
    assert s.persister.file + [] == s.persister.file;
  }

  /**
   * For every configuration with room for one frame and every list of well-formed descriptors some run
   * of the threads over the three rings takes all of them and closes a file with exactly their areas.
   */
  lemma FramesReachFile(cfg: Config, inputs: seq<Input>) returns (c: Threads)
    requires cfg.ingressCapacity > 0 && cfg.ringCapacity > 0
    requires forall x | x in inputs :: Acceptable(cfg, x)
    ensures Leads(StartThreads(cfg), c)
    ensures c.transport.descs == seq(|inputs|, i requires 0 <= i < |inputs| => inputs[i].desc)
    ensures c.persister.pc.Closed? && c.persister.file == Areas(cfg, inputs)
  {
    var s := FramesCarried(cfg, inputs);
    s := Stopped(s, Areas(cfg, inputs));
    hide Leads;
    var moves :| RunsExactly(Start(cfg), moves) && Final(Start(cfg), moves) == s;
    c := RingsRealizePipeline(cfg, moves);
  }
}
