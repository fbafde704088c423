/** Write errors that are not retried by the write loop itself, and what they do to the file. */
module HardErrors {
  import opened BoundedFifo
  import opened Frames
  import opened LittleEndian
  import opened Pipeline
  import opened PipelineTheorems

  // ---- No way back ----

  lemma WastedStays(s: State, m: Move)
    requires Enabled(s, m)
    ensures Next(s, m).persister.wasted >= s.persister.wasted
  {
  }

  lemma {:induction false} WastedStaysOverRuns(s: State, moves: seq<Move>)
    requires Runs(s, moves)
    ensures Final(s, moves).persister.wasted >= s.persister.wasted
    decreases |moves|
  {
    hide Enabled, Next;
    if moves != [] {
      WastedStays(s, moves[0]);
      WastedStaysOverRuns(Next(s, moves[0]), moves[1..]);
    }
  }

  /**
   * Once a hard error has cut a flush short after its first byte, no continuation whose cache is
   * written out in the end closes with the right file: it has bytes of the stream twice.
   */
  lemma HardErrorSpoilsFile(s: State, moves: seq<Move>)
    requires Reachable(s) && s.persister.pc.Flushing? && s.persister.pc.sent > 0
    requires Enabled(s, ByPersister(WriteFails)) && Runs(Next(s, ByPersister(WriteFails)), moves)
    ensures var end := Final(Next(s, ByPersister(WriteFails)), moves);
            end.persister.pc.Closed? && end.persister.cache == [] ==>
              end.persister.file != AcceptedStream(end) && |end.persister.file| > |AcceptedStream(end)|
  {
    var failed := Next(s, ByPersister(WriteFails));
    var end := Final(failed, moves);
    ReachableStep(s, ByPersister(WriteFails));
    WastedStaysOverRuns(failed, moves);
    ReachableRun(failed, moves);
    hide Reachable, Runs, Final, Enabled, AcceptedStream;
    if end.persister.pc.Closed? && end.persister.cache == [] {
      FileIsStream(end);
    }
  }

  // ---- A run that gets there ----

  /** The transport has accepted one frame. */
  lemma FrameAccepted(cfg: Config, d: Descriptor, memory: seq<byte>) returns (s: State)
    requires |memory| == cfg.shmSize && WellFormed(d, cfg.shmSize) && cfg.ingressCapacity > 0
    ensures Reachable(s)
    ensures var f := BuiltFrame(d, memory);
            s == Start(cfg).(transport := Transport(Polling, true, 1, 0, 0, [d], [f]),
                             ingress := Fifo([f], cfg.ingressCapacity))
  {
    var f := BuiltFrame(d, memory);
    s := Start(cfg);
    assert Runs(Start(cfg), []) && Final(Start(cfg), []) == s;
    hide Reachable, BuiltFrame;
    Take3(s, ByTransport(Read(d)), ByTransport(Build(memory)), ByTransport(Offer(Accepted(f))));
    s := Next(Next(Next(s, ByTransport(Read(d))), ByTransport(Build(memory))), ByTransport(Offer(Accepted(f))));
  }

  lemma Take3(s: State, m0: Move, m1: Move, m2: Move)
    requires Reachable(s) && Enabled(s, m0) && Enabled(Next(s, m0), m1) && Enabled(Next(Next(s, m0), m1), m2)
    ensures Reachable(Next(Next(Next(s, m0), m1), m2))
  {
    hide Reachable, Enabled, Next;
    ReachableStep(s, m0);
    ReachableStep(Next(s, m0), m1);
    ReachableStep(Next(Next(s, m0), m1), m2);
  }

  /** The dispatcher has handed it to both queues. */
  lemma FrameDispatched(cfg: Config, d: Descriptor, memory: seq<byte>) returns (s: State)
    requires |memory| == cfg.shmSize && WellFormed(d, cfg.shmSize)
    requires cfg.ingressCapacity > 0 && cfg.ringCapacity > 0
    ensures Reachable(s)
    ensures var f := BuiltFrame(d, memory);
            s == Start(cfg).(transport := Transport(Polling, true, 1, 0, 0, [d], [f]),
                             ingress := Fifo([], cfg.ingressCapacity),
                             dispatcher := Dispatcher(Testing, true, true, d.sequence, 1, 0, 0, 0, [f], [f], [f]),
                             dsp := Fifo([f], cfg.ringCapacity), persist := Fifo([f], cfg.ringCapacity))
  {
    var f := BuiltFrame(d, memory);
    s := FrameAccepted(cfg, d, memory);
    assert f.value.desc == d;
    hide Reachable, BuiltFrame;
    Take3(s, ByDispatcher(TestRunning), ByDispatcher(Pop(Delivered(f))), ByDispatcher(Inspect));
    s := Next(Next(Next(s, ByDispatcher(TestRunning)), ByDispatcher(Pop(Delivered(f)))), ByDispatcher(Inspect));
    Take3(s, ByDispatcher(OfferDsp(Accepted(f))), ByDispatcher(OfferPersist(Accepted(f))), ByDispatcher(Count));
    s := Next(Next(Next(s, ByDispatcher(OfferDsp(Accepted(f)))), ByDispatcher(OfferPersist(Accepted(f)))),
              ByDispatcher(Count));
  }

  /** The worker that has just been started. */
  function NewPersister(): Persister {
    Persister(TestingLoop, true, [], [], 0, 0, [], [])
  }

  /** The persistence worker has taken it and begins to write. */
  lemma FlushBegun(cfg: Config, d: Descriptor, memory: seq<byte>) returns (s: State)
    requires |memory| == cfg.shmSize && WellFormed(d, cfg.shmSize)
    requires cfg.ingressCapacity > 0 && cfg.ringCapacity > 0 && cfg.flushBytes <= AreaBytes(d)
    ensures Reachable(s) && s.cfg == cfg && AtRest(s)
    ensures var f := BuiltFrame(d, memory);
            && s.main == Serving && s.dispatcher.persistIn == [f]
            && s.persister == NewPersister().(pc := Flushing(0, InLoop), cache := f.value.samples, taken := [f])
  {
    var f := BuiltFrame(d, memory);
    FrameCarriesArea(d, memory);
    s := FrameDispatched(cfg, d, memory);
    hide Reachable, BuiltFrame, Bytes, WellFormed, AreaBytes;
    assert [] + f.value.samples == f.value.samples;
    s := FrameTaken(s, f);
    ReachableStep(s, ByPersister(Append));
    s := Next(s, ByPersister(Append));
  }

  lemma FrameTaken(s: State, f: FramePtr) returns (s': State)
    requires Reachable(s) && s.persister == NewPersister() && s.persist.items == [f]
    ensures Reachable(s')
    ensures s' == s.(persister := NewPersister().(pc := Appending(f, InLoop), taken := [f]),
                     persist := s.persist.(items := []))
  {
    hide Reachable;
    ReachableStep(s, ByPersister(LoopRunning));
    s' := Next(s, ByPersister(LoopRunning));
    ReachableStep(s', ByPersister(Take(Delivered(f))));
    s' := Next(s', ByPersister(Take(Delivered(f))));
  }

  /** Nothing waits for the dispatcher or the persistence worker, and the first stages are between two rounds. */
  predicate AtRest(s: State) {
    && s.transport.pc.Polling? && s.dispatcher.pc.Testing? && s.ingress.items == [] && s.persist.items == []
    && !s.analysis.done
  }

  /** A hard error after n bytes of the first flush. */
  lemma CutShort(s: State, n: nat) returns (s': State)
    requires Reachable(s) && s.persister.pc == Flushing(0, InLoop) && n < |Bytes(s.persister.cache)|
    ensures Reachable(s')
    ensures s' == s.(persister := s.persister.(
                       pc := LoopDone, running := false, file := s.persister.file + Bytes(s.persister.cache)[..n],
                       failures := s.persister.failures + 1, wasted := s.persister.wasted + n))
  {
    hide Reachable, Bytes;
    var b := Bytes(s.persister.cache);
    assert b[0..n] == b[..n];
    ReachableStep(s, ByPersister(Write(n)));
    s' := Next(s, ByPersister(Write(n)));
    ReachableStep(s', ByPersister(WriteFails));
    s' := Next(s', ByPersister(WriteFails));
  }

  /** The main thread stops the transport and the dispatcher. */
  lemma FirstStagesStop(s: State) returns (s': State)
    requires Reachable(s) && AtRest(s) && s.main == Serving
    ensures Reachable(s') && s'.cfg == s.cfg && s'.main == StoppingAnalysis && s'.dispatcher.pc.DispatcherDone?
    ensures s'.persister == s.persister && s'.persist == s.persist && s'.dispatcher.persistIn == s.dispatcher.persistIn
    ensures s'.analysis == s.analysis.(running := false)
  {
    hide Reachable;
    var m0, m1, m2 := ByMain(StopTransport), ByTransport(LeaveIngest), ByMain(JoinTransport);
    Take3(s, m0, m1, m2);
    s' := Next(Next(Next(s, m0), m1), m2);
    ReachableStep(s', ByDispatcher(TestStopped(0)));
    s' := Next(s', ByDispatcher(TestStopped(0)));
    ReachableStep(s', ByMain(JoinDispatcher));
    s' := Next(s', ByMain(JoinDispatcher));
  }

  /** Then the analysis and the persistence thread, and it drains the persist queue. */
  lemma LastStagesStop(s: State) returns (s': State)
    requires Reachable(s) && s.main == StoppingAnalysis && !s.analysis.running && !s.analysis.done
    requires s.persister.pc.LoopDone? && !s.persister.running
    ensures Reachable(s') && s'.cfg == s.cfg && s'.persist == s.persist && s'.dispatcher == s.dispatcher
    ensures s'.persister == s.persister.(pc := Taking(InDrain))
  {
    hide Reachable;
    var m0, m1, m2 := ByAnalysis(LeaveAnalysis), ByMain(JoinAnalysis), ByMain(JoinPersister);
    Take3(s, m0, m1, m2);
    s' := Next(Next(Next(s, m0), m1), m2);
  }

  /** The drain finds nothing, and the flush at close writes the whole cache. */
  lemma ClosesAfterRetry(s: State) returns (s': State)
    requires Reachable(s) && s.persister.pc == Taking(InDrain) && s.persist.items == [] && s.persister.cache != []
    ensures Reachable(s') && s'.cfg == s.cfg && s'.dispatcher == s.dispatcher
    ensures s'.persister.pc.Closed? && s'.persister.cache == []
    ensures s'.persister.file == s.persister.file + Bytes(s.persister.cache)
  {
    hide Reachable, Bytes;
    var b := Bytes(s.persister.cache);
    assert b[0..|b|] == b;
    var m0, m1, m2 := ByPersister(Take(AnsweredEmpty(true))), ByPersister(Write(|b|)), ByPersister(FinishFlush(true));
    Take3(s, m0, m1, m2);
    s' := Next(Next(Next(s, m0), m1), m2);
  }

  /**
   * A wrong file is really reached: in every configuration with room for one frame, a hard error
   * after n bytes of a frame that fills the cache, followed by the stop and a flush that succeeds,
   * leaves those n bytes twice in the file.
   */
  lemma RetryResends(cfg: Config, d: Descriptor, memory: seq<byte>, n: nat) returns (s: State)
    requires |memory| == cfg.shmSize && WellFormed(d, cfg.shmSize)
    requires cfg.ingressCapacity > 0 && cfg.ringCapacity > 0 && cfg.flushBytes <= AreaBytes(d) && 0 < n < AreaBytes(d)
    ensures Reachable(s) && s.cfg == cfg && s.persister.pc.Closed? && s.persister.cache == []
    ensures AcceptedStream(s) == memory[d.shmOffset..d.shmOffset + AreaBytes(d)]
    ensures s.persister.file == AcceptedStream(s)[..n] + AcceptedStream(s) != AcceptedStream(s)
  {
    var f := BuiltFrame(d, memory);
    var b := PtrBytes(f);
    FrameCarriesArea(d, memory);
    StreamSingle(f);
    hide Reachable, BuiltFrame, Bytes, StreamBytes;
    s := FlushBegun(cfg, d, memory);
    s := CutShort(s, n);
    s := FirstStagesStop(s);
    s := LastStagesStop(s);
    s := ClosesAfterRetry(s);
    assert [] + b[..n] == b[..n] && |b[..n] + b| > |b|;
  }
}
