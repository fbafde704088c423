/** When the cache is flushed, what counts as a failed flush, and what counts as malformed. */
module PipelineFlushes {
  import opened Frames
  import opened Pipeline
  import opened PipelineProofs
  import opened PipelineTheorems

  // ---- The threshold ----

  /** Nothing to write, or less than the threshold. */
  predicate BelowThreshold(cfg: Config, p: Persister) {
    p.cache == [] || 4 * |p.cache| < cfg.flushBytes
  }

  predicate ThresholdKept(cfg: Config, p: Persister) {
    match p.pc
    case TestingLoop => BelowThreshold(cfg, p)
    case Taking(stage) => (stage.InLoop? || p.failures == 0 ==> BelowThreshold(cfg, p)) && !stage.AtClose?
    case Appending(_, stage) => (stage.InLoop? || p.failures == 0 ==> BelowThreshold(cfg, p)) && !stage.AtClose?
    case Flushing(_, stage) => p.cache != [] && (!stage.AtClose? ==> 4 * |p.cache| >= cfg.flushBytes)
    case LoopDone => p.failures == 0 ==> BelowThreshold(cfg, p)
    case Closed => p.failures == 0 ==> p.cache == []
  }

  lemma MoveKeepsThreshold(s: State, m: Move)
    requires Enabled(s, m) && ThresholdKept(s.cfg, s.persister)
    ensures ThresholdKept(s.cfg, Next(s, m).persister)
  {
  }

  lemma {:induction false} RunKeepsThreshold(s: State, moves: seq<Move>)
    requires Runs(s, moves) && ThresholdKept(s.cfg, s.persister)
    ensures ThresholdKept(s.cfg, Final(s, moves).persister)
    decreases |moves|
  {
    hide Enabled, ThresholdKept;
    if moves != [] {
      MoveKeepsThreshold(s, moves[0]);
      assert Next(s, moves[0]).cfg == s.cfg;
      RunKeepsThreshold(Next(s, moves[0]), moves[1..]);
    }
  }

  /**
   * Outside the close a write happens only for a cache that has reached the threshold; between
   * two rounds of the worker's loop, and until a flush fails also of the drain, it never has.
   */
  lemma FlushPolicy(s: State)
    requires Reachable(s)
    ensures var p := s.persister;
            && (p.pc.Flushing? ==> p.cache != [] && (p.pc.stage.AtClose? || 4 * |p.cache| >= s.cfg.flushBytes))
            && (p.pc.TestingLoop? || (p.pc.Taking? && (p.pc.stage.InLoop? || p.failures == 0)) ==>
                  p.cache == [] || 4 * |p.cache| < s.cfg.flushBytes)
  {
    hide Runs, Final;
    var moves :| Runs(Start(s.cfg), moves) && Final(Start(s.cfg), moves) == s;
    RunKeepsThreshold(Start(s.cfg), moves);
  }

  // ---- Failures ----

  /** The system refuses a write for good, or the synchronisation that the configuration asks for. */
  predicate Refuses(cfg: Config, m: Move) {
    m.ByPersister? && (m.pm.WriteFails? || (m.pm.FinishFlush? && cfg.fsyncOnFlush && !m.pm.synced))
  }

  function Refusals(cfg: Config, moves: seq<Move>): nat {
    if moves == [] then 0 else (if Refuses(cfg, moves[0]) then 1 else 0) + Refusals(cfg, moves[1..])
  }

  lemma MoveCountsFailure(s: State, m: Move)
    requires Enabled(s, m)
    ensures Next(s, m).persister.failures == s.persister.failures + if Refuses(s.cfg, m) then 1 else 0
    ensures Next(s, m).cfg == s.cfg
  {
  }

  /** A flush fails exactly if the system refuses: in every run the failures are the refusals. */
  lemma {:induction false} FailuresAreRefusals(s: State, moves: seq<Move>)
    requires Runs(s, moves)
    ensures Final(s, moves).persister.failures == s.persister.failures + Refusals(s.cfg, moves)
    decreases |moves|
  {
    hide Enabled, Next, Refuses;
    if moves != [] {
      MoveCountsFailure(s, moves[0]);
      FailuresAreRefusals(Next(s, moves[0]), moves[1..]);
    }
  }

  // ---- Malformed descriptors ----

  /** The descriptors that describe no nonempty area inside the shared memory. */
  function Malformed(ds: seq<Descriptor>, shmSize: nat): nat {
    if ds == [] then 0
    else Malformed(ds[..|ds| - 1], shmSize) + if WellFormed(ds[|ds| - 1], shmSize) then 0 else 1
  }

  /** Those not yet built are not counted; the frame on offer is of a well-formed descriptor. */
  ghost predicate MalformedCounted(s: State) {
    var t := s.transport;
    && (t.pc.Received? ==>
          && t.descs != [] && t.pc.desc == t.descs[|t.descs| - 1]
          && t.malformed == Malformed(t.descs[..|t.descs| - 1], s.cfg.shmSize))
    && (!t.pc.Received? ==> t.malformed == Malformed(t.descs, s.cfg.shmSize))
  }

  lemma OneMore(ds: seq<Descriptor>, d: Descriptor)
    ensures (ds + [d])[..|ds + [d]| - 1] == ds
  {
  }

  lemma MoveCountsMalformed(s: State, m: Move)
    requires Enabled(s, m) && MalformedCounted(s)
    ensures MalformedCounted(Next(s, m)) && Next(s, m).cfg == s.cfg
  {
    hide WellFormed;
    if m.ByTransport? && m.tm.Read? {
      OneMore(s.transport.descs, m.tm.desc);
    }
  }

  lemma {:induction false} RunCountsMalformed(s: State, moves: seq<Move>)
    requires Runs(s, moves) && MalformedCounted(s)
    ensures MalformedCounted(Final(s, moves)) && Final(s, moves).cfg == s.cfg
    decreases |moves|
  {
    hide Enabled, Next, MalformedCounted;
    if moves != [] {
      MoveCountsMalformed(s, moves[0]);
      RunCountsMalformed(Next(s, moves[0]), moves[1..]);
    }
  }

  /**
   * Between two descriptors the malformed ones are exactly those received that are not well
   * formed, and every other one was accepted or dropped.
   */
  lemma MalformedExactly(s: State)
    requires Reachable(s) && s.transport.pc.Polling?
    ensures var t := s.transport;
            && t.malformed == Malformed(t.descs, s.cfg.shmSize)
            && t.dropped + |t.accepted| == |t.descs| - Malformed(t.descs, s.cfg.shmSize)
  {
    hide Runs, Final, PersisterInv, DispatcherInv, Malformed;
    var moves :| Runs(Start(s.cfg), moves) && Final(Start(s.cfg), moves) == s;
    assert MalformedCounted(Start(s.cfg)) by {
      NoneMalformed(s.cfg.shmSize);
    }
    RunCountsMalformed(Start(s.cfg), moves);
    ReachableInv(s);
  }

  lemma NoneMalformed(shmSize: nat)
    ensures Malformed([], shmSize) == 0
  {
  }
}
