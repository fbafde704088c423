/** Runs of the pipeline in which every queue answers exactly. */
module ExactRuns {
  import opened Pipeline
  import opened PipelineTheorems

  predicate ExactAnswer(o: QueueAnswer) {
    && (o.AnsweredFull? ==> o.exact)
    && (o.AnsweredEmpty? ==> o.exact)
  }

  /** The move's queue answer is exact, and its size estimate is the size. */
  predicate ExactAt(s: State, m: Move) {
    match m
    case ByTransport(tm) => tm.Offer? ==> ExactAnswer(tm.answer)
    case ByDispatcher(dm) =>
      && (dm.Pop? || dm.OfferDsp? || dm.OfferPersist? ==> ExactAnswer(dm.answer))
      && (dm.TestStopped? ==> dm.estimate == |s.ingress.items|)
    case ByAnalysis(am) => am.Analyse? ==> ExactAnswer(am.answer)
    case ByPersister(pm) =>
      && (pm.Take? ==> ExactAnswer(pm.answer))
      && (pm.LoopStopped? ==> pm.estimate == |s.persist.items|)
    case ByMain(_) => true
  }

  ghost predicate RunsExactly(s: State, moves: seq<Move>)
    decreases |moves|
  {
    moves == [] || (Enabled(s, moves[0]) && ExactAt(s, moves[0]) && RunsExactly(Next(s, moves[0]), moves[1..]))
  }

  /** The states some run with exact answers reaches. */
  ghost predicate ExactlyReached(s: State) {
    exists moves :: RunsExactly(Start(s.cfg), moves) && Final(Start(s.cfg), moves) == s
  }

  lemma StartReached(cfg: Config)
    ensures ExactlyReached(Start(cfg))
  {
    assert RunsExactly(Start(cfg), []) && Final(Start(cfg), []) == Start(cfg);
  }

  lemma {:induction false} ExactThenMove(s: State, moves: seq<Move>, m: Move)
    requires RunsExactly(s, moves) && Enabled(Final(s, moves), m) && ExactAt(Final(s, moves), m)
    ensures RunsExactly(s, moves + [m]) && Final(s, moves + [m]) == Next(Final(s, moves), m)
    decreases |moves|
  {
    hide Enabled, Next, ExactAt;
    if moves == [] {
      assert [m][1..] == [];
    } else {
      ExactThenMove(Next(s, moves[0]), moves[1..], m);
      assert (moves + [m])[1..] == moves[1..] + [m];
    }
  }

  lemma Advance(s: State, m: Move) returns (s': State)
    requires ExactlyReached(s) && Enabled(s, m) && ExactAt(s, m)
    ensures ExactlyReached(s') && s' == Next(s, m) && s'.cfg == s.cfg
  {
    var moves :| RunsExactly(Start(s.cfg), moves) && Final(Start(s.cfg), moves) == s;
    ExactThenMove(Start(s.cfg), moves, m);
    s' := Next(s, m);
  }

  lemma {:induction false} ExactRunsRun(s: State, moves: seq<Move>)
    requires RunsExactly(s, moves)
    ensures Runs(s, moves)
    decreases |moves|
  {
    hide Enabled, Next, ExactAt;
    if moves != [] {
      ExactRunsRun(Next(s, moves[0]), moves[1..]);
    }
  }

  lemma ExactIsReachable(s: State)
    requires ExactlyReached(s)
    ensures Reachable(s)
  {
    var moves :| RunsExactly(Start(s.cfg), moves) && Final(Start(s.cfg), moves) == s;
    ExactRunsRun(Start(s.cfg), moves);
  }
}
