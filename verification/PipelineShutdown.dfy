/** The shutdown ends: how many moves the dispatcher and the persistence worker can still make. */
module PipelineShutdown {
  import opened BoundedFifo
  import opened Frames
  import opened Pipeline
  import opened PipelineProofs
  import opened PipelineTheorems

  /** A pop that answers empty from a stale index. */
  predicate IsStale(answer: QueueAnswer) {
    answer.AnsweredEmpty? && !answer.exact
  }

  // ---- The dispatcher ----

  /** Ten per queued frame, and the dispatcher's distance to the end of its round. */
  function DispatcherMeasure(d: Dispatcher, ingress: FrameQueue): nat {
    10 * |ingress.items| +
    match d.pc
    case Inspecting(_) => 9
    case OfferingDsp(_) => 8
    case OfferingPersist(_) => 7
    case Counting => 6
    case Testing => if ingress.items == [] then 1 else 3
    case Popping => 2
    case DispatcherDone => 0
  }

  function MeasureOf(s: State): nat {
    DispatcherMeasure(s.dispatcher, s.ingress)
  }

  /** Every move of the stopped dispatcher comes nearer to its end, except for a stale answer. */
  lemma DispatcherMoveNearer(d: Dispatcher, ingress: FrameQueue, dsp: FrameQueue, persist: FrameQueue,
                             m: DispatcherMove)
    requires DispatcherEnabled(d, ingress, dsp, persist, true, m) && !d.running
    requires d.pc.Inspecting? ==> d.pc.frame.Some?
    ensures DispatcherMeasure(DispatcherNext(d, m), if m.Pop? then FifoNext(ingress, m.answer) else ingress) + 1
            <= DispatcherMeasure(d, ingress) + (if m.Pop? && IsStale(m.answer) then 2 else 0)
  {
  }

  function DispatcherMoves(moves: seq<Move>): nat {
    if moves == [] then 0 else (if moves[0].ByDispatcher? then 1 else 0) + DispatcherMoves(moves[1..])
  }

  function StaleIngressPops(moves: seq<Move>): nat {
    if moves == [] then 0
    else
      var m := moves[0];
      (if m.ByDispatcher? && m.dm.Pop? && IsStale(m.dm.answer) then 1 else 0) + StaleIngressPops(moves[1..])
  }

  lemma MeasureStep(s: State, m: Move)
    requires Inv(s) && Phase(s.main) >= 2 && Enabled(s, m)
    ensures Phase(Next(s, m).main) >= 2
    ensures MeasureOf(Next(s, m)) + (if m.ByDispatcher? then 1 else 0)
            <= MeasureOf(s) + (if m.ByDispatcher? && m.dm.Pop? && IsStale(m.dm.answer) then 2 else 0)
  {
    hide TransportInv, PersisterInv, FanOutInv, GapInv;
    if m.ByDispatcher? {
      DispatcherMoveNearer(s.dispatcher, s.ingress, s.dsp, s.persist, m.dm);
    }
  }

  /**
   * From the joined transport on, the dispatcher makes at most as many moves as its measure says,
   * and two more for each stale empty answer, in every run of the whole system.
   */
  lemma {:induction false} DispatcherEnds(s: State, moves: seq<Move>)
    requires Reachable(s) && Phase(s.main) >= 2 && Runs(s, moves)
    ensures DispatcherMoves(moves) + MeasureOf(Final(s, moves)) <= MeasureOf(s) + 2 * StaleIngressPops(moves)
    decreases |moves|
  {
    hide Reachable, Enabled, Next, MeasureOf, Inv;
    if moves != [] {
      ReachableInv(s);
      MeasureStep(s, moves[0]);
      ReachableStep(s, moves[0]);
      DispatcherEnds(Next(s, moves[0]), moves[1..]);
    }
  }

  /** And until it is done it can move. */
  lemma DispatcherCanMove(s: State)
    requires Reachable(s) && s.main.StoppingDispatcher? && !s.dispatcher.pc.DispatcherDone?
    ensures exists m: DispatcherMove :: Enabled(s, ByDispatcher(m))
  {
    hide TransportInv, DispatcherInv, PersisterInv;
    ReachableInv(s);
    var d := s.dispatcher;
    var m := match d.pc
      case Testing => TestStopped(|s.ingress.items|)
      case Popping => Pop(if s.ingress.items == [] then AnsweredEmpty(true) else Delivered(s.ingress.items[0]))
      case Inspecting(_) => Inspect
      case OfferingDsp(f) => OfferDsp(if |s.dsp.items| < s.dsp.capacity then Accepted(f) else AnsweredFull(f, true))
      case OfferingPersist(f) =>
        OfferPersist(if |s.persist.items| < s.persist.capacity then Accepted(f) else AnsweredFull(f, true))
      case _ => Count;
    assert Enabled(s, ByDispatcher(m));
  }

  // ---- The persistence worker ----

  /**
   * The place in the round, the queued frames, and first whether the thread is still to be joined:
   * the drain after the join goes through the frames that a failed flush left behind.
   */
  function Rank(s: State): nat {
    var place := match s.persister.pc
      case Appending(_, _) => 5
      case Flushing(_, stage) => if stage.AtClose? then 1 else 4
      case TestingLoop => if s.persist.items == [] then 1 else 3
      case Taking(_) => 2
      case LoopDone => 0
      case Closed => 0;
    place + 10 * |s.persist.items| + if s.main.Draining? then 0 else 10 * |s.persist.items| + 20
  }

  /** The bytes that a flush can still be asked to write: cached, in hand and queued. */
  function Load(s: State): nat {
    |Bytes(s.persister.cache)| + |PtrBytes(Held'(s.persister))| + |StreamBytes(s.persist.items)|
  }

  /** The bytes the flush under way still has to write. */
  function Remaining(p: Persister): nat {
    if p.pc.Flushing? && p.pc.sent <= |Bytes(p.cache)| then |Bytes(p.cache)| - p.pc.sent else 0
  }

  /** The rank first, then the bytes of the flush under way. */
  function Distance(rank: nat, load: nat, remaining: nat): nat {
    rank * (load + 1) + remaining
  }

  function DistanceOf(s: State): nat {
    Distance(Rank(s), Load(s), Remaining(s.persister))
  }

  /** Interrupted and empty writes make no progress. */
  predicate IsStall(m: PersisterMove) {
    m.Interrupted? || m == Write(0)
  }

  lemma ProductGrows(q: nat, r: nat, n: nat)
    requires q <= r
    ensures q * n <= r * n
  {
  }

  /** A smaller rank or the same rank and fewer bytes, with no greater load, is nearer. */
  lemma DistanceFalls(rank: nat, load: nat, remaining: nat, rank': nat, load': nat, remaining': nat)
    requires load' <= load && remaining' <= load'
    ensures rank' < rank ==> Distance(rank', load', remaining') < Distance(rank, load, remaining)
    ensures rank' == rank && remaining' < remaining ==>
              Distance(rank', load', remaining') < Distance(rank, load, remaining)
    ensures rank' == rank && remaining' == remaining ==>
              Distance(rank', load', remaining') <= Distance(rank, load, remaining)
    ensures rank' == rank + 1 && remaining' <= remaining ==>
              Distance(rank', load', remaining') <= Distance(rank, load, remaining) + load + 1
  {
    var n, n' := load + 1, load' + 1;
    assert rank' * n' <= rank' * n by { MulOrder(n', n, rank'); }
    if rank' < rank {
      ProductGrows(rank' + 1, rank, n);
      assert (rank' + 1) * n == rank' * n + n;
    }
    if rank' == rank + 1 {
      assert rank' * n == rank * n + n;
    }
  }

  lemma MulOrder(a: nat, b: nat, k: nat)
    requires a <= b
    ensures k * a <= k * b
  {
  }

  /** What one move of the stopped worker may do to rank, load and remaining bytes. */
  ghost predicate ComesNearer(s: State, m: PersisterMove, s': State) {
    && Load(s') <= Load(s) && Remaining(s'.persister) <= Load(s')
    && (if m.Take? && IsStale(m.answer) then
          (Rank(s') < Rank(s) || Rank(s') == Rank(s) + 1) && Remaining(s'.persister) == Remaining(s.persister) == 0
        else if IsStall(m) then
          Rank(s') == Rank(s) && Remaining(s'.persister) == Remaining(s.persister)
        else
          || Rank(s') < Rank(s)
          || (Rank(s') == Rank(s) && Remaining(s'.persister) < Remaining(s.persister)))
  }

  lemma TakeNearer(s: State, m: PersisterMove)
    requires Inv(s) && Phase(s.main) >= 4 && Enabled(s, ByPersister(m)) && m.Take?
    ensures ComesNearer(s, m, Next(s, ByPersister(m)))
  {
    hide TransportInv, DispatcherInv, PersisterInv;
  }

  lemma AppendNearer(s: State)
    requires Inv(s) && Phase(s.main) >= 4 && Enabled(s, ByPersister(Append))
    ensures ComesNearer(s, Append, Next(s, ByPersister(Append)))
  {
    hide TransportInv, DispatcherInv, StreamInv, FileInv, StreamBytes;
  }

  lemma FlushNearer(s: State, m: PersisterMove)
    requires Inv(s) && Phase(s.main) >= 4 && Enabled(s, ByPersister(m))
    requires m.Write? || m.Interrupted? || m.WriteFails? || m.FinishFlush?
    ensures ComesNearer(s, m, Next(s, ByPersister(m)))
  {
    hide TransportInv, DispatcherInv, StreamInv, StreamBytes;
  }

  lemma TestNearer(s: State, m: PersisterMove)
    requires Inv(s) && Phase(s.main) >= 4 && Enabled(s, ByPersister(m)) && (m.LoopRunning? || m.LoopStopped?)
    ensures ComesNearer(s, m, Next(s, ByPersister(m)))
  {
    hide TransportInv, DispatcherInv, PersisterInv, StreamBytes;
  }

  /** Every move of the stopped worker comes nearer to the closed file, except for stalls and stale answers. */
  lemma WorkerNearer(s: State, m: PersisterMove)
    requires Inv(s) && Phase(s.main) >= 4 && Enabled(s, ByPersister(m))
    ensures var s' := Next(s, ByPersister(m));
            && Load(s') <= Load(s)
            && DistanceOf(s') + (if IsStall(m) then 0 else 1)
               <= DistanceOf(s) + (if m.Take? && IsStale(m.answer) then Load(s) + 2 else 0)
  {
    hide Inv, Enabled, Next, Load, Remaining, Rank;
    match m {
      case Take(_) => TakeNearer(s, m);
      case Append => AppendNearer(s);
      case LoopRunning => TestNearer(s, m);
      case LoopStopped(_) => TestNearer(s, m);
      case _ => FlushNearer(s, m);
    }
    var s' := Next(s, ByPersister(m));
    DistanceFalls(Rank(s), Load(s), Remaining(s.persister), Rank(s'), Load(s'), Remaining(s'.persister));
    hide Distance;
  }

  /** The other threads do not put it off. */
  lemma OthersKeepDistance(s: State, m: Move)
    requires Inv(s) && Phase(s.main) >= 4 && Enabled(s, m) && !m.ByPersister?
    ensures Load(Next(s, m)) == Load(s) && DistanceOf(Next(s, m)) <= DistanceOf(s)
  {
    hide TransportInv, DispatcherInv, StreamInv, Distance, StreamBytes, Bytes;
    var s' := Next(s, m);
    assert Rank(s') <= Rank(s) && Remaining(s'.persister) == Remaining(s.persister) <= Load(s');
    DistanceFalls(Rank(s), Load(s), Remaining(s.persister), Rank(s'), Load(s'), Remaining(s'.persister));
  }

  function WorkerMoves(moves: seq<Move>): nat {
    if moves == [] then 0
    else (if moves[0].ByPersister? && !IsStall(moves[0].pm) then 1 else 0) + WorkerMoves(moves[1..])
  }

  function StalePersistPops(moves: seq<Move>): nat {
    if moves == [] then 0
    else
      var m := moves[0];
      (if m.ByPersister? && m.pm.Take? && IsStale(m.pm.answer) then 1 else 0) + StalePersistPops(moves[1..])
  }

  lemma PhaseStays(s: State, m: Move)
    requires Enabled(s, m)
    ensures Phase(Next(s, m).main) >= Phase(s.main)
  {
    hide TransportEnabled, DispatcherEnabled, AnalysisEnabled, PersisterEnabled;
  }

  lemma WorkerStep(s: State, m: Move)
    requires Inv(s) && Phase(s.main) >= 4 && Enabled(s, m)
    ensures Phase(Next(s, m).main) >= 4 && Load(Next(s, m)) <= Load(s)
    ensures DistanceOf(Next(s, m)) + (if m.ByPersister? && !IsStall(m.pm) then 1 else 0)
            <= DistanceOf(s) + (if m.ByPersister? && m.pm.Take? && IsStale(m.pm.answer) then Load(s) + 2 else 0)
  {
    hide Inv, Enabled, Next, Load, DistanceOf, Phase;
    PhaseStays(s, m);
    if m.ByPersister? {
      WorkerNearer(s, m.pm);
    } else {
      OthersKeepDistance(s, m);
    }
  }

  /**
   * From the joined dispatcher on, the persistence worker, its drain and its last flush together make
   * at most as many moves as the distance says, in every run of the whole system, not counting
   * interrupted and empty writes; each stale empty answer adds one pass over the bytes at hand.
   */
  lemma {:induction false} PersisterEnds(s: State, moves: seq<Move>)
    requires Reachable(s) && Phase(s.main) >= 4 && Runs(s, moves)
    ensures WorkerMoves(moves) + DistanceOf(Final(s, moves))
            <= DistanceOf(s) + StalePersistPops(moves) * (Load(s) + 2)
    decreases |moves|
  {
    hide Reachable, Enabled, Next, DistanceOf, Load, Inv;
    if moves != [] {
      ReachableInv(s);
      WorkerStep(s, moves[0]);
      ReachableStep(s, moves[0]);
      PersisterEnds(Next(s, moves[0]), moves[1..]);
      MulOrder(Load(Next(s, moves[0])) + 2, Load(s) + 2, StalePersistPops(moves[1..]));
      var n, k := Load(s) + 2, StalePersistPops(moves[1..]);
      assert (1 + k) * n == n + k * n;
    }
  }

  /** And until the thread is done, and again until the file is closed, it can make such a move. */
  lemma PersisterCanMove(s: State)
    requires Reachable(s) && Phase(s.main) >= 4 && !s.persister.pc.Closed? && !s.persister.pc.LoopDone?
    ensures exists m: PersisterMove :: Enabled(s, ByPersister(m)) && !IsStall(m)
  {
    hide TransportInv, DispatcherInv, StreamInv;
    ReachableInv(s);
    var p := s.persister;
    var m := match p.pc
      case TestingLoop => LoopStopped(|s.persist.items|)
      case Taking(_) => Take(if s.persist.items == [] then AnsweredEmpty(true) else Delivered(s.persist.items[0]))
      case Flushing(sent, _) => if sent == 4 * |p.cache| then FinishFlush(true) else Write(4 * |p.cache| - sent)
      case _ => Append;
    assert Enabled(s, ByPersister(m));
  }
}
