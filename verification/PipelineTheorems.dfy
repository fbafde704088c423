/** The pipeline's promises, for every state that any interleaving reaches. */
module PipelineTheorems {
  import opened Options
  import opened Frames
  import opened LittleEndian
  import opened Subsequences
  import opened Pipeline
  import opened PipelineProofs

  /** The states some run from the start reaches. */
  ghost predicate Reachable(s: State) {
    exists moves :: Runs(Start(s.cfg), moves) && Final(Start(s.cfg), moves) == s
  }

  lemma ReachableInv(s: State)
    requires Reachable(s)
    ensures Inv(s)
  {
    hide Inv;
    var moves :| Runs(Start(s.cfg), moves) && Final(Start(s.cfg), moves) == s;
    StartInv(s.cfg);
    RunKeeps(Start(s.cfg), moves);
  }

  lemma {:induction false} RunThenMove(s: State, moves: seq<Move>, m: Move)
    requires Runs(s, moves) && Enabled(Final(s, moves), m)
    ensures Runs(s, moves + [m]) && Final(s, moves + [m]) == Next(Final(s, moves), m)
    decreases |moves|
  {
    hide Enabled, Next;
    if moves == [] {
      assert [m][1..] == [];
    } else {
      RunThenMove(Next(s, moves[0]), moves[1..], m);
      assert (moves + [m])[1..] == moves[1..] + [m];
    }
  }

  /** What a reachable state can do next leads to a reachable state. */
  lemma ReachableStep(s: State, m: Move)
    requires Reachable(s) && Enabled(s, m)
    ensures Reachable(Next(s, m)) && Next(s, m).cfg == s.cfg
  {
    var moves :| Runs(Start(s.cfg), moves) && Final(Start(s.cfg), moves) == s;
    RunThenMove(Start(s.cfg), moves, m);
  }

  lemma {:induction false} ReachableRun(s: State, moves: seq<Move>)
    requires Reachable(s) && Runs(s, moves)
    ensures Reachable(Final(s, moves)) && Final(s, moves).cfg == s.cfg
    decreases |moves|
  {
    hide Reachable, Enabled, Next;
    if moves != [] {
      ReachableStep(s, moves[0]);
      ReachableRun(Next(s, moves[0]), moves[1..]);
    }
  }

  // ---- Counts and order ----

  /**
   * The ledger: every descriptor received is malformed, dropped at the ingress queue or
   * accepted; every accepted frame is taken by the dispatcher or still queued; every frame taken
   * was accepted or counted as dropped by each of the two queues, up to the frame in flight.
   */
  lemma Ledger(s: State)
    requires Reachable(s)
    ensures var t, d := s.transport, s.dispatcher;
            && t.received == t.malformed + t.dropped + |t.accepted| + (if InFlight(t) then 1 else 0)
            && |t.accepted| == |d.taken| + |s.ingress.items|
            && 0 <= |d.taken| - d.dispatched <= 1
            && 0 <= |d.taken| - (|d.dspIn| + d.droppedDsp) <= 1
            && 0 <= |d.taken| - (|d.persistIn| + d.droppedPersist) <= 1
            && |d.dspIn| == |s.analysis.seen| + |s.dsp.items|
            && |d.persistIn| == |s.persister.taken| + |s.persist.items|
  {
    hide IsSubsequence, Descs, PersisterInv;
    ReachableInv(s);
  }

  lemma {:induction false} DescsSubsequence(a: seq<FramePtr>, b: seq<FramePtr>)
    requires IsSubsequence(a, b)
    ensures IsSubsequence(Descs(a), Descs(b))
    decreases |b|
  {
    if a != [] {
      var a0, b0, last := a[..|a| - 1], b[..|b| - 1], b[|b| - 1];
      assert b == b0 + [last];
      DescsAppend(b0, last);
      assert Descs(b0) + [] == Descs(b0);
      if a[|a| - 1] == last && IsSubsequence(a0, b0) {
        assert a == a0 + [last];
        DescsAppend(a0, last);
        assert Descs(a0) + [] == Descs(a0);
        DescsSubsequence(a0, b0);
        if last.Some? {
          KeepLast(Descs(a0), Descs(b0), last.value.desc);
        }
      } else {
        DescsSubsequence(a, b0);
        if last.Some? {
          DropLast(Descs(a), Descs(b0), last.value.desc);
        }
      }
    }
  }

  lemma AcceptedInStream(t: Transport)
    requires TransportInv(t)
    ensures IsSubsequence(Descs(t.accepted), t.descs)
  {
    if InFlight(t) {
      assert t.descs == Decided(t) + [t.descs[|t.descs| - 1]];
      DropLast(Descs(t.accepted), Decided(t), t.descs[|t.descs| - 1]);
    }
  }

  lemma TakenInStream(s: State)
    requires Inv(s)
    ensures IsSubsequence(Descs(s.dispatcher.taken), s.transport.descs)
  {
    var taken, accepted := s.dispatcher.taken, s.transport.accepted;
    AcceptedInStream(s.transport);
    Extends(taken, s.ingress.items);
    DescsSubsequence(taken, accepted);
    Transitive(Descs(taken), Descs(accepted), s.transport.descs);
  }

  lemma OfferedInTaken(d: Dispatcher, offered: seq<FramePtr>, accepted: seq<FramePtr>)
    requires IsSubsequence(accepted, offered)
    requires offered == d.taken || (d.taken != [] && offered == d.taken[..|d.taken| - 1])
    ensures IsSubsequence(accepted, d.taken)
  {
    if offered != d.taken {
      assert d.taken == offered + [d.taken[|d.taken| - 1]];
      DropLast(accepted, offered, d.taken[|d.taken| - 1]);
    }
  }

  /**
   * The frames that reach the analysis and the persist queue carry a subsequence of the
   * descriptors received, in order, and none of them is null.
   */
  lemma OrderKept(s: State)
    requires Reachable(s)
    ensures NoNulls(s.ingress.items) && NoNulls(s.dispatcher.dspIn) && NoNulls(s.dispatcher.persistIn)
    ensures IsSubsequence(Descs(s.dispatcher.dspIn), s.transport.descs)
    ensures IsSubsequence(Descs(s.dispatcher.persistIn), s.transport.descs)
  {
    hide IsSubsequence, Descs, PersisterInv, TransportInv;
    ReachableInv(s);
    var d := s.dispatcher;
    IngressHasNoNulls(s);
    TakenInStream(s);
    OfferedInTaken(d, OfferedDsp(d), d.dspIn);
    OfferedInTaken(d, OfferedPersist(d), d.persistIn);
    DescsSubsequence(d.dspIn, d.taken);
    DescsSubsequence(d.persistIn, d.taken);
    Transitive(Descs(d.dspIn), Descs(d.taken), s.transport.descs);
    Transitive(Descs(d.persistIn), Descs(d.taken), s.transport.descs);
  }

  lemma InspectedPrefix(s: State)
    requires Inv(s)
    ensures Descs(Inspected(s.dispatcher)) <= Descs(s.transport.accepted)
  {
    var d := s.dispatcher;
    hide IsSubsequence, PersisterInv, GapInv, FanOutInv, Descs;
    if d.pc.Inspecting? {
      assert d.taken == Inspected(d) + [d.pc.frame];
      assert s.transport.accepted == Inspected(d) + ([d.pc.frame] + s.ingress.items);
      DescsPrefix(Inspected(d), [d.pc.frame] + s.ingress.items);
    } else {
      DescsPrefix(d.taken, s.ingress.items);
    }
  }

  /**
   * The gap counter counts exactly the neighbours whose numbers are not successors modulo 2^32.
   * When the source numbers its descriptors consecutively, it never exceeds what was lost.
   */
  lemma GapsExplained(s: State)
    requires Reachable(s)
    ensures s.dispatcher.gaps == GapCount(Descs(Inspected(s.dispatcher)))
    ensures Consecutive(s.transport.descs) ==> s.dispatcher.gaps <= s.transport.malformed + s.transport.dropped
  {
    hide IsSubsequence, Descs, PersisterInv, FanOutInv, HandInv;
    ReachableInv(s);
    var t := s.transport;
    InspectedPrefix(s);
    GapMonotone(Descs(Inspected(s.dispatcher)), Descs(t.accepted));
    DescsLength(t.accepted);
    if Consecutive(t.descs) {
      GapsAreLosses(Descs(t.accepted), Decided(t));
    }
  }

  // ---- The file ----

  /** The samples of the frames the persist queue accepted, in order, as bytes. */
  function AcceptedStream(s: State): seq<byte> {
    StreamBytes(s.dispatcher.persistIn)
  }

  lemma StreamOfTaken(s: State)
    requires Inv(s)
    ensures AcceptedStream(s) == StreamBytes(s.persister.taken) + StreamBytes(s.persist.items)
  {
    hide TransportInv, DispatcherInv, PersisterInv;
    StreamConcat(s.persister.taken, s.persist.items);
  }

  lemma PrefixOfStream(file: seq<byte>, settled: seq<byte>, b: seq<byte>, sent: nat, held: seq<byte>, queued: seq<byte>)
    requires sent <= |b| && file == settled + b[..sent]
    ensures file <= (settled + b + held) + queued
  {
    assert (settled + b + held) + queued == file + (b[sent..] + held + queued);
  }

  /** At every moment of a run whose failed flushes wrote nothing, the file is a prefix of the stream. */
  lemma FileIsPrefix(s: State)
    requires Reachable(s) && s.persister.wasted == 0
    ensures s.persister.file <= AcceptedStream(s)
  {
    hide TransportInv, DispatcherInv, StreamBytes, Bytes;
    ReachableInv(s);
    StreamOfTaken(s);
    var p := s.persister;
    PrefixOfStream(p.file, p.settled, Bytes(p.cache), Sent(p), PtrBytes(Held'(p)), StreamBytes(s.persist.items));
  }

  /** When the persistence worker has closed the file, no frame waits anywhere on its way to it. */
  lemma NothingStranded(s: State)
    requires Reachable(s)
    ensures s.dispatcher.pc.DispatcherDone? ==> s.ingress.items == [] && s.dispatcher.taken == s.transport.accepted
    ensures s.persister.pc.Closed? ==>
              && s.dispatcher.pc.DispatcherDone? && s.persist.items == []
              && s.persister.taken == s.dispatcher.persistIn
  {
    hide TransportInv, DispatcherInv, PersisterInv;
    ReachableInv(s);
  }

  /**
   * After the stop, if the last flush succeeded, the file is the accepted stream exactly when no
   * failed flush had written anything; without a failed flush it always is.
   */
  lemma FileIsStream(s: State)
    requires Reachable(s) && s.persister.pc.Closed?
    ensures s.persister.cache == [] ==> (s.persister.file == AcceptedStream(s) <==> s.persister.wasted == 0)
    ensures s.persister.failures == 0 ==> s.persister.cache == [] && s.persister.file == AcceptedStream(s)
    ensures |s.persister.file| + 4 * |s.persister.cache| == |AcceptedStream(s)| + s.persister.wasted
  {
    hide TransportInv, DispatcherInv;
    ReachableInv(s);
    NothingStranded(s);
    StreamOfTaken(s);
    var p := s.persister;
    assert AcceptedStream(s) == p.settled + Bytes(p.cache) + PtrBytes(None);
    assert PtrBytes(None) == [];
    assert Bytes(p.cache)[..0] == [];
  }
}
