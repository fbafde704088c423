/** What every interleaving of the pipeline keeps: order, counts, file content, shutdown. */
module PipelineProofs {
  import opened Options
  import opened BoundedFifo
  import opened Frames
  import opened LittleEndian
  import opened Subsequences
  import opened Pipeline

  // ---- Descriptors and sequence numbers of a frame list ----

  function Descs(ptrs: seq<FramePtr>): seq<Descriptor>
  {
    if ptrs == [] then []
    else Descs(ptrs[..|ptrs| - 1]) + (if ptrs[|ptrs| - 1].Some? then [ptrs[|ptrs| - 1].value.desc] else [])
  }

  lemma DescsAppend(ptrs: seq<FramePtr>, p: FramePtr)
    ensures Descs(ptrs + [p]) == Descs(ptrs) + (if p.Some? then [p.value.desc] else [])
  {
    assert (ptrs + [p])[..|ptrs|] == ptrs;
  }

  predicate NoNulls(ptrs: seq<FramePtr>) {
    forall i | 0 <= i < |ptrs| :: ptrs[i].Some?
  }

  lemma {:induction false} DescsLength(ptrs: seq<FramePtr>)
    requires NoNulls(ptrs)
    ensures |Descs(ptrs)| == |ptrs|
  {
    if ptrs != [] {
      DescsLength(ptrs[..|ptrs| - 1]);
    }
  }

  lemma {:induction false} DescsPrefix(a: seq<FramePtr>, b: seq<FramePtr>)
    ensures Descs(a) <= Descs(a + b)
    decreases |b|
  {
    if b == [] {
      assert a + b == a;
    } else {
      DescsPrefix(a, b[..|b| - 1]);
      assert a + b == a + b[..|b| - 1] + [b[|b| - 1]];
      DescsAppend(a + b[..|b| - 1], b[|b| - 1]);
    }
  }

  /** Adjacent descriptors whose numbers are not successors modulo 2^32. */
  function GapCount(ds: seq<Descriptor>): nat
  {
    if |ds| < 2 then 0
    else GapCount(ds[..|ds| - 1])
         + (if ds[|ds| - 1].sequence != Successor(ds[|ds| - 2].sequence) then 1 else 0)
  }

  lemma GapAppend(ds: seq<Descriptor>, d: Descriptor)
    ensures GapCount(ds + [d])
         == GapCount(ds) + (if ds != [] && d.sequence != Successor(ds[|ds| - 1].sequence) then 1 else 0)
  {
    assert (ds + [d])[..|ds|] == ds;
  }

  lemma {:induction false} GapMonotone(a: seq<Descriptor>, b: seq<Descriptor>)
    requires a <= b
    ensures GapCount(a) <= GapCount(b)
    decreases |b|
  {
    if |a| < |b| {
      GapMonotone(a, b[..|b| - 1]);
    } else {
      assert a == b;
    }
  }

  /** A source that numbers its descriptors one after the other, modulo 2^32. */
  predicate Consecutive(ds: seq<Descriptor>) {
    forall i | 0 < i < |ds| :: ds[i].sequence == Successor(ds[i - 1].sequence)
  }

  /** Of a consecutive stream, a subsequence has no more gaps than it lacks elements. */
  lemma {:induction false} GapsAreLosses(a: seq<Descriptor>, b: seq<Descriptor>)
    requires IsSubsequence(a, b) && Consecutive(b)
    ensures GapCount(a) + |a| <= |b|
    decreases |b|
  {
    if a != [] {
      var a0, b0 := a[..|a| - 1], b[..|b| - 1];
      if a[|a| - 1] == b[|b| - 1] && IsSubsequence(a0, b0) {
        GapsAreLosses(a0, b0);
        if a0 != [] {
          var b1 := b0[..|b0| - 1];
          if IsSubsequence(a0, b1) {
            GapsAreLosses(a0, b1);
          } else {
            assert a0[|a0| - 1] == b0[|b0| - 1];
          }
        }
      } else {
        GapsAreLosses(a, b0);
      }
    }
  }

  // ---- Transport ----

  predicate InFlight(t: Transport) { t.pc.Received? || t.pc.Offering? }

  ghost predicate TransportInv(t: Transport) {
    && t.received == |t.descs|
    && t.received == t.malformed + t.dropped + |t.accepted| + (if InFlight(t) then 1 else 0)
    && NoNulls(t.accepted)
    && (t.pc.Received? ==> t.descs != [] && t.descs[|t.descs| - 1] == t.pc.desc)
    && (t.pc.Offering? ==>
          && t.descs != [] && t.pc.frame.Some? && t.pc.frame.value.desc == t.descs[|t.descs| - 1])
    && IsSubsequence(Descs(t.accepted), Decided(t))
  }

  /** The descriptors whose fate is decided: all but the one in flight. */
  function Decided(t: Transport): seq<Descriptor> {
    if InFlight(t) && t.descs != [] then t.descs[..|t.descs| - 1] else t.descs
  }

  lemma BuildKeeps(t: Transport, memory: seq<byte>)
    requires TransportInv(t) && t.pc.Received?
    ensures TransportInv(TransportNext(t, Build(memory)))
  {
    hide IsSubsequence, Descs;
    var ds := t.descs;
    assert ds == Decided(t) + [ds[|ds| - 1]];
    DropLast(Descs(t.accepted), Decided(t), ds[|ds| - 1]);
  }

  lemma OfferKeeps(t: Transport, answer: QueueAnswer)
    requires TransportInv(t) && t.pc.Offering? && (answer == Accepted(t.pc.frame) || answer.AnsweredFull?)
    ensures TransportInv(TransportNext(t, Offer(answer)))
  {
    hide IsSubsequence, Descs;
    var ds := t.descs;
    assert ds == Decided(t) + [ds[|ds| - 1]];
    DropLast(Descs(t.accepted), Decided(t), ds[|ds| - 1]);
    KeepLast(Descs(t.accepted), Decided(t), ds[|ds| - 1]);
    DescsAppend(t.accepted, t.pc.frame);
  }

  lemma TransportKeeps(cfg: Config, t: Transport, ingress: FrameQueue, m: TransportMove)
    requires TransportInv(t) && TransportEnabled(cfg, t, ingress, m)
    ensures TransportInv(TransportNext(t, m))
  {
    match m
    case Read(d) =>
      assert (t.descs + [d])[..|t.descs|] == t.descs;
    case Build(memory) => BuildKeeps(t, memory);
    case Offer(answer) => OfferKeeps(t, answer);
    case _ =>
  }

  // ---- Dispatcher ----

  /** The frames whose sequence number has been looked at. */
  function Inspected(d: Dispatcher): seq<FramePtr> {
    if d.pc.Inspecting? && d.taken != [] then d.taken[..|d.taken| - 1] else d.taken
  }

  function Held(d: Dispatcher): FramePtr {
    match d.pc
    case Inspecting(f) => f
    case OfferingDsp(f) => f
    case OfferingPersist(f) => f
    case _ => None
  }

  /** The frames already offered to the analysis queue, and to the persist queue. */
  function OfferedDsp(d: Dispatcher): seq<FramePtr> {
    if (d.pc.Inspecting? || d.pc.OfferingDsp?) && d.taken != [] then d.taken[..|d.taken| - 1] else d.taken
  }

  function OfferedPersist(d: Dispatcher): seq<FramePtr> {
    if (d.pc.Inspecting? || d.pc.OfferingDsp? || d.pc.OfferingPersist?) && d.taken != []
    then d.taken[..|d.taken| - 1] else d.taken
  }

  /** Where the frame in hand comes from, and that no queue ever held a null frame. */
  ghost predicate HandInv(d: Dispatcher) {
    NoNulls(d.taken) && NoNulls(d.dspIn) && NoNulls(d.persistIn) && HandIsLast(d)
  }

  /** The frame in hand is the last one taken. */
  predicate HandIsLast(d: Dispatcher) {
    && (d.pc.Inspecting? || d.pc.OfferingDsp? || d.pc.OfferingPersist? ==>
          d.taken != [] && d.taken[|d.taken| - 1] == d.pc.frame)
    && (d.pc.Counting? ==> d.taken != [])
  }

  /** Every frame offered to a queue was accepted or counted as dropped, in order. */
  ghost predicate Fanned(offered: seq<FramePtr>, accepted: seq<FramePtr>, dropped: nat) {
    |offered| == |accepted| + dropped && IsSubsequence(accepted, offered)
  }

  lemma FannedStep(offered: seq<FramePtr>, accepted: seq<FramePtr>, dropped: nat, frame: FramePtr)
    requires Fanned(offered, accepted, dropped)
    ensures Fanned(offered + [frame], accepted + [frame], dropped)
    ensures Fanned(offered + [frame], accepted, dropped + 1)
  {
    KeepLast(accepted, offered, frame);
    DropLast(accepted, offered, frame);
  }

  ghost predicate FanOutInv(d: Dispatcher) {
    && |d.taken| == d.dispatched + (if Held(d).Some? || d.pc.Counting? then 1 else 0)
    && Fanned(OfferedDsp(d), d.dspIn, d.droppedDsp)
    && Fanned(OfferedPersist(d), d.persistIn, d.droppedPersist)
  }

  /** The gap counter and the remembered number, for the descriptors looked at so far. */
  ghost predicate GapsCounted(ds: seq<Descriptor>, gaps: nat, haveLast: bool, last: uint32) {
    && gaps == GapCount(ds)
    && (haveLast <==> ds != [])
    && (haveLast ==> last == ds[|ds| - 1].sequence)
  }

  ghost predicate GapInv(d: Dispatcher) {
    GapsCounted(Descs(Inspected(d)), d.gaps, d.haveLast, d.lastSequence)
  }

  ghost predicate DispatcherInv(d: Dispatcher) {
    HandInv(d) && FanOutInv(d) && GapInv(d)
  }

  lemma HandKeeps(d: Dispatcher, ingress: FrameQueue, dsp: FrameQueue, persist: FrameQueue,
                  done: bool, m: DispatcherMove)
    requires HandInv(d) && DispatcherEnabled(d, ingress, dsp, persist, done, m) && NoNulls(ingress.items)
    ensures HandInv(DispatcherNext(d, m))
  {
  }

  /** Which move decides about the frame in hand: one for each of the three lists. */
  lemma ListsMove(d: Dispatcher, ingress: FrameQueue, dsp: FrameQueue, persist: FrameQueue,
                  done: bool, m: DispatcherMove)
    requires HandIsLast(d) && DispatcherEnabled(d, ingress, dsp, persist, done, m)
    requires m.Inspect? ==> d.pc.frame.Some?
    ensures var d' := DispatcherNext(d, m);
            && Inspected(d') == (if m.Inspect? then Inspected(d) + [d.pc.frame] else Inspected(d))
            && OfferedDsp(d') == (if m.OfferDsp? then OfferedDsp(d) + [d.pc.frame] else OfferedDsp(d))
            && OfferedPersist(d') == (if m.OfferPersist? then OfferedPersist(d) + [d.pc.frame] else OfferedPersist(d))
  {
    hide FifoAllows;
    if m.Pop? && m.answer.Delivered? {
      assert (d.taken + [m.answer.item])[..|d.taken|] == d.taken;
    } else if m.Inspect? || m.OfferDsp? || m.OfferPersist? {
      assert d.taken == d.taken[..|d.taken| - 1] + [d.pc.frame];
    }
  }

  lemma CountersMove(d: Dispatcher, ingress: FrameQueue, dsp: FrameQueue, persist: FrameQueue,
                     done: bool, m: DispatcherMove)
    requires HandInv(d) && DispatcherEnabled(d, ingress, dsp, persist, done, m) && NoNulls(ingress.items)
    ensures var d' := DispatcherNext(d, m);
            && (!m.Inspect? ==> (d'.gaps, d'.haveLast, d'.lastSequence) == (d.gaps, d.haveLast, d.lastSequence))
            && (m.Inspect? ==>
                  && var number := d.pc.frame.value.desc.sequence;
                  && d'.gaps == d.gaps + (if d.haveLast && number != Successor(d.lastSequence) then 1 else 0)
                  && d'.haveLast && d'.lastSequence == number)
            && (!m.OfferDsp? ==> (d'.dspIn, d'.droppedDsp) == (d.dspIn, d.droppedDsp))
            && (m.OfferDsp? ==>
                  || (d'.dspIn, d'.droppedDsp) == (d.dspIn + [d.pc.frame], d.droppedDsp)
                  || (d'.dspIn, d'.droppedDsp) == (d.dspIn, d.droppedDsp + 1))
            && (!m.OfferPersist? ==> (d'.persistIn, d'.droppedPersist) == (d.persistIn, d.droppedPersist))
            && (m.OfferPersist? ==>
                  || (d'.persistIn, d'.droppedPersist) == (d.persistIn + [d.pc.frame], d.droppedPersist)
                  || (d'.persistIn, d'.droppedPersist) == (d.persistIn, d.droppedPersist + 1))
            && |d'.taken| - d'.dispatched - (if Held(d').Some? || d'.pc.Counting? then 1 else 0)
            == |d.taken| - d.dispatched - (if Held(d).Some? || d.pc.Counting? then 1 else 0)
  {
  }

  lemma FanOutKeeps(d: Dispatcher, ingress: FrameQueue, dsp: FrameQueue, persist: FrameQueue,
                    done: bool, m: DispatcherMove)
    requires HandInv(d) && FanOutInv(d)
    requires DispatcherEnabled(d, ingress, dsp, persist, done, m) && NoNulls(ingress.items)
    ensures FanOutInv(DispatcherNext(d, m))
  {
    ListsMove(d, ingress, dsp, persist, done, m);
    CountersMove(d, ingress, dsp, persist, done, m);
    if m.OfferDsp? {
      FannedStep(OfferedDsp(d), d.dspIn, d.droppedDsp, d.pc.frame);
    } else if m.OfferPersist? {
      FannedStep(OfferedPersist(d), d.persistIn, d.droppedPersist, d.pc.frame);
    }
  }

  lemma GapsStep(frames: seq<FramePtr>, gaps: nat, haveLast: bool, last: uint32, frame: FramePtr)
    requires GapsCounted(Descs(frames), gaps, haveLast, last) && frame.Some?
    ensures var number := frame.value.desc.sequence;
            GapsCounted(Descs(frames + [frame]),
                        gaps + (if haveLast && number != Successor(last) then 1 else 0), true, number)
  {
    DescsAppend(frames, frame);
    GapAppend(Descs(frames), frame.value.desc);
  }

  lemma GapKeeps(d: Dispatcher, ingress: FrameQueue, dsp: FrameQueue, persist: FrameQueue,
                 done: bool, m: DispatcherMove)
    requires HandInv(d) && GapInv(d)
    requires DispatcherEnabled(d, ingress, dsp, persist, done, m) && NoNulls(ingress.items)
    ensures GapInv(DispatcherNext(d, m))
  {
    ListsMove(d, ingress, dsp, persist, done, m);
    CountersMove(d, ingress, dsp, persist, done, m);
    if m.Inspect? {
      GapsStep(Inspected(d), d.gaps, d.haveLast, d.lastSequence, d.pc.frame);
    }
  }

  lemma DispatcherKeeps(d: Dispatcher, ingress: FrameQueue, dsp: FrameQueue, persist: FrameQueue,
                        done: bool, m: DispatcherMove)
    requires DispatcherInv(d) && DispatcherEnabled(d, ingress, dsp, persist, done, m)
    requires NoNulls(ingress.items)
    ensures DispatcherInv(DispatcherNext(d, m))
  {
    HandKeeps(d, ingress, dsp, persist, done, m);
    FanOutKeeps(d, ingress, dsp, persist, done, m);
    GapKeeps(d, ingress, dsp, persist, done, m);
  }

  // ---- Persistence ----

  function Held'(p: Persister): FramePtr {
    if p.pc.Appending? then p.pc.frame else None
  }

  function Sent(p: Persister): nat {
    if p.pc.Flushing? then p.pc.sent else 0
  }

  /**
   * The bytes of the frames taken are those that left the cache, those in it and those of the
   * frame in hand.
   */
  ghost predicate StreamInv(p: Persister) {
    StreamBytes(p.taken) == p.settled + Bytes(p.cache) + PtrBytes(Held'(p))
  }

  /**
   * The file has what left the cache, what this flush has written and what failed flushes wrote;
   * without such waste it is a prefix of the stream.
   */
  ghost predicate FileInv(p: Persister) {
    && Sent(p) <= |Bytes(p.cache)|
    && |p.file| == |p.settled| + Sent(p) + p.wasted
    && (p.wasted == 0 ==> p.file == p.settled + Bytes(p.cache)[..Sent(p)])
    && (p.failures == 0 ==> p.wasted == 0 && (p.pc.Closed? ==> p.cache == []))
  }

  predicate ShapeInv(p: Persister) {
    && (p.pc.Flushing? ==> p.cache != [])
    && (p.pc.Taking? ==> !p.pc.stage.AtClose?)
    && (p.pc.Appending? ==> !p.pc.stage.AtClose?)
  }

  ghost predicate PersisterInv(p: Persister) {
    StreamInv(p) && FileInv(p) && ShapeInv(p)
  }

  lemma AppendSamples(settled: seq<byte>, cache: seq<int32>, samples: seq<int32>)
    ensures settled + Bytes(cache) + Bytes(samples) == settled + Bytes(cache + samples) + []
  {
    BytesConcat(cache, samples);
  }

  /** Appending changes the cache and nothing else that the invariants speak of. */
  lemma AppendFields(cfg: Config, p: Persister)
    requires p.pc.Appending?
    ensures var a := AppendFrame(cfg, p, p.pc.frame, p.pc.stage);
            && a.cache == (if p.pc.frame.None? then p.cache else p.cache + p.pc.frame.value.samples)
            && a.taken == p.taken && a.settled == p.settled && a.file == p.file
            && a.wasted == p.wasted && a.failures == p.failures
            && Sent(a) == 0 && Held'(a) == None && ShapeInv(a)
            && (a.pc.Closed? ==> p.pc.stage.AtClose?)
  {
  }

  lemma AppendKeeps(cfg: Config, p: Persister)
    requires PersisterInv(p) && p.pc.Appending?
    ensures PersisterInv(AppendFrame(cfg, p, p.pc.frame, p.pc.stage))
  {
    AppendFields(cfg, p);
    if p.pc.frame.Some? {
      AppendSamples(p.settled, p.cache, p.pc.frame.value.samples);
    }
  }

  lemma WriteExtends(file: seq<byte>, settled: seq<byte>, b: seq<byte>, sent: nat, n: nat)
    requires sent + n <= |b| && file == settled + b[..sent]
    ensures file + b[sent..sent + n] == settled + b[..sent + n]
  {
    assert b[..sent + n] == b[..sent] + b[sent..sent + n];
  }

  lemma WriteKeeps(cfg: Config, p: Persister, n: nat)
    requires PersisterInv(p) && p.pc.Flushing? && n <= 4 * |p.cache| - p.pc.sent
    ensures PersisterInv(PersisterNext(cfg, p, Write(n)))
  {
    if p.wasted == 0 {
      WriteExtends(p.file, p.settled, Bytes(p.cache), p.pc.sent, n);
    }
    hide Bytes, StreamBytes;
  }

  lemma FailKeeps(p: Persister)
    requires PersisterInv(p) && p.pc.Flushing?
    ensures PersisterInv(FailFlush(p))
  {
    assert p.settled + Bytes(p.cache)[..0] == p.settled;
  }

  lemma TakeKeeps(cfg: Config, p: Persister, answer: QueueAnswer)
    requires PersisterInv(p) && p.pc.Taking? && (answer.Delivered? || answer.AnsweredEmpty?)
    ensures PersisterInv(PersisterNext(cfg, p, Take(answer)))
  {
    if answer.Delivered? {
      TakeFrame(p.taken, answer.item, p.settled + Bytes(p.cache));
    }
  }

  lemma TakeFrame(taken: seq<FramePtr>, frame: FramePtr, before: seq<byte>)
    requires StreamBytes(taken) == before + []
    ensures StreamBytes(taken + [frame]) == before + PtrBytes(frame)
  {
    StreamConcat(taken, [frame]);
    StreamSingle(frame);
  }

  lemma FinishKeeps(cfg: Config, p: Persister, synced: bool)
    requires PersisterInv(p) && p.pc.Flushing? && p.pc.sent == 4 * |p.cache|
    ensures PersisterInv(PersisterNext(cfg, p, FinishFlush(synced)))
  {
    if cfg.fsyncOnFlush && !synced {
      FailKeeps(p);
    } else {
      var b := Bytes(p.cache);
      assert b[..|b|] == b;
      assert p.settled + b + [] + [] == p.settled + b + [];
    }
  }

  lemma PersisterKeeps(cfg: Config, p: Persister, persist: FrameQueue, done: bool, m: PersisterMove)
    requires PersisterInv(p) && PersisterEnabled(p, persist, done, m)
    ensures PersisterInv(PersisterNext(cfg, p, m))
  {
    match m
    case Take(answer) => TakeKeeps(cfg, p, answer);
    case Append => AppendKeeps(cfg, p);
    case Write(n) => WriteKeeps(cfg, p, n);
    case WriteFails => FailKeeps(p);
    case FinishFlush(synced) => FinishKeeps(cfg, p, synced);
    case _ =>
  }

  // ---- The whole system ----

  function Phase(m: Main): nat {
    match m
    case Serving => 0
    case StoppingTransport => 1
    case StoppingDispatcher => 2
    case StoppingAnalysis => 3
    case StoppingPersister => 4
    case Draining => 5
  }

  /** Every queue holds what went in and has not come out, in order, within its capacity. */
  ghost predicate Links(s: State) {
    && s.transport.accepted == s.dispatcher.taken + s.ingress.items
    && s.dispatcher.dspIn == s.analysis.seen + s.dsp.items
    && s.dispatcher.persistIn == s.persister.taken + s.persist.items
    && |s.ingress.items| <= s.ingress.capacity == s.cfg.ingressCapacity
    && |s.dsp.items| <= s.dsp.capacity == s.cfg.ringCapacity
    && |s.persist.items| <= s.persist.capacity == s.cfg.ringCapacity
  }

  /** The stage the persistence worker is in, if its pc names one. */
  predicate InMainThread(p: Persister) {
    match p.pc
    case Taking(stage) => !stage.InLoop?
    case Appending(_, stage) => !stage.InLoop?
    case Flushing(_, stage) => !stage.InLoop?
    case Closed => true
    case _ => false
  }

  predicate Drained(p: Persister) {
    p.pc.Closed? || (p.pc.Flushing? && p.pc.stage.AtClose?)
  }

  /** Each stage stops after the one before it is done, and drains what that one left. */
  ghost predicate StopOrder(s: State) {
    && (Phase(s.main) >= 2 ==> s.transport.pc.TransportDone?)
    && (s.dispatcher.running <==> Phase(s.main) < 2)
    && (Phase(s.main) >= 3 ==> s.dispatcher.pc.DispatcherDone?)
    && (s.dispatcher.pc.DispatcherDone? ==> Phase(s.main) >= 2 && s.ingress.items == [])
    && (Phase(s.main) >= 4 ==> !s.persister.running)
    && (InMainThread(s.persister) <==> Phase(s.main) == 5)
    && (Drained(s.persister) ==> s.persist.items == [])
  }

  ghost predicate Inv(s: State) {
    && TransportInv(s.transport) && DispatcherInv(s.dispatcher) && PersisterInv(s.persister)
    && Links(s) && StopOrder(s)
  }

  lemma StartInv(cfg: Config)
    ensures Inv(Start(cfg))
  {
  }

  lemma IngressHasNoNulls(s: State)
    requires Inv(s)
    ensures NoNulls(s.ingress.items)
  {
    hide DispatcherInv, PersisterInv;
    var n := |s.dispatcher.taken|;
    forall i | 0 <= i < |s.ingress.items|
      ensures s.ingress.items[i].Some?
    {
      assert s.ingress.items[i] == s.transport.accepted[n + i];
    }
  }

  lemma ByTransportKeeps(s: State, m: TransportMove)
    requires Inv(s) && Enabled(s, ByTransport(m))
    ensures Inv(Next(s, ByTransport(m)))
  {
    hide TransportInv, DispatcherInv, PersisterInv;
    TransportKeeps(s.cfg, s.transport, s.ingress, m);
    assert Links(Next(s, ByTransport(m)));
  }

  lemma ByDispatcherKeeps(s: State, m: DispatcherMove)
    requires Inv(s) && Enabled(s, ByDispatcher(m))
    ensures Inv(Next(s, ByDispatcher(m)))
  {
    hide TransportInv, DispatcherInv, PersisterInv;
    IngressHasNoNulls(s);
    DispatcherKeeps(s.dispatcher, s.ingress, s.dsp, s.persist, s.transport.pc.TransportDone?, m);
    assert Links(Next(s, ByDispatcher(m)));
    assert StopOrder(Next(s, ByDispatcher(m)));
  }

  lemma ByPersisterKeeps(s: State, m: PersisterMove)
    requires Inv(s) && Enabled(s, ByPersister(m))
    ensures Inv(Next(s, ByPersister(m)))
  {
    hide TransportInv, DispatcherInv, StreamInv, FileInv;
    PersisterKeeps(s.cfg, s.persister, s.persist, s.dispatcher.pc.DispatcherDone?, m);
    assert Links(Next(s, ByPersister(m)));
    assert StopOrder(Next(s, ByPersister(m)));
  }

  lemma TransportStopFlag(t: Transport)
    requires TransportInv(t)
    ensures TransportInv(t.(running := false))
  {
    assert Decided(t.(running := false)) == Decided(t);
  }

  lemma DispatcherStopFlag(d: Dispatcher)
    requires DispatcherInv(d)
    ensures DispatcherInv(d.(running := false))
  {
    var d' := d.(running := false);
    assert Inspected(d') == Inspected(d) && OfferedDsp(d') == OfferedDsp(d) && OfferedPersist(d') == OfferedPersist(d);
  }

  lemma PersisterStopFlag(p: Persister)
    requires PersisterInv(p)
    ensures PersisterInv(p.(running := false))
    ensures p.pc.LoopDone? ==> PersisterInv(p.(pc := Taking(InDrain)))
  {
  }

  lemma ByMainKeeps(s: State, m: MainMove)
    requires Inv(s) && Enabled(s, ByMain(m))
    ensures Inv(Next(s, ByMain(m)))
  {
    hide TransportInv, DispatcherInv, PersisterInv;
    TransportStopFlag(s.transport);
    DispatcherStopFlag(s.dispatcher);
    PersisterStopFlag(s.persister);
    assert StopOrder(Next(s, ByMain(m)));
  }

  lemma MoveKeeps(s: State, m: Move)
    requires Inv(s) && Enabled(s, m)
    ensures Inv(Next(s, m))
  {
    hide TransportInv, DispatcherInv, PersisterInv;
    match m
    case ByTransport(tm) => ByTransportKeeps(s, tm);
    case ByDispatcher(dm) => ByDispatcherKeeps(s, dm);
    case ByAnalysis(am) =>
      assert Links(Next(s, m));
    case ByPersister(pm) => ByPersisterKeeps(s, pm);
    case ByMain(mm) => ByMainKeeps(s, mm);
  }

  lemma {:induction false} RunKeeps(s: State, moves: seq<Move>)
    requires Inv(s) && Runs(s, moves)
    ensures Inv(Final(s, moves)) && Final(s, moves).cfg == s.cfg
    decreases |moves|
  {
    hide Inv;
    if moves != [] {
      MoveKeeps(s, moves[0]);
      RunKeeps(Next(s, moves[0]), moves[1..]);
    }
  }
}
