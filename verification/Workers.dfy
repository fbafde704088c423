/**
 * The pipeline's worker objects. What other threads and the operating system do between two
 * statements of a worker is left open: each loop holds for whatever they do, as long as they
 * delay it only finitely often.
 */
module Workers {
  import opened Options
  import opened Frames
  import opened LittleEndian
  import opened Subsequences
  import opened BoundedFifo
  import opened RingBuffer
  import opened Pipeline
  import opened PipelineProofs
  import opened PipelineFlushes

  type RingOfFrames = SpscRingBuffer<FramePtr>

  // ---- Persistence ----

  /** A choice nobody in the program makes. */
  method Any() returns (b: bool) {
    b := *;
  }

  /** What one write call can answer. */
  datatype WriteResult = Wrote(count: nat) | Eintr | HardError

  /** Taking a frame and appending its samples keeps the worker's invariant. */
  lemma TakenIntoCache(p: Persister, frame: FramePtr)
    requires PersisterInv(p) && p.pc.TestingLoop?
    ensures PersisterInv(p.(taken := p.taken + [frame],
                            cache := if frame.None? then p.cache else p.cache + frame.value.samples))
  {
    hide StreamBytes, Bytes;
    TakeFrame(p.taken, frame, p.settled + Bytes(p.cache));
    if frame.Some? {
      AppendSamples(p.settled, p.cache, frame.value.samples);
    }
  }

  /** A flush that fails after some bytes keeps the invariant: the bytes count as wasted. */
  lemma FlushFails(p: Persister, sent: nat, file: seq<byte>)
    requires PersisterInv(p) && p.pc.TestingLoop? && sent <= |Bytes(p.cache)|
    requires file == p.file + Bytes(p.cache)[..sent]
    ensures PersisterInv(p.(file := file, failures := p.failures + 1, wasted := p.wasted + sent))
  {
    assert p.settled + Bytes(p.cache)[..0] == p.settled;
  }

  /** A flush that succeeds keeps it: the cache has become part of the settled stream. */
  lemma FlushSucceeds(p: Persister, file: seq<byte>)
    requires PersisterInv(p) && p.pc.TestingLoop?
    ensures file == p.file + Bytes(p.cache) ==>
              PersisterInv(p.(file := file, cache := [], settled := p.settled + Bytes(p.cache)))
  {
    var b := Bytes(p.cache);
    assert p.settled + b[..0] == p.settled;
    assert p.settled + b + [] == (p.settled + b) + Bytes([]) + [];
    assert (p.settled + b) + Bytes([])[..0] == p.settled + b;
  }

  class PersistenceWorker {
    const config: Config
    const queue: RingOfFrames
    var outputFd: int
    var running: bool
    var writeCache: seq<int32>
    /** The content of the file behind outputFd. */
    var file: seq<byte>
    ghost var failures: nat
    ghost var wasted: nat
    ghost var settled: seq<byte>
    ghost var taken: seq<FramePtr>
    /** How often the system refused a write or a synchronisation, and what it has synchronised. */
    ghost var refusals: nat
    ghost var durable: seq<byte>

    /** The worker's place in the pipeline model between two rounds of its loop. */
    ghost function Model(): Persister
      reads this
    {
      Persister(TestingLoop, running, writeCache, file, failures, wasted, settled, taken)
    }

    ghost predicate Valid()
      reads this, queue, queue.buffer
    {
      && queue.Valid() && PersisterInv(Model()) && failures == refusals
      && (config.fsyncOnFlush && failures == 0 ==> durable == file)
    }

    /** start() with a file that could be opened and truncated. */
    constructor (config: Config, queue: RingOfFrames, fd: nat)
      requires queue.Valid()
      ensures Valid() && this.config == config && this.queue == queue
      ensures outputFd == fd && running && taken == [] && file == [] && failures == 0
    {
      this.config, this.queue := config, queue;
      outputFd, running, writeCache, file := fd, true, [], [];
      failures, wasted, settled, taken := 0, 0, [], [];
      refusals, durable := 0, [];
    }

    /** The system's answer to a write; when it may not stall it writes something or refuses. */
    method OsWrite(bytes: seq<byte>, mayStall: bool) returns (r: WriteResult)
      requires bytes != []
      modifies this`file, this`refusals
      ensures file == old(file) + (if r.Wrote? && r.count <= |bytes| then bytes[..r.count] else [])
      ensures refusals == old(refusals) + if r.HardError? then 1 else 0
      ensures r.Wrote? ==> r.count <= |bytes|
      ensures !mayStall ==> r.HardError? || (r.Wrote? && r.count > 0)
    {
      var stalls := Any();
      var interrupted := Any();
      var fails := Any();
      if mayStall && stalls {
        r := if interrupted then Eintr else Wrote(0);
      } else if fails {
        refusals := refusals + 1;
        r := HardError;
      } else {
        var n :| 0 < n <= |bytes|;
        file := file + bytes[..n];
        r := Wrote(n);
      }
    }

    /** The system's answer to fdatasync. */
    method OsSync() returns (synced: bool)
      modifies this`durable, this`refusals
      ensures durable == if synced then file else old(durable)
      ensures refusals == old(refusals) + if synced then 0 else 1
    {
      synced := Any();
      if synced {
        durable := file;
      } else {
        refusals := refusals + 1;
      }
    }

    method AppendBlock(frame: Frame)
      modifies this`writeCache
      ensures writeCache == old(writeCache) + frame.samples
    {
      writeCache := writeCache + frame.samples;
    }

    /**
     * Writes the cache until the system has taken all of it. On success the file has grown by
     * exactly the cache, which is empty; on failure by some prefix of it, and the cache stays.
     */
    method FlushCache(patience: nat) returns (ok: bool)
      requires Valid()
      modifies this`file, this`writeCache, this`failures, this`wasted, this`settled, this`refusals, this`durable
      ensures Valid()
      ensures ok <==> refusals == old(refusals)
      ensures ok && outputFd >= 0 && old(writeCache) != [] && config.fsyncOnFlush ==> durable == file
      ensures ok && outputFd >= 0 ==>
                && writeCache == [] && file == old(file) + Bytes(old(writeCache))
                && failures == old(failures)
      ensures ok && outputFd < 0 ==> writeCache == old(writeCache) && file == old(file) && failures == old(failures)
      ensures !ok ==>
                && writeCache == old(writeCache) && failures == old(failures) + 1
                && old(file) <= file <= old(file) + Bytes(writeCache)
                && wasted == old(wasted) + |file| - |old(file)|
    {
      hide Bytes, StreamBytes, SpscRingBuffer.Valid;
      if outputFd < 0 || writeCache == [] {
        return true;
      }
      var bytes := Bytes(writeCache);
      ghost var before := Model();
      var sent := WriteAll(bytes, patience);
      FlushFails(before, sent, file);
      FlushSucceeds(before, file);
      hide PersisterInv;
      if sent < |bytes| {
        failures, wasted := failures + 1, wasted + sent;
        return false;
      }
      assert bytes[..sent] == bytes;
      if config.fsyncOnFlush {
        var synced := OsSync();
        if !synced {
          failures, wasted := failures + 1, wasted + sent;
          return false;
        }
      }
      settled := settled + bytes;
      writeCache := [];
      return true;
    }

    /** The write loop: all bytes unless the system fails for good, and then how many. */
    method WriteAll(bytes: seq<byte>, patience: nat) returns (sent: nat)
      modifies this`file, this`refusals
      ensures sent <= |bytes| && file == old(file) + bytes[..sent]
      ensures refusals == old(refusals) + if sent < |bytes| then 1 else 0
    {
      var remaining: nat := |bytes|;
      var left: nat := patience;
      while remaining > 0
        invariant remaining <= |bytes| && refusals == old(refusals)
        invariant file == old(file) + bytes[..|bytes| - remaining]
        decreases remaining, left
      {
        sent := |bytes| - remaining;
        var written := OsWrite(bytes[sent..], left > 0);
        if left > 0 {
          left := left - 1;
        }
        match written {
          case Eintr =>
          case HardError =>
            return sent;
          case Wrote(n) =>
            assert bytes[..sent + n] == bytes[..sent] + bytes[sent..][..n];
            remaining := remaining - n;
        }
      }
      return |bytes|;
    }

    /** What the dispatcher and the main thread may do between two statements of the loop. */
    method OtherThreads(mayAct: bool)
      requires Valid()
      modifies this`running, queue`head, queue`contents, queue.buffer
      ensures Valid() && (running ==> old(running))
      ensures old(queue.contents) <= queue.contents
      ensures !mayAct ==> !running && queue.contents == old(queue.contents)
    {
      if mayAct {
        var pushes := Any();
        var keepsRunning := Any();
        if pushes {
          var frame: FramePtr := *;
          var _ := queue.Push(frame);
        }
        running := running && keepsRunning;
      } else {
        running := false;
      }
    }

    /** Moves the next frame, if there is one, from the queue into the cache. */
    method TakeOne() returns (item: Option<FramePtr>)
      requires Valid()
      modifies this`writeCache, this`taken, queue, queue.buffer
      ensures Valid()
      ensures old(queue.contents) == [] ==> item == None && taken == old(taken) && queue.contents == []
      ensures old(queue.contents) != [] ==>
                && item == Some(old(queue.contents)[0]) && queue.contents == old(queue.contents)[1..]
                && taken == old(taken) + [item.value]
      ensures writeCache == old(writeCache)
                            + if item.Some? && item.value.Some? then item.value.value.samples else []
    {
      item := queue.Pop();
      if item.Some? {
        TakenIntoCache(Model(), item.value);
        hide PersisterInv, StreamBytes, Bytes;
        taken := taken + [item.value];
        if item.value.Some? {
          AppendBlock(item.value.value);
        }
      }
    }

    /** Flushes once the cache has reached the threshold, and not before. */
    method FlushWhenFull(patience: nat) returns (ok: bool)
      requires Valid() && outputFd >= 0
      modifies this`file, this`writeCache, this`failures, this`wasted, this`settled, this`refusals, this`durable
      ensures Valid() && failures == old(failures) + (if ok then 0 else 1)
      ensures ok <==> refusals == old(refusals)
      ensures 4 * |old(writeCache)| < config.flushBytes ==> ok && writeCache == old(writeCache) && file == old(file)
      ensures 4 * |old(writeCache)| >= config.flushBytes ==>
                if ok then writeCache == [] && file == old(file) + Bytes(old(writeCache))
                else writeCache == old(writeCache) && old(file) <= file <= old(file) + Bytes(writeCache)
    {
      hide PersisterInv, SpscRingBuffer.Valid, Bytes;
      ok := true;
      if 4 * |writeCache| >= config.flushBytes {
        ok := FlushCache(patience);
      }
    }

    /** The thread: ends when asked to stop and nothing is left, or on a failed flush. */
    method PersistLoop(patience: nat)
      requires Valid() && outputFd >= 0 && BelowThreshold(config, Model())
      modifies this`running, this`writeCache, this`file, this`failures, this`wasted, this`settled, this`taken
      modifies this`refusals, this`durable
      modifies queue, queue.buffer
      ensures Valid() && outputFd >= 0 && !running
      ensures if failures == old(failures) then queue.contents == [] && BelowThreshold(config, Model())
              else failures == old(failures) + 1 && 4 * |writeCache| >= config.flushBytes
      ensures old(taken) <= taken
    {
      hide PersisterInv, SpscRingBuffer.Valid;
      var left: nat := patience;
      while true
        invariant Valid() && failures == old(failures) && old(taken) <= taken && BelowThreshold(config, Model())
        decreases left, |queue.contents|
      {
        OtherThreads(left > 0);
        if left > 0 {
          left := left - 1;
        }
        var size := queue.Size();
        if !(running || size > 0) {
          break;
        }
        var item := TakeOne();
        if item.None? || item.value.None? {
          continue;
        }
        var flushed := FlushWhenFull(left);
        if !flushed {
          PersisterStopFlag(Model());
          running := false;
          break;
        }
      }
    }

    /** After the join: empties the queue, flushing whenever the threshold is reached. */
    method DrainPendingBlocks(patience: nat) returns (ok: bool)
      requires Valid() && outputFd >= 0
      modifies this`writeCache, this`file, this`failures, this`wasted, this`settled, this`taken
      modifies this`refusals, this`durable
      modifies queue, queue.buffer
      ensures Valid() && queue.contents == [] && taken == old(taken) + old(queue.contents)
      ensures ok <==> failures == old(failures)
    {
      hide PersisterInv, SpscRingBuffer.Valid;
      ok := true;
      while true
        invariant Valid() && taken + queue.contents == old(taken) + old(queue.contents)
        invariant failures >= old(failures) && (ok <==> failures == old(failures))
        decreases |queue.contents|
      {
        var item := TakeOne();
        if item.None? {
          break;
        }
        if item.value.None? {
          continue;
        }
        var flushed := FlushWhenFull(patience);
        ok := flushed && ok;
      }
    }

    /**
     * stop() after the thread has been joined. Every frame the queue held has been taken; without
     * a failed flush in the worker's whole life the file is exactly their bytes, in order, and
     * synchronised if the configuration asks for it. Flushes fail only when the system refuses.
     */
    method Stop(patience: nat)
      requires Valid() && outputFd >= 0
      modifies this`running, this`writeCache, this`file, this`failures, this`wasted, this`settled, this`taken
      modifies this`outputFd, this`refusals, this`durable
      modifies queue, queue.buffer
      ensures Valid() && outputFd == -1 && !running
      ensures queue.contents == [] && taken == old(taken) + old(queue.contents)
      ensures failures == refusals && (failures == 0 ==> file == StreamBytes(taken))
      ensures failures == 0 && config.fsyncOnFlush ==> durable == file
      ensures writeCache == [] ==> (file == StreamBytes(taken) <==> wasted == 0)
    {
      running := false;
      var _ := DrainPendingBlocks(patience);
      var flushed := FlushCache(patience);
      assert Bytes(writeCache)[..0] == [];
      outputFd := -1;
    }
  }

  // ---- Dispatcher ----

  lemma EntersPop(d: Dispatcher)
    requires DispatcherInv(d) && d.pc.Testing?
    ensures DispatcherInv(d.(pc := Popping))
  {
    var d' := d.(pc := Popping);
    assert Inspected(d') == Inspected(d) && OfferedDsp(d') == OfferedDsp(d) && OfferedPersist(d') == OfferedPersist(d);
  }

  /** Between two rounds nothing is in flight. */
  lemma AtRest(d: Dispatcher)
    requires DispatcherInv(d) && d.pc.Testing?
    ensures |d.taken| == d.dispatched == |d.dspIn| + d.droppedDsp == |d.persistIn| + d.droppedPersist
  {
    hide IsSubsequence, Descs;
  }

  /** What one queue's contents and capacity are to the pipeline model. */
  ghost function AsFifo(q: RingOfFrames): FrameQueue
    requires q.Valid()
    reads q, q.buffer
  {
    Fifo(q.contents, q.slots - 1)
  }

  class FrameDispatcher {
    const ingress: RingOfFrames
    const dsp: RingOfFrames
    const persist: RingOfFrames
    var running: bool
    var lastSequence: uint32
    var haveLastSequence: bool
    var dispatchedFrames: nat
    var droppedForDsp: nat
    var droppedForPersist: nat
    var sequenceGap: nat
    ghost var accepted: seq<FramePtr>
    ghost var taken: seq<FramePtr>
    ghost var dspIn: seq<FramePtr>
    ghost var persistIn: seq<FramePtr>

    /** The dispatcher's place in the pipeline model between two rounds of its loop. */
    ghost function Model(): Dispatcher
      reads this
    {
      Dispatcher(Testing, running, haveLastSequence, lastSequence,
                 dispatchedFrames, droppedForDsp, droppedForPersist, sequenceGap, taken, dspIn, persistIn)
    }

    ghost predicate QueuesApart() {
      && ingress != dsp && ingress != persist && dsp != persist
      && ingress.buffer != dsp.buffer && ingress.buffer != persist.buffer && dsp.buffer != persist.buffer
    }

    ghost predicate Valid()
      reads this, ingress, ingress.buffer, dsp, dsp.buffer, persist, persist.buffer
    {
      && QueuesApart() && ingress.Valid() && dsp.Valid() && persist.Valid()
      && DispatcherInv(Model())
      && NoNulls(ingress.contents) && accepted == taken + ingress.contents
    }

    constructor (ingress: RingOfFrames, dsp: RingOfFrames, persist: RingOfFrames)
      requires ingress != dsp && ingress != persist && dsp != persist
      requires ingress.buffer != dsp.buffer && ingress.buffer != persist.buffer && dsp.buffer != persist.buffer
      requires ingress.Valid() && dsp.Valid() && persist.Valid() && ingress.contents == []
      ensures Valid() && running && taken == [] && this.ingress == ingress && this.dsp == dsp && this.persist == persist
    {
      this.ingress, this.dsp, this.persist := ingress, dsp, persist;
      running, lastSequence, haveLastSequence := true, 0, false;
      dispatchedFrames, droppedForDsp, droppedForPersist, sequenceGap := 0, 0, 0, 0;
      accepted, taken, dspIn, persistIn := [], [], [], [];
    }

    /** The transport may enqueue frames. */
    method Produce()
      requires Valid()
      modifies this`accepted, ingress, ingress.buffer
      ensures Valid() && old(accepted) <= accepted && old(ingress.contents) <= ingress.contents
    {
      hide DispatcherInv, SpscRingBuffer.Valid;
      var pushes := Any();
      if pushes {
        var frame: Frame := *;
        var pushed := ingress.Push(Some(frame));
        if pushed {
          accepted := accepted + [Some(frame)];
        }
      }
    }

    /** The two workers may take frames from their queues. */
    method Consume()
      requires Valid()
      modifies dsp, dsp.buffer, persist, persist.buffer
      ensures Valid()
    {
      hide DispatcherInv, SpscRingBuffer.Valid;
      var analyses := Any();
      if analyses {
        var _ := dsp.Pop();
      }
      var persists := Any();
      if persists {
        var _ := persist.Pop();
      }
    }

    /** Transport, consumers and main thread between two statements: new frames in, old frames out. */
    method OtherThreads(mayAct: bool)
      requires Valid()
      modifies this`running, this`accepted, ingress, ingress.buffer, dsp, dsp.buffer, persist, persist.buffer
      ensures Valid() && (running ==> old(running)) && old(accepted) <= accepted
      ensures old(ingress.contents) <= ingress.contents
      ensures !mayAct ==> !running && ingress.contents == old(ingress.contents) && accepted == old(accepted)
    {
      hide DispatcherInv, SpscRingBuffer.Valid;
      var keepsRunning := Any();
      if mayAct {
        Produce();
        Consume();
      }
      DispatcherStopFlag(Model());
      if !mayAct || !keepsRunning {
        running := false;
      }
    }

    /** Compares the number of the frame in hand with the one before. */
    method CheckSequence(item: FramePtr)
      requires item.Some? && DispatcherInv(Model().(pc := Inspecting(item)))
      modifies this`lastSequence, this`haveLastSequence, this`sequenceGap
      ensures DispatcherInv(Model().(pc := OfferingDsp(item)))
      ensures lastSequence == item.value.desc.sequence && haveLastSequence
      ensures var next := if old(lastSequence) == 0xFFFF_FFFF then 0 else old(lastSequence) + 1;
              var gap := old(haveLastSequence) && item.value.desc.sequence != next;
              sequenceGap == old(sequenceGap) + if gap then 1 else 0
    {
      hide DispatcherInv;
      ghost var d := Model().(pc := Inspecting(item));
      ghost var none: FrameQueue := Fifo([], 0);
      DispatcherKeeps(d, none, none, none, true, Inspect);
      var frame := item.value;
      if haveLastSequence {
        var expected := Successor(lastSequence);
        if frame.desc.sequence != expected {
          sequenceGap := sequenceGap + 1;
        }
      }
      lastSequence := frame.desc.sequence;
      haveLastSequence := true;
      assert Model().(pc := OfferingDsp(item)) == DispatcherNext(d, Inspect);
    }

    method PushToDsp(item: FramePtr)
      requires dsp.Valid() && DispatcherInv(Model().(pc := OfferingDsp(item)))
      modifies this`dspIn, this`droppedForDsp, dsp, dsp.buffer
      ensures dsp.Valid() && DispatcherInv(Model().(pc := OfferingPersist(item)))
      ensures dsp.contents == old(dsp.contents) + if |old(dsp.contents)| < dsp.slots - 1 then [item] else []
    {
      hide DispatcherInv, SpscRingBuffer.Valid;
      ghost var d := Model().(pc := OfferingDsp(item));
      ghost var none: FrameQueue := Fifo([], 0);
      ghost var answer := if |dsp.contents| < dsp.slots - 1 then Accepted(item) else AnsweredFull(item, true);
      DispatcherKeeps(d, none, AsFifo(dsp), none, true, OfferDsp(answer));
      var pushed := dsp.Push(item);
      if !pushed {
        droppedForDsp := droppedForDsp + 1;
      } else {
        dspIn := dspIn + [item];
      }
      assert Model().(pc := OfferingPersist(item)) == DispatcherNext(d, OfferDsp(answer));
    }

    method PushToPersist(item: FramePtr)
      requires persist.Valid() && DispatcherInv(Model().(pc := OfferingPersist(item)))
      modifies this`persistIn, this`droppedForPersist, persist, persist.buffer
      ensures persist.Valid() && DispatcherInv(Model().(pc := Counting))
      ensures persist.contents ==
              old(persist.contents) + if |old(persist.contents)| < persist.slots - 1 then [item] else []
    {
      hide DispatcherInv, SpscRingBuffer.Valid;
      ghost var d := Model().(pc := OfferingPersist(item));
      ghost var none: FrameQueue := Fifo([], 0);
      ghost var answer := if |persist.contents| < persist.slots - 1 then Accepted(item) else AnsweredFull(item, true);
      DispatcherKeeps(d, none, none, AsFifo(persist), true, OfferPersist(answer));
      var pushed := persist.Push(item);
      if !pushed {
        droppedForPersist := droppedForPersist + 1;
      } else {
        persistIn := persistIn + [item];
      }
      assert Model().(pc := Counting) == DispatcherNext(d, OfferPersist(answer));
    }

    /** One round for a frame taken from the ingress queue: gap check, both queues, counters. */
    method DispatchFrame(item: FramePtr)
      requires QueuesApart() && dsp.Valid() && persist.Valid()
      requires item.Some? && DispatcherInv(Model().(pc := Inspecting(item)))
      modifies this`lastSequence, this`haveLastSequence, this`sequenceGap, this`dspIn, this`persistIn
      modifies this`dispatchedFrames, this`droppedForDsp, this`droppedForPersist
      modifies dsp, dsp.buffer, persist, persist.buffer
      ensures dsp.Valid() && persist.Valid() && DispatcherInv(Model())
      ensures dispatchedFrames == old(dispatchedFrames) + 1
      ensures dsp.contents == old(dsp.contents) + if |old(dsp.contents)| < dsp.slots - 1 then [item] else []
      ensures persist.contents ==
              old(persist.contents) + if |old(persist.contents)| < persist.slots - 1 then [item] else []
    {
      hide DispatcherInv, SpscRingBuffer.Valid;
      CheckSequence(item);
      PushToDsp(item);
      PushToPersist(item);
      ghost var d := Model().(pc := Counting);
      ghost var none: FrameQueue := Fifo([], 0);
      DispatcherKeeps(d, none, none, none, true, Count);
      dispatchedFrames := dispatchedFrames + 1;
      assert Model() == DispatcherNext(d, Count);
    }

    /** Takes the next frame, if there is one, in hand. */
    method TakeFromIngress() returns (item: Option<FramePtr>)
      requires Valid()
      modifies this`taken, ingress, ingress.buffer
      ensures ingress.Valid() && NoNulls(ingress.contents) && accepted == taken + ingress.contents
      ensures |old(ingress.contents)| == 0 ==> item == None && Valid() && ingress.contents == []
      ensures |old(ingress.contents)| > 0 ==>
                && item.Some? && item.value.Some? && DispatcherInv(Model().(pc := Inspecting(item.value)))
                && |ingress.contents| == |old(ingress.contents)| - 1
    {
      hide DispatcherInv, SpscRingBuffer.Valid;
      EntersPop(Model());
      ghost var d := Model().(pc := Popping);
      ghost var q := AsFifo(ingress);
      item := ingress.Pop();
      if item.Some? {
        DispatcherKeeps(d, q, q, q, true, Pop(Delivered(item.value)));
        taken := taken + [item.value];
        assert Model().(pc := Inspecting(item.value)) == DispatcherNext(d, Pop(Delivered(item.value)));
      }
    }

    /** The thread: ends only when asked to stop, and then with the ingress queue empty. */
    method DispatchLoop(patience: nat)
      requires Valid()
      modifies this, ingress, ingress.buffer, dsp, dsp.buffer, persist, persist.buffer
      ensures Valid() && !running && ingress.contents == [] && taken == accepted
      ensures |taken| == dispatchedFrames == |dspIn| + droppedForDsp == |persistIn| + droppedForPersist
      ensures old(accepted) <= accepted
    {
      hide DispatcherInv, SpscRingBuffer.Valid;
      var left: nat := patience;
      while true
        invariant Valid() && old(accepted) <= accepted
        decreases left, |ingress.contents|
      {
        OtherThreads(left > 0);
        if left > 0 {
          left := left - 1;
        }
        var size := ingress.Size();
        if !(running || size > 0) {
          break;
        }
        var item := TakeFromIngress();
        if item.None? || item.value.None? {
          continue;
        }
        DispatchFrame(item.value);
      }
      AtRest(Model());
    }
  }

  // ---- Transport ----

  class SharedMemoryTransport {
    const ingress: RingOfFrames
    var running: bool
    var receivedDescriptors: nat
    var malformedDescriptor: nat
    var droppedForIngress: nat
    ghost var descs: seq<Descriptor>
    ghost var accepted: seq<FramePtr>

    ghost function Model(): Transport
      reads this
    {
      Transport(Polling, running, receivedDescriptors, malformedDescriptor, droppedForIngress, descs, accepted)
    }

    ghost predicate Valid()
      reads this, ingress, ingress.buffer
    {
      ingress.Valid() && TransportInv(Model())
    }

    constructor (ingress: RingOfFrames)
      requires ingress.Valid()
      ensures Valid() && this.ingress == ingress && descs == [] && accepted == []
    {
      this.ingress, running := ingress, true;
      receivedDescriptors, malformedDescriptor, droppedForIngress := 0, 0, 0;
      descs, accepted := [], [];
    }

    /** The body of the inner loop for one descriptor and the shared memory as it is then. */
    method HandleDescriptor(desc: Descriptor, memory: seq<byte>)
      requires Valid() && |memory| <= 0x8000_0000_0000_0000
      modifies this`receivedDescriptors, this`malformedDescriptor, this`droppedForIngress, this`descs, this`accepted
      modifies ingress, ingress.buffer
      ensures Valid() && descs == old(descs) + [desc] && receivedDescriptors == old(receivedDescriptors) + 1
      ensures var frame := BuiltFrame(desc, memory);
              var room := |old(ingress.contents)| < ingress.slots - 1;
              && ingress.contents == old(ingress.contents) + (if frame.Some? && room then [frame] else [])
              && accepted == old(accepted) + (if frame.Some? && room then [frame] else [])
              && malformedDescriptor == old(malformedDescriptor) + (if frame.None? then 1 else 0)
              && droppedForIngress == old(droppedForIngress) + (if frame.Some? && !room then 1 else 0)
    {
      hide TransportInv, SpscRingBuffer.Valid;
      ghost var cfg := Config(|memory|, 0, 0, 0, false);
      ghost var none: FrameQueue := Fifo([], 0);
      ghost var t := Model();
      TransportKeeps(cfg, t, none, Read(desc));
      t := TransportNext(t, Read(desc));
      receivedDescriptors := receivedDescriptors + 1;
      descs := descs + [desc];

      TransportKeeps(cfg, t, none, Build(memory));
      t := TransportNext(t, Build(memory));
      var frame := BuildFrame(desc, true, memory);
      if frame.None? {
        malformedDescriptor := malformedDescriptor + 1;
        assert Model() == t;
        return;
      }

      ghost var answer := if |ingress.contents| < ingress.slots - 1 then Accepted(frame) else AnsweredFull(frame, true);
      TransportKeeps(cfg, t, AsFifo(ingress), Offer(answer));
      t := TransportNext(t, Offer(answer));
      var pushed := ingress.Push(frame);
      if !pushed {
        droppedForIngress := droppedForIngress + 1;
      } else {
        accepted := accepted + [frame];
      }
      assert Model() == t;
    }
  }
}
