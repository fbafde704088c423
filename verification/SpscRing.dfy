/**
 * The single-producer single-consumer ring, one move per atomic load, atomic store or slot
 * access. An acquire load may return any index of the modification order that is not older
 * than the thread's last observation of it.
 */
module SpscRing {
  import opened Options
  import opened Powers
  import opened BoundedFifo

  /** Where the producer stands inside push. */
  datatype Producer<T> =
    | PushIdle
    | LoadingTail(item: T, head: nat, next: nat)
    | WritingSlot(item: T, head: nat, next: nat)
    | StoringHead(item: T, next: nat)

  /** Where the consumer stands inside pop. */
  datatype Consumer<T> =
    | PopIdle
    | LoadingHead(tail: nat)
    | ReadingSlot(tail: nat)
    | StoringTail(item: T, tail: nat)

  /**
   * The shared memory, the two threads and the history. headOrder and tailOrder are the
   * modification orders of the two indices: every index stored, oldest first. The producer has
   * last observed position producerSeen of tailOrder, the consumer consumerSeen of headOrder.
   * The logs list the slot of every access so far; pushed and popped list the published items
   * and the returned items.
   */
  datatype State<T> = State(
    slots: nat, buffer: seq<Option<T>>,
    headOrder: seq<nat>, tailOrder: seq<nat>,
    producer: Producer<T>, consumer: Consumer<T>,
    producerSeen: nat, consumerSeen: nat,
    writeLog: seq<nat>, readLog: seq<nat>,
    pushed: seq<T>, popped: seq<T>)

  /** What one thread does next. A load names the position of the modification order it reads. */
  datatype Move<T> =
    | CallPush(item: T)
    | LoadTail(pos: nat)
    | WriteSlot
    | StoreHead
    | CallPop
    | LoadHead(pos: nat)
    | ReadSlot
    | StoreTail
    | ConsumerSize(pos: nat)
    | ProducerSize(pos: nat)

  function Increment(i: nat, slots: nat): nat
    requires slots > 0
  {
    (i + 1) % slots
  }

  function Last(order: seq<nat>): nat
    requires order != []
  {
    order[|order| - 1]
  }

  /** The empty ring for the capacity given to the constructor. */
  function Init<T>(capacity: nat): State<T> {
    State(capacity + 1, seq(capacity + 1, _ => None), [0], [0], PushIdle, PopIdle, 0, 0, [], [], [], [])
  }

  predicate Enabled<T(==)>(s: State<T>, m: Move<T>) {
    && s.headOrder != [] && s.tailOrder != [] && s.slots > 0
    && match m
       case CallPush(_) => s.producer.PushIdle?
       case LoadTail(pos) => s.producer.LoadingTail? && s.producerSeen <= pos < |s.tailOrder|
       case WriteSlot => s.producer.WritingSlot? && s.producer.head < |s.buffer|
       case StoreHead => s.producer.StoringHead?
       case CallPop => s.consumer.PopIdle?
       case LoadHead(pos) => s.consumer.LoadingHead? && s.consumerSeen <= pos < |s.headOrder|
       case ReadSlot => s.consumer.ReadingSlot? && s.consumer.tail < |s.buffer| && s.buffer[s.consumer.tail].Some?
       case StoreTail => s.consumer.StoringTail?
       case ConsumerSize(pos) => s.consumer.PopIdle? && s.consumerSeen <= pos < |s.headOrder|
       case ProducerSize(pos) => s.producer.PushIdle? && s.producerSeen <= pos < |s.tailOrder|
  }

  /** The effect of a move. Moving an item out of its slot leaves the slot empty. */
  function Apply<T>(s: State<T>, m: Move<T>): State<T>
    requires Enabled(s, m)
  {
    match m
    case CallPush(item) =>
      var head := Last(s.headOrder);
      s.(producer := LoadingTail(item, head, Increment(head, s.slots)))
    case LoadTail(pos) =>
      var p := s.producer;
      s.(producerSeen := pos,
         producer := if p.next == s.tailOrder[pos] then PushIdle else WritingSlot(p.item, p.head, p.next))
    case WriteSlot =>
      var p := s.producer;
      s.(buffer := s.buffer[p.head := Some(p.item)], writeLog := s.writeLog + [p.head],
         producer := StoringHead(p.item, p.next))
    case StoreHead =>
      var p := s.producer;
      s.(headOrder := s.headOrder + [p.next], pushed := s.pushed + [p.item], producer := PushIdle)
    case CallPop =>
      s.(consumer := LoadingHead(Last(s.tailOrder)))
    case LoadHead(pos) =>
      var tail := s.consumer.tail;
      s.(consumerSeen := pos, consumer := if tail == s.headOrder[pos] then PopIdle else ReadingSlot(tail))
    case ReadSlot =>
      var tail := s.consumer.tail;
      s.(buffer := s.buffer[tail := None], readLog := s.readLog + [tail],
         consumer := StoringTail(s.buffer[tail].value, tail))
    case StoreTail =>
      var c := s.consumer;
      s.(tailOrder := s.tailOrder + [Increment(c.tail, s.slots)], popped := s.popped + [c.item], consumer := PopIdle)
    case ConsumerSize(pos) => s.(consumerSeen := pos)
    case ProducerSize(pos) => s.(producerSeen := pos)
  }

  // ---- Positions modulo the number of slots ----

  lemma Residue(a: nat, n: nat) returns (q: nat)
    requires n > 0
    ensures a == q * n + a % n && a % n < n
  {
    q := a / n;
  }

  lemma SameResidue(a: nat, b: nat, n: nat)
    requires n > 0 && a <= b < a + n && a % n == b % n
    ensures a == b
  {
    var q := Residue(a, n);
    var t := Residue(b, n);
    assert (t - q) * n == b - a;
    MulAtLeast(t - q, n);
  }

  lemma NextResidue(a: nat, n: nat)
    requires n > 0
    ensures Increment(a % n, n) == (a + 1) % n
  {
    var q := Residue(a, n);
    if a % n == n - 1 {
      assert (q + 1) * n == a + 1;
      BlockPosition(q + 1, n, 0);
      BlockPosition(1, n, 0);
    } else {
      BlockPosition(q, n, a % n + 1);
      BlockPosition(0, n, a % n + 1);
    }
  }

  lemma OwnResidue(a: nat, n: nat)
    requires a < n
    ensures a % n == a
  {
    BlockPosition(0, n, a);
  }

  // ---- The invariant ----

  /** The items written to slots so far, the unpublished one included. */
  function Written<T>(s: State<T>): seq<T> {
    if s.producer.StoringHead? then s.pushed + [s.producer.item] else s.pushed
  }

  /** How many items have been moved out of their slots. */
  function Taken<T>(s: State<T>): nat {
    if s.consumer.StoringTail? then |s.popped| + 1 else |s.popped|
  }

  /** A list of indices that counts up modulo the number of slots. */
  predicate Counts(order: seq<nat>, slots: nat)
    requires slots > 0
  {
    forall p | 0 <= p < |order| :: order[p] == p % slots
  }

  ghost predicate SlotHolds<T>(s: State<T>, c: nat)
    requires s.slots > 0 && |s.buffer| == s.slots && c < |Written(s)|
  {
    s.buffer[c % s.slots] == Some(Written(s)[c])
  }

  ghost predicate ProducerInv<T>(s: State<T>)
    requires s.slots > 0
  {
    var h := |s.pushed|;
    && s.producerSeen <= |s.popped|
    && h - s.producerSeen < s.slots
    && match s.producer
       case PushIdle => true
       case LoadingTail(_, head, next) => head == h % s.slots && next == (h + 1) % s.slots
       case WritingSlot(_, head, next) =>
         head == h % s.slots && next == (h + 1) % s.slots && h + 1 - s.producerSeen < s.slots
       case StoringHead(_, next) => next == (h + 1) % s.slots && h + 1 - s.producerSeen < s.slots
  }

  ghost predicate ConsumerInv<T>(s: State<T>)
    requires s.slots > 0
  {
    var t := |s.popped|;
    && t <= s.consumerSeen <= |s.pushed|
    && match s.consumer
       case PopIdle => true
       case LoadingHead(tail) => tail == t % s.slots
       case ReadingSlot(tail) => tail == t % s.slots && t < s.consumerSeen
       case StoringTail(item, tail) => tail == t % s.slots && t < s.consumerSeen && item == s.pushed[t]
  }

  ghost predicate Inv<T>(s: State<T>) {
    && s.slots > 0 && |s.buffer| == s.slots
    && Counts(s.headOrder, s.slots) && |s.headOrder| == |s.pushed| + 1
    && Counts(s.tailOrder, s.slots) && |s.tailOrder| == |s.popped| + 1
    && Counts(s.writeLog, s.slots) && |s.writeLog| == |Written(s)|
    && Counts(s.readLog, s.slots) && |s.readLog| == Taken(s)
    && ProducerInv(s) && ConsumerInv(s)
    && s.popped == s.pushed[..|s.popped|]
    && forall c: nat | Taken(s) <= c < |Written(s)| :: SlotHolds(s, c)
  }

  lemma InitInv<T>(capacity: nat)
    ensures Inv(Init<T>(capacity))
  {
    OwnResidue(0, capacity + 1);
  }

  lemma WriteKeeps<T>(s: State<T>)
    requires Inv(s) && Enabled(s, WriteSlot)
    ensures Inv(Apply(s, WriteSlot))
  {
    var s' := Apply(s, WriteSlot);
    var h := |s.pushed|;
    forall c: nat | Taken(s) <= c <= h
      ensures SlotHolds(s', c)
    {
      if c < h {
        assert SlotHolds(s, c);
        if c % s.slots == h % s.slots {
          SameResidue(c, h, s.slots);
        }
      }
    }
  }

  lemma ReadKeeps<T>(s: State<T>)
    requires Inv(s) && Enabled(s, ReadSlot)
    ensures Inv(Apply(s, ReadSlot))
  {
    var s' := Apply(s, ReadSlot);
    var t := |s.popped|;
    assert SlotHolds(s, t);
    forall c: nat | t < c < |Written(s)|
      ensures SlotHolds(s', c)
    {
      assert SlotHolds(s, c);
      if c % s.slots == t % s.slots {
        SameResidue(t, c, s.slots);
      }
    }
  }

  lemma LoadTailKeeps<T>(s: State<T>, pos: nat)
    requires Inv(s) && Enabled(s, LoadTail(pos))
    ensures Inv(Apply(s, LoadTail(pos)))
  {
    var s' := Apply(s, LoadTail(pos));
    assert forall c: nat | Taken(s) <= c < |Written(s)| :: SlotHolds(s, c) ==> SlotHolds(s', c);
    var h := |s.pushed|;
    if h + 1 - pos == s.slots {
      BlockPosition(1, s.slots, 0);
      var q := Residue(pos, s.slots);
      assert (q + 1) * s.slots + pos % s.slots == h + 1;
      BlockPosition(q + 1, s.slots, pos % s.slots);
    }
  }

  lemma StoreHeadKeeps<T>(s: State<T>)
    requires Inv(s) && Enabled(s, StoreHead)
    ensures Inv(Apply(s, StoreHead))
  {
    var s' := Apply(s, StoreHead);
    assert Written(s') == Written(s);
    assert forall c: nat | Taken(s) <= c < |Written(s)| :: SlotHolds(s, c) ==> SlotHolds(s', c);
  }

  lemma StoreTailKeeps<T>(s: State<T>)
    requires Inv(s) && Enabled(s, StoreTail)
    ensures Inv(Apply(s, StoreTail))
  {
    var s' := Apply(s, StoreTail);
    NextResidue(|s.popped|, s.slots);
    assert forall c: nat | Taken(s) <= c < |Written(s)| :: SlotHolds(s, c) ==> SlotHolds(s', c);
  }

  lemma CallPushKeeps<T>(s: State<T>, item: T)
    requires Inv(s) && Enabled(s, CallPush(item))
    ensures Inv(Apply(s, CallPush(item)))
  {
    var s' := Apply(s, CallPush(item));
    NextResidue(|s.pushed|, s.slots);
    assert Written(s') == Written(s);
    assert forall c: nat | Taken(s) <= c < |Written(s)| :: SlotHolds(s, c) ==> SlotHolds(s', c);
  }

  lemma LoadHeadKeeps<T>(s: State<T>, pos: nat)
    requires Inv(s) && Enabled(s, LoadHead(pos))
    ensures Inv(Apply(s, LoadHead(pos)))
  {
    var s' := Apply(s, LoadHead(pos));
    assert forall c: nat | Taken(s) <= c < |Written(s)| :: SlotHolds(s, c) ==> SlotHolds(s', c);
  }

  lemma CallPopKeeps<T>(s: State<T>)
    requires Inv(s) && Enabled(s, CallPop)
    ensures Inv(Apply(s, CallPop))
  {
    var s' := Apply(s, CallPop);
    assert forall c: nat | Taken(s) <= c < |Written(s)| :: SlotHolds(s, c) ==> SlotHolds(s', c);
  }

  lemma SizeKeeps<T>(s: State<T>, m: Move<T>)
    requires Inv(s) && Enabled(s, m) && (m.ConsumerSize? || m.ProducerSize?)
    ensures Inv(Apply(s, m))
  {
    var s' := Apply(s, m);
    assert forall c: nat | Taken(s) <= c < |Written(s)| :: SlotHolds(s, c) ==> SlotHolds(s', c);
  }

  /** Every move of either thread keeps the invariant. */
  lemma MoveKeeps<T>(s: State<T>, m: Move<T>)
    requires Inv(s) && Enabled(s, m)
    ensures Inv(Apply(s, m))
  {
    hide Inv, Apply, Enabled;
    match m
    case CallPush(item) => CallPushKeeps(s, item);
    case LoadTail(pos) => LoadTailKeeps(s, pos);
    case WriteSlot => WriteKeeps(s);
    case StoreHead => StoreHeadKeeps(s);
    case CallPop => CallPopKeeps(s);
    case LoadHead(pos) => LoadHeadKeeps(s, pos);
    case ReadSlot => ReadKeeps(s);
    case StoreTail => StoreTailKeeps(s);
    case _ => SizeKeeps(s, m);
  }

  // ---- The bounded queue the ring implements ----

  /** What the caller of push or pop learns from a move. */
  function Observe<T>(s: State<T>, m: Move<T>): Observation<T>
    requires Enabled(s, m)
  {
    match m
    case LoadTail(pos) =>
      if s.producer.next == s.tailOrder[pos] then AnsweredFull(s.producer.item, pos == |s.tailOrder| - 1) else Silent
    case StoreHead => Accepted(s.producer.item)
    case LoadHead(pos) =>
      if s.consumer.tail == s.headOrder[pos] then AnsweredEmpty(pos == |s.headOrder| - 1) else Silent
    case StoreTail => Delivered(s.consumer.item)
    case _ => Silent
  }

  /** The queue a state stands for: what is published and not yet released. */
  function Queue<T>(s: State<T>): Fifo<T>
    requires |s.popped| <= |s.pushed| && s.slots > 0
  {
    Fifo(s.pushed[|s.popped|..], s.slots - 1)
  }

  /** A rejected push saw exactly a full queue at the position of the tail it read. */
  lemma FullMeansFull<T>(s: State<T>, pos: nat)
    requires Inv(s) && Enabled(s, LoadTail(pos))
    ensures Observe(s, LoadTail(pos)).AnsweredFull? <==> |s.pushed| - pos == s.slots - 1
  {
    var n, next := s.slots, |s.pushed| + 1;
    if next - pos == n {
      var q := Residue(pos, n);
      assert (q + 1) * n + pos % n == next;
      BlockPosition(q + 1, n, pos % n);
    } else if next % n == pos % n {
      SameResidue(pos, next, n);
    }
  }

  /** An empty answer saw nothing published beyond the items already released. */
  lemma EmptyMeansEmpty<T>(s: State<T>, pos: nat)
    requires Inv(s) && Enabled(s, LoadHead(pos))
    ensures Observe(s, LoadHead(pos)).AnsweredEmpty? <==> pos == |s.popped|
  {
    if pos % s.slots == |s.popped| % s.slots {
      SameResidue(|s.popped|, pos, s.slots);
    }
  }

  lemma StoreHeadRefines<T>(s: State<T>)
    requires Inv(s) && Enabled(s, StoreHead)
    ensures |s.popped| <= |s.pushed| && Apply(s, StoreHead).popped == s.popped
    ensures FifoStep(Queue(s), Observe(s, StoreHead), Queue(Apply(s, StoreHead)))
  {
    assert Queue(Apply(s, StoreHead)).items == Queue(s).items + [s.producer.item];
  }

  lemma StoreTailRefines<T>(s: State<T>)
    requires Inv(s) && Enabled(s, StoreTail)
    ensures |s.popped| < |s.pushed| && Apply(s, StoreTail).pushed == s.pushed
    ensures |Apply(s, StoreTail).popped| == |s.popped| + 1
    ensures FifoStep(Queue(s), Observe(s, StoreTail), Queue(Apply(s, StoreTail)))
  {
    assert Queue(s).items[0] == s.consumer.item;
    assert Queue(Apply(s, StoreTail)).items == Queue(s).items[1..];
  }

  lemma LoadsRefine<T>(s: State<T>, m: Move<T>)
    requires Inv(s) && Enabled(s, m) && (m.LoadTail? || m.LoadHead?)
    ensures FifoStep(Queue(s), Observe(s, m), Queue(Apply(s, m)))
  {
    if m.LoadTail? {
      FullMeansFull(s, m.pos);
    } else {
      EmptyMeansEmpty(s, m.pos);
    }
  }

  /** One move of the ring is one step of the queue. */
  lemma MoveRefines<T>(s: State<T>, m: Move<T>)
    requires Inv(s) && Enabled(s, m)
    ensures Inv(Apply(s, m)) && FifoStep(Queue(s), Observe(s, m), Queue(Apply(s, m)))
  {
    MoveKeeps(s, m);
    hide SlotHolds, Counts, ProducerInv, ConsumerInv;
    match m
    case LoadTail(_) => LoadsRefine(s, m);
    case LoadHead(_) => LoadsRefine(s, m);
    case StoreHead => StoreHeadRefines(s);
    case StoreTail => StoreTailRefines(s);
    case _ =>
  }

  /**
   * With loads that return the newest index the answers decide: push answers full exactly when
   * the queue is full, pop answers empty exactly when it is empty, at the instant of the load.
   */
  lemma NewestLoadsDecide<T>(s: State<T>)
    requires Inv(s)
    ensures var m: Move<T> := LoadTail(|s.tailOrder| - 1);
            Enabled(s, m) ==> (Observe(s, m).AnsweredFull? <==> |Queue(s).items| == Queue(s).capacity)
    ensures var m: Move<T> := LoadHead(|s.headOrder| - 1);
            Enabled(s, m) ==> (Observe(s, m).AnsweredEmpty? <==> Queue(s).items == [])
  {
    if Enabled(s, LoadTail(|s.tailOrder| - 1)) {
      FullMeansFull(s, |s.tailOrder| - 1);
    }
    if Enabled(s, LoadHead(|s.headOrder| - 1)) {
      EmptyMeansEmpty(s, |s.headOrder| - 1);
    }
  }

  // ---- Slot accesses ----

  /**
   * Every slot access is ordered after all earlier accesses of the other thread to the same
   * slot: the index store that followed them has been observed.
   */
  ghost predicate AccessesOrdered<T>(s: State<T>) {
    && (s.producer.WritingSlot? ==>
          forall r | 0 <= r < |s.readLog| && s.readLog[r] == s.producer.head :: r < s.producerSeen)
    && (s.consumer.ReadingSlot? ==>
          forall w | 0 <= w < |s.writeLog| && s.writeLog[w] == s.consumer.tail :: w < s.consumerSeen)
  }

  /** The two threads are never about to touch one slot, and no access races with an earlier one. */
  lemma NoSlotRace<T>(s: State<T>)
    requires Inv(s)
    ensures AccessesOrdered(s)
    ensures s.producer.WritingSlot? && s.consumer.ReadingSlot? ==> s.producer.head != s.consumer.tail
  {
    var h, t, n := |s.pushed|, |s.popped|, s.slots;
    if s.producer.WritingSlot? {
      forall r | 0 <= r < |s.readLog| && s.readLog[r] == s.producer.head
        ensures r < s.producerSeen
      {
        if r >= s.producerSeen {
          SameResidue(r, h, n);
        }
      }
      if s.consumer.ReadingSlot? && h % n == t % n {
        SameResidue(t, h, n);
      }
    }
    if s.consumer.ReadingSlot? {
      forall w | 0 <= w < |s.writeLog| && s.writeLog[w] == s.consumer.tail
        ensures w < s.consumerSeen
      {
        if w >= s.consumerSeen {
          SameResidue(t, w, n);
        }
      }
    }
  }

  /** Neither thread is ever stuck: the slot it needs is in bounds, and holds an item to read. */
  lemma NeverStuck<T>(s: State<T>)
    requires Inv(s)
    ensures s.producer.WritingSlot? ==> Enabled(s, WriteSlot)
    ensures s.consumer.ReadingSlot? ==> Enabled(s, ReadSlot)
    ensures s.producer.LoadingTail? ==> Enabled(s, LoadTail(|s.tailOrder| - 1))
    ensures s.consumer.LoadingHead? ==> Enabled(s, LoadHead(|s.headOrder| - 1))
  {
    if s.consumer.ReadingSlot? {
      assert SlotHolds(s, |s.popped|);
    }
  }

  // ---- Whole runs ----

  /** The moves can be made one after the other from s. */
  predicate Runs<T(==)>(s: State<T>, moves: seq<Move<T>>)
    decreases |moves|
  {
    moves == [] || (Enabled(s, moves[0]) && Runs(Apply(s, moves[0]), moves[1..]))
  }

  function Final<T(==)>(s: State<T>, moves: seq<Move<T>>): State<T>
    requires Runs(s, moves)
    decreases |moves|
  {
    if moves == [] then s else Final(Apply(s, moves[0]), moves[1..])
  }

  function Trace<T(==)>(s: State<T>, moves: seq<Move<T>>): seq<Observation<T>>
    requires Runs(s, moves)
    decreases |moves|
  {
    if moves == [] then [] else [Observe(s, moves[0])] + Trace(Apply(s, moves[0]), moves[1..])
  }

  /** A sequence of observations a bounded queue can show on its way from q to q'. */
  ghost predicate FifoTrace<T(!new)>(q: Fifo<T>, trace: seq<Observation<T>>, q': Fifo<T>)
    decreases |trace|
  {
    if trace == [] then q' == q
    else exists mid :: FifoStep(q, trace[0], mid) && FifoTrace(mid, trace[1..], q')
  }

  lemma {:induction false} RunRefines<T(!new)>(s: State<T>, moves: seq<Move<T>>)
    requires Inv(s) && Runs(s, moves)
    ensures Inv(Final(s, moves)) && Final(s, moves).slots == s.slots
    ensures FifoTrace(Queue(s), Trace(s, moves), Queue(Final(s, moves)))
    decreases |moves|
  {
    if moves != [] {
      var next := Apply(s, moves[0]);
      MoveRefines(s, moves[0]);
      RunRefines(next, moves[1..]);
      assert Trace(s, moves)[1..] == Trace(next, moves[1..]);
      assert FifoStep(Queue(s), Trace(s, moves)[0], Queue(next));
    }
  }

  /**
   * Under every interleaving, and whatever stale indices the loads return, the ring shows what a
   * queue of the constructor's capacity can show, and what pop returned is a prefix of what
   * push accepted.
   */
  lemma RingIsBoundedFifo<T(!new)>(capacity: nat, moves: seq<Move<T>>)
    requires Runs(Init<T>(capacity), moves)
    ensures var s := Final(Init<T>(capacity), moves);
            && Inv(s) && AccessesOrdered(s)
            && s.popped <= s.pushed && |s.pushed| - |s.popped| <= capacity
            && FifoTrace(Fifo([], capacity), Trace(Init<T>(capacity), moves), Fifo(s.pushed[|s.popped|..], capacity))
  {
    InitInv<T>(capacity);
    var s0 := Init<T>(capacity);
    RunRefines(s0, moves);
    NoSlotRace(Final(s0, moves));
    assert Queue(s0) == Fifo([], capacity);
  }

  // ---- Every call gets its answer ----

  /** A push that nothing interrupts, with the newest tail. */
  function PushMoves<T>(s: State<T>, item: T): seq<Move<T>>
    requires |s.popped| <= |s.pushed| && s.slots > 0 && s.tailOrder != []
  {
    if |Queue(s).items| < Queue(s).capacity then [CallPush(item), LoadTail(|s.tailOrder| - 1), WriteSlot, StoreHead]
    else [CallPush(item), LoadTail(|s.tailOrder| - 1)]
  }

  /** A pop that nothing interrupts, with the newest head. */
  function PopMoves<T>(s: State<T>): seq<Move<T>>
    requires |s.popped| <= |s.pushed| && s.slots > 0 && s.headOrder != []
  {
    if Queue(s).items != [] then [CallPop, LoadHead(|s.headOrder| - 1), ReadSlot, StoreTail]
    else [CallPop, LoadHead(|s.headOrder| - 1)]
  }

  /** The call has loaded the newest tail and goes on exactly if there is room. */
  lemma PushLooks<T>(s: State<T>, item: T)
    requires Inv(s) && s.producer.PushIdle?
    ensures Enabled(s, CallPush(item)) && Observe(s, CallPush(item)) == Silent
    ensures var s1 := Apply(s, CallPush(item));
            var look: Move<T> := LoadTail(|s.tailOrder| - 1);
            && s1.producer.LoadingTail? && Inv(s1) && Enabled(s1, look) && Queue(s1) == Queue(s)
            && s1.consumer == s.consumer && s1.pushed == s.pushed && s1.popped == s.popped
            && s1.tailOrder == s.tailOrder && s1.producer.item == item
            && (if |Queue(s).items| < Queue(s).capacity
                then Observe(s1, look) == Silent && Apply(s1, look).producer.WritingSlot?
                     && Apply(s1, look).producer.item == item
                else Observe(s1, look) == AnsweredFull(item, true) && Apply(s1, look).producer.PushIdle?)
            && Inv(Apply(s1, look)) && Queue(Apply(s1, look)) == Queue(s)
            && Apply(s1, look).consumer == s.consumer
            && Apply(s1, look).pushed == s.pushed && Apply(s1, look).popped == s.popped
  {
    var s1 := Apply(s, CallPush(item));
    var look: Move<T> := LoadTail(|s.tailOrder| - 1);
    MoveKeeps(s, CallPush(item));
    FullMeansFull(s1, |s.tailOrder| - 1);
    MoveKeeps(s1, look);
  }

  /** A push past its test writes the slot, publishes the item and is accepted. */
  lemma PushFinishes<T>(s: State<T>)
    requires Inv(s) && s.producer.WritingSlot?
    ensures Enabled(s, WriteSlot) && Observe(s, WriteSlot) == Silent
    ensures var s1 := Apply(s, WriteSlot);
            && Enabled(s1, StoreHead) && Observe(s1, StoreHead) == Accepted(s.producer.item)
            && var s2 := Apply(s1, StoreHead);
            && Inv(s2) && s2.producer.PushIdle? && s2.consumer == s.consumer
            && s2.pushed == s.pushed + [s.producer.item] && s2.popped == s.popped
            && Queue(s2) == Queue(s).(items := Queue(s).items + [s.producer.item])
  {
    var s1 := Apply(s, WriteSlot);
    MoveKeeps(s, WriteSlot);
    MoveKeeps(s1, StoreHead);
  }

  /**
   * From an idle producer a push is always enabled to its end. If there is room the item is accepted
   * and joins the queue at its end; otherwise the answer is full and nothing changes.
   */
  lemma PushCompletes<T>(s: State<T>, item: T)
    requires Inv(s) && s.producer.PushIdle?
    ensures var moves, room := PushMoves(s, item), |Queue(s).items| < Queue(s).capacity;
            && Runs(s, moves)
            && Trace(s, moves) == (if room then [Silent, Silent, Silent, Accepted(item)]
                                   else [Silent, AnsweredFull(item, true)])
            && var s' := Final(s, moves);
            && Inv(s') && s'.producer.PushIdle? && s'.consumer == s.consumer && s'.popped == s.popped
            && s'.pushed == (if room then s.pushed + [item] else s.pushed)
            && Queue(s') == (if room then Queue(s).(items := Queue(s).items + [item]) else Queue(s))
  {
    PushLooks(s, item);
    hide Inv, Enabled, Apply, Observe, Queue;
    var moves := PushMoves(s, item);
    var s1 := Apply(s, CallPush(item));
    var s2 := Apply(s1, LoadTail(|s.tailOrder| - 1));
    if |Queue(s).items| < Queue(s).capacity {
      PushFinishes(s2);
      var s3 := Apply(s2, WriteSlot);
      FourMoves(s, moves, s1, s2, s3, Apply(s3, StoreHead));
    } else {
      TwoMoves(s, moves, s1, s2);
    }
  }

  lemma TwoMoves<T>(s: State<T>, moves: seq<Move<T>>, s1: State<T>, s2: State<T>)
    requires |moves| == 2 && Enabled(s, moves[0]) && s1 == Apply(s, moves[0])
    requires Enabled(s1, moves[1]) && s2 == Apply(s1, moves[1])
    ensures Runs(s, moves) && Final(s, moves) == s2
    ensures Trace(s, moves) == [Observe(s, moves[0]), Observe(s1, moves[1])]
  {
    hide Enabled, Apply, Observe;
    assert moves[1..] == [moves[1]] && moves[1..][1..] == [];
    assert Runs(s1, moves[1..]) && Final(s1, moves[1..]) == s2;
    assert Trace(s1, moves[1..]) == [Observe(s1, moves[1])];
  }

  lemma FourMoves<T>(s: State<T>, moves: seq<Move<T>>, s1: State<T>, s2: State<T>, s3: State<T>, s4: State<T>)
    requires |moves| == 4 && Enabled(s, moves[0]) && s1 == Apply(s, moves[0])
    requires Enabled(s1, moves[1]) && s2 == Apply(s1, moves[1])
    requires Enabled(s2, moves[2]) && s3 == Apply(s2, moves[2])
    requires Enabled(s3, moves[3]) && s4 == Apply(s3, moves[3])
    ensures Runs(s, moves) && Final(s, moves) == s4
    ensures Trace(s, moves)
            == [Observe(s, moves[0]), Observe(s1, moves[1]), Observe(s2, moves[2]), Observe(s3, moves[3])]
  {
    hide Enabled, Apply, Observe;
    var rest := moves[1..];
    TwoMoves(s2, rest[1..], s3, s4);
    assert Runs(s1, rest) && Final(s1, rest) == s4;
    assert Trace(s1, rest) == [Observe(s1, rest[0])] + Trace(s2, rest[1..]);
  }

  /** The call has loaded the newest head and goes on exactly if there is an item. */
  lemma PopLooks<T>(s: State<T>)
    requires Inv(s) && s.consumer.PopIdle?
    ensures Enabled(s, CallPop) && Observe(s, CallPop) == Silent
    ensures var s1 := Apply(s, CallPop);
            var look: Move<T> := LoadHead(|s.headOrder| - 1);
            && s1.consumer.LoadingHead? && Inv(s1) && Enabled(s1, look) && Queue(s1) == Queue(s)
            && s1.producer == s.producer && s1.pushed == s.pushed && s1.popped == s.popped
            && s1.headOrder == s.headOrder
            && (if Queue(s).items != []
                then Observe(s1, look) == Silent && Apply(s1, look).consumer.ReadingSlot?
                else Observe(s1, look) == AnsweredEmpty(true) && Apply(s1, look).consumer.PopIdle?)
            && Inv(Apply(s1, look)) && Queue(Apply(s1, look)) == Queue(s)
            && Apply(s1, look).producer == s.producer
            && Apply(s1, look).pushed == s.pushed && Apply(s1, look).popped == s.popped
  {
    var s1 := Apply(s, CallPop);
    var look: Move<T> := LoadHead(|s.headOrder| - 1);
    MoveKeeps(s, CallPop);
    EmptyMeansEmpty(s1, |s.headOrder| - 1);
    MoveKeeps(s1, look);
  }

  /** A pop past its test takes the oldest item out of its slot, releases the slot and delivers it. */
  lemma PopFinishes<T>(s: State<T>)
    requires Inv(s) && s.consumer.ReadingSlot?
    ensures Queue(s).items != [] && Enabled(s, ReadSlot) && Observe(s, ReadSlot) == Silent
    ensures var s1 := Apply(s, ReadSlot);
            && Enabled(s1, StoreTail) && Observe(s1, StoreTail) == Delivered(Queue(s).items[0])
            && var s2 := Apply(s1, StoreTail);
            && Inv(s2) && s2.consumer.PopIdle? && s2.producer == s.producer && s2.pushed == s.pushed
            && s2.popped == s.popped + [Queue(s).items[0]]
            && Queue(s2) == Queue(s).(items := Queue(s).items[1..])
  {
    assert SlotHolds(s, |s.popped|);
    var s1 := Apply(s, ReadSlot);
    MoveKeeps(s, ReadSlot);
    MoveKeeps(s1, StoreTail);
  }

  /**
   * From an idle consumer a pop is always enabled to its end. If there is an item the oldest one is
   * delivered and leaves the queue; otherwise the answer is empty and nothing changes.
   */
  lemma PopCompletes<T>(s: State<T>)
    requires Inv(s) && s.consumer.PopIdle?
    ensures var moves, items := PopMoves(s), Queue(s).items;
            && Runs(s, moves)
            && Trace(s, moves) == (if items != [] then [Silent, Silent, Silent, Delivered(items[0])]
                                   else [Silent, AnsweredEmpty(true)])
            && var s' := Final(s, moves);
            && Inv(s') && s'.consumer.PopIdle? && s'.producer == s.producer && s'.pushed == s.pushed
            && s'.popped == (if items != [] then s.popped + [items[0]] else s.popped)
            && Queue(s') == (if items != [] then Queue(s).(items := items[1..]) else Queue(s))
  {
    PopLooks(s);
    hide Inv, Enabled, Apply, Observe, Queue;
    var moves := PopMoves(s);
    var s1 := Apply(s, CallPop);
    var s2 := Apply(s1, LoadHead(|s.headOrder| - 1));
    if Queue(s).items != [] {
      PopFinishes(s2);
      var s3 := Apply(s2, ReadSlot);
      FourMoves(s, moves, s1, s2, s3, Apply(s3, StoreTail));
    } else {
      TwoMoves(s, moves, s1, s2);
    }
  }

  predicate AnswersPush<T>(o: Observation<T>) { o.Accepted? || o.AnsweredFull? }
  predicate AnswersPop<T>(o: Observation<T>) { o.Delivered? || o.AnsweredEmpty? }

  /** The item of the push under way. */
  function Pending<T>(s: State<T>): seq<T> {
    if s.producer.PushIdle? then [] else [s.producer.item]
  }

  /** A thread enters a call only by calling and leaves it exactly with an answer, about the item it called with. */
  lemma AnswersEndCalls<T>(s: State<T>, m: Move<T>)
    requires Enabled(s, m)
    ensures var o, s' := Observe(s, m), Apply(s, m);
            && (AnswersPush(o) <==> !s.producer.PushIdle? && s'.producer.PushIdle?)
            && (m.CallPush? <==> s.producer.PushIdle? && !s'.producer.PushIdle?)
            && (AnswersPush(o) ==> Pending(s) == [o.item] && Pending(s') == [])
            && (m.CallPush? ==> Pending(s') == [m.item])
            && (!AnswersPush(o) && !m.CallPush? ==> Pending(s') == Pending(s))
            && (AnswersPop(o) <==> !s.consumer.PopIdle? && s'.consumer.PopIdle?)
            && (m.CallPop? <==> s.consumer.PopIdle? && !s'.consumer.PopIdle?)
  {
  }

  /** The items pushes were called with, and those they were answered for. */
  function Called<T>(moves: seq<Move<T>>): seq<T> {
    if moves == [] then [] else (if moves[0].CallPush? then [moves[0].item] else []) + Called(moves[1..])
  }

  function Answered<T>(trace: seq<Observation<T>>): seq<T> {
    if trace == [] then [] else (if AnswersPush(trace[0]) then [trace[0].item] else []) + Answered(trace[1..])
  }

  function AcceptedIn<T>(trace: seq<Observation<T>>): seq<T> {
    if trace == [] then [] else (if trace[0].Accepted? then [trace[0].item] else []) + AcceptedIn(trace[1..])
  }

  function DeliveredIn<T>(trace: seq<Observation<T>>): seq<T> {
    if trace == [] then [] else (if trace[0].Delivered? then [trace[0].item] else []) + DeliveredIn(trace[1..])
  }

  /** One move's call and answer. */
  lemma CallOrAnswer<T>(s: State<T>, m: Move<T>)
    requires Enabled(s, m)
    ensures var o, next := Observe(s, m), Apply(s, m);
            Pending(s) + (if m.CallPush? then [m.item] else [])
            == (if AnswersPush(o) then [o.item] else []) + Pending(next)
  {
    AnswersEndCalls(s, m);
  }

  lemma Rearrange<T>(p: seq<T>, c: seq<T>, rest: seq<T>, a: seq<T>, next: seq<T>, answers: seq<T>, end: seq<T>)
    requires p + c == a + next && next + rest == answers + end
    ensures p + (c + rest) == (a + answers) + end
  {
    assert p + (c + rest) == (p + c) + rest;
    assert (a + next) + rest == a + (next + rest);
    assert a + (answers + end) == (a + answers) + end;
  }

  lemma {:induction false} CallsAreAnswered<T(!new)>(s: State<T>, moves: seq<Move<T>>)
    requires Runs(s, moves)
    ensures Pending(s) + Called(moves) == Answered(Trace(s, moves)) + Pending(Final(s, moves))
    decreases |moves|
  {
    hide Apply, Enabled, Observe, Pending;
    if moves == [] {
      assert Pending(s) + [] == [] + Pending(s);
    } else {
      var m, next, rest := moves[0], Apply(s, moves[0]), moves[1..];
      var o, trace := Observe(s, m), Trace(next, rest);
      CallsAreAnswered(next, rest);
      CallOrAnswer(s, m);
      assert Trace(s, moves)[1..] == trace;
      Rearrange(Pending(s), if m.CallPush? then [m.item] else [], Called(rest),
                if AnswersPush(o) then [o.item] else [], Pending(next), Answered(trace), Pending(Final(next, rest)));
    }
  }

  lemma {:induction false} LogsAreAnswers<T(!new)>(s: State<T>, moves: seq<Move<T>>)
    requires Runs(s, moves)
    ensures Final(s, moves).pushed == s.pushed + AcceptedIn(Trace(s, moves))
    ensures Final(s, moves).popped == s.popped + DeliveredIn(Trace(s, moves))
    decreases |moves|
  {
    hide Apply, Enabled, Observe;
    if moves != [] {
      var next, rest := Apply(s, moves[0]), moves[1..];
      LogsAreAnswers(next, rest);
      LogsGrow(s, moves[0]);
      assert Trace(s, moves)[1..] == Trace(next, rest);
    }
  }

  lemma LogsGrow<T>(s: State<T>, m: Move<T>)
    requires Enabled(s, m)
    ensures var o := Observe(s, m);
            && Apply(s, m).pushed == s.pushed + (if o.Accepted? then [o.item] else [])
            && Apply(s, m).popped == s.popped + (if o.Delivered? then [o.item] else [])
  {
  }

  /**
   * In every run the pushes are answered one by one, in the order of the calls and about the items
   * they were called with, up to the one under way; what was accepted is what was published, and what
   * was delivered is what was released.
   */
  lemma EveryPushIsAnswered<T(!new)>(capacity: nat, moves: seq<Move<T>>)
    requires Runs(Init<T>(capacity), moves)
    ensures var s, trace := Final(Init<T>(capacity), moves), Trace(Init<T>(capacity), moves);
            && Called(moves) == Answered(trace) + Pending(s)
            && s.pushed == AcceptedIn(trace) && s.popped == DeliveredIn(trace)
  {
    CallsAreAnswered(Init<T>(capacity), moves);
    LogsAreAnswers(Init<T>(capacity), moves);
  }

  // ---- The size estimate ----

  /** The subtraction of approx_size on any two index values. */
  function ApproxSize(head: nat, tail: nat, slots: nat): int {
    if head >= tail then head - tail else slots - (tail - head)
  }

  lemma ApproxSizeBounds(head: nat, tail: nat, slots: nat)
    requires head < slots && tail < slots
    ensures 0 <= ApproxSize(head, tail, slots) <= slots - 1
  {
  }

  lemma ApproxSizeOfPositions(p: nat, t: nat, slots: nat)
    requires t <= p < t + slots
    ensures ApproxSize(p % slots, t % slots, slots) == p - t
  {
    var q := Residue(p, slots);
    var r := Residue(t, slots);
    assert (q - r) * slots == (p - t) - (p % slots - t % slots);
    MulAtLeast(q - r, slots);
    MulAtLeast(q - r - 1, slots);
    assert (q - r - 1) * slots == (q - r) * slots - slots;
  }

  /**
   * Asked by the consumer, the estimate counts the items up to the position of the head it reads,
   * so it never exceeds the queue and is exact for the newest head; asked by the producer it
   * never falls short of the queue.
   */
  lemma ApproxSizeMeaning<T>(s: State<T>, pos: nat)
    requires Inv(s)
    ensures Enabled(s, ConsumerSize(pos)) ==>
              ApproxSize(s.headOrder[pos], Last(s.tailOrder), s.slots) == pos - |s.popped| <= |Queue(s).items|
    ensures Enabled(s, ProducerSize(pos)) ==>
              |Queue(s).items| <= ApproxSize(Last(s.headOrder), s.tailOrder[pos], s.slots) == |s.pushed| - pos < s.slots
  {
    if Enabled(s, ConsumerSize(pos)) {
      ApproxSizeOfPositions(pos, |s.popped|, s.slots);
    }
    if Enabled(s, ProducerSize(pos)) {
      ApproxSizeOfPositions(|s.pushed|, pos, s.slots);
    }
  }
}
