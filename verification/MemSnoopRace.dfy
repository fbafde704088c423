/**
 * The kmalloc and kfree handlers in flight on several CPUs at once: one move per map operation
 * or atomic addition, any interleaving. The lookup of a pid's entry and the insertion of a
 * missing one are two moves.
 */
module MemSnoopRace {
  import opened MemSnoop

  /** What a handler does next. */
  datatype Pc =
    | Idle
    | AllocLooksUp(e: Event)
    | AllocAddsCount(e: Event)
    | AllocAddsBytes(e: Event)
    | AllocInserts(e: Event)
    | AllocBuckets(e: Event)
    | AllocStores(e: Event)
    | FreeReadsSize(e: Event)
    | FreeLooksUp(e: Event, size: nat)
    | FreeAddsCount(e: Event, size: nat)
    | FreeAddsBytes(e: Event, size: nat)
    | FreeDeletes(e: Event, size: nat)
    | Submits(e: Event)

  /**
   * The maps, the handlers and the history: handled events begun, with and without room in the event
   * ring, and allocations begun, and for each
   * pid the allocations whose statistics step is over, those lost to another handler's insertion
   * and those rejected by a full pid map.
   */
  datatype State = State(
    maps: Maps, cpus: seq<Pc>, begunReserved: nat, begunFailing: nat, allocsBegun: nat,
    processed: multiset<uint32>, lost: multiset<uint32>, rejected: multiset<uint32>)

  datatype Move = Begin(cpu: nat, e: Event) | Advance(cpu: nat)

  function Start(target: uint32, handlers: nat): State {
    State(EmptyMaps(target), seq(handlers, _ => Idle), 0, 0, 0, multiset{}, multiset{}, multiset{})
  }

  predicate Enabled(s: State, m: Move) {
    && m.cpu < |s.cpus|
    && match m
       case Begin(i, e) => s.cpus[i].Idle? && Handled(s.maps.target, e)
       case Advance(i) => !s.cpus[i].Idle?
  }

  function AddCount(pids: map<uint32, PidStats>, e: Event): map<uint32, PidStats> {
    if e.pid !in pids then pids
    else
      var ps := pids[e.pid];
      pids[e.pid := if e.Alloc? then ps.(allocCount := ps.allocCount + 1) else ps.(freeCount := ps.freeCount + 1)]
  }

  function AddBytes(pids: map<uint32, PidStats>, e: Event, bytes: nat): map<uint32, PidStats> {
    if e.pid !in pids then pids
    else
      var ps := pids[e.pid];
      pids[e.pid := if e.Alloc? then ps.(totalAlloc := ps.totalAlloc + bytes)
                    else ps.(totalFree := ps.totalFree + bytes)]
  }

  function BytesOf(e: Event): nat { if e.Alloc? then e.bytes else 0 }

  /** The insertion of a missing entry: it fails if another handler was faster, or the map is full. */
  function Insert(s: State, i: nat, e: Event): State
    requires i < |s.cpus|
  {
    var pids := s.maps.pids;
    var moved := s.(cpus := s.cpus[i := AllocBuckets(e)], processed := s.processed + multiset{e.pid});
    if e.pid in pids then moved.(lost := s.lost + multiset{e.pid})
    else if |pids| >= MAX_PID_ENTRIES then moved.(rejected := s.rejected + multiset{e.pid})
    else moved.(maps := s.maps.(pids := pids[e.pid := PidStats(1, 0, BytesOf(e), 0)]))
  }

  function Next(s: State, m: Move): State
    requires Enabled(s, m)
  {
    var i := m.cpu;
    if m.Begin? then
      s.(cpus := s.cpus[i := if m.e.Alloc? then AllocLooksUp(m.e) else FreeReadsSize(m.e)],
         begunReserved := s.begunReserved + (if m.e.reserved then 1 else 0),
         begunFailing := s.begunFailing + (if m.e.reserved then 0 else 1),
         allocsBegun := s.allocsBegun + (if m.e.Alloc? then 1 else 0))
    else
      var maps := s.maps;
      match s.cpus[i]
      case Idle => s
      case AllocLooksUp(e) =>
        s.(cpus := s.cpus[i := if e.pid in maps.pids then AllocAddsCount(e) else AllocInserts(e)])
      case AllocAddsCount(e) =>
        s.(maps := maps.(pids := AddCount(maps.pids, e)), cpus := s.cpus[i := AllocAddsBytes(e)],
           processed := s.processed + multiset{e.pid})
      case AllocAddsBytes(e) =>
        s.(maps := maps.(pids := AddBytes(maps.pids, e, BytesOf(e))), cpus := s.cpus[i := AllocBuckets(e)])
      case AllocInserts(e) => Insert(s, i, e)
      case AllocBuckets(e) =>
        var b := SizeToBucket(BytesOf(e));
        s.(maps := maps.(hist := if b < |maps.hist| then maps.hist[b := maps.hist[b] + 1] else maps.hist),
           cpus := s.cpus[i := AllocStores(e)])
      case AllocStores(e) =>
        s.(maps := maps.(table := if e.Alloc? then PutAny(maps.table, e.ptr, InfoOf(e), MAX_ALLOC_ENTRIES)
                                  else maps.table),
           cpus := s.cpus[i := Submits(e)])
      case FreeReadsSize(e) => s.(cpus := s.cpus[i := FreeLooksUp(e, FreedSize(maps.table, e.ptr))])
      case FreeLooksUp(e, size) =>
        s.(cpus := s.cpus[i := if e.pid in maps.pids then FreeAddsCount(e, size) else FreeDeletes(e, size)])
      case FreeAddsCount(e, size) =>
        s.(maps := maps.(pids := AddCount(maps.pids, e)), cpus := s.cpus[i := FreeAddsBytes(e, size)])
      case FreeAddsBytes(e, size) =>
        s.(maps := maps.(pids := AddBytes(maps.pids, e, size)), cpus := s.cpus[i := FreeDeletes(e, size)])
      case FreeDeletes(e, _) =>
        s.(maps := maps.(table := maps.table - {e.ptr}), cpus := s.cpus[i := Submits(e)])
      case Submits(e) => s.(maps := Submit(maps, e.reserved), cpus := s.cpus[i := Idle])
  }

  predicate Runs(s: State, moves: seq<Move>)
    decreases |moves|
  {
    moves == [] || (Enabled(s, moves[0]) && Runs(Next(s, moves[0]), moves[1..]))
  }

  function Final(s: State, moves: seq<Move>): State
    requires Runs(s, moves)
    decreases |moves|
  {
    if moves == [] then s else Final(Next(s, moves[0]), moves[1..])
  }

  // ---- Counting handlers ----

  /** The kinds of handlers in flight that the invariants count. */
  datatype Kind = Missed(pid: uint32) | Busy(reserved: bool) | Unbucketed

  predicate IsKind(pc: Pc, kind: Kind) {
    match kind
    case Missed(p) => pc.AllocInserts? && pc.e.pid == p
    case Busy(reserved) => !pc.Idle? && pc.e.reserved == reserved
    case Unbucketed =>
      pc.AllocLooksUp? || pc.AllocAddsCount? || pc.AllocAddsBytes? || pc.AllocInserts? || pc.AllocBuckets?
  }

  function CountKind(cpus: seq<Pc>, kind: Kind): (n: nat)
    ensures n <= |cpus|
  {
    if cpus == [] then 0 else (if IsKind(cpus[0], kind) then 1 else 0) + CountKind(cpus[1..], kind)
  }

  lemma {:induction false} CountUpdate(cpus: seq<Pc>, i: nat, pc: Pc, kind: Kind)
    requires i < |cpus|
    ensures CountKind(cpus[i := pc], kind)
         == CountKind(cpus, kind) - (if IsKind(cpus[i], kind) then 1 else 0) + (if IsKind(pc, kind) then 1 else 0)
  {
    if i > 0 {
      CountUpdate(cpus[1..], i - 1, pc, kind);
      assert cpus[i := pc][1..] == cpus[1..][i - 1 := pc];
    } else {
      assert cpus[0 := pc][1..] == cpus[1..];
    }
  }

  lemma {:induction false} NoneOfKind(cpus: seq<Pc>, kind: Kind)
    requires forall i | 0 <= i < |cpus| :: !IsKind(cpus[i], kind)
    ensures CountKind(cpus, kind) == 0
  {
    if cpus != [] {
      assert forall i | 0 <= i < |cpus[1..]| :: cpus[1..][i] == cpus[i + 1];
      NoneOfKind(cpus[1..], kind);
    }
  }

  // ---- The allocation count of one pid ----

  /**
   * A present pid misses only the allocations that lost the race for its first insertion, and
   * these and the handlers still about to lose it are fewer than all handlers; an absent pid has
   * been processed only by insertions that met a full map.
   */
  ghost predicate PidInv(s: State, p: uint32) {
    var missed := CountKind(s.cpus, Missed(p));
    if p in s.maps.pids then
      && s.processed[p] == s.maps.pids[p].allocCount + s.lost[p]
      && s.lost[p] + missed < |s.cpus|
    else
      && s.lost[p] == 0 && s.processed[p] == s.rejected[p]
      && (s.rejected[p] > 0 ==> |s.maps.pids| >= MAX_PID_ENTRIES)
  }

  /** A handler about to add to a pid's entry has found it; handlers work on events of their kind. */
  predicate PcFits(pids: map<uint32, PidStats>, pc: Pc) {
    match pc
    case AllocLooksUp(e) => e.Alloc?
    case AllocAddsCount(e) => e.Alloc? && e.pid in pids
    case AllocAddsBytes(e) => e.Alloc? && e.pid in pids
    case AllocInserts(e) => e.Alloc?
    case AllocBuckets(e) => e.Alloc?
    case AllocStores(e) => e.Alloc?
    case FreeReadsSize(e) => e.Free?
    case FreeLooksUp(e, _) => e.Free?
    case FreeAddsCount(e, _) => e.Free? && e.pid in pids
    case FreeAddsBytes(e, _) => e.Free? && e.pid in pids
    case _ => true
  }

  ghost predicate ShapeInv(s: State) {
    forall i | 0 <= i < |s.cpus| :: PcFits(s.maps.pids, s.cpus[i])
  }

  /** Entries stay, and only one handler moves. */
  lemma MoveFrame(s: State, m: Move)
    requires Enabled(s, m)
    ensures Next(s, m).cpus == s.cpus[m.cpu := Next(s, m).cpus[m.cpu]]
    ensures s.maps.pids.Keys <= Next(s, m).maps.pids.Keys
  {
    hide SizeToBucket, PutAny;
  }

  /** A handler's next step fits the event it works on. */
  lemma MoveFits(s: State, m: Move)
    requires Enabled(s, m) && PcFits(s.maps.pids, s.cpus[m.cpu])
    ensures PcFits(s.maps.pids, Next(s, m).cpus[m.cpu])
  {
    hide SizeToBucket, PutAny, AddCount, AddBytes;
  }

  lemma MoveKeepsShape(s: State, m: Move)
    requires Enabled(s, m) && ShapeInv(s)
    ensures ShapeInv(Next(s, m)) && |Next(s, m).cpus| == |s.cpus|
  {
    hide Next;
    MoveFrame(s, m);
    MoveFits(s, m);
  }

  lemma InsertCounts(s: State, i: nat, p: uint32)
    requires i < |s.cpus| && s.cpus[i].AllocInserts? && PidInv(s, p)
    ensures PidInv(Insert(s, i, s.cpus[i].e), p)
  {
    CountUpdate(s.cpus, i, AllocBuckets(s.cpus[i].e), Missed(p));
    hide CountKind;
  }

  lemma AddCountCounts(s: State, i: nat, p: uint32)
    requires i < |s.cpus| && s.cpus[i].AllocAddsCount? && PcFits(s.maps.pids, s.cpus[i]) && PidInv(s, p)
    ensures PidInv(Next(s, Advance(i)), p)
  {
    CountUpdate(s.cpus, i, AllocAddsBytes(s.cpus[i].e), Missed(p));
    hide CountKind, SizeToBucket, PutAny;
  }

  /** Every other move leaves the history and the allocation counts alone. */
  lemma OtherMoves(s: State, m: Move, p: uint32)
    requires Enabled(s, m) && PcFits(s.maps.pids, s.cpus[m.cpu])
    requires m.Advance? ==> !s.cpus[m.cpu].AllocInserts? && !s.cpus[m.cpu].AllocAddsCount?
    ensures var s' := Next(s, m);
            && (s'.processed, s'.lost, s'.rejected) == (s.processed, s.lost, s.rejected)
            && |s'.cpus| == |s.cpus| && |s'.maps.pids| == |s.maps.pids|
            && (p in s'.maps.pids <==> p in s.maps.pids)
            && (p in s.maps.pids ==> s'.maps.pids[p].allocCount == s.maps.pids[p].allocCount)
            && (IsKind(s'.cpus[m.cpu], Missed(p)) ==> p !in s.maps.pids)
            && !IsKind(s.cpus[m.cpu], Missed(p))
  {
    hide SizeToBucket, PutAny;
    var s' := Next(s, m);
    assert s'.maps.pids.Keys == s.maps.pids.Keys;
    assert |s'.maps.pids| == |s'.maps.pids.Keys| && |s.maps.pids| == |s.maps.pids.Keys|;
  }

  /** What a move does to one pid's numbers. */
  lemma MoveCountsPid(s: State, m: Move, p: uint32)
    requires Enabled(s, m) && ShapeInv(s) && PidInv(s, p)
    ensures PidInv(Next(s, m), p)
  {
    var i := m.cpu;
    assert PcFits(s.maps.pids, s.cpus[i]);
    if m.Advance? && s.cpus[i].AllocInserts? {
      InsertCounts(s, i, p);
    } else if m.Advance? && s.cpus[i].AllocAddsCount? {
      AddCountCounts(s, i, p);
    } else {
      MoveFrame(s, m);
      OtherMoves(s, m, p);
      hide Next, CountKind;
      CountUpdate(s.cpus, i, Next(s, m).cpus[i], Missed(p));
    }
  }

  // ---- Event counts ----

  function HistSum(hist: seq<nat>): nat {
    if hist == [] then 0 else hist[0] + HistSum(hist[1..])
  }

  lemma {:induction false} HistSumUpdate(hist: seq<nat>, b: nat)
    requires b < |hist|
    ensures HistSum(hist[b := hist[b] + 1]) == HistSum(hist) + 1
  {
    if b > 0 {
      HistSumUpdate(hist[1..], b - 1);
      assert hist[b := hist[b] + 1][1..] == hist[1..][b - 1 := hist[1..][b - 1] + 1];
    } else {
      assert hist[0 := hist[0] + 1][1..] == hist[1..];
    }
  }

  /** Handled events are counted or still in flight; allocations are in a bucket or on their way. */
  ghost predicate CountsInv(s: State) {
    && |s.maps.hist| == NUM_HIST_BUCKETS
    && s.maps.total + CountKind(s.cpus, Busy(true)) == s.begunReserved
    && s.maps.dropped + CountKind(s.cpus, Busy(false)) == s.begunFailing
    && HistSum(s.maps.hist) + CountKind(s.cpus, Unbucketed) == s.allocsBegun
  }

  lemma MoveCounts(s: State, m: Move)
    requires Enabled(s, m) && CountsInv(s)
    ensures CountsInv(Next(s, m))
  {
    hide CountKind, PutAny, HistSum, AddCount, AddBytes;
    var s' := Next(s, m);
    var i := m.cpu;
    CountUpdate(s.cpus, i, s'.cpus[i], Busy(true));
    CountUpdate(s.cpus, i, s'.cpus[i], Busy(false));
    CountUpdate(s.cpus, i, s'.cpus[i], Unbucketed);
    assert s'.cpus == s.cpus[i := s'.cpus[i]];
    if m.Advance? && s.cpus[i].AllocBuckets? {
      HistSumUpdate(s.maps.hist, SizeToBucket(BytesOf(s.cpus[i].e)));
    }
    hide SizeToBucket;
  }

  // ---- The table ----

  ghost predicate TableInv(s: State) {
    && 0 !in s.maps.table && |s.maps.table| <= MAX_ALLOC_ENTRIES
    && forall i | 0 <= i < |s.cpus| && !s.cpus[i].Idle? :: s.cpus[i].e.ptr != 0
  }

  lemma MoveKeepsTable(s: State, m: Move)
    requires Enabled(s, m) && TableInv(s)
    ensures TableInv(Next(s, m))
  {
    if m.Advance? && s.cpus[m.cpu].AllocStores? && s.cpus[m.cpu].e.Alloc? {
      var e := s.cpus[m.cpu].e;
      PutAnyBound(s.maps.table, e.ptr, InfoOf(e), MAX_ALLOC_ENTRIES);
    } else if m.Advance? && s.cpus[m.cpu].FreeDeletes? {
      RemoveBound(s.maps.table, s.cpus[m.cpu].e.ptr);
    }
    hide SizeToBucket;
  }

  // ---- Whole runs ----

  ghost predicate Inv(s: State) {
    ShapeInv(s) && CountsInv(s) && TableInv(s) && forall p :: PidInv(s, p)
  }

  lemma StartInv(target: uint32, handlers: nat)
    ensures Inv(Start(target, handlers))
  {
    var s := Start(target, handlers);
    NoneOfKind(s.cpus, Busy(true));
    NoneOfKind(s.cpus, Busy(false));
    NoneOfKind(s.cpus, Unbucketed);
    assert HistSum(s.maps.hist) == 0 by { HistSumZero(NUM_HIST_BUCKETS); }
  }

  lemma {:induction false} HistSumZero(n: nat)
    ensures HistSum(seq(n, _ => 0)) == 0
  {
    if n > 0 {
      HistSumZero(n - 1);
      assert seq<nat>(n, _ => 0)[1..] == seq(n - 1, _ => 0);
    }
  }

  lemma MoveKeeps(s: State, m: Move)
    requires Inv(s) && Enabled(s, m)
    ensures Inv(Next(s, m)) && |Next(s, m).cpus| == |s.cpus|
  {
    hide ShapeInv, CountsInv, TableInv, PidInv, Next;
    MoveKeepsShape(s, m);
    MoveCounts(s, m);
    MoveKeepsTable(s, m);
    forall p
      ensures PidInv(Next(s, m), p)
    {
      MoveCountsPid(s, m, p);
    }
  }

  lemma {:induction false} RunKeeps(s: State, moves: seq<Move>)
    requires Inv(s) && Runs(s, moves)
    ensures Inv(Final(s, moves)) && |Final(s, moves).cpus| == |s.cpus|
    decreases |moves|
  {
    hide Inv;
    if moves != [] {
      MoveKeeps(s, moves[0]);
      RunKeeps(Next(s, moves[0]), moves[1..]);
    }
  }

  /**
   * With K handlers in flight a pid's allocation count falls short of its processed allocations
   * by at most K-1; a pid without an entry has none unless the pid map is full.
   */
  lemma CountFallsShortByLessThanHandlers(target: uint32, handlers: nat, moves: seq<Move>, p: uint32)
    requires Runs(Start(target, handlers), moves)
    ensures var s := Final(Start(target, handlers), moves);
            && (p in s.maps.pids ==> 0 <= s.processed[p] - s.maps.pids[p].allocCount <= handlers - 1)
            && (p !in s.maps.pids && |s.maps.pids| < MAX_PID_ENTRIES ==> s.processed[p] == 0)
  {
    StartInv(target, handlers);
    RunKeeps(Start(target, handlers), moves);
    var s := Final(Start(target, handlers), moves);
    hide CountsInv, TableInv, Runs, Final;
    assert PidInv(s, p);
  }

  /** The handlers a run began, by the outcome of their reservation, and those of allocations. */
  function Begun(moves: seq<Move>, reserved: bool): nat {
    if moves == [] then 0
    else (if moves[0].Begin? && moves[0].e.reserved == reserved then 1 else 0) + Begun(moves[1..], reserved)
  }

  function AllocsBegun(moves: seq<Move>): nat {
    if moves == [] then 0 else (if moves[0].Begin? && moves[0].e.Alloc? then 1 else 0) + AllocsBegun(moves[1..])
  }

  lemma {:induction false} BegunCounts(s: State, moves: seq<Move>)
    requires Runs(s, moves)
    ensures var s' := Final(s, moves);
            && s'.begunReserved == s.begunReserved + Begun(moves, true)
            && s'.begunFailing == s.begunFailing + Begun(moves, false)
            && s'.allocsBegun == s.allocsBegun + AllocsBegun(moves)
    decreases |moves|
  {
    hide SizeToBucket, PutAny, AddCount, AddBytes;
    if moves != [] {
      BegunCounts(Next(s, moves[0]), moves[1..]);
    }
  }

  /**
   * When no handler is in flight, the total is the number of handled events whose reservation
   * succeeded, the drops are those whose reservation failed, and every handled allocation is in
   * exactly one bucket.
   */
  lemma QuiescentCounts(target: uint32, handlers: nat, moves: seq<Move>)
    requires Runs(Start(target, handlers), moves)
    requires forall i | 0 <= i < |Final(Start(target, handlers), moves).cpus| ::
               Final(Start(target, handlers), moves).cpus[i].Idle?
    ensures var s := Final(Start(target, handlers), moves);
            && s.maps.total == Begun(moves, true) && s.maps.dropped == Begun(moves, false)
            && HistSum(s.maps.hist) == AllocsBegun(moves)
            && 0 !in s.maps.table && |s.maps.table| <= MAX_ALLOC_ENTRIES
  {
    StartInv(target, handlers);
    RunKeeps(Start(target, handlers), moves);
    BegunCounts(Start(target, handlers), moves);
    var s := Final(Start(target, handlers), moves);
    NoneOfKind(s.cpus, Busy(true));
    NoneOfKind(s.cpus, Busy(false));
    NoneOfKind(s.cpus, Unbucketed);
  }

  // ---- The bound is reached ----

  lemma {:induction false} RunThenMove(s: State, moves: seq<Move>, m: Move)
    requires Runs(s, moves) && Enabled(Final(s, moves), m)
    ensures Runs(s, moves + [m]) && Final(s, moves + [m]) == Next(Final(s, moves), m)
    decreases |moves|
  {
    if moves == [] {
      assert [m][1..] == [];
      assert [] + [m] == [m];
    } else {
      RunThenMove(Next(s, moves[0]), moves[1..], m);
      assert (moves + [m])[1..] == moves[1..] + [m];
    }
  }

  /** k handlers have looked the pid up before anybody inserted it. */
  function AllMissed(target: uint32, handlers: nat, e: Event, k: nat): State {
    State(EmptyMaps(target), seq(handlers, j => if j < k then AllocInserts(e) else Idle),
          if e.reserved then k else 0, if e.reserved then 0 else k, k, multiset{}, multiset{}, multiset{})
  }

  lemma {:induction false} ReachAllMissed(target: uint32, handlers: nat, e: Event, k: nat) returns (moves: seq<Move>)
    requires Handled(target, e) && e.Alloc? && k <= handlers
    ensures Runs(Start(target, handlers), moves)
    ensures Final(Start(target, handlers), moves) == AllMissed(target, handlers, e, k)
  {
    if k == 0 {
      moves := [];
      assert Start(target, handlers).cpus == AllMissed(target, handlers, e, 0).cpus;
    } else {
      var before := ReachAllMissed(target, handlers, e, k - 1);
      var s := AllMissed(target, handlers, e, k - 1);
      RunThenMove(Start(target, handlers), before, Begin(k - 1, e));
      var s' := Next(s, Begin(k - 1, e));
      RunThenMove(Start(target, handlers), before + [Begin(k - 1, e)], Advance(k - 1));
      moves := before + [Begin(k - 1, e)] + [Advance(k - 1)];
      assert Next(s', Advance(k - 1)).cpus == AllMissed(target, handlers, e, k).cpus;
    }
  }

  /** k of them have inserted: the first with success, the others too late. */
  function Inserted(target: uint32, handlers: nat, e: Event, k: nat): State
    requires k >= 1
  {
    State(EmptyMaps(target).(pids := map[e.pid := PidStats(1, 0, BytesOf(e), 0)]),
          seq(handlers, j => if j < k then AllocBuckets(e) else AllocInserts(e)),
          if e.reserved then handlers else 0, if e.reserved then 0 else handlers, handlers,
          multiset{}[e.pid := k], multiset{}[e.pid := k - 1], multiset{})
  }

  /** The k-th insertion. */
  lemma InsertStep(target: uint32, handlers: nat, e: Event, k: nat)
    requires e.Alloc? && 1 <= k <= handlers
    ensures var s := if k == 1 then AllMissed(target, handlers, e, handlers) else Inserted(target, handlers, e, k - 1);
            && Enabled(s, Advance(k - 1))
            && Next(s, Advance(k - 1)) == Inserted(target, handlers, e, k)
  {
    hide SizeToBucket, PutAny, AddCount, AddBytes;
    var s := if k == 1 then AllMissed(target, handlers, e, handlers) else Inserted(target, handlers, e, k - 1);
    var s' := Insert(s, k - 1, e);
    assert s'.cpus == Inserted(target, handlers, e, k).cpus;
    assert s'.processed == Inserted(target, handlers, e, k).processed;
    assert s'.lost == Inserted(target, handlers, e, k).lost;
  }

  lemma {:induction false} ReachInserted(target: uint32, handlers: nat, e: Event, k: nat) returns (moves: seq<Move>)
    requires Handled(target, e) && e.Alloc? && 1 <= k <= handlers
    ensures Runs(Start(target, handlers), moves)
    ensures Final(Start(target, handlers), moves) == Inserted(target, handlers, e, k)
  {
    hide Next, Enabled;
    var before: seq<Move>;
    if k == 1 {
      before := ReachAllMissed(target, handlers, e, handlers);
    } else {
      before := ReachInserted(target, handlers, e, k - 1);
    }
    InsertStep(target, handlers, e, k);
    RunThenMove(Start(target, handlers), before, Advance(k - 1));
    moves := before + [Advance(k - 1)];
  }

  /** For every number K of handlers some run loses K-1 counts of one pid. */
  lemma BoundReached(target: uint32, handlers: nat, e: Event)
    requires Handled(target, e) && e.Alloc? && handlers >= 1
    ensures exists moves ::
              && Runs(Start(target, handlers), moves)
              && var s := Final(Start(target, handlers), moves);
              e.pid in s.maps.pids && s.processed[e.pid] - s.maps.pids[e.pid].allocCount == handlers - 1
  {
    var moves := ReachInserted(target, handlers, e, handlers);
  }

  // ---- A handler alone ----

  /** Lets one handler advance until it is done, at most the given number of moves. */
  function Alone(s: State, i: nat, limit: nat): (s': State)
    requires i < |s.cpus|
    ensures |s'.cpus| == |s.cpus|
    decreases limit
  {
    if limit == 0 || s.cpus[i].Idle? then s else Alone(Step(s, i), i, limit - 1)
  }

  function Step(s: State, i: nat): (s': State)
    requires i < |s.cpus| && !s.cpus[i].Idle?
    ensures |s'.cpus| == |s.cpus|
  {
    MoveFrame(s, Advance(i));
    Next(s, Advance(i))
  }

  lemma AloneStep(s: State, i: nat, limit: nat)
    requires i < |s.cpus| && !s.cpus[i].Idle? && limit > 0
    ensures Alone(s, i, limit) == Alone(Step(s, i), i, limit - 1)
  {
  }

  lemma AloneDone(s: State, i: nat, limit: nat)
    requires i < |s.cpus| && s.cpus[i].Idle?
    ensures Alone(s, i, limit) == s
  {
  }

  /** The last moves of an allocation handler: bucket, table, event ring. */
  lemma AloneFinishesAlloc(s: State, i: nat, limit: nat)
    requires i < |s.cpus| && s.cpus[i].AllocBuckets? && s.cpus[i].e.Alloc? && limit >= 3
    ensures var e, b := s.cpus[i].e, SizeToBucket(s.cpus[i].e.bytes);
            var s' := Alone(s, i, limit);
            var hist := if b < |s.maps.hist| then s.maps.hist[b := s.maps.hist[b] + 1] else s.maps.hist;
            && s'.cpus[i].Idle?
            && s'.maps == Submit(s.maps.(
                                   hist := hist, table := PutAny(s.maps.table, e.ptr, InfoOf(e), MAX_ALLOC_ENTRIES)),
                                 e.reserved)
  {
    hide SizeToBucket, PutAny, Alone, AddCount, AddBytes;
    var s1 := Step(s, i);
    var s2 := Step(s1, i);
    var s3 := Step(s2, i);
    AloneStep(s, i, limit);
    AloneStep(s1, i, limit - 1);
    AloneStep(s2, i, limit - 2);
    AloneDone(s3, i, limit - 3);
  }

  /** A handler that nobody interrupts has exactly the effect of the event taken as one step. */
  lemma AloneAllocIsHandle(s: State, i: nat, e: Event)
    requires Enabled(s, Begin(i, e)) && e.Alloc?
    ensures Alone(Next(s, Begin(i, e)), i, 7).maps == Handle(s.maps, e)
  {
    hide SizeToBucket, PutAny, Alone;
    var s0 := Next(s, Begin(i, e));
    var s1 := Step(s0, i);
    AloneStep(s0, i, 7);
    AloneStep(s1, i, 6);
    var s2 := Step(s1, i);
    if e.pid in s.maps.pids {
      CountsInTwoMoves(s1, i);
      AloneStep(s2, i, 5);
      AloneFinishesAlloc(Step(s2, i), i, 4);
    } else {
      AloneFinishesAlloc(s2, i, 5);
      assert s2.maps == s.maps.(pids := CountAlloc(s.maps.pids, e.pid, e.bytes)) by { PutNewUnfold(s.maps, e); }
    }
  }

  lemma CountsInTwoMoves(s: State, i: nat)
    requires i < |s.cpus| && s.cpus[i].AllocAddsCount? && s.cpus[i].e.Alloc? && s.cpus[i].e.pid in s.maps.pids
    ensures var e, s1 := s.cpus[i].e, Step(s, i);
            && s1.cpus[i] == AllocAddsBytes(e) && Step(s1, i).cpus[i] == AllocBuckets(e)
            && Step(s1, i).maps == s.maps.(pids := CountAlloc(s.maps.pids, e.pid, e.bytes))
  {
  }

  lemma PutNewUnfold(maps: Maps, e: Event)
    requires e.Alloc? && e.pid !in maps.pids
    ensures CountAlloc(maps.pids, e.pid, e.bytes)
         == if |maps.pids| >= MAX_PID_ENTRIES then maps.pids else maps.pids[e.pid := PidStats(1, 0, e.bytes, 0)]
  {
  }

  /** The last moves of a free handler: table, event ring. */
  lemma AloneFinishesFree(s: State, i: nat, limit: nat)
    requires i < |s.cpus| && s.cpus[i].FreeDeletes? && limit >= 2
    ensures var e := s.cpus[i].e;
            Alone(s, i, limit).maps == Submit(s.maps.(table := s.maps.table - {e.ptr}), e.reserved)
  {
    hide SizeToBucket, PutAny, Alone, AddCount, AddBytes;
    var s1 := Step(s, i);
    AloneStep(s, i, limit);
    AloneStep(s1, i, limit - 1);
    AloneDone(Step(s1, i), i, limit - 2);
  }

  lemma AloneFreeIsHandle(s: State, i: nat, e: Event)
    requires Enabled(s, Begin(i, e)) && e.Free?
    ensures Alone(Next(s, Begin(i, e)), i, 6).maps == Handle(s.maps, e)
  {
    hide SizeToBucket, PutAny, Alone;
    var s0 := Next(s, Begin(i, e));
    var s1 := Step(s0, i);
    var s2 := Step(s1, i);
    AloneStep(s0, i, 6);
    AloneStep(s1, i, 5);
    if e.pid in s.maps.pids {
      var s3 := Step(s2, i);
      AloneStep(s2, i, 4);
      AloneStep(s3, i, 3);
      AloneFinishesFree(Step(s3, i), i, 2);
    } else {
      AloneFinishesFree(s2, i, 4);
    }
  }
}
