/**
 * The bytes of MemSnoop under every interleaving of handlers: where each allocated byte is, and
 * what the interleaving adds to the corrections of the sequential ledger.
 */
module RaceBytes {
  import opened MemSnoop
  import opened MemSnoopRace

  /**
   * The history in bytes. begun: allocations begun. lost and unattributed: those whose pid entry
   * another handler inserted first, or that met a full pid map. overwritten and rejected: at the
   * allocation table. deleted: removed from it. read: the sizes frees have read; unattributedFree:
   * those of pids without an entry. phantom: read, but no longer there at the deletion. missed:
   * deleted, but not read.
   */
  datatype Ledger = Ledger(
    begun: nat, lost: nat, unattributed: nat, overwritten: nat, rejected: nat,
    deleted: nat, read: nat, unattributedFree: nat, phantom: nat, missed: nat)

  function Excess(a: nat, b: nat): nat {
    if a > b then a - b else 0
  }

  /** What a move adds to the history. */
  function LedgerNext(s: State, l: Ledger, m: Move): Ledger
    requires Enabled(s, m)
  {
    var maps := s.maps;
    if m.Begin? then l.(begun := l.begun + BytesOf(m.e))
    else
      match s.cpus[m.cpu]
      case AllocInserts(e) =>
        if e.pid in maps.pids then l.(lost := l.lost + BytesOf(e))
        else if |maps.pids| >= MAX_PID_ENTRIES then l.(unattributed := l.unattributed + BytesOf(e))
        else l
      case AllocStores(e) =>
        l.(overwritten := l.overwritten + FreedSize(maps.table, e.ptr),
           rejected := l.rejected + (if HasRoom(maps, e.ptr) then 0 else BytesOf(e)))
      case FreeReadsSize(e) => l.(read := l.read + FreedSize(maps.table, e.ptr))
      case FreeLooksUp(e, size) =>
        l.(unattributedFree := l.unattributedFree + (if e.pid in maps.pids then 0 else size))
      case FreeDeletes(e, size) =>
        var there := FreedSize(maps.table, e.ptr);
        l.(deleted := l.deleted + there,
           phantom := l.phantom + Excess(size, there), missed := l.missed + Excess(there, size))
      case _ => l
  }

  // ---- Bytes in flight ----

  /** A free between the reading of its size and its deletion. */
  predicate HasRead(pc: Pc) {
    pc.FreeLooksUp? || pc.FreeAddsCount? || pc.FreeAddsBytes? || pc.FreeDeletes?
  }

  /** The accounts a handler in flight has not settled yet. */
  datatype Account = Unattributed | Unstored | Uncounted | Undeleted

  function Weight(pc: Pc, a: Account): nat {
    match a
    case Unattributed =>
      if pc.AllocLooksUp? || pc.AllocAddsCount? || pc.AllocAddsBytes? || pc.AllocInserts? then BytesOf(pc.e) else 0
    case Unstored =>
      if pc.AllocLooksUp? || pc.AllocAddsCount? || pc.AllocAddsBytes? || pc.AllocInserts?
         || pc.AllocBuckets? || pc.AllocStores? then BytesOf(pc.e) else 0
    case Uncounted => if pc.FreeLooksUp? || pc.FreeAddsCount? || pc.FreeAddsBytes? then pc.size else 0
    case Undeleted =>
      if HasRead(pc) then pc.size else 0
  }

  function InFlight(cpus: seq<Pc>, a: Account): nat {
    if cpus == [] then 0 else Weight(cpus[0], a) + InFlight(cpus[1..], a)
  }

  lemma {:induction false} InFlightUpdate(cpus: seq<Pc>, i: nat, pc: Pc, a: Account)
    requires i < |cpus|
    ensures InFlight(cpus[i := pc], a) == InFlight(cpus, a) - Weight(cpus[i], a) + Weight(pc, a)
  {
    if i > 0 {
      InFlightUpdate(cpus[1..], i - 1, pc, a);
      assert cpus[i := pc][1..] == cpus[1..][i - 1 := pc];
    } else {
      assert cpus[0 := pc][1..] == cpus[1..];
    }
  }

  lemma {:induction false} NothingInFlight(cpus: seq<Pc>, a: Account)
    requires forall i | 0 <= i < |cpus| :: cpus[i].Idle?
    ensures InFlight(cpus, a) == 0
  {
    if cpus != [] {
      assert forall i | 0 <= i < |cpus[1..]| :: cpus[1..][i] == cpus[i + 1];
      NothingInFlight(cpus[1..], a);
    }
  }

  // ---- The accounts ----

  /** Every allocation begun is attributed to its pid, lost, unattributed or in flight. */
  ghost predicate Attributed(s: State, l: Ledger) {
    Sum(AllocBytes(s.maps.pids)) + l.lost + l.unattributed + InFlight(s.cpus, Unattributed) == l.begun
  }

  /** Every allocation begun is live, overwritten, rejected, deleted or in flight. */
  ghost predicate Stored(s: State, l: Ledger) {
    Sum(Sizes(s.maps.table)) + l.overwritten + l.rejected + l.deleted + InFlight(s.cpus, Unstored) == l.begun
  }

  /** Every size read by a free is counted for its pid, unattributed or in flight. */
  ghost predicate Counted(s: State, l: Ledger) {
    Sum(FreeBytes(s.maps.pids)) + l.unattributedFree + InFlight(s.cpus, Uncounted) == l.read
  }

  /** The sizes read and the sizes deleted differ by the phantom and the missed bytes. */
  ghost predicate Deleted(s: State, l: Ledger) {
    l.read + l.missed == l.deleted + l.phantom + InFlight(s.cpus, Undeleted)
  }

  ghost predicate Balanced(s: State, l: Ledger) {
    Attributed(s, l) && Stored(s, l) && Counted(s, l) && Deleted(s, l)
  }

  /** What a move does to the pid map's sums. */
  lemma PidSums(s: State, m: Move)
    requires Enabled(s, m) && PcFits(s.maps.pids, s.cpus[m.cpu])
    ensures var pids, pids', pc := s.maps.pids, Next(s, m).maps.pids, s.cpus[m.cpu];
            && Sum(AllocBytes(pids')) == Sum(AllocBytes(pids))
               + (if m.Begin? then 0
                  else if pc.AllocAddsBytes? then BytesOf(pc.e)
                  else if pc.AllocInserts? && pc.e.pid !in pids && |pids| < MAX_PID_ENTRIES then BytesOf(pc.e)
                  else 0)
            && Sum(FreeBytes(pids')) == Sum(FreeBytes(pids))
               + (if m.Advance? && pc.FreeAddsBytes? then pc.size else 0)
  {
    hide SizeToBucket, PutAny, Sum, AllocBytes, FreeBytes;
    var pids', pc := Next(s, m).maps.pids, s.cpus[m.cpu];
    if m.Advance? && !pc.Idle? && pc.e.pid in pids' {
      PidUpdateSums(s.maps.pids, pc.e.pid, pids'[pc.e.pid]);
    }
  }

  /** What a move does to the table's sum. */
  lemma TableSum(s: State, m: Move)
    requires Enabled(s, m) && PcFits(s.maps.pids, s.cpus[m.cpu])
    ensures var table, pc := s.maps.table, s.cpus[m.cpu];
            Sum(Sizes(Next(s, m).maps.table)) == Sum(Sizes(table))
            + (if m.Advance? && pc.AllocStores? then
                 (if HasRoom(s.maps, pc.e.ptr) then BytesOf(pc.e) else 0) as int - FreedSize(table, pc.e.ptr)
               else if m.Advance? && pc.FreeDeletes? then 0 as int - FreedSize(table, pc.e.ptr)
               else 0)
  {
    hide SizeToBucket, Sum, Sizes, AddCount, AddBytes;
    var pc := s.cpus[m.cpu];
    if m.Advance? && pc.AllocStores? {
      PutSum(s.maps.table, pc.e.ptr, InfoOf(pc.e));
    } else if m.Advance? && pc.FreeDeletes? {
      RemoveSum(s.maps.table, pc.e.ptr);
    }
  }

  lemma KeepsAttributed(s: State, l: Ledger, m: Move)
    requires Enabled(s, m) && PcFits(s.maps.pids, s.cpus[m.cpu]) && Attributed(s, l)
    ensures Attributed(Next(s, m), LedgerNext(s, l, m))
  {
    hide SizeToBucket, PutAny, Sum, AllocBytes, FreeBytes, Sizes, InFlight, AddCount, AddBytes, FreedSize, Submit;
    MoveFrame(s, m);
    InFlightUpdate(s.cpus, m.cpu, Next(s, m).cpus[m.cpu], Unattributed);
    PidSums(s, m);
  }

  /** What a move takes from the bytes in flight to the table, it adds there or to the corrections. */
  lemma StoredStep(s: State, l: Ledger, m: Move)
    requires Enabled(s, m) && PcFits(s.maps.pids, s.cpus[m.cpu])
    ensures var l', pc, pc' := LedgerNext(s, l, m), s.cpus[m.cpu], Next(s, m).cpus[m.cpu];
            l'.overwritten + l'.rejected + l'.deleted + Weight(pc', Unstored) + l.begun
            == l.overwritten + l.rejected + l.deleted + Weight(pc, Unstored) + l'.begun
               + (if m.Advance? && pc.AllocStores? then
                    FreedSize(s.maps.table, pc.e.ptr) as int - (if HasRoom(s.maps, pc.e.ptr) then BytesOf(pc.e) else 0)
                  else if m.Advance? && pc.FreeDeletes? then FreedSize(s.maps.table, pc.e.ptr)
                  else 0)
  {
    hide SizeToBucket, PutAny, AddCount, AddBytes, FreedSize, Submit, HasRoom;
  }

  lemma KeepsStored(s: State, l: Ledger, m: Move)
    requires Enabled(s, m) && PcFits(s.maps.pids, s.cpus[m.cpu]) && Stored(s, l)
    ensures Stored(Next(s, m), LedgerNext(s, l, m))
  {
    hide Next, LedgerNext, Sum, Sizes, InFlight, FreedSize, HasRoom, Weight;
    MoveFrame(s, m);
    InFlightUpdate(s.cpus, m.cpu, Next(s, m).cpus[m.cpu], Unstored);
    TableSum(s, m);
    StoredStep(s, l, m);
  }

  lemma KeepsCounted(s: State, l: Ledger, m: Move)
    requires Enabled(s, m) && PcFits(s.maps.pids, s.cpus[m.cpu]) && Counted(s, l)
    ensures Counted(Next(s, m), LedgerNext(s, l, m))
  {
    hide SizeToBucket, PutAny, Sum, AllocBytes, FreeBytes, Sizes, InFlight, AddCount, AddBytes, FreedSize, Submit;
    MoveFrame(s, m);
    InFlightUpdate(s.cpus, m.cpu, Next(s, m).cpus[m.cpu], Uncounted);
    PidSums(s, m);
  }

  /** Only frees that read or delete touch this account. */
  lemma OthersDeleteNothing(s: State, l: Ledger, m: Move)
    requires Enabled(s, m) && !HasRead(s.cpus[m.cpu]) && (m.Advance? ==> !s.cpus[m.cpu].FreeReadsSize?)
    ensures var l', pc' := LedgerNext(s, l, m), Next(s, m).cpus[m.cpu];
            && l'.read == l.read && l'.missed == l.missed && l'.deleted == l.deleted && l'.phantom == l.phantom
            && !HasRead(pc')
  {
    hide SizeToBucket, PutAny, AddCount, AddBytes, FreedSize, Submit, HasRoom;
  }

  /** A deletion settles the size read, up to the phantom and the missed bytes. */
  lemma DeletedStep(s: State, l: Ledger, m: Move)
    requires Enabled(s, m) && PcFits(s.maps.pids, s.cpus[m.cpu])
    ensures var l', pc, pc' := LedgerNext(s, l, m), s.cpus[m.cpu], Next(s, m).cpus[m.cpu];
            l'.read + l'.missed + Weight(pc, Undeleted) + l.deleted + l.phantom
            == l.read + l.missed + l'.deleted + l'.phantom + Weight(pc', Undeleted)
  {
    if !HasRead(s.cpus[m.cpu]) && (m.Advance? ==> !s.cpus[m.cpu].FreeReadsSize?) {
      OthersDeleteNothing(s, l, m);
      hide Next, LedgerNext;
    } else {
      hide SizeToBucket, PutAny, AddCount, AddBytes, FreedSize, Submit, HasRoom;
    }
  }

  lemma KeepsDeleted(s: State, l: Ledger, m: Move)
    requires Enabled(s, m) && PcFits(s.maps.pids, s.cpus[m.cpu]) && Deleted(s, l)
    ensures Deleted(Next(s, m), LedgerNext(s, l, m))
  {
    hide Next, LedgerNext, InFlight, Weight;
    MoveFrame(s, m);
    InFlightUpdate(s.cpus, m.cpu, Next(s, m).cpus[m.cpu], Undeleted);
    DeletedStep(s, l, m);
  }

  lemma MoveBalances(s: State, l: Ledger, m: Move)
    requires Enabled(s, m) && PcFits(s.maps.pids, s.cpus[m.cpu]) && Balanced(s, l)
    ensures Balanced(Next(s, m), LedgerNext(s, l, m))
  {
    hide Attributed, Stored, Counted, Deleted, Next, LedgerNext;
    KeepsAttributed(s, l, m);
    KeepsStored(s, l, m);
    KeepsCounted(s, l, m);
    KeepsDeleted(s, l, m);
  }

  // ---- Whole runs ----

  function LedgerOf(s: State, l: Ledger, moves: seq<Move>): Ledger
    requires Runs(s, moves)
    decreases |moves|
  {
    if moves == [] then l else LedgerOf(Next(s, moves[0]), LedgerNext(s, l, moves[0]), moves[1..])
  }

  const NO_BYTES := Ledger(0, 0, 0, 0, 0, 0, 0, 0, 0, 0)

  lemma StartBalances(target: uint32, handlers: nat)
    ensures Balanced(Start(target, handlers), NO_BYTES)
  {
    var cpus := Start(target, handlers).cpus;
    forall a
      ensures InFlight(cpus, a) == 0
    {
      NothingInFlight(cpus, a);
    }
    assert AllocBytes(map[]) == map[] && FreeBytes(map[]) == map[] && Sizes(map[]) == map[];
  }

  lemma {:induction false} RunBalances(s: State, l: Ledger, moves: seq<Move>)
    requires Runs(s, moves) && ShapeInv(s) && Balanced(s, l)
    ensures Balanced(Final(s, moves), LedgerOf(s, l, moves))
    decreases |moves|
  {
    hide Balanced, Next, LedgerNext;
    if moves != [] {
      MoveKeepsShape(s, moves[0]);
      MoveBalances(s, l, moves[0]);
      RunBalances(Next(s, moves[0]), LedgerNext(s, l, moves[0]), moves[1..]);
    }
  }

  /** The accounts hold in every state of every run, whatever the interleaving. */
  lemma BytesAccountedFor(target: uint32, handlers: nat, moves: seq<Move>)
    requires Runs(Start(target, handlers), moves)
    ensures Balanced(Final(Start(target, handlers), moves), LedgerOf(Start(target, handlers), NO_BYTES, moves))
  {
    StartBalances(target, handlers);
    StartInv(target, handlers);
    RunBalances(Start(target, handlers), NO_BYTES, moves);
  }

  /**
   * Conservation when no handler is in flight. Against the sequential ledger, the interleaving
   * adds the lost bytes, and the phantom and missed bytes of frees whose entry changed between
   * the reading of its size and its deletion.
   */
  lemma QuiescentBytes(target: uint32, handlers: nat, moves: seq<Move>)
    requires Runs(Start(target, handlers), moves)
    requires forall i | 0 <= i < |Final(Start(target, handlers), moves).cpus| ::
               Final(Start(target, handlers), moves).cpus[i].Idle?
    ensures var s := Final(Start(target, handlers), moves);
            var l := LedgerOf(Start(target, handlers), NO_BYTES, moves);
            Sum(AllocBytes(s.maps.pids)) + l.lost + l.unattributed + l.phantom
            == Sum(FreeBytes(s.maps.pids)) + l.unattributedFree
               + Sum(Sizes(s.maps.table)) + l.overwritten + l.rejected + l.missed
  {
    BytesAccountedFor(target, handlers, moves);
    hide Runs, Final, LedgerOf, Sum;
    var s := Final(Start(target, handlers), moves);
    forall a
      ensures InFlight(s.cpus, a) == 0
    {
      NothingInFlight(s.cpus, a);
    }
  }

  // ---- Handlers on different pointers ----

  /** No two handlers in flight work on one pointer. */
  ghost predicate PointersApart(s: State) {
    forall i, j | 0 <= i < j < |s.cpus| && !s.cpus[i].Idle? && !s.cpus[j].Idle? :: s.cpus[i].e.ptr != s.cpus[j].e.ptr
  }

  ghost predicate StaysApart(s: State, moves: seq<Move>)
    requires Runs(s, moves)
    decreases |moves|
  {
    PointersApart(s) && (moves != [] ==> StaysApart(Next(s, moves[0]), moves[1..]))
  }

  /** The sizes read by frees in flight are still those of the table. */
  ghost predicate ReadsHold(s: State) {
    forall i | 0 <= i < |s.cpus| && HasRead(s.cpus[i]) :: FreedSize(s.maps.table, s.cpus[i].e.ptr) == s.cpus[i].size
  }

  /** A move changes the table only at the pointer of its own handler. */
  lemma OnlyItsPointer(s: State, m: Move, ptr: nat)
    requires Enabled(s, m)
    requires m.Advance? && ptr == s.cpus[m.cpu].e.ptr ==> !s.cpus[m.cpu].AllocStores? && !s.cpus[m.cpu].FreeDeletes?
    ensures FreedSize(Next(s, m).maps.table, ptr) == FreedSize(s.maps.table, ptr)
  {
    hide SizeToBucket, AddCount, AddBytes;
  }

  /** The moving handler has just read its size, or keeps it until the deletion. */
  lemma MoverReads(s: State, m: Move)
    requires Enabled(s, m)
    requires var pc := s.cpus[m.cpu]; HasRead(pc) ==> FreedSize(s.maps.table, pc.e.ptr) == pc.size
    ensures var pc' := Next(s, m).cpus[m.cpu];
            HasRead(pc') ==> FreedSize(Next(s, m).maps.table, pc'.e.ptr) == pc'.size
  {
    hide SizeToBucket, AddCount, AddBytes, PutAny, FreedSize;
  }

  lemma ReadsStayRight(s: State, m: Move)
    requires Enabled(s, m) && PointersApart(s) && ReadsHold(s)
    ensures ReadsHold(Next(s, m))
  {
    var s' := Next(s, m);
    MoveFrame(s, m);
    MoverReads(s, m);
    hide Next, FreedSize;
    forall i | 0 <= i < |s'.cpus| && HasRead(s'.cpus[i])
      ensures FreedSize(s'.maps.table, s'.cpus[i].e.ptr) == s'.cpus[i].size
    {
      if i != m.cpu {
        OnlyItsPointer(s, m, s.cpus[i].e.ptr);
      }
    }
  }

  lemma {:induction false} RunStaysApart(s: State, l: Ledger, moves: seq<Move>)
    requires Runs(s, moves) && StaysApart(s, moves) && ReadsHold(s) && l.phantom == l.missed == 0
    ensures LedgerOf(s, l, moves).phantom == LedgerOf(s, l, moves).missed == 0
    decreases |moves|
  {
    if moves != [] {
      ReadsStayRight(s, moves[0]);
      RunStaysApart(Next(s, moves[0]), LedgerNext(s, l, moves[0]), moves[1..]);
    }
  }

  /** As long as no two handlers in flight work on one pointer, no byte is phantom or missed. */
  lemma ApartLosesNothing(target: uint32, handlers: nat, moves: seq<Move>)
    requires Runs(Start(target, handlers), moves) && StaysApart(Start(target, handlers), moves)
    ensures var l := LedgerOf(Start(target, handlers), NO_BYTES, moves); l.phantom == l.missed == 0
  {
    RunStaysApart(Start(target, handlers), NO_BYTES, moves);
  }

  // ---- Handlers on one pointer ----

  /** Some run of two handlers reaches this state with this history. */
  ghost predicate Reaches(s: State, l: Ledger) {
    exists moves ::
      && Runs(Start(0, 2), moves)
      && Final(Start(0, 2), moves) == s && LedgerOf(Start(0, 2), NO_BYTES, moves) == l
  }

  lemma {:induction false} LedgerThenMove(s: State, l: Ledger, moves: seq<Move>, m: Move)
    requires Runs(s, moves) && Enabled(Final(s, moves), m)
    ensures Runs(s, moves + [m])
    ensures LedgerOf(s, l, moves + [m]) == LedgerNext(Final(s, moves), LedgerOf(s, l, moves), m)
    decreases |moves|
  {
    hide Enabled, Next, LedgerNext;
    RunThenMove(s, moves, m);
    if moves == [] {
      assert ([m])[1..] == [];
    } else {
      LedgerThenMove(Next(s, moves[0]), LedgerNext(s, l, moves[0]), moves[1..], m);
      assert (moves + [m])[1..] == moves[1..] + [m];
    }
  }

  lemma Reach(s: State, l: Ledger, m: Move) returns (s': State, l': Ledger)
    requires Reaches(s, l) && Enabled(s, m)
    ensures Reaches(s', l') && s' == Next(s, m) && l' == LedgerNext(s, l, m)
  {
    hide Next, LedgerNext, Enabled;
    var moves :| Runs(Start(0, 2), moves) && Final(Start(0, 2), moves) == s
                 && LedgerOf(Start(0, 2), NO_BYTES, moves) == l;
    RunThenMove(Start(0, 2), moves, m);
    LedgerThenMove(Start(0, 2), NO_BYTES, moves, m);
    s', l' := Next(s, m), LedgerNext(s, l, m);
    assert Final(Start(0, 2), moves + [m]) == s';
  }

  /** The first handler has made the pid's entry. */
  lemma Attributes(p: uint32, x: nat) returns (s: State, l: Ledger)
    requires x > 0
    ensures Reaches(s, l) && l.phantom == 0 && s.maps.target == 0
    ensures s.cpus == [AllocBuckets(Alloc(1, x, p, 0, 0, true)), Idle]
    ensures s.maps.pids == map[p := PidStats(1, 0, x, 0)] && s.maps.table == map[]
  {
    var e := Alloc(1, x, p, 0, 0, true);
    s, l := Start(0, 2), NO_BYTES;
    assert Runs(s, []) && Final(s, []) == s && LedgerOf(s, l, []) == l;
    hide Reaches, SizeToBucket, Runs, Final, LedgerOf;
    assert s.cpus == [Idle, Idle];
    s, l := Reach(s, l, Begin(0, e));
    s, l := Reach(s, l, Advance(0));
    s, l := Reach(s, l, Advance(0));
  }

  /** And has recorded the allocation. */
  lemma Allocated(p: uint32, x: nat) returns (s: State, l: Ledger)
    requires x > 0
    ensures Reaches(s, l) && l.phantom == 0 && s.cpus == [Idle, Idle] && s.maps.target == 0
    ensures s.maps.pids == map[p := PidStats(1, 0, x, 0)] && s.maps.table == map[1 := AllocInfo(x, 0, p, 0)]
  {
    var e := Alloc(1, x, p, 0, 0, true);
    s, l := Attributes(p, x);
    hide Reaches, SizeToBucket;
    s, l := Reach(s, l, Advance(0));
    s, l := Reach(s, l, Advance(0));
    assert s.cpus == [Submits(e), Idle];
    hide Enabled, Next, LedgerNext;
    SubmitStep(s, l, 0, e);
    s, l := Reach(s, l, Advance(0));
  }

  /** Both handlers have read its size to free it. */
  lemma BothRead(p: uint32, x: nat) returns (s: State, l: Ledger)
    requires x > 0
    ensures Reaches(s, l) && l.phantom == 0 && s.maps.target == 0
    ensures var f := Free(1, p, true); s.cpus == [FreeLooksUp(f, x), FreeLooksUp(f, x)]
    ensures s.maps.pids == map[p := PidStats(1, 0, x, 0)] && s.maps.table == map[1 := AllocInfo(x, 0, p, 0)]
  {
    var f := Free(1, p, true);
    s, l := Allocated(p, x);
    hide Reaches;
    s, l := Reach(s, l, Begin(0, f));
    s, l := Reach(s, l, Begin(1, f));
    assert s.cpus == [FreeReadsSize(f), FreeReadsSize(f)];
    s, l := Reach(s, l, Advance(0));
    s, l := Reach(s, l, Advance(1));
  }

  /** One of them counts the size. */
  lemma CountsFree(s: State, l: Ledger, i: nat, f: Event, x: nat) returns (s': State, l': Ledger)
    requires Reaches(s, l) && i < |s.cpus| && s.cpus[i] == FreeLooksUp(f, x) && f.Free? && f.pid in s.maps.pids
    ensures Reaches(s', l') && s'.cpus == s.cpus[i := FreeDeletes(f, x)] && l'.phantom == l.phantom
    ensures s'.maps.table == s.maps.table
    ensures var ps := s.maps.pids[f.pid];
            s'.maps.pids == s.maps.pids[f.pid := ps.(freeCount := ps.freeCount + 1, totalFree := ps.totalFree + x)]
  {
    hide Reaches, SizeToBucket, PutAny, FreedSize, Submit, Insert;
    s', l' := Reach(s, l, Advance(i));
    assert s'.cpus == s.cpus[i := FreeAddsCount(f, x)] && s'.maps == s.maps && l'.phantom == l.phantom;
    s', l' := Reach(s', l', Advance(i));
    s', l' := Reach(s', l', Advance(i));
  }

  /** Then it deletes whatever is there and is done. */
  lemma DeletesFree(s: State, l: Ledger, i: nat, f: Event, x: nat) returns (s': State, l': Ledger)
    requires Reaches(s, l) && i < |s.cpus| && s.cpus[i] == FreeDeletes(f, x)
    ensures Reaches(s', l') && s'.cpus == s.cpus[i := Idle]
    ensures s'.maps.table == s.maps.table - {f.ptr} && s'.maps.pids == s.maps.pids
    ensures l'.phantom == l.phantom + Excess(x, FreedSize(s.maps.table, f.ptr))
  {
    hide Reaches, FreedSize, Enabled, Next, LedgerNext;
    DeleteStep(s, l, i, f, x);
    s', l' := Reach(s, l, Advance(i));
    SubmitStep(s', l', i, f);
    s', l' := Reach(s', l', Advance(i));
  }

  lemma DeleteStep(s: State, l: Ledger, i: nat, f: Event, x: nat)
    requires i < |s.cpus| && s.cpus[i] == FreeDeletes(f, x)
    ensures Enabled(s, Advance(i))
    ensures Next(s, Advance(i))
            == s.(maps := s.maps.(table := s.maps.table - {f.ptr}), cpus := s.cpus[i := Submits(f)])
    ensures LedgerNext(s, l, Advance(i)).phantom == l.phantom + Excess(x, FreedSize(s.maps.table, f.ptr))
  {
  }

  lemma SubmitStep(s: State, l: Ledger, i: nat, f: Event)
    requires i < |s.cpus| && s.cpus[i] == Submits(f)
    ensures Enabled(s, Advance(i))
    ensures Next(s, Advance(i)) == s.(maps := Submit(s.maps, f.reserved), cpus := s.cpus[i := Idle])
    ensures LedgerNext(s, l, Advance(i)) == l
  {
  }

  /**
   * Phantom bytes are really reached: when two frees of one pointer both read its size before either
   * deletes it, the size is counted twice and the pid ends with more freed than allocated, though it
   * never touched another's memory.
   */
  lemma SizeCountedTwice(p: uint32, x: nat) returns (s: State, l: Ledger)
    requires x > 0
    ensures Reaches(s, l) && s.cpus == [Idle, Idle] && s.maps.table == map[]
    ensures s.maps.pids == map[p := PidStats(1, 2, x, 2 * x)] && l.phantom == x
  {
    var f := Free(1, p, true);
    s, l := BothRead(p, x);
    hide Reaches;
    s, l := CountsFree(s, l, 0, f, x);
    s, l := DeletesFree(s, l, 0, f, x);
    s, l := CountsFree(s, l, 1, f, x);
    s, l := DeletesFree(s, l, 1, f, x);
  }
}
