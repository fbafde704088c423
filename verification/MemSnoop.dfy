/**
 * The kernel-side accounting: kmalloc and kfree handlers over bounded maps, each handler taken
 * as one step. Counters are unbounded.
 */
module MemSnoop {
  import opened Options

  type uint32 = x: int | 0 <= x < 0x1_0000_0000

  const MAX_PID_ENTRIES := 10240
  const MAX_ALLOC_ENTRIES := 65536
  const NUM_HIST_BUCKETS := 8

  datatype AllocInfo = AllocInfo(size: nat, timestamp: nat, pid: uint32, stackId: int)

  datatype PidStats = PidStats(allocCount: nat, freeCount: nat, totalAlloc: nat, totalFree: nat)

  /** One call of a handler, with what its helpers return; reserved tells whether the event ring had room. */
  datatype Event =
    | Alloc(ptr: nat, bytes: nat, pid: uint32, timestamp: nat, stackId: int, reserved: bool)
    | Free(ptr: nat, pid: uint32, reserved: bool)

  /** The shared maps. The histogram is the sum over the CPUs. */
  datatype Maps = Maps(
    target: uint32, pids: map<uint32, PidStats>, table: map<nat, AllocInfo>, hist: seq<nat>,
    total: nat, dropped: nat)

  function EmptyMaps(target: uint32): Maps {
    Maps(target, map[], map[], seq(NUM_HIST_BUCKETS, _ => 0), 0, 0)
  }

  // ---- Size classes ----

  /** The largest size of bucket b: 64 bytes, then four times as much each time. */
  function BucketLimit(b: nat): nat {
    if b == 0 then 64 else 4 * BucketLimit(b - 1)
  }

  /** The buckets split the sizes at the limits; the last one is open. */
  function SizeToBucket(size: nat): (b: nat)
    ensures b < NUM_HIST_BUCKETS
    ensures b < 7 ==> size <= BucketLimit(b)
    ensures b > 0 ==> size > BucketLimit(b - 1)
  {
    assert BucketLimit(2) == 1024 && BucketLimit(4) == 16384 && BucketLimit(6) == 262144;
    if size <= 64 then 0
    else if size <= 256 then 1
    else if size <= 1024 then 2
    else if size <= 4096 then 3
    else if size <= 16384 then 4
    else if size <= 65536 then 5
    else if size <= 262144 then 6
    else 7
  }

  /** The limits in full. */
  lemma BucketLimits()
    ensures BucketLimit(0) == 64 && BucketLimit(1) == 256 && BucketLimit(2) == 1024 && BucketLimit(3) == 4096
    ensures BucketLimit(4) == 16384 && BucketLimit(5) == 65536 && BucketLimit(6) == 262144
  {
    assert BucketLimit(2) == 1024 && BucketLimit(4) == 16384;
  }

  // ---- Handlers ----

  predicate ShouldFilter(target: uint32, pid: uint32) {
    target != 0 && target != pid
  }

  /** The event is not ignored: a real pointer, a size for allocations, and the pid is not filtered. */
  predicate Handled(target: uint32, e: Event) {
    e.ptr != 0 && (e.Alloc? ==> e.bytes != 0) && !ShouldFilter(target, e.pid)
  }

  function InfoOf(e: Event): AllocInfo
    requires e.Alloc?
  {
    AllocInfo(e.bytes, e.timestamp, e.pid, e.stackId)
  }

  /** bpf_map_update_elem with BPF_ANY: replaces an entry, adds one only while there is room. */
  function PutAny<K, V>(m: map<K, V>, k: K, v: V, limit: nat): map<K, V> {
    if k in m || |m| < limit then m[k := v] else m
  }

  /** With BPF_NOEXIST: adds an entry only where there is none and while there is room. */
  function PutNew<K, V>(m: map<K, V>, k: K, v: V, limit: nat): map<K, V> {
    if k !in m && |m| < limit then m[k := v] else m
  }

  function CountAlloc(pids: map<uint32, PidStats>, pid: uint32, bytes: nat): map<uint32, PidStats> {
    if pid in pids then
      var ps := pids[pid];
      pids[pid := ps.(allocCount := ps.allocCount + 1, totalAlloc := ps.totalAlloc + bytes)]
    else PutNew(pids, pid, PidStats(1, 0, bytes, 0), MAX_PID_ENTRIES)
  }

  function CountFree(pids: map<uint32, PidStats>, pid: uint32, bytes: nat): map<uint32, PidStats> {
    if pid in pids then
      var ps := pids[pid];
      pids[pid := ps.(freeCount := ps.freeCount + 1, totalFree := ps.totalFree + bytes)]
    else pids
  }

  /** The size a free reports: that of the live entry, or zero. */
  function FreedSize(table: map<nat, AllocInfo>, ptr: nat): nat {
    if ptr in table then table[ptr].size else 0
  }

  function Submit(m: Maps, reserved: bool): Maps {
    if reserved then m.(total := m.total + 1) else m.(dropped := m.dropped + 1)
  }

  /** The effect of one event on the maps. */
  function Handle(m: Maps, e: Event): Maps {
    if !Handled(m.target, e) then m
    else match e
      case Alloc(ptr, bytes, pid, _, _, reserved) =>
        var b := SizeToBucket(bytes);
        Submit(m.(pids := CountAlloc(m.pids, pid, bytes),
                  hist := if b < |m.hist| then m.hist[b := m.hist[b] + 1] else m.hist,
                  table := PutAny(m.table, ptr, InfoOf(e), MAX_ALLOC_ENTRIES)), reserved)
      case Free(ptr, pid, reserved) =>
        Submit(m.(pids := CountFree(m.pids, pid, FreedSize(m.table, ptr)), table := m.table - {ptr}), reserved)
  }

  /** The maps after a run of events, from empty maps. */
  function Replay(target: uint32, events: seq<Event>): Maps {
    if events == [] then EmptyMaps(target) else Handle(Replay(target, events[..|events| - 1]), events[|events| - 1])
  }

  /** The maps as the handlers update them. */
  class MemSnoopMaps {
    var target: uint32
    var pids: map<uint32, PidStats>
    var table: map<nat, AllocInfo>
    var hist: seq<nat>
    var total: nat
    var dropped: nat

    ghost function View(): Maps
      reads this
    {
      Maps(target, pids, table, hist, total, dropped)
    }

    ghost predicate Valid()
      reads this
    {
      |hist| == NUM_HIST_BUCKETS
    }

    constructor (target: uint32)
      ensures Valid() && View() == EmptyMaps(target)
    {
      this.target := target;
      pids, table, hist, total, dropped := map[], map[], seq(NUM_HIST_BUCKETS, _ => 0), 0, 0;
    }

    method UpdateStats(reserved: bool)
      modifies this`total, this`dropped
      ensures View() == Submit(old(View()), reserved)
    {
      if reserved {
        total := total + 1;
      } else {
        dropped := dropped + 1;
      }
    }

    method TraceAlloc(ptr: nat, bytes: nat, pid: uint32, timestamp: nat, stackId: int, reserved: bool)
      requires Valid()
      modifies this`pids, this`table, this`hist, this`total, this`dropped
      ensures Valid() && View() == Handle(old(View()), Alloc(ptr, bytes, pid, timestamp, stackId, reserved))
    {
      if bytes == 0 || ptr == 0 {
        return;
      }
      if ShouldFilter(target, pid) {
        return;
      }
      if pid in pids {
        var ps := pids[pid];
        pids := pids[pid := ps.(allocCount := ps.allocCount + 1, totalAlloc := ps.totalAlloc + bytes)];
      } else {
        pids := PutNew(pids, pid, PidStats(1, 0, bytes, 0), MAX_PID_ENTRIES);
      }
      var bucket := SizeToBucket(bytes);
      hist := hist[bucket := hist[bucket] + 1];
      table := PutAny(table, ptr, AllocInfo(bytes, timestamp, pid, stackId), MAX_ALLOC_ENTRIES);
      UpdateStats(reserved);
    }

    method TraceFree(ptr: nat, pid: uint32, reserved: bool) returns (reported: Option<nat>)
      requires Valid()
      modifies this`pids, this`table, this`total, this`dropped
      ensures Valid() && View() == Handle(old(View()), Free(ptr, pid, reserved))
      ensures reported == if Handled(target, Free(ptr, pid, reserved)) && reserved
                          then Some(FreedSize(old(table), ptr)) else None
    {
      if ptr == 0 {
        return None;
      }
      if ShouldFilter(target, pid) {
        return None;
      }
      var freedSize := 0;
      if ptr in table {
        freedSize := table[ptr].size;
      }
      if pid in pids {
        var ps := pids[pid];
        pids := pids[pid := ps.(freeCount := ps.freeCount + 1, totalFree := ps.totalFree + freedSize)];
      }
      table := table - {ptr};
      UpdateStats(reserved);
      reported := if reserved then Some(freedSize) else None;
    }
  }

  // ---- The table is a replay ----

  function Init(events: seq<Event>): seq<Event>
    requires events != []
  {
    events[..|events| - 1]
  }

  function Last(events: seq<Event>): Event
    requires events != []
  {
    events[|events| - 1]
  }

  /** The table had room for the pointer, or already knew it. */
  predicate HasRoom(m: Maps, ptr: nat) {
    ptr in m.table || |m.table| < MAX_ALLOC_ENTRIES
  }

  /**
   * What the run says about one pointer: the information of its last handled event if that was
   * an allocation the table had room for, nothing otherwise.
   */
  function LiveInfo(target: uint32, events: seq<Event>, ptr: nat): Option<AllocInfo>
    decreases |events|
  {
    if events == [] then None
    else
      var e, before := Last(events), Init(events);
      if !Handled(target, e) || e.ptr != ptr then LiveInfo(target, before, ptr)
      else if e.Alloc? && HasRoom(Replay(target, before), ptr) then Some(InfoOf(e))
      else None
  }

  lemma PutAnyBound<K, V>(m: map<K, V>, k: K, v: V, limit: nat)
    requires |m| <= limit
    ensures |PutAny(m, k, v, limit)| <= limit
  {
    if k in m {
      assert m[k := v].Keys == m.Keys;
    } else {
      assert m[k := v].Keys == m.Keys + {k};
    }
  }

  lemma RemoveBound<K, V>(m: map<K, V>, k: K)
    ensures |m - {k}| <= |m|
  {
    assert m.Keys == (m - {k}).Keys + (m.Keys * {k});
  }

  /** What one event does to the table. */
  lemma HandleTable(m: Maps, e: Event)
    ensures Handle(m, e).target == m.target
    ensures Handle(m, e).table ==
            if !Handled(m.target, e) then m.table
            else if e.Alloc? then PutAny(m.table, e.ptr, InfoOf(e), MAX_ALLOC_ENTRIES)
            else m.table - {e.ptr}
  {
  }

  /** The table never exceeds its capacity and never holds pointer 0. */
  lemma {:induction false} TableBounded(target: uint32, events: seq<Event>)
    ensures var m := Replay(target, events);
            m.target == target && 0 !in m.table && |m.table| <= MAX_ALLOC_ENTRIES
    decreases |events|
  {
    if events != [] {
      TableBounded(target, Init(events));
      var m, e := Replay(target, Init(events)), Last(events);
      HandleTable(m, e);
      hide Handle, Replay;
      if e.Alloc? {
        PutAnyBound(m.table, e.ptr, InfoOf(e), MAX_ALLOC_ENTRIES);
      } else {
        RemoveBound(m.table, e.ptr);
      }
      assert Replay(target, events) == Handle(m, e) by { ReplayStep(target, events); }
    }
  }

  lemma ReplayStep(target: uint32, events: seq<Event>)
    requires events != []
    ensures Replay(target, events) == Handle(Replay(target, Init(events)), Last(events))
  {
  }

  lemma {:induction false} TableAt(target: uint32, events: seq<Event>, ptr: nat)
    ensures var table := Replay(target, events).table;
            LiveInfo(target, events, ptr) == if ptr in table then Some(table[ptr]) else None
    decreases |events|
  {
    if events != [] {
      hide Handle, Replay;
      TableAt(target, Init(events), ptr);
      TableBounded(target, Init(events));
      ReplayStep(target, events);
      HandleTable(Replay(target, Init(events)), Last(events));
    } else {
      assert Replay(target, []) == EmptyMaps(target);
    }
  }

  /**
   * After any run the table holds exactly the live pointers, each with the size, time, pid and
   * stack of its last allocation; pointer 0 is never there and the capacity is never exceeded.
   */
  lemma TableIsReplay(target: uint32, events: seq<Event>)
    ensures var table := Replay(target, events).table;
            && (forall ptr: nat :: ptr in table <==> LiveInfo(target, events, ptr).Some?)
            && (forall ptr: nat | ptr in table :: Some(table[ptr]) == LiveInfo(target, events, ptr))
            && 0 !in table && |table| <= MAX_ALLOC_ENTRIES
  {
    TableBounded(target, events);
    hide Replay, LiveInfo;
    forall ptr: nat
      ensures var table := Replay(target, events).table;
              LiveInfo(target, events, ptr) == if ptr in table then Some(table[ptr]) else None
    {
      TableAt(target, events, ptr);
    }
  }

  /** No allocation of the run met a full table. */
  predicate NeverFull(target: uint32, events: seq<Event>)
    decreases |events|
  {
    events == [] ||
    (NeverFull(target, Init(events)) &&
     (Handled(target, Last(events)) && Last(events).Alloc? ==> HasRoom(Replay(target, Init(events)), Last(events).ptr)))
  }

  /** Index i is the last handled event of the pointer. */
  predicate LastEventOf(target: uint32, events: seq<Event>, ptr: nat, i: nat) {
    && i < |events| && Handled(target, events[i]) && events[i].ptr == ptr
    && forall k | i < k < |events| && Handled(target, events[k]) :: events[k].ptr != ptr
  }

  lemma {:induction false} LiveInfoIsLast(target: uint32, events: seq<Event>, ptr: nat, i: nat)
    requires NeverFull(target, events) && LastEventOf(target, events, ptr, i)
    ensures LiveInfo(target, events, ptr) == if events[i].Alloc? then Some(InfoOf(events[i])) else None
    decreases |events|
  {
    if i < |events| - 1 {
      LiveInfoIsLast(target, Init(events), ptr, i);
    }
  }

  /** Below capacity a pointer is in the table exactly when its last handled event allocated it. */
  lemma LiveIffLastAllocated(target: uint32, events: seq<Event>, ptr: nat, i: nat)
    requires NeverFull(target, events) && LastEventOf(target, events, ptr, i)
    ensures var table := Replay(target, events).table;
            && (ptr in table <==> events[i].Alloc?)
            && (ptr in table ==>
                  table[ptr] == AllocInfo(events[i].bytes, events[i].timestamp, events[i].pid, events[i].stackId))
  {
    LiveInfoIsLast(target, events, ptr, i);
    TableIsReplay(target, events);
  }

  /** Below capacity a free reports the size of the pointer's last allocation, or zero if it was freed since. */
  lemma FreeReportsLastSize(target: uint32, events: seq<Event>, ptr: nat, i: nat)
    requires NeverFull(target, events) && LastEventOf(target, events, ptr, i)
    ensures FreedSize(Replay(target, events).table, ptr) == if events[i].Alloc? then events[i].bytes else 0
  {
    LiveIffLastAllocated(target, events, ptr, i);
  }

  /** No handled event of the run is about the pointer. */
  predicate NeverSeen(target: uint32, events: seq<Event>, ptr: nat) {
    forall e | e in events && Handled(target, e) :: e.ptr != ptr
  }

  /** A pointer the run never handled is not in the table, and its free reports nothing. */
  lemma {:induction false} NeverSeenIsAbsent(target: uint32, events: seq<Event>, ptr: nat)
    requires NeverSeen(target, events, ptr)
    ensures ptr !in Replay(target, events).table && FreedSize(Replay(target, events).table, ptr) == 0
    decreases |events|
  {
    if events != [] {
      NeverSeenIsAbsent(target, Init(events), ptr);
      TableBounded(target, Init(events));
      ReplayStep(target, events);
      assert Last(events) in events && forall e | e in Init(events) :: e in events;
      HandleTable(Replay(target, Init(events)), Last(events));
      hide Handle, Replay;
    }
  }

  // ---- The filter and the capacities ----

  /** With a target pid only that pid is ever recorded; without one every pid is. */
  lemma {:induction false} OnlyTheTarget(target: uint32, events: seq<Event>)
    ensures var m := Replay(target, events);
            && m.target == target
            && (target != 0 ==> (forall p | p in m.pids :: p == target)
                                && forall ptr | ptr in m.table :: m.table[ptr].pid == target)
    decreases |events|
  {
    if events == [] {
      ReplayEmpty(target);
    } else {
      OnlyTheTarget(target, Init(events));
      ReplayStep(target, events);
      var m, e := Replay(target, Init(events)), Last(events);
      if Handled(m.target, e) {
        HandleMaps(m, e);
        hide Handle, Replay;
      }
    }
  }

  /** Exactly these events are recorded; all others change nothing. */
  lemma HandledExactly(m: Maps, e: Event)
    ensures Handled(m.target, e)
            <==> e.ptr != 0 && (e.Alloc? ==> e.bytes > 0) && (m.target == 0 || m.target == e.pid)
    ensures !Handled(m.target, e) ==> Handle(m, e) == m
    ensures Handled(m.target, e) ==> Handle(m, e).total + Handle(m, e).dropped == m.total + m.dropped + 1
  {
    hide SizeToBucket, CountAlloc, CountFree, PutAny;
  }

  /** A handled allocation is recorded unless the table holds 65536 other pointers. */
  lemma RecordedUnlessFull(m: Maps, e: Event)
    requires e.Alloc? && Handled(m.target, e)
    ensures var table := Handle(m, e).table;
            if e.ptr in m.table || |m.table| < 65536 then
              e.ptr in table && table[e.ptr] == AllocInfo(e.bytes, e.timestamp, e.pid, e.stackId)
            else table == m.table
  {
    HandleMaps(m, e);
    hide Handle;
  }

  /** And its pid gets an entry unless the map holds 10240 other pids. */
  lemma AttributedUnlessFull(m: Maps, e: Event)
    requires e.Alloc? && Handled(m.target, e)
    ensures var pids := Handle(m, e).pids;
            if e.pid in m.pids || |m.pids| < 10240 then
              var before := if e.pid in m.pids then m.pids[e.pid] else PidStats(0, 0, 0, 0);
              && e.pid in pids
              && pids[e.pid] == PidStats(before.allocCount + 1, before.freeCount,
                                         before.totalAlloc + e.bytes, before.totalFree)
            else pids == m.pids
  {
    HandleMaps(m, e);
    hide Handle;
  }

  // ---- Event counts ----

  /** The handled events whose ring reservation succeeded, or failed. */
  function HandledCount(target: uint32, events: seq<Event>, reserved: bool): nat
    decreases |events|
  {
    if events == [] then 0
    else
      HandledCount(target, Init(events), reserved)
      + (if Handled(target, Last(events)) && Last(events).reserved == reserved then 1 else 0)
  }

  function AllocsIn(target: uint32, events: seq<Event>, bucket: nat): nat
    decreases |events|
  {
    if events == [] then 0
    else
      var e := Last(events);
      AllocsIn(target, Init(events), bucket)
      + (if Handled(target, e) && e.Alloc? && SizeToBucket(e.bytes) == bucket then 1 else 0)
  }

  lemma HandleCounts(m: Maps, e: Event)
    requires |m.hist| == NUM_HIST_BUCKETS
    ensures var m' := Handle(m, e);
            && m'.total == m.total + (if Handled(m.target, e) && e.reserved then 1 else 0)
            && m'.dropped == m.dropped + (if Handled(m.target, e) && !e.reserved then 1 else 0)
            && |m'.hist| == NUM_HIST_BUCKETS
            && forall b | 0 <= b < NUM_HIST_BUCKETS ::
                 m'.hist[b] == m.hist[b]
                              + (if Handled(m.target, e) && e.Alloc? && SizeToBucket(e.bytes) == b then 1 else 0)
  {
    hide SizeToBucket, CountAlloc, CountFree, PutAny;
  }

  /**
   * Every handled event is counted, as submitted exactly if its reservation succeeded, and every
   * allocation in its bucket.
   */
  lemma {:induction false} CountsAreExact(target: uint32, events: seq<Event>)
    ensures var m := Replay(target, events);
            && m.total == HandledCount(target, events, true) && m.dropped == HandledCount(target, events, false)
            && m.target == target
            && |m.hist| == NUM_HIST_BUCKETS
            && forall b | 0 <= b < NUM_HIST_BUCKETS :: m.hist[b] == AllocsIn(target, events, b)
    decreases |events|
  {
    if events != [] {
      CountsAreExact(target, Init(events));
      HandleTable(Replay(target, Init(events)), Last(events));
      HandleCounts(Replay(target, Init(events)), Last(events));
      hide Handle, SizeToBucket;
    }
  }

  // ---- Bytes ----

  /** The sum of a value over all entries of a map. */
  ghost function Sum<K>(m: map<K, nat>): nat
    decreases |m|
  {
    if m == map[] then 0
    else
      var k :| k in m;
      RemoveShrinks(m, k);
      m[k] + Sum(m - {k})
  }

  lemma RemoveShrinks<K, V>(m: map<K, V>, k: K)
    requires k in m
    ensures |m - {k}| < |m|
  {
    assert m.Keys == (m - {k}).Keys + {k};
  }

  /** The sum does not depend on the entry taken first. */
  lemma {:induction false} SumSplits<K>(m: map<K, nat>, k: K)
    requires k in m
    ensures Sum(m) == m[k] + Sum(m - {k})
    decreases |m|
  {
    var first :| first in m && Sum(m) == m[first] + Sum(m - {first});
    if first != k {
      RemoveShrinks(m, first);
      RemoveShrinks(m, k);
      SumSplits(m - {first}, k);
      SumSplits(m - {k}, first);
      assert m - {first} - {k} == m - {k} - {first};
    }
  }

  lemma SumUpdate<K>(m: map<K, nat>, k: K, v: nat)
    ensures Sum(m[k := v]) == Sum(m) + v - (if k in m then m[k] else 0)
  {
    SumSplits(m[k := v], k);
    assert m[k := v] - {k} == m - {k};
    if k in m {
      SumSplits(m, k);
    } else {
      assert m - {k} == m;
    }
  }

  lemma SumRemove<K>(m: map<K, nat>, k: K)
    ensures Sum(m - {k}) == Sum(m) - (if k in m then m[k] else 0)
  {
    if k in m {
      SumSplits(m, k);
    } else {
      assert m - {k} == m;
    }
  }

  function AllocBytes(pids: map<uint32, PidStats>): map<uint32, nat> {
    map p | p in pids :: pids[p].totalAlloc
  }

  function FreeBytes(pids: map<uint32, PidStats>): map<uint32, nat> {
    map p | p in pids :: pids[p].totalFree
  }

  function Sizes(table: map<nat, AllocInfo>): map<nat, nat> {
    map p | p in table :: table[p].size
  }

  /**
   * Bytes the per-pid sums and the table do not show: allocations and frees of pids without an
   * entry, entries that a second allocation of the same pointer replaced, allocations rejected
   * by a full table.
   */
  datatype Corrections = Corrections(unattributedAlloc: nat, unattributedFree: nat, overwritten: nat, rejected: nat)

  function CorrectionsAfter(m: Maps, c: Corrections, e: Event): Corrections {
    if !Handled(m.target, e) then c
    else if e.Alloc? then
      c.(unattributedAlloc := c.unattributedAlloc
                              + (if e.pid !in m.pids && |m.pids| >= MAX_PID_ENTRIES then e.bytes else 0),
         overwritten := c.overwritten + FreedSize(m.table, e.ptr),
         rejected := c.rejected + (if HasRoom(m, e.ptr) then 0 else e.bytes))
    else
      c.(unattributedFree := c.unattributedFree + (if e.pid in m.pids then 0 else FreedSize(m.table, e.ptr)))
  }

  function CorrectionsOf(target: uint32, events: seq<Event>): Corrections
    decreases |events|
  {
    if events == [] then Corrections(0, 0, 0, 0)
    else CorrectionsAfter(Replay(target, Init(events)), CorrectionsOf(target, Init(events)), Last(events))
  }

  ghost predicate Balanced(m: Maps, c: Corrections) {
    Sum(AllocBytes(m.pids)) + c.unattributedAlloc
    == Sum(FreeBytes(m.pids)) + c.unattributedFree + Sum(Sizes(m.table)) + c.overwritten + c.rejected
  }

  lemma PidUpdateSums(pids: map<uint32, PidStats>, pid: uint32, ps: PidStats)
    ensures Sum(AllocBytes(pids[pid := ps])) ==
            Sum(AllocBytes(pids)) + ps.totalAlloc - (if pid in pids then pids[pid].totalAlloc else 0)
    ensures Sum(FreeBytes(pids[pid := ps])) ==
            Sum(FreeBytes(pids)) + ps.totalFree - (if pid in pids then pids[pid].totalFree else 0)
  {
    hide Sum;
    SumUpdate(AllocBytes(pids), pid, ps.totalAlloc);
    SumUpdate(FreeBytes(pids), pid, ps.totalFree);
    assert AllocBytes(pids[pid := ps]) == AllocBytes(pids)[pid := ps.totalAlloc];
    assert FreeBytes(pids[pid := ps]) == FreeBytes(pids)[pid := ps.totalFree];
  }

  lemma CountAllocSums(pids: map<uint32, PidStats>, pid: uint32, bytes: nat)
    ensures var pids' := CountAlloc(pids, pid, bytes);
            && Sum(AllocBytes(pids')) ==
               Sum(AllocBytes(pids)) + (if pid !in pids && |pids| >= MAX_PID_ENTRIES then 0 else bytes)
            && Sum(FreeBytes(pids')) == Sum(FreeBytes(pids))
  {
    hide Sum, AllocBytes, FreeBytes;
    var pids' := CountAlloc(pids, pid, bytes);
    if pid in pids' {
      PidUpdateSums(pids, pid, pids'[pid]);
    }
  }

  lemma CountFreeSums(pids: map<uint32, PidStats>, pid: uint32, bytes: nat)
    ensures var pids' := CountFree(pids, pid, bytes);
            && Sum(FreeBytes(pids')) == Sum(FreeBytes(pids)) + (if pid in pids then bytes else 0)
            && Sum(AllocBytes(pids')) == Sum(AllocBytes(pids))
  {
    hide Sum, AllocBytes, FreeBytes;
    var pids' := CountFree(pids, pid, bytes);
    if pid in pids {
      PidUpdateSums(pids, pid, pids'[pid]);
    }
  }

  lemma PutSum(table: map<nat, AllocInfo>, ptr: nat, info: AllocInfo)
    ensures Sum(Sizes(PutAny(table, ptr, info, MAX_ALLOC_ENTRIES))) ==
            Sum(Sizes(table)) - FreedSize(table, ptr)
            + (if ptr in table || |table| < MAX_ALLOC_ENTRIES then info.size else 0)
  {
    if ptr in table || |table| < MAX_ALLOC_ENTRIES {
      SumUpdate(Sizes(table), ptr, info.size);
      assert Sizes(table[ptr := info]) == Sizes(table)[ptr := info.size];
    }
  }

  lemma RemoveSum(table: map<nat, AllocInfo>, ptr: nat)
    ensures Sum(Sizes(table - {ptr})) == Sum(Sizes(table)) - FreedSize(table, ptr)
  {
    SumRemove(Sizes(table), ptr);
    assert Sizes(table - {ptr}) == Sizes(table) - {ptr};
  }

  /** One event keeps the balance. */
  lemma HandleBalances(m: Maps, c: Corrections, e: Event)
    requires Balanced(m, c)
    ensures Balanced(Handle(m, e), CorrectionsAfter(m, c, e))
  {
    if Handled(m.target, e) {
      HandleMaps(m, e);
      hide Handle;
      if e.Alloc? {
        CountAllocSums(m.pids, e.pid, e.bytes);
        PutSum(m.table, e.ptr, InfoOf(e));
      } else {
        CountFreeSums(m.pids, e.pid, FreedSize(m.table, e.ptr));
        RemoveSum(m.table, e.ptr);
      }
      hide Sum, CountAlloc, CountFree, PutAny, SizeToBucket;
    }
  }

  /**
   * Conservation over every run: what the pids allocated plus the unattributed allocations is
   * what they freed plus the unattributed frees, the live bytes, the overwritten and the
   * rejected bytes. Frees count for the freeing pid, so this holds only for all pids together.
   */
  lemma {:induction false} BytesConserved(target: uint32, events: seq<Event>)
    ensures Balanced(Replay(target, events), CorrectionsOf(target, events))
    decreases |events|
  {
    if events == [] {
      assert AllocBytes(map[]) == map[] && FreeBytes(map[]) == map[] && Sizes(map[]) == map[];
    } else {
      BytesConserved(target, Init(events));
      HandleBalances(Replay(target, Init(events)), CorrectionsOf(target, Init(events)), Last(events));
    }
  }

  /** Without corrections the net bytes of all pids are exactly the live bytes. */
  lemma NetIsLive(target: uint32, events: seq<Event>)
    requires CorrectionsOf(target, events) == Corrections(0, 0, 0, 0)
    ensures var m := Replay(target, events);
            Sum(AllocBytes(m.pids)) - Sum(FreeBytes(m.pids)) == Sum(Sizes(m.table))
  {
    BytesConserved(target, events);
  }

  /** Two pids with one live allocation each. */
  lemma TwoOwners(a: uint32, b: uint32, x: nat)
    requires a != b && x > 0
    ensures var events := [Alloc(1, x, a, 0, 0, true), Alloc(2, 1, b, 0, 0, true)];
            var m := Replay(0, events);
            && m.target == 0 && CorrectionsOf(0, events) == Corrections(0, 0, 0, 0)
            && m.pids == map[a := PidStats(1, 0, x, 0), b := PidStats(1, 0, 1, 0)]
            && m.table == map[1 := AllocInfo(x, 0, a, 0), 2 := AllocInfo(1, 0, b, 0)]
  {
    var e0, e1 := Alloc(1, x, a, 0, 0, true), Alloc(2, 1, b, 0, 0, true);
    assert Init([e0]) == [] && Init([e0, e1]) == [e0];
    ReplayEmpty(0);
    ReplayStep(0, [e0]);
    ReplayStep(0, [e0, e1]);
    hide Handle, SizeToBucket, Replay;
    HandleMaps(EmptyMaps(0), e0);
    var m1 := Replay(0, [e0]);
    assert m1.pids == map[a := PidStats(1, 0, x, 0)] && m1.table == map[1 := InfoOf(e0)];
    assert CorrectionsOf(0, []) == Corrections(0, 0, 0, 0);
    assert CorrectionsOf(0, [e0]) == Corrections(0, 0, 0, 0);
    HandleMaps(m1, e1);
  }

  /** A single pid can free more than it allocated: its frees of another's memory count for it. */
  lemma OnePidMayGoNegative(a: uint32, b: uint32, x: nat)
    requires a != b && x > 1
    ensures var events := [Alloc(1, x, a, 0, 0, true), Alloc(2, 1, b, 0, 0, true), Free(1, b, true)];
            var pids := Replay(0, events).pids;
            && CorrectionsOf(0, events) == Corrections(0, 0, 0, 0)
            && pids == map[a := PidStats(1, 0, x, 0), b := PidStats(1, 1, 1, x)]
            && pids[b].totalFree > pids[b].totalAlloc
  {
    var before, e := [Alloc(1, x, a, 0, 0, true), Alloc(2, 1, b, 0, 0, true)], Free(1, b, true);
    var events := before + [e];
    assert Init(events) == before && Last(events) == e;
    assert events == [before[0], before[1], e];
    TwoOwners(a, b, x);
    ReplayStep(0, events);
    assert CorrectionsOf(0, events) == CorrectionsAfter(Replay(0, before), CorrectionsOf(0, before), e);
    hide Handle, Replay;
    HandleMaps(Replay(0, before), e);
  }

  lemma ReplayEmpty(target: uint32)
    ensures Replay(target, []) == EmptyMaps(target)
  {
  }

  /** The two maps an event changes. */
  lemma HandleMaps(m: Maps, e: Event)
    requires Handled(m.target, e)
    ensures var m' := Handle(m, e);
            && m'.target == m.target
            && m'.pids == (if e.Alloc? then CountAlloc(m.pids, e.pid, e.bytes)
                           else CountFree(m.pids, e.pid, FreedSize(m.table, e.ptr)))
            && m'.table == (if e.Alloc? then PutAny(m.table, e.ptr, InfoOf(e), MAX_ALLOC_ENTRIES)
                            else m.table - {e.ptr})
  {
  }
}
