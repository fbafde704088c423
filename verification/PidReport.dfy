/** The process report: the walk over the pid map, the comparison, and the processes shown. */
module PidReport {
  import opened MemSnoop
  import opened PidLedger
  import LeakStats
  import Sorting

  // ---- The comparison ----

  /** The bytes a process holds as the report sees them, in 64-bit unsigned arithmetic. */
  function Active(ps: PidStats): nat {
    Net(ps) % 0x1_0000_0000_0000_0000
  }

  /** Negative if a is shown before b. */
  function CmpPidEntry(a: PidStats, b: PidStats): int {
    if Active(b) > Active(a) then 1 else if Active(b) < Active(a) then -1 else 0
  }

  /** The comparison of what the processes really hold. */
  function CmpNet(a: PidStats, b: PidStats): int {
    if Net(b) > Net(a) then 1 else if Net(b) < Net(a) then -1 else 0
  }

  predicate Below63Bits(ps: PidStats) {
    ps.totalAlloc < 0x8000_0000_0000_0000 && ps.totalFree < 0x8000_0000_0000_0000
  }

  lemma ActiveOf(ps: PidStats)
    requires Below63Bits(ps)
    ensures Active(ps) == if OverFreed(ps) then Net(ps) + 0x1_0000_0000_0000_0000 else Net(ps)
  {
  }

  /** The report compares two processes rightly exactly if both or neither freed more than it allocated. */
  lemma OrderIsRightExactly(a: PidStats, b: PidStats)
    requires Below63Bits(a) && Below63Bits(b)
    ensures CmpPidEntry(a, b) == CmpNet(a, b) <==> (OverFreed(a) <==> OverFreed(b))
    ensures OverFreed(a) && !OverFreed(b) ==> CmpPidEntry(a, b) == -1 && CmpNet(a, b) == 1
  {
    ActiveOf(a);
    ActiveOf(b);
    hide Active;
  }

  /**
   * Three events after which the report puts a process that holds nothing, and freed another's
   * memory, before the one that allocated it.
   */
  lemma WrongOrderReached(a: uint32, b: uint32, x: nat)
    requires a != b && 1 < x < 0x8000_0000_0000_0000
    ensures var events := [Alloc(1, x, a, 0, 0, true), Alloc(2, 1, b, 0, 0, true), Free(1, b, true)];
            var pids := Replay(0, events).pids;
            && a in pids && b in pids
            && !OverFreed(pids[a]) && OverFreed(pids[b])
            && CmpPidEntry(pids[b], pids[a]) == -1 && CmpNet(pids[b], pids[a]) == 1
  {
    OnePidMayGoNegative(a, b, x);
    hide Replay;
    var events := [Alloc(1, x, a, 0, 0, true), Alloc(2, 1, b, 0, 0, true), Free(1, b, true)];
    var pids := Replay(0, events).pids;
    OrderIsRightExactly(pids[b], pids[a]);
  }

  // ---- The report ----

  datatype PidEntry = PidEntry(pid: nat, stats: PidStats)

  /** The entries along some keys; a key deleted in the meantime has none. */
  function EntriesAt(keys: seq<nat>, pids: map<uint32, PidStats>): seq<PidEntry> {
    if keys == [] then []
    else
      var key := keys[|keys| - 1];
      EntriesAt(keys[..|keys| - 1], pids) + if key in pids then [PidEntry(key, pids[key])] else []
  }

  lemma {:induction false} EntriesGrow(a: seq<nat>, b: seq<nat>, pids: map<uint32, PidStats>)
    ensures EntriesAt(a, pids) <= EntriesAt(a + b, pids)
  {
    if b == [] {
      assert a + b == a;
    } else {
      assert (a + b)[..|a + b| - 1] == a + b[..|b| - 1];
      EntriesGrow(a, b[..|b| - 1], pids);
    }
  }

  /** The entries the report has room for: the first ones of its walk. */
  function Collected(order: seq<nat>, pids: map<uint32, PidStats>): (entries: seq<PidEntry>)
    ensures |entries| <= LeakStats.MAX_DISPLAY_ENTRIES
  {
    var all := EntriesAt(LeakStats.Visited(order), pids);
    if |all| <= LeakStats.MAX_DISPLAY_ENTRIES then all else all[..LeakStats.MAX_DISPLAY_ENTRIES]
  }

  /** The keys that have an entry. */
  function Present(keys: seq<nat>, pids: map<uint32, PidStats>): set<nat> {
    set p | p in keys && p in pids
  }

  /** Along different keys the entries are those of the keys that have one, each once and with its numbers. */
  lemma {:induction false} EntriesOfKeys(keys: seq<nat>, pids: map<uint32, PidStats>)
    requires Sorting.NoRepeats(keys)
    ensures var entries := EntriesAt(keys, pids);
            && (forall e :: e in entries <==> e.pid in keys && e.pid in pids && e.stats == pids[e.pid])
            && (forall i, j | 0 <= i < j < |entries| :: entries[i].pid != entries[j].pid)
  {
    if keys != [] {
      var before, key := keys[..|keys| - 1], keys[|keys| - 1];
      EntriesOfKeys(before, pids);
      assert keys == before + [key];
      EntriesDiffer(EntriesAt(before, pids), key, pids);
    }
  }

  lemma {:induction false} EntriesCount(keys: seq<nat>, pids: map<uint32, PidStats>)
    requires Sorting.NoRepeats(keys)
    ensures |EntriesAt(keys, pids)| == |Present(keys, pids)|
  {
    if keys != [] {
      var before, key := keys[..|keys| - 1], keys[|keys| - 1];
      EntriesCount(before, pids);
      assert keys == before + [key];
      OneMorePresent(before, key, pids);
    }
  }

  lemma OneMorePresent(before: seq<nat>, key: nat, pids: map<uint32, PidStats>)
    requires key !in before
    ensures |Present(before + [key], pids)| == |Present(before, pids)| + if key in pids then 1 else 0
  {
    assert Present(before + [key], pids) == Present(before, pids) + if key in pids then {key} else {};
  }

  lemma EntriesDiffer(entries: seq<PidEntry>, key: nat, pids: map<uint32, PidStats>)
    requires forall i, j | 0 <= i < j < |entries| :: entries[i].pid != entries[j].pid
    requires forall e | e in entries :: e.pid != key
    ensures key in pids ==>
      var more := entries + [PidEntry(key, pids[key])];
      forall i, j | 0 <= i < j < |more| :: more[i].pid != more[j].pid
  {
  }

  lemma PartOfEntries(all: seq<PidEntry>, pids: map<uint32, PidStats>, keys: seq<nat>)
    requires |all| > 128 && forall i, j | 0 <= i < j < |all| :: all[i].pid != all[j].pid
    requires forall e | e in all :: e.pid in keys && e.pid in pids && e.stats == pids[e.pid]
    ensures var some := all[..128];
            && (forall e | e in some :: e.pid in keys && e.pid in pids && e.stats == pids[e.pid])
            && (forall i, j | 0 <= i < j < |some| :: some[i].pid != some[j].pid)
  {
  }

  /** Collected are pids of the map with their numbers, each at most once, and all if at most 128 are visited. */
  lemma CollectedExactly(order: seq<nat>, pids: map<uint32, PidStats>)
    requires Sorting.NoRepeats(order)
    ensures var entries, visited := Collected(order, pids), set p | p in LeakStats.Visited(order) && p in pids;
            && (forall e | e in entries :: e.pid in visited && e.stats == pids[e.pid])
            && (forall i, j | 0 <= i < j < |entries| :: entries[i].pid != entries[j].pid)
            && |entries| == (if |visited| <= 128 then |visited| else 128)
            && (|visited| <= 128 ==> forall p | p in visited :: PidEntry(p, pids[p]) in entries)
  {
    hide EntriesAt, LeakStats.NextPosition;
    var keys := LeakStats.Visited(order);
    EntriesOfKeys(keys, pids);
    EntriesCount(keys, pids);
    assert Present(keys, pids) == set p | p in LeakStats.Visited(order) && p in pids;
    hide Present, LeakStats.Visited;
    var all := EntriesAt(keys, pids);
    if |all| > 128 {
      PartOfEntries(all, pids, keys);
    } else {
      assert forall p | p in keys && p in pids :: PidEntry(p, pids[p]).pid == p;
    }
  }

  predicate InReportOrder(s: seq<PidEntry>) {
    forall i, j | 0 <= i < j < |s| :: CmpPidEntry(s[i].stats, s[j].stats) <= 0
  }

  /** What qsort may leave: the same entries in the report's order; equal ones in any order. */
  predicate SortedEntries(t: seq<PidEntry>, s: seq<PidEntry>) {
    InReportOrder(t) && multiset(t) == multiset(s) && |t| == |s|
  }

  lemma SomeSortedEntries(s: seq<PidEntry>)
    ensures exists t :: SortedEntries(t, s)
  {
    var key := (x: PidEntry) => -(Active(x.stats) as int);
    Sorting.SomeSortedPermutation(s, key);
    var t: seq<PidEntry> :| Sorting.SortedPermutation(t, s, key);
    assert forall i | 0 <= i < |t| :: key(t[i]) == -(Active(t[i].stats) as int);
    assert |multiset(t)| == |multiset(s)|;
    assert SortedEntries(t, s);
  }

  /**
   * In the report's order the over-freed processes come first, and within each of the two kinds
   * the order is that of the bytes really held.
   */
  lemma OverFreedComeFirst(s: seq<PidEntry>, i: nat, j: nat)
    requires InReportOrder(s) && i < j < |s| && Below63Bits(s[i].stats) && Below63Bits(s[j].stats)
    ensures OverFreed(s[j].stats) ==> OverFreed(s[i].stats)
    ensures (OverFreed(s[i].stats) <==> OverFreed(s[j].stats)) ==> Net(s[i].stats) >= Net(s[j].stats)
  {
    assert CmpPidEntry(s[i].stats, s[j].stats) <= 0;
    OrderIsRightExactly(s[i].stats, s[j].stats);
    OrderIsRightExactly(s[j].stats, s[i].stats);
  }

  /** What is printed: the beginning of the collected entries in the report's order. */
  ghost predicate ShowsTop(entries: seq<PidEntry>, topN: int, shown: seq<PidEntry>) {
    exists sorted :: SortedEntries(sorted, entries) && shown == sorted[..LeakStats.Shown(|entries|, topN)]
  }

  method PidStatsTop(order: seq<nat>, pids: map<uint32, PidStats>, topN: int)
    returns (shown: seq<PidEntry>, count: nat)
    requires Sorting.NoRepeats(order)
    ensures count == |Collected(order, pids)| && ShowsTop(Collected(order, pids), topN, shown)
    ensures |shown| == if topN < 0 then 0 else if topN < count then topN else count
  {
    hide EntriesAt, LeakStats.NextPosition, SortedEntries, Sorting.NoRepeats, ShowsTop;
    EntriesOfNone(pids);
    var entries := new PidEntry[LeakStats.MAX_DISPLAY_ENTRIES];
    var key: nat := 0;
    count := 0;
    ghost var start := LeakStats.NextPosition(order, 0);
    ghost var pos := start;
    assert order[start..start] == [];
    while true
      invariant start <= pos <= |order| && pos == LeakStats.NextPosition(order, key)
      invariant count <= entries.Length && entries[..count] == EntriesAt(order[start..pos], pids)
      decreases |order| - pos
    {
      var next := LeakStats.NextKey(order, key);
      if next.None? {
        break;
      }
      if count >= LeakStats.MAX_DISPLAY_ENTRIES {
        break;
      }
      LeakStats.NextIsSuccessor(order, pos);
      EntriesStep(order, start, pos, pids);
      key, pos := next.value, pos + 1;
      if key in pids {
        entries[count] := PidEntry(key, pids[key]);
        count := count + 1;
      }
    }
    WalkCollects(order, start, pos, pids);
    if count == 0 {
      NothingShown(topN);
      return [], 0;
    }
    shown := ShowTop(entries, count, topN);
  }

  lemma TopShown(sorted: seq<PidEntry>, before: seq<PidEntry>, topN: int, shown: seq<PidEntry>)
    requires SortedEntries(sorted, before) && shown == sorted[..LeakStats.Shown(|sorted|, topN)]
    ensures ShowsTop(before, topN, shown)
  {
  }

  /** Sorts the entries and returns those shown. */
  method ShowTop(entries: array<PidEntry>, count: nat, topN: int) returns (shown: seq<PidEntry>)
    requires count <= entries.Length
    modifies entries
    ensures ShowsTop(old(entries[..count]), topN, shown) && |shown| == LeakStats.Shown(count, topN)
  {
    hide ShowsTop, SortedEntries;
    ghost var before := entries[..count];
    Sort(entries, count);
    ghost var sorted := entries[..count];
    var display := if count < topN then count else topN;
    shown := [];
    var i := 0;
    while i < display
      invariant 0 <= i <= LeakStats.Shown(count, topN) && shown == sorted[..i]
    {
      shown := shown + [entries[i]];
      i := i + 1;
    }
    TopShown(sorted, before, topN, shown);
  }

  method Sort(entries: array<PidEntry>, count: nat)
    requires count <= entries.Length
    modifies entries
    ensures SortedEntries(entries[..count], old(entries[..count]))
  {
    var before := entries[..count];
    SomeSortedEntries(before);
    var sorted :| SortedEntries(sorted, before);
    forall i | 0 <= i < count {
      entries[i] := sorted[i];
    }
    assert entries[..count] == sorted;
  }

  /** A walk that ended at the last key, or for want of room, has collected the report's entries. */
  lemma WalkCollects(order: seq<nat>, start: nat, pos: nat, pids: map<uint32, PidStats>)
    requires start == LeakStats.NextPosition(order, 0) && start <= pos <= |order|
    ensures |EntriesAt(order[start..pos], pids)| == LeakStats.MAX_DISPLAY_ENTRIES
            || (pos == |order| && |EntriesAt(order[start..pos], pids)| < LeakStats.MAX_DISPLAY_ENTRIES)
            ==> Collected(order, pids) == EntriesAt(order[start..pos], pids)
  {
    EntriesGrow(order[start..pos], order[pos..], pids);
    assert order[start..pos] + order[pos..] == LeakStats.Visited(order);
    var some, all := EntriesAt(order[start..pos], pids), EntriesAt(LeakStats.Visited(order), pids);
    if pos == |order| {
      assert order[start..pos] == LeakStats.Visited(order);
    }
    assert some <= all;
    assert |some| == LeakStats.MAX_DISPLAY_ENTRIES ==> all[..LeakStats.MAX_DISPLAY_ENTRIES] == some;
  }

  lemma NothingShown(topN: int)
    ensures ShowsTop([], topN, [])
  {
    assert SortedEntries([], []);
  }

  lemma EntriesOfNone(pids: map<uint32, PidStats>)
    ensures EntriesAt([], pids) == []
  {
  }

  lemma EntriesStep(order: seq<nat>, start: nat, pos: nat, pids: map<uint32, PidStats>)
    requires start <= pos < |order|
    ensures EntriesAt(order[start..pos + 1], pids)
            == EntriesAt(order[start..pos], pids)
               + if order[pos] in pids then [PidEntry(order[pos], pids[order[pos]])] else []
  {
    assert order[start..pos + 1][..pos - start] == order[start..pos];
  }
}
