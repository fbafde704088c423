/** One process at a time: where the bytes of a pid went, and when its net bytes are its live bytes. */
module PidLedger {
  import opened MemSnoop

  // ---- Live bytes of a pid ----

  /** The size of the entry of a pointer if this pid made it, zero otherwise. */
  function OwnedSize(table: map<nat, AllocInfo>, ptr: nat, p: uint32): nat {
    if ptr in table && table[ptr].pid == p then table[ptr].size else 0
  }

  function OwnedSizes(table: map<nat, AllocInfo>, p: uint32): map<nat, nat> {
    map ptr | ptr in table :: OwnedSize(table, ptr, p)
  }

  ghost function Live(table: map<nat, AllocInfo>, p: uint32): nat {
    Sum(OwnedSizes(table, p))
  }

  lemma LiveAfterPut(table: map<nat, AllocInfo>, ptr: nat, info: AllocInfo, p: uint32)
    ensures Live(table[ptr := info], p)
            == Live(table, p) - OwnedSize(table, ptr, p) + (if info.pid == p then info.size else 0)
  {
    var v := if info.pid == p then info.size else 0;
    assert OwnedSizes(table[ptr := info], p) == OwnedSizes(table, p)[ptr := v];
    SumUpdate(OwnedSizes(table, p), ptr, v);
  }

  lemma LiveAfterRemove(table: map<nat, AllocInfo>, ptr: nat, p: uint32)
    ensures Live(table - {ptr}, p) == Live(table, p) - OwnedSize(table, ptr, p)
  {
    assert OwnedSizes(table - {ptr}, p) == OwnedSizes(table, p) - {ptr};
    SumRemove(OwnedSizes(table, p), ptr);
  }

  // ---- The ledger ----

  /**
   * Where the bytes of one pid went: what its own entry never showed, what a second allocation of
   * the pointer replaced, what a full table rejected, what it freed itself, what others freed of
   * its memory, and what it freed of others' memory.
   */
  datatype Ledger = Ledger(
    unattributedAlloc: nat, unattributedFree: nat, overwritten: nat, rejected: nat,
    ownFreed: nat, freedByOthers: nat, foreignFreed: nat)

  function LedgerAfter(m: Maps, p: uint32, l: Ledger, e: Event): Ledger {
    var owned := OwnedSize(m.table, e.ptr, p);
    if !Handled(m.target, e) then l
    else if e.Alloc? then
      l.(unattributedAlloc := l.unattributedAlloc
                              + (if e.pid == p && p !in m.pids && |m.pids| >= MAX_PID_ENTRIES then e.bytes else 0),
         overwritten := l.overwritten + owned,
         rejected := l.rejected + (if e.pid == p && !HasRoom(m, e.ptr) then e.bytes else 0))
    else if e.pid == p then
      l.(unattributedFree := l.unattributedFree + (if p in m.pids then 0 else FreedSize(m.table, e.ptr)),
         ownFreed := l.ownFreed + owned,
         foreignFreed := l.foreignFreed + (FreedSize(m.table, e.ptr) - owned))
    else l.(freedByOthers := l.freedByOthers + owned)
  }

  function LedgerOf(target: uint32, events: seq<Event>, p: uint32): Ledger
    decreases |events|
  {
    if events == [] then Ledger(0, 0, 0, 0, 0, 0, 0)
    else LedgerAfter(Replay(target, Init(events)), p, LedgerOf(target, Init(events), p), Last(events))
  }

  function AllocOf(pids: map<uint32, PidStats>, p: uint32): nat {
    if p in pids then pids[p].totalAlloc else 0
  }

  function FreeOf(pids: map<uint32, PidStats>, p: uint32): nat {
    if p in pids then pids[p].totalFree else 0
  }

  /** The two accounts of a pid: what it allocated, and what it freed. */
  ghost predicate Settled(m: Maps, l: Ledger, p: uint32) {
    && AllocOf(m.pids, p) + l.unattributedAlloc
       == Live(m.table, p) + l.overwritten + l.rejected + l.ownFreed + l.freedByOthers
    && FreeOf(m.pids, p) + l.unattributedFree == l.ownFreed + l.foreignFreed
  }

  lemma AllocSettles(m: Maps, l: Ledger, p: uint32, e: Event)
    requires Settled(m, l, p) && Handled(m.target, e) && e.Alloc?
    ensures Settled(Handle(m, e), LedgerAfter(m, p, l, e), p)
  {
    HandleMaps(m, e);
    hide Handle, Live;
    LiveAfterPut(m.table, e.ptr, InfoOf(e), p);
  }

  lemma FreeSettles(m: Maps, l: Ledger, p: uint32, e: Event)
    requires Settled(m, l, p) && Handled(m.target, e) && e.Free?
    ensures Settled(Handle(m, e), LedgerAfter(m, p, l, e), p)
  {
    HandleMaps(m, e);
    hide Handle, Live;
    LiveAfterRemove(m.table, e.ptr, p);
  }

  /**
   * Conservation for one pid, over every run: what it allocated is live, overwritten, rejected,
   * freed by itself or freed by others; what it freed was its own or others'.
   */
  lemma {:induction false} PidConserved(target: uint32, events: seq<Event>, p: uint32)
    ensures Settled(Replay(target, events), LedgerOf(target, events, p), p)
    decreases |events|
  {
    if events == [] {
      assert OwnedSizes(map[], p) == map[];
    } else {
      var m, l, e := Replay(target, Init(events)), LedgerOf(target, Init(events), p), Last(events);
      PidConserved(target, Init(events), p);
      ReplayStep(target, events);
      if Handled(m.target, e) {
        hide Handle, Replay, Live, Settled;
        if e.Alloc? {
          AllocSettles(m, l, p, e);
        } else {
          FreeSettles(m, l, p, e);
        }
      }
    }
  }

  // ---- Counts ----

  /** The handled events of one kind that found an entry of the pid, or room for one. */
  function AttributedCount(target: uint32, events: seq<Event>, p: uint32, allocs: bool): nat
    decreases |events|
  {
    if events == [] then 0
    else
      var pids, e := Replay(target, Init(events)).pids, Last(events);
      AttributedCount(target, Init(events), p, allocs)
      + (if Handled(target, e) && e.pid == p && e.Alloc? == allocs && (p in pids || (allocs && |pids| < 10240))
         then 1 else 0)
  }

  /** The two counts of a pid are those of its attributed allocations and frees. */
  lemma {:induction false} PidCounts(target: uint32, events: seq<Event>, p: uint32)
    ensures var pids := Replay(target, events).pids;
            && AttributedCount(target, events, p, true) == (if p in pids then pids[p].allocCount else 0)
            && AttributedCount(target, events, p, false) == (if p in pids then pids[p].freeCount else 0)
    decreases |events|
  {
    if events == [] {
      ReplayEmpty(target);
    } else {
      var m, e := Replay(target, Init(events)), Last(events);
      PidCounts(target, Init(events), p);
      OnlyTheTarget(target, Init(events));
      ReplayStep(target, events);
      if Handled(m.target, e) {
        HandleMaps(m, e);
      }
      hide Handle, Replay;
    }
  }

  // ---- Net bytes ----

  function Net(ps: PidStats): int {
    ps.totalAlloc - ps.totalFree
  }

  predicate OverFreed(ps: PidStats) {
    ps.totalFree > ps.totalAlloc
  }

  predicate NoCorrections(l: Ledger) {
    l.unattributedAlloc == l.unattributedFree == l.overwritten == l.rejected == 0
  }

  /** A pid's net bytes are its live bytes exactly if the ledger's other items cancel. */
  lemma NetIsLiveExactly(target: uint32, events: seq<Event>, p: uint32)
    requires p in Replay(target, events).pids
    ensures var m, l := Replay(target, events), LedgerOf(target, events, p);
            && (Net(m.pids[p]) == Live(m.table, p)
                <==> l.foreignFreed + l.unattributedAlloc
                     == l.freedByOthers + l.overwritten + l.rejected + l.unattributedFree)
            && (NoCorrections(l) ==> (Net(m.pids[p]) == Live(m.table, p) <==> l.foreignFreed == l.freedByOthers))
  {
    PidConserved(target, events, p);
  }

  /** And they are negative exactly if it freed more of others' memory than all it still accounts for. */
  lemma OverFreedExactly(target: uint32, events: seq<Event>, p: uint32)
    requires p in Replay(target, events).pids
    ensures var m, l := Replay(target, events), LedgerOf(target, events, p);
            && (OverFreed(m.pids[p])
                <==> l.foreignFreed + l.unattributedAlloc
                     > Live(m.table, p) + l.freedByOthers + l.overwritten + l.rejected + l.unattributedFree)
            && (NoCorrections(l) ==> (OverFreed(m.pids[p]) <==> l.foreignFreed > Live(m.table, p) + l.freedByOthers))
  {
    PidConserved(target, events, p);
  }

  // ---- Freeing one's own ----

  /** Whenever the pid frees a pointer that is in the table, the entry is its own. */
  predicate FreesOwn(target: uint32, events: seq<Event>, p: uint32)
    decreases |events|
  {
    events == [] ||
    (var table, e := Replay(target, Init(events)).table, Last(events);
     && FreesOwn(target, Init(events), p)
     && (Handled(target, e) && e.Free? && e.pid == p && e.ptr in table ==> table[e.ptr].pid == p))
  }

  predicate NonZeroSizes(table: map<nat, AllocInfo>) {
    forall ptr | ptr in table :: table[ptr].size > 0
  }

  lemma {:induction false} EntriesHaveBytes(target: uint32, events: seq<Event>)
    ensures NonZeroSizes(Replay(target, events).table) && Replay(target, events).target == target
    decreases |events|
  {
    if events == [] {
      ReplayEmpty(target);
    } else {
      EntriesHaveBytes(target, Init(events));
      ReplayStep(target, events);
      HandleTable(Replay(target, Init(events)), Last(events));
      hide Handle, Replay;
    }
  }

  /** The pid has freed nothing of others' exactly if all its frees were of its own entries. */
  lemma {:induction false} NothingForeignExactly(target: uint32, events: seq<Event>, p: uint32)
    ensures LedgerOf(target, events, p).foreignFreed == 0 <==> FreesOwn(target, events, p)
    decreases |events|
  {
    if events != [] {
      NothingForeignExactly(target, Init(events), p);
      EntriesHaveBytes(target, Init(events));
      hide Handle, Replay;
    }
  }

  /** A pid that frees only its own memory, and whose allocations all found an entry, is never negative. */
  lemma NeverNegative(target: uint32, events: seq<Event>, p: uint32)
    requires p in Replay(target, events).pids
    requires FreesOwn(target, events, p) && LedgerOf(target, events, p).unattributedAlloc == 0
    ensures !OverFreed(Replay(target, events).pids[p])
  {
    NothingForeignExactly(target, events, p);
    OverFreedExactly(target, events, p);
  }
}
