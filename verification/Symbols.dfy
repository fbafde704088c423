/**
 * The kernel symbol table: loading with growth, sorting and in-place removal of duplicates, and
 * the binary search, against a linear scan of the lines that were stored.
 */
module Symbols {
  import opened Options
  import opened Powers
  import Sorting

  /** A stored symbol; block identifies the copy of its name on the heap. */
  datatype Ksym = Ksym(addr: nat, name: string, block: nat)

  /** What sscanf makes of a line, and whether strdup has memory for its name. */
  datatype Line = Unparsed | Parsed(addr: nat, name: string, copied: bool)

  // ---- Sorting ----

  predicate Sorted(s: seq<Ksym>) {
    forall i, j | 0 <= i < j < |s| :: s[i].addr <= s[j].addr
  }

  /** What qsort may leave: the same symbols in order of address; equal addresses in any order. */
  predicate SortedPermutation(t: seq<Ksym>, s: seq<Ksym>) {
    Sorted(t) && multiset(t) == multiset(s)
  }

  lemma SomeSortedPermutation(s: seq<Ksym>)
    ensures exists t :: SortedPermutation(t, s)
  {
    var key := (x: Ksym) => x.addr;
    Sorting.SomeSortedPermutation(s, key);
    var t: seq<Ksym> :| Sorting.SortedPermutation(t, s, key);
    assert forall i | 0 <= i < |t| :: key(t[i]) == t[i].addr;
    assert SortedPermutation(t, s);
  }

  // ---- Duplicates ----

  /** The first symbol of every run of equal addresses. */
  function FirstOfEach(s: seq<Ksym>): seq<Ksym> {
    if |s| <= 1 then s
    else
      var kept := FirstOfEach(s[..|s| - 1]);
      if s[|s| - 1].addr != s[|s| - 2].addr then kept + [s[|s| - 1]] else kept
  }

  /** The symbols that are not the first of their run, in order. */
  function Repeats(s: seq<Ksym>): seq<Ksym> {
    if |s| <= 1 then []
    else
      var repeats := Repeats(s[..|s| - 1]);
      if s[|s| - 1].addr != s[|s| - 2].addr then repeats else repeats + [s[|s| - 1]]
  }

  predicate StrictlySorted(s: seq<Ksym>) {
    forall i, j | 0 <= i < j < |s| :: s[i].addr < s[j].addr
  }

  /** The addresses of a list. */
  function Addrs(s: seq<Ksym>): set<nat> {
    if s == [] then {} else Addrs(s[..|s| - 1]) + {s[|s| - 1].addr}
  }

  lemma {:induction false} AddrsOf(s: seq<Ksym>, a: nat)
    ensures a in Addrs(s) <==> exists i :: 0 <= i < |s| && s[i].addr == a
  {
    if s != [] {
      var s0 := s[..|s| - 1];
      AddrsOf(s0, a);
      if a in Addrs(s0) {
        var i :| 0 <= i < |s0| && s0[i].addr == a;
        assert s[i].addr == a;
      } else if s[|s| - 1].addr != a {
        forall i | 0 <= i < |s|
          ensures s[i].addr != a
        {
          assert i < |s| - 1 ==> s0[i] == s[i];
        }
      }
    }
  }

  /** The firsts end at the last address: what the dedupe loop compares with is the previous symbol. */
  lemma {:induction false} FirstsEndAtLast(s: seq<Ksym>)
    requires s != []
    ensures FirstOfEach(s) != [] && FirstOfEach(s)[|FirstOfEach(s)| - 1].addr == s[|s| - 1].addr
  {
    if |s| > 1 {
      FirstsEndAtLast(s[..|s| - 1]);
    }
  }

  lemma DedupeStart(s: seq<Ksym>)
    requires s != []
    ensures FirstOfEach(s[..1]) == s[..1] && Repeats(s[..1]) == []
  {
  }

  lemma DedupeStep(s: seq<Ksym>, i: nat)
    requires 0 < i < |s|
    ensures var kept := FirstOfEach(s[..i]);
            && kept != []
            && FirstOfEach(s[..i + 1]) == (if s[i].addr != kept[|kept| - 1].addr then kept + [s[i]] else kept)
            && multiset(Repeats(s[..i + 1]))
               == multiset(Repeats(s[..i]))
                  + (if s[i].addr != kept[|kept| - 1].addr then multiset{} else multiset{s[i]})
  {
    FirstsEndAtLast(s[..i]);
    assert s[..i + 1][..i] == s[..i];
  }

  /** Kept are exactly the symbols whose address is not that of the symbol before them. */
  lemma {:induction false} FirstsAreFirst(s: seq<Ksym>, x: Ksym)
    ensures x in FirstOfEach(s) <==> exists i: nat :: StartsRun(s, i) && s[i] == x
  {
    if |s| == 1 {
      assert x == s[0] ==> StartsRun(s, 0);
    } else if |s| > 1 {
      var before, n := s[..|s| - 1], |s| - 1;
      FirstsAreFirst(before, x);
      forall i: nat | i < n
        ensures StartsRun(s, i) <==> StartsRun(before, i)
      {
      }
      assert StartsRun(s, n) <==> s[n].addr != s[n - 1].addr;
      if x in FirstOfEach(before) {
        var i: nat :| StartsRun(before, i) && before[i] == x;
        assert StartsRun(s, i) && s[i] == x;
      }
      if i: nat :| StartsRun(s, i) && s[i] == x {
        assert i < n ==> StartsRun(before, i) && before[i] == x;
      }
    }
  }

  /** No symbol just before this one has its address. */
  predicate StartsRun(s: seq<Ksym>, i: nat) {
    i < |s| && (i > 0 ==> s[i - 1].addr != s[i].addr)
  }

  lemma {:induction false} FirstsKeepAddrs(s: seq<Ksym>)
    ensures Addrs(FirstOfEach(s)) == Addrs(s)
  {
    if |s| > 1 {
      var before, last := s[..|s| - 1], s[|s| - 1];
      FirstsKeepAddrs(before);
      var kept := FirstOfEach(before);
      assert (kept + [last])[..|kept|] == kept;
      AddrsOf(before, before[|before| - 1].addr);
    }
  }

  lemma {:induction false} FirstsStrictlySorted(s: seq<Ksym>)
    requires Sorted(s)
    ensures StrictlySorted(FirstOfEach(s))
  {
    if |s| > 1 {
      var before, last := s[..|s| - 1], s[|s| - 1];
      FirstsStrictlySorted(before);
      FirstsEndAtLast(before);
      var kept := FirstOfEach(before);
      if last.addr != before[|before| - 1].addr {
        assert kept[|kept| - 1].addr < last.addr;
      }
    }
  }

  lemma {:induction false} KeptOrRepeated(s: seq<Ksym>)
    ensures multiset(FirstOfEach(s)) + multiset(Repeats(s)) == multiset(s)
  {
    if |s| > 1 {
      KeptOrRepeated(s[..|s| - 1]);
      assert s == s[..|s| - 1] + [s[|s| - 1]];
    }
  }

  lemma SameAddrs(s: seq<Ksym>, t: seq<Ksym>)
    requires multiset(s) == multiset(t)
    ensures Addrs(s) == Addrs(t)
  {
    forall a
      ensures a in Addrs(s) <==> a in Addrs(t)
    {
      AddrsOf(s, a);
      AddrsOf(t, a);
      if a in Addrs(s) {
        var i :| 0 <= i < |s| && s[i].addr == a;
        assert s[i] in multiset(t);
      }
      if a in Addrs(t) {
        var i :| 0 <= i < |t| && t[i].addr == a;
        assert t[i] in multiset(s);
      }
    }
  }

  /** Sorting and dropping repeats gives a strictly sorted table of exactly the stored addresses. */
  lemma TableOfStored(stored: seq<Ksym>, sorted: seq<Ksym>)
    requires SortedPermutation(sorted, stored)
    ensures var table := FirstOfEach(sorted);
            && StrictlySorted(table) && Addrs(table) == Addrs(stored)
            && multiset(table) + multiset(Repeats(sorted)) == multiset(stored)
  {
    FirstsStrictlySorted(sorted);
    FirstsKeepAddrs(sorted);
    KeptOrRepeated(sorted);
    SameAddrs(sorted, stored);
  }

  lemma DedupeEnds(stored: seq<Ksym>, sorted: seq<Ksym>)
    requires SortedPermutation(sorted, stored)
    ensures TableHolds(FirstOfEach(sorted), stored)
    ensures multiset(FirstOfEach(sorted)) + multiset(Repeats(sorted)) == multiset(stored)
  {
    TableOfStored(stored, sorted);
  }

  /** The table is strictly sorted, out of the stored symbols, with exactly their addresses. */
  ghost predicate TableHolds(table: seq<Ksym>, stored: seq<Ksym>) {
    StrictlySorted(table) && multiset(table) <= multiset(stored) && Addrs(table) == Addrs(stored)
  }

  // ---- The linear scan ----

  /** The greatest address of a list that does not exceed the query. */
  function ScanBest(s: seq<Ksym>, addr: nat): Option<nat> {
    if s == [] then None
    else
      var best, last := ScanBest(s[..|s| - 1], addr), s[|s| - 1].addr;
      if last <= addr && (best.None? || last > best.value) then Some(last) else best
  }

  /** The scan finds the greatest address at or below the query, and nothing only if there is none. */
  lemma {:induction false} ScanBestIsGreatest(s: seq<Ksym>, addr: nat)
    ensures var best := ScanBest(s, addr);
            && (best.None? ==> forall a | a in Addrs(s) :: a > addr)
            && (best.Some? ==> best.value in Addrs(s) && best.value <= addr
                               && forall a | a in Addrs(s) && a <= addr :: a <= best.value)
  {
    if s != [] {
      ScanBestIsGreatest(s[..|s| - 1], addr);
    }
  }

  // ---- Loading ----

  const FIRST_CAPACITY := 4096

  /** The capacity after some doublings. */
  function Capacity(grown: nat): nat {
    FIRST_CAPACITY * Pow2(grown)
  }

  function SymOf(line: Line, block: nat): Ksym
    requires line.Parsed?
  {
    Ksym(line.addr, line.name, block)
  }

  /** The lines that parse and whose names are copied, in file order, numbered from the given copy. */
  function Copied(lines: seq<Line>, first: nat): seq<Ksym> {
    if lines == [] then []
    else
      var before, line := Copied(lines[..|lines| - 1], first), lines[|lines| - 1];
      if line.Parsed? && line.copied then before + [SymOf(line, first + |before|)] else before
  }

  /** What one line leaves: its address and name under the next number, if it parses and its name is copied. */
  lemma CopiedOfOne(line: Line, first: nat)
    ensures Copied([line], first)
            == if line.Parsed? && line.copied then [Ksym(line.addr, line.name, first)] else []
  {
    assert [line][..0] == [];
  }

  /** Lines leave their symbols one after another. */
  lemma {:induction false} CopiedJoins(a: seq<Line>, b: seq<Line>, first: nat)
    ensures Copied(a + b, first) == Copied(a, first) + Copied(b, first + |Copied(a, first)|)
  {
    if b == [] {
      assert a + b == a;
    } else {
      assert (a + b)[..|a + b| - 1] == a + b[..|b| - 1];
      CopiedJoins(a, b[..|b| - 1], first);
    }
  }

  lemma {:induction false} CopiedBlocks(lines: seq<Line>, first: nat)
    ensures forall i | 0 <= i < |Copied(lines, first)| :: Copied(lines, first)[i].block == first + i
  {
    if lines != [] {
      CopiedBlocks(lines[..|lines| - 1], first);
    }
  }

  /** The lines read when loading stops at line done, which is itself looked at. */
  function LookedAt(lines: seq<Line>, done: nat): seq<Line> {
    if done < |lines| then lines[..done + 1] else lines
  }

  lemma CopiedStep(lines: seq<Line>, n: nat, first: nat)
    requires n <= |lines|
    ensures n == 0 ==> Copied(lines[..n], first) == []
    ensures n < |lines| ==>
      var before, line := Copied(lines[..n], first), lines[n];
      Copied(lines[..n + 1], first)
      == if line.Parsed? && line.copied then before + [SymOf(line, first + |before|)] else before
  {
    if n < |lines| {
      assert lines[..n + 1][..n] == lines[..n];
    }
  }

  lemma CapacityIs(grown: nat)
    ensures Capacity(grown) == 4096 * Pow2(grown)
  {
  }

  lemma AllZeroLookedAt(lines: seq<Line>, done: nat)
    requires done <= |lines|
    ensures AllZero(LookedAt(lines, done))
            <==> forall i | 0 <= i <= done && i < |lines| && lines[i].Parsed? :: lines[i].addr == 0
  {
    var seen := LookedAt(lines, done);
    assert forall i | 0 <= i < |seen| :: seen[i] in seen && seen[i] == lines[i];
  }

  lemma GrowthDoubles(grown: nat)
    ensures Capacity(0) == FIRST_CAPACITY
    ensures Capacity(grown) > 0 && Capacity(grown + 1) == Capacity(grown) * 2
  {
  }

  lemma GrowthsOrder(grown: nat, growths: nat)
    requires grown <= growths
    ensures Capacity(grown) <= Capacity(growths)
  {
    Pow2Order(grown, growths);
  }

  lemma AllZeroStep(lines: seq<Line>, n: nat)
    requires n <= |lines|
    ensures n == 0 ==> AllZero(lines[..n])
    ensures n < |lines| ==>
      (AllZero(lines[..n + 1]) <==> AllZero(lines[..n]) && (lines[n].Parsed? ==> lines[n].addr == 0))
  {
    if n < |lines| {
      assert lines[..n + 1] == lines[..n] + [lines[n]];
    }
  }

  lemma JoinedMultisets(a: seq<Ksym>, b: seq<Ksym>)
    ensures multiset(a + b) == multiset(a) + multiset(b)
  {
  }

  lemma EmptyTable()
    ensures TableHolds([], [])
  {
  }

  /** The copies of names are all different. */
  ghost predicate Numbered(copies: seq<Ksym>) {
    forall i | 0 <= i < |copies| :: copies[i].block == i
  }

  lemma CopiedNumbered(copies: seq<Ksym>, lines: seq<Line>)
    requires Numbered(copies)
    ensures Numbered(copies + Copied(lines, |copies|))
  {
    CopiedBlocks(lines, |copies|);
  }

  /** Every parsed line among these has address zero. */
  predicate AllZero(lines: seq<Line>) {
    forall line | line in lines :: line.Parsed? ==> line.addr == 0
  }

  /**
   * Lines after which the only stored address is zero and yet not every line is: the second name
   * could not be copied. The status is then LOADED, and every nonzero query finds the zero symbol.
   */
  lemma ZeroTableAnswers(a: string, b: string, first: nat, query: nat)
    ensures var lines := [Parsed(0, a, true), Parsed(5, b, false)];
            && Copied(lines, first) == [Ksym(0, a, first)] && !AllZero(LookedAt(lines, 2))
            && ScanBest(Copied(lines, first), query) == Some(0)
  {
    var lines := [Parsed(0, a, true), Parsed(5, b, false)];
    CopiedStep(lines, 0, first);
    CopiedStep(lines, 1, first);
    assert lines[..2] == lines && lines[..0] == [];
    assert lines[1] in lines && !AllZero(lines);
    hide Copied;
    assert [Ksym(0, a, first)][..0] == [];
  }

  const NOT_LOADED := 0
  const LOADED := 1
  const FAILED := -1
  const ALL_ZERO := -2

  class SymbolTable {
    var syms: array?<Ksym>
    var symCount: nat
    var symCapacity: nat
    var loadStatus: int
    /** The next copy of a name to be made. */
    var blocks: nat
    /** The symbols stored by the last load, in file order; all copies of names ever made, and those freed. */
    ghost var stored: seq<Ksym>
    ghost var copies: seq<Ksym>
    ghost var freed: multiset<Ksym>

    ghost function Table(): (table: seq<Ksym>)
      reads this, syms
      ensures syms == null ==> table == []
    {
      if syms == null || symCount > syms.Length then [] else syms[..symCount]
    }

    /** The table holds what was stored, and every copy ever made is in the table or was freed, exactly once. */
    ghost predicate Valid()
      reads this, syms
    {
      && (syms != null ==> 0 < symCount <= syms.Length <= symCapacity && loadStatus in {LOADED, ALL_ZERO})
      && (syms == null ==> loadStatus in {NOT_LOADED, FAILED} && stored == [])
      && TableHolds(Table(), stored)
      && multiset(Table()) + freed == multiset(copies)
      && blocks == |copies| && Numbered(copies)
    }

    constructor ()
      ensures Valid() && syms == null && loadStatus == NOT_LOADED && copies == [] && freed == multiset{}
    {
      syms, symCount, symCapacity, loadStatus, blocks := null, 0, 0, NOT_LOADED, 0;
      stored, copies, freed := [], [], multiset{};
    }

    /**
     * Loads the lines; growths is how often the table can be doubled. Reading ends at the first
     * parsed line for which there is no room, whose address is still looked at.
     */
    method SymbolsLoad(openable: bool, granted: bool, lines: seq<Line>, growths: nat)
      returns (result: int, ghost done: nat)
      requires Valid()
      modifies this
      ensures Valid()
      ensures result == if syms == null then -1 else 0
      ensures !openable || !granted ==> syms == null
      ensures openable && granted ==>
        && done <= |lines|
        && stored == Copied(lines[..done], |old(copies)|)
        && copies == old(copies) + stored && |stored| <= 4096 * Pow2(growths)
        && (done < |lines| ==> lines[done].Parsed? && |stored| == 4096 * Pow2(growths))
        && (syms == null <==> stored == [])
        && (syms != null ==>
              (loadStatus == ALL_ZERO
               <==> forall i | 0 <= i <= done && i < |lines| && lines[i].Parsed? :: lines[i].addr == 0))
      ensures syms == null ==> loadStatus == FAILED && freed == multiset(copies)
    {
      hide TableHolds, Numbered, Copied, AllZero, Capacity, LookedAt, Table;
      EmptyTable();
      done := 0;
      if syms != null {
        SymbolsFree();
      }
      if !openable {
        loadStatus := FAILED;
        return -1, 0;
      }
      symCapacity, symCount := FIRST_CAPACITY, 0;
      if !granted {
        loadStatus := FAILED;
        return -1, 0;
      }
      result, done := LoadLines(lines, growths);
      CopiedNumbered(old(copies), lines[..done]);
      assert Numbered(copies);
      assert Valid();
      CapacityIs(growths);
      AllZeroLookedAt(lines, done);
    }

    method LoadLines(lines: seq<Line>, growths: nat) returns (result: int, ghost done: nat)
      requires symCount == 0 && symCapacity == FIRST_CAPACITY && loadStatus != ALL_ZERO
      requires freed == multiset(copies) && blocks == |copies|
      modifies this
      ensures done <= |lines|
      ensures stored == Copied(lines[..done], |old(copies)|)
      ensures copies == old(copies) + stored && blocks == |copies|
      ensures |stored| <= Capacity(growths)
      ensures done < |lines| ==> lines[done].Parsed? && |stored| == Capacity(growths)
      ensures stored == [] ==> syms == null && loadStatus == FAILED && result == -1 && freed == multiset(copies)
      ensures stored != [] ==>
        && syms != null && 0 < symCount <= syms.Length <= symCapacity && result == 0
        && loadStatus == (if AllZero(LookedAt(lines, done)) then ALL_ZERO else LOADED)
        && TableHolds(Table(), stored)
        && multiset(Table()) + freed == multiset(copies)
    {
      hide Copied, TableHolds, AllZero, Capacity, LookedAt, Table;
      syms := new Ksym[symCapacity];
      var allZero;
      allZero, done := ReadLines(lines, growths);
      JoinedMultisets(old(copies), stored);
      if symCount == 0 {
        syms, loadStatus := null, FAILED;
        return -1, done;
      }
      FinishLoad(allZero);
      return 0, done;
    }

    /** Makes the stored symbols a table and sets the status. */
    method FinishLoad(allZero: bool)
      requires syms != null && 0 < symCount <= syms.Length && syms[..symCount] == stored && loadStatus != ALL_ZERO
      modifies this`symCount, this`freed, this`loadStatus, syms
      ensures 0 < symCount <= syms.Length
      ensures loadStatus == if allZero then ALL_ZERO else LOADED
      ensures TableHolds(Table(), stored) && multiset(Table()) + freed == old(freed) + multiset(stored)
    {
      hide TableHolds;
      if allZero {
        loadStatus := ALL_ZERO;
      }
      SortAndDeduplicate();
      if loadStatus != ALL_ZERO {
        loadStatus := LOADED;
      }
    }

    method ReadLines(lines: seq<Line>, growths: nat) returns (allZero: bool, ghost done: nat)
      requires syms != null && symCount == 0 && symCapacity == syms.Length == FIRST_CAPACITY && blocks == |copies|
      modifies this`syms, this`symCount, this`symCapacity, this`stored, this`copies, this`blocks, syms
      ensures syms != null && symCount <= syms.Length <= symCapacity
      ensures syms == old(syms) || fresh(syms)
      ensures done <= |lines|
      ensures stored == Copied(lines[..done], |old(copies)|) == syms[..symCount]
      ensures copies == old(copies) + stored && blocks == |copies|
      ensures |stored| <= Capacity(growths)
      ensures done < |lines| ==> lines[done].Parsed? && |stored| == Capacity(growths)
      ensures allZero == AllZero(LookedAt(lines, done))
    {
      hide Copied, Capacity, AllZero, SymOf;
      allZero, stored, done := true, [], 0;
      CopiedStep(lines, 0, |copies|);
      AllZeroStep(lines, 0);
      GrowthDoubles(0);
      var n, grown: nat := 0, 0;
      while n < |lines|
        invariant n <= |lines| && grown <= growths
        invariant syms != null && symCount <= syms.Length == symCapacity == Capacity(grown)
        invariant syms == old(syms) || fresh(syms)
        invariant stored == syms[..symCount] && copies == old(copies) + stored && blocks == |copies|
        invariant stored == Copied(lines[..n], |old(copies)|)
        invariant allZero == AllZero(lines[..n])
      {
        var line := lines[n];
        CopiedStep(lines, n, |old(copies)|);
        AllZeroStep(lines, n);
        if line.Unparsed? {
          n := n + 1;
          continue;
        }
        if line.addr != 0 {
          allZero := false;
        }
        if symCount >= symCapacity {
          GrowthDoubles(grown);
          symCapacity := symCapacity * 2;
          if grown == growths {
            done := n;
            return;
          }
          Grow();
          grown := grown + 1;
        }
        Store(line);
        n := n + 1;
      }
      done := n;
      assert lines[..n] == lines;
      GrowthsOrder(grown, growths);
    }

    /** Fills the next entry of the table; without memory for its name the entry does not count. */
    method Store(line: Line)
      requires line.Parsed? && syms != null && symCount < syms.Length
      modifies this`symCount, this`stored, this`copies, this`blocks, syms
      ensures var x := if line.copied then [SymOf(line, old(blocks))] else [];
              && symCount == old(symCount) + |x| && blocks == old(blocks) + |x|
              && syms[..symCount] == old(syms[..symCount]) + x
              && stored == old(stored) + x && copies == old(copies) + x
    {
      if !line.copied {
        syms[symCount] := Ksym(line.addr, "", 0);
        return;
      }
      syms[symCount] := SymOf(line, blocks);
      stored, copies := stored + [syms[symCount]], copies + [syms[symCount]];
      symCount, blocks := symCount + 1, blocks + 1;
    }

    /** A table of the new capacity with the same symbols. */
    method Grow()
      requires syms != null && symCount <= syms.Length <= symCapacity
      modifies this`syms
      ensures fresh(syms) && syms != null && syms.Length == symCapacity
      ensures syms[..symCount] == old(syms[..symCount])
    {
      var tmp := new Ksym[symCapacity];
      forall i | 0 <= i < symCount {
        tmp[i] := syms[i];
      }
      syms := tmp;
    }

    method SortAndDeduplicate()
      requires syms != null && 0 < symCount <= syms.Length && syms[..symCount] == stored
      modifies this`symCount, this`freed, syms
      ensures 0 < symCount <= syms.Length
      ensures TableHolds(syms[..symCount], stored)
      ensures multiset(syms[..symCount]) + freed == old(freed) + multiset(stored)
    {
      hide TableHolds, SortedPermutation, FirstOfEach;
      SortTable();
      Deduplicate(stored);
    }

    /** qsort: some permutation in order of address. */
    method SortTable()
      requires syms != null && symCount <= syms.Length
      modifies syms
      ensures SortedPermutation(syms[..symCount], old(syms[..symCount]))
    {
      SomeSortedPermutation(syms[..symCount]);
      var before := syms[..symCount];
      var sorted :| SortedPermutation(sorted, before);
      assert |sorted| == symCount by {
        assert |multiset(sorted)| == |multiset(before)|;
      }
      forall i | 0 <= i < symCount {
        syms[i] := sorted[i];
      }
      assert syms[..symCount] == sorted;
    }

    /** Keeps the first of every run of equal addresses in place and frees the other names. */
    method Deduplicate(ghost original: seq<Ksym>)
      requires syms != null && 0 < symCount <= syms.Length
      requires SortedPermutation(syms[..symCount], original)
      modifies this`symCount, this`freed, syms
      ensures 0 < symCount <= syms.Length
      ensures syms[..symCount] == FirstOfEach(old(syms[..symCount]))
      ensures TableHolds(syms[..symCount], original)
      ensures multiset(syms[..symCount]) + freed == old(freed) + multiset(original)
    {
      hide FirstOfEach, Repeats, TableHolds, SortedPermutation;
      ghost var table := syms[..symCount];
      DedupeEnds(original, table);
      DedupeStart(table);
      var unique, i := 0, 1;
      while i < symCount
        invariant 0 <= unique < i <= symCount
        invariant symCount == old(symCount)
        invariant syms[..unique + 1] == FirstOfEach(table[..i])
        invariant syms[i..symCount] == table[i..]
        invariant freed == old(freed) + multiset(Repeats(table[..i]))
      {
        unique := KeepOrFree(table, unique, i);
        i := i + 1;
      }
      assert table[..i] == table;
      symCount := unique + 1;
    }

    /** One round: symbol i moves up if its address is new, otherwise its name is freed. */
    method KeepOrFree(ghost table: seq<Ksym>, unique: nat, i: nat) returns (last: nat)
      requires syms != null && unique < i < symCount <= syms.Length && |table| == symCount
      requires syms[..unique + 1] == FirstOfEach(table[..i]) && syms[i..symCount] == table[i..]
      modifies this`freed, syms
      ensures last <= i && syms[..last + 1] == FirstOfEach(table[..i + 1])
      ensures syms[i + 1..symCount] == table[i + 1..]
      ensures var kept := FirstOfEach(table[..i]);
              var step := if table[i].addr != kept[unique].addr then multiset{} else multiset{table[i]};
              && multiset(Repeats(table[..i + 1])) == multiset(Repeats(table[..i])) + step
              && freed == old(freed) + step
    {
      hide FirstOfEach, Repeats;
      DedupeStep(table, i);
      assert syms[unique] == syms[..unique + 1][unique];
      assert syms[i] == syms[i..symCount][0] == table[i];
      last := unique;
      if syms[i].addr != syms[unique].addr {
        last := unique + 1;
        syms[last] := syms[i];
      } else {
        freed := freed + multiset{syms[i]};
      }
    }

    /** A table is loaded exactly if a symbol was stored. */
    method SymbolsLoaded() returns (loaded: bool)
      requires Valid()
      ensures loaded <==> stored != []
    {
      hide TableHolds;
      StoredIffTable(Table(), stored);
      return (loadStatus == LOADED || loadStatus == ALL_ZERO) && syms != null;
    }

    /** Frees every name of the table once, and the table. */
    method SymbolsFree()
      requires Valid()
      modifies this
      ensures Valid() && syms == null && copies == old(copies)
      ensures freed == multiset(copies)
      ensures loadStatus == if old(syms) == null then old(loadStatus) else NOT_LOADED
    {
      hide TableHolds, Numbered;
      EmptyTable();
      if syms == null {
        return;
      }
      FreeNames();
      syms, symCount, symCapacity, loadStatus := null, 0, 0, NOT_LOADED;
      stored := [];
    }

    method FreeNames()
      requires syms != null && symCount <= syms.Length
      modifies this`freed
      ensures freed == old(freed) + multiset(syms[..symCount])
    {
      ghost var table := syms[..symCount];
      var i := 0;
      while i < symCount
        invariant 0 <= i <= symCount
        invariant freed == old(freed) + multiset(table[..i])
      {
        assert table[..i + 1] == table[..i] + [table[i]];
        freed := freed + multiset{syms[i]};
        i := i + 1;
      }
      assert table[..i] == table;
    }

    /** The name of the greatest stored address at or below the query. */
    method SymbolResolve(addr: nat) returns (name: Option<string>)
      requires Valid()
      ensures var best := ScanBest(stored, addr);
              if syms == null || addr == 0 || loadStatus == ALL_ZERO || best.None? then name == None
              else name.Some? && exists x :: x in stored && x.addr == best.value && x.name == name.value
    {
      ScanBestIsGreatest(stored, addr);
      if syms == null || symCount == 0 || addr == 0 {
        return None;
      }
      if loadStatus == ALL_ZERO {
        return None;
      }
      var result := FindLast(addr);
      BestIsResult(Table(), stored, addr, result);
      if result < 0 {
        return None;
      }
      assert Table()[result] in stored;
      return Some(syms[result].name);
    }

    /** The binary search: the last entry at or below the query, or -1. */
    method FindLast(addr: nat) returns (result: int)
      requires syms != null && 0 < symCount <= syms.Length && StrictlySorted(syms[..symCount])
      ensures -1 <= result < symCount
      ensures forall k | 0 <= k < symCount :: syms[k].addr <= addr <==> k <= result
    {
      ghost var table := syms[..symCount];
      var lo: int, hi: int := 0, symCount - 1;
      result := -1;
      while lo <= hi
        invariant 0 <= lo <= hi + 1 <= symCount && result == lo - 1
        invariant forall k | 0 <= k < lo :: table[k].addr <= addr
        invariant forall k | hi < k < symCount :: table[k].addr > addr
        decreases hi - lo + 1
      {
        var mid := lo + (hi - lo) / 2;
        assert table[mid] == syms[mid];
        if syms[mid].addr <= addr {
          result := mid;
          lo := mid + 1;
        } else {
          hi := mid - 1;
        }
      }
      assert forall k | 0 <= k < symCount :: table[k] == syms[k];
    }
  }

  lemma StoredIffTable(table: seq<Ksym>, stored: seq<Ksym>)
    requires TableHolds(table, stored)
    ensures table == [] <==> stored == []
  {
    assert table != [] ==> table[0] in multiset(stored);
  }

  /** The last table entry at or below the query has the scan's address and is a stored symbol. */
  lemma BestIsResult(table: seq<Ksym>, stored: seq<Ksym>, addr: nat, result: int)
    requires -1 <= result < |table|
    requires TableHolds(table, stored)
    requires forall k | 0 <= k < |table| :: table[k].addr <= addr <==> k <= result
    ensures result < 0 <==> ScanBest(stored, addr).None?
    ensures result >= 0 ==> table[result] in stored && ScanBest(stored, addr) == Some(table[result].addr)
  {
    ScanBestIsGreatest(stored, addr);
    var best := ScanBest(stored, addr);
    if best.Some? {
      AddrsOf(table, best.value);
      var k :| 0 <= k < |table| && table[k].addr == best.value;
      assert k <= result;
    }
    if result >= 0 {
      AddrsOf(table, table[result].addr);
      assert table[result] in multiset(table);
    }
  }
}
