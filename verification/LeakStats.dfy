/**
 * The user-space reports: the walk over the allocation table, the grouping of allocations by
 * stack, and the choice of the groups shown.
 */
module LeakStats {
  import opened Options
  import opened MemSnoop
  import Sorting

  const MAX_DISPLAY_ENTRIES := 128

  // ---- Iteration over a map ----

  /** The position of a key in the map's order, or its length. */
  function IndexOf(order: seq<nat>, key: nat): (i: nat)
    ensures i <= |order|
    ensures i < |order| ==> order[i] == key
    ensures i == |order| <==> key !in order
  {
    if order == [] then 0 else if order[0] == key then 0 else 1 + IndexOf(order[1..], key)
  }

  /** Where get_next_key goes on: after the key, or at the first one if the map does not have it. */
  function NextPosition(order: seq<nat>, key: nat): (i: nat)
    ensures i <= |order|
  {
    if key in order then IndexOf(order, key) + 1 else 0
  }

  /** The keys a walk visits that starts from key 0. */
  function Visited(order: seq<nat>): seq<nat> {
    order[NextPosition(order, 0)..]
  }

  /** The walk is complete exactly if the map does not hold key 0. */
  lemma VisitsAll(order: seq<nat>)
    ensures Visited(order) == order <==> 0 !in order
  {
  }

  lemma NextIsSuccessor(order: seq<nat>, i: nat)
    requires Sorting.NoRepeats(order) && i < |order|
    ensures NextPosition(order, order[i]) == i + 1
  {
    assert order[IndexOf(order, order[i])] == order[i];
  }

  // ---- Grouping ----

  /** Which allocations a report counts. */
  datatype Filter = Stacks | Leaks(now: nat, minAge: nat, minSize: nat)

  predicate Passes(f: Filter, info: AllocInfo) {
    match f
    case Stacks => info.stackId >= 0
    case Leaks(now, minAge, minSize) =>
      now > info.timestamp && now - info.timestamp >= minAge && info.size >= minSize
  }

  function Age(f: Filter, info: AllocInfo): nat {
    if f.Leaks? && f.now > info.timestamp then f.now - info.timestamp else 0
  }

  /** One counted allocation. */
  datatype Item = Item(stackId: int, size: nat, age: nat)

  datatype Group = Group(stackId: int, totalBytes: nat, count: nat, oldestAge: nat)

  /** The allocation counted at a key, if any; a key deleted in the meantime has none. */
  function ItemAt(f: Filter, key: nat, table: map<nat, AllocInfo>): seq<Item> {
    if key in table && Passes(f, table[key]) then [Item(table[key].stackId, table[key].size, Age(f, table[key]))]
    else []
  }

  /** The allocations counted along some keys. */
  function ItemsAt(f: Filter, keys: seq<nat>, table: map<nat, AllocInfo>): seq<Item> {
    if keys == [] then []
    else ItemsAt(f, keys[..|keys| - 1], table) + ItemAt(f, keys[|keys| - 1], table)
  }

  function BytesOf(items: seq<Item>, id: int): nat {
    if items == [] then 0
    else
      var last := items[|items| - 1];
      BytesOf(items[..|items| - 1], id) + if last.stackId == id then last.size else 0
  }

  function CountOf(items: seq<Item>, id: int): nat {
    if items == [] then 0
    else CountOf(items[..|items| - 1], id) + if items[|items| - 1].stackId == id then 1 else 0
  }

  function Older(a: nat, b: nat): nat {
    if a > b then a else b
  }

  function OldestOf(items: seq<Item>, id: int): nat {
    if items == [] then 0
    else
      var last, oldest := items[|items| - 1], OldestOf(items[..|items| - 1], id);
      if last.stackId == id then Older(last.age, oldest) else oldest
  }

  /** The oldest age of a group is one of its ages, and none is greater. */
  lemma {:induction false} OldestIsMaximum(items: seq<Item>, id: int)
    ensures forall x | x in items && x.stackId == id :: x.age <= OldestOf(items, id)
    ensures CountOf(items, id) > 0 ==> exists x :: x in items && x.stackId == id && x.age == OldestOf(items, id)
  {
    if items != [] {
      var before, last := items[..|items| - 1], items[|items| - 1];
      OldestIsMaximum(before, id);
      assert items == before + [last];
      if CountOf(before, id) > 0 {
        var x :| x in before && x.stackId == id && x.age == OldestOf(before, id);
        assert x in items;
      } else {
        NoneOf(before, id);
      }
    }
  }

  lemma {:induction false} NoneOf(items: seq<Item>, id: int)
    ensures CountOf(items, id) == 0 <==> forall x | x in items :: x.stackId != id
    ensures CountOf(items, id) == 0 ==> BytesOf(items, id) == 0 && OldestOf(items, id) == 0
  {
    if items != [] {
      var before, last := items[..|items| - 1], items[|items| - 1];
      NoneOf(before, id);
      assert items == before + [last];
    }
  }

  /** The exact group of a stack. */
  function GroupOf(items: seq<Item>, id: int): Group {
    Group(id, BytesOf(items, id), CountOf(items, id), OldestOf(items, id))
  }

  /** The stacks that get a group: the first ones to appear, as many as there is room for. */
  function KeptIds(items: seq<Item>): (ids: seq<int>)
    ensures |ids| <= MAX_DISPLAY_ENTRIES
  {
    if items == [] then []
    else
      var ids, last := KeptIds(items[..|items| - 1]), items[|items| - 1];
      if last.stackId !in ids && |ids| < MAX_DISPLAY_ENTRIES then ids + [last.stackId] else ids
  }

  function Groups(items: seq<Item>): (groups: seq<Group>)
    ensures |groups| == |KeptIds(items)|
  {
    var ids := KeptIds(items);
    seq(|ids|, k requires 0 <= k < |ids| => GroupOf(items, ids[k]))
  }

  /** All stacks that appear. */
  function IdsOf(items: seq<Item>): set<int> {
    set x | x in items :: x.stackId
  }

  lemma {:induction false} KeptIdsAppear(items: seq<Item>)
    ensures var ids := KeptIds(items);
            && Sorting.NoRepeats(ids)
            && (forall id | id in ids :: id in IdsOf(items))
            && (|ids| < MAX_DISPLAY_ENTRIES ==> forall x | x in items :: x.stackId in ids)
  {
    if items != [] {
      var before, last := items[..|items| - 1], items[|items| - 1];
      assert items == before + [last];
      KeptIdsAppear(before);
    }
  }

  /** Every stack has its group exactly if at most 128 stacks appear. */
  lemma CompleteExactly(items: seq<Item>)
    ensures (forall x | x in items :: x.stackId in KeptIds(items)) <==> |IdsOf(items)| <= 128
  {
    var ids := KeptIds(items);
    var kept := set id | id in ids;
    KeptIdsAppear(items);
    Sorting.CountsElements(ids, kept);
    assert kept <= IdsOf(items);
    SubsetSize(kept, IdsOf(items));
    if forall x | x in items :: x.stackId in ids {
      assert kept == IdsOf(items);
    }
  }

  lemma SubsetSize(a: set<int>, b: set<int>)
    requires a <= b
    ensures |a| <= |b|
    ensures |a| == |b| ==> a == b
  {
    assert b == a + (b - a);
    assert |b| == |a| + |b - a|;
  }

  /** No item before position i is of the stack of item i. */
  predicate FirstOfStack(items: seq<Item>, i: nat)
    requires i < |items|
  {
    forall k | 0 <= k < i :: items[k].stackId != items[i].stackId
  }

  /** A stack has a group exactly if fewer than 128 other stacks appeared before its first item. */
  lemma {:induction false} KeptExactly(items: seq<Item>, i: nat)
    requires i < |items| && FirstOfStack(items, i)
    ensures items[i].stackId in KeptIds(items) <==> |IdsOf(items[..i])| < 128
    decreases |items|
  {
    var before := items[..|items| - 1];
    if i < |items| - 1 {
      KeptExactly(before, i);
      assert before[..i] == items[..i];
      KeptStay(items, i);
    } else {
      NewStack(before, items[i]);
      assert before == items[..i] && items == before + [items[i]];
    }
  }

  /** Later items neither give a stack that appeared before a group nor take it away. */
  lemma KeptStay(items: seq<Item>, i: nat)
    requires i < |items| - 1
    ensures items[i].stackId in KeptIds(items) <==> items[i].stackId in KeptIds(items[..|items| - 1])
  {
    var before := items[..|items| - 1];
    KeptIdsAppear(before);
    assert before[i] == items[i];
  }

  lemma NewStack(before: seq<Item>, x: Item)
    requires x.stackId !in IdsOf(before)
    ensures x.stackId in KeptIds(before + [x]) <==> |IdsOf(before)| < MAX_DISPLAY_ENTRIES
  {
    assert (before + [x])[..|before|] == before;
    var ids := KeptIds(before);
    var kept := set id | id in ids;
    KeptIdsAppear(before);
    Sorting.CountsElements(ids, kept);
    SubsetSize(kept, IdsOf(before));
    if |ids| < MAX_DISPLAY_ENTRIES {
      assert kept == IdsOf(before);
    }
  }

  /** Without a group a stack is not counted, whatever its items weigh. */
  lemma LateStackIsLost(items: seq<Item>, x: Item)
    requires x.stackId !in IdsOf(items) && |IdsOf(items)| >= MAX_DISPLAY_ENTRIES
    ensures Groups(items + [x]) == Groups(items)
  {
    NewStack(items, x);
    assert (items + [x])[..|items|] == items;
    assert KeptIds(items + [x]) == KeptIds(items);
    forall k | 0 <= k < |KeptIds(items)|
      ensures Groups(items + [x])[k] == Groups(items)[k]
    {
      KeptIdsAppear(items);
      assert KeptIds(items)[k] in KeptIds(items);
    }
  }

  // ---- Nothing is counted twice ----

  function GroupBytes(groups: seq<Group>): nat {
    if groups == [] then 0 else GroupBytes(groups[..|groups| - 1]) + groups[|groups| - 1].totalBytes
  }

  /** The bytes of the items whose stack is one of these. */
  function BytesAmong(items: seq<Item>, ids: seq<int>): nat {
    if items == [] then 0
    else
      var last := items[|items| - 1];
      BytesAmong(items[..|items| - 1], ids) + if last.stackId in ids then last.size else 0
  }

  /** The groups together hold the bytes of the items that have a group, each once. */
  lemma GroupsConserveBytes(items: seq<Item>)
    ensures GroupBytes(Groups(items)) == BytesAmong(items, KeptIds(items))
  {
    var ids := KeptIds(items);
    KeptIdsAppear(items);
    GroupsOfIds(items, ids, |ids|);
    assert ids[..|ids|] == ids && Groups(items)[..|ids|] == Groups(items);
  }

  lemma {:induction false} GroupsOfIds(items: seq<Item>, ids: seq<int>, n: nat)
    requires ids == KeptIds(items) && Sorting.NoRepeats(ids) && n <= |ids|
    ensures GroupBytes(Groups(items)[..n]) == BytesAmong(items, ids[..n])
  {
    if n == 0 {
      NoneAmong(items);
    } else {
      GroupsOfIds(items, ids, n - 1);
      assert Groups(items)[..n][..n - 1] == Groups(items)[..n - 1];
      assert ids[..n] == ids[..n - 1] + [ids[n - 1]];
      OneMoreAmong(items, ids[..n - 1], ids[n - 1]);
    }
  }

  lemma {:induction false} NoneAmong(items: seq<Item>)
    ensures BytesAmong(items, []) == 0
  {
    if items != [] {
      NoneAmong(items[..|items| - 1]);
    }
  }

  lemma {:induction false} OneMoreAmong(items: seq<Item>, ids: seq<int>, id: int)
    requires id !in ids
    ensures BytesAmong(items, ids + [id]) == BytesAmong(items, ids) + BytesOf(items, id)
  {
    if items != [] {
      OneMoreAmong(items[..|items| - 1], ids, id);
    }
  }

  // ---- Order does not matter ----

  lemma {:induction false} TotalsWithout(items: seq<Item>, j: nat, id: int)
    requires j < |items|
    ensures var rest, x := Sorting.Without(items, j), items[j];
            && BytesOf(items, id) == BytesOf(rest, id) + (if x.stackId == id then x.size else 0)
            && CountOf(items, id) == CountOf(rest, id) + (if x.stackId == id then 1 else 0)
            && OldestOf(items, id) == (if x.stackId == id then Older(x.age, OldestOf(rest, id)) else OldestOf(rest, id))
  {
    var n := |items| - 1;
    var rest := Sorting.Without(items, j);
    if j < n {
      TotalsWithout(items[..n], j, id);
      Sorting.WithoutBefore(items, j, n);
      assert items[..n + 1] == items;
    } else {
      assert rest == items[..n];
    }
  }

  lemma {:induction false} GroupOfPermutation(a: seq<Item>, b: seq<Item>, id: int)
    requires multiset(a) == multiset(b)
    ensures GroupOf(a, id) == GroupOf(b, id)
  {
    if a == [] {
      Sorting.PermutationOfNone(b);
    } else {
      var j := |a| - 1;
      var k := Sorting.LastInPermutation(a, b);
      GroupOfPermutation(Sorting.Without(a, j), Sorting.Without(b, k), id);
      TotalsWithout(a, j, id);
      TotalsWithout(b, k, id);
    }
  }

  lemma {:induction false} ItemsWithout(f: Filter, keys: seq<nat>, j: nat, table: map<nat, AllocInfo>)
    requires j < |keys|
    ensures multiset(ItemsAt(f, keys, table))
            == multiset(ItemsAt(f, Sorting.Without(keys, j), table)) + multiset(ItemAt(f, keys[j], table))
  {
    hide ItemAt, ItemsAt;
    var n := |keys| - 1;
    var rest := Sorting.Without(keys, j);
    ItemsLast(f, keys, table);
    if j < n {
      ItemsWithout(f, keys[..n], j, table);
      Sorting.WithoutBefore(keys, j, n);
      assert keys[..n + 1] == keys;
      ItemsLast(f, rest, table);
    } else {
      assert rest == keys[..n];
    }
  }

  lemma ItemsLast(f: Filter, keys: seq<nat>, table: map<nat, AllocInfo>)
    requires keys != []
    ensures multiset(ItemsAt(f, keys, table))
            == multiset(ItemsAt(f, keys[..|keys| - 1], table)) + multiset(ItemAt(f, keys[|keys| - 1], table))
  {
  }

  lemma {:induction false} ItemsOfPermutation(f: Filter, a: seq<nat>, b: seq<nat>, table: map<nat, AllocInfo>)
    requires multiset(a) == multiset(b)
    ensures multiset(ItemsAt(f, a, table)) == multiset(ItemsAt(f, b, table))
  {
    if a == [] {
      Sorting.PermutationOfNone(b);
    } else {
      var j := |a| - 1;
      var k := Sorting.LastInPermutation(a, b);
      ItemsOfPermutation(f, Sorting.Without(a, j), Sorting.Without(b, k), table);
      ItemsWithout(f, a, j, table);
      ItemsWithout(f, b, k, table);
    }
  }

  lemma GroupsOfPermutation(a: seq<Item>, b: seq<Item>)
    requires multiset(a) == multiset(b) && |IdsOf(a)| <= MAX_DISPLAY_ENTRIES
    ensures multiset(Groups(a)) == multiset(Groups(b))
  {
    assert IdsOf(a) == IdsOf(b) by {
      assert forall x :: x in a <==> x in multiset(a);
      assert forall x :: x in b <==> x in multiset(b);
    }
    forall g
      ensures g in Groups(a) <==> g in Groups(b)
    {
      GroupIn(a, g);
      GroupIn(b, g);
      GroupOfPermutation(a, b, g.stackId);
    }
    GroupsDiffer(a);
    GroupsDiffer(b);
    Sorting.SameElements(Groups(a), Groups(b));
  }

  lemma GroupsDiffer(items: seq<Item>)
    ensures Sorting.NoRepeats(Groups(items))
  {
    KeptIdsAppear(items);
  }

  /** With at most 128 stacks the groups are exactly those of the stacks that appear. */
  lemma GroupIn(items: seq<Item>, g: Group)
    requires |IdsOf(items)| <= MAX_DISPLAY_ENTRIES
    ensures g in Groups(items) <==> g.stackId in IdsOf(items) && g == GroupOf(items, g.stackId)
  {
    KeptIdsAppear(items);
    CompleteExactly(items);
    var ids := KeptIds(items);
    if g.stackId in IdsOf(items) && g == GroupOf(items, g.stackId) {
      var x :| x in items && x.stackId == g.stackId;
      var k :| 0 <= k < |ids| && ids[k] == g.stackId;
      assert Groups(items)[k] == g;
    }
    if g in Groups(items) {
      var k :| 0 <= k < |Groups(items)| && Groups(items)[k] == g;
      assert ids[k] in ids;
    }
  }

  /** The items of a walk over a whole table, in some order of its keys. */
  function Report(f: Filter, order: seq<nat>, table: map<nat, AllocInfo>): seq<Item> {
    ItemsAt(f, Visited(order), table)
  }

  /** The order of the walk over the allocation table does not matter with at most 128 stacks. */
  lemma OrderDoesNotMatter(f: Filter, a: seq<nat>, b: seq<nat>, table: map<nat, AllocInfo>)
    requires Sorting.NoRepeats(a) && Sorting.NoRepeats(b)
    requires forall key :: (key in a <==> key in table) && (key in b <==> key in table)
    requires 0 !in table && |IdsOf(Report(f, a, table))| <= MAX_DISPLAY_ENTRIES
    ensures multiset(Groups(Report(f, a, table))) == multiset(Groups(Report(f, b, table)))
  {
    VisitsAll(a);
    VisitsAll(b);
    Sorting.SameElements(a, b);
    ItemsOfPermutation(f, a, b, table);
    GroupsOfPermutation(ItemsAt(f, a, table), ItemsAt(f, b, table));
  }

  // ---- What the table says ----

  /** The allocations of a stack that a report counts among some keys. */
  ghost function Counted(f: Filter, keys: seq<nat>, table: map<nat, AllocInfo>, id: int): map<nat, nat> {
    map p | p in table && p in keys && table[p].stackId == id && Passes(f, table[p]) :: table[p].size
  }

  lemma {:induction false} TotalsOfTable(f: Filter, keys: seq<nat>, table: map<nat, AllocInfo>, id: int)
    requires Sorting.NoRepeats(keys)
    ensures var sizes, items := Counted(f, keys, table, id), ItemsAt(f, keys, table);
            BytesOf(items, id) == Sum(sizes) && CountOf(items, id) == |sizes|
  {
    hide Passes, Sorting.NoRepeats;
    if keys == [] {
      assert Counted(f, keys, table, id) == map[];
    } else {
      var before, key := keys[..|keys| - 1], keys[|keys| - 1];
      FewerKeys(keys);
      TotalsOfTable(f, before, table, id);
      CountedGrows(f, before, key, table, id);
      OneMoreItem(ItemsAt(f, before, table), ItemAt(f, key, table), id);
      hide Sum, Counted, BytesOf, CountOf, Passes, Sorting.NoRepeats;
      SumUpdate(Counted(f, before, table, id), key, if key in table then table[key].size else 0);
    }
  }

  lemma FewerKeys(keys: seq<nat>)
    requires Sorting.NoRepeats(keys) && keys != []
    ensures var before := keys[..|keys| - 1];
            Sorting.NoRepeats(before) && keys[|keys| - 1] !in before && keys == before + [keys[|keys| - 1]]
  {
  }

  lemma CountedGrows(f: Filter, before: seq<nat>, key: nat, table: map<nat, AllocInfo>, id: int)
    requires key !in before
    ensures var sizes, others := Counted(f, before + [key], table, id), Counted(f, before, table, id);
            && key !in others
            && if key in table && table[key].stackId == id && Passes(f, table[key]) then
                 sizes == others[key := table[key].size] && |sizes| == |others| + 1
               else sizes == others
  {
    hide Passes;
    var sizes, others := Counted(f, before + [key], table, id), Counted(f, before, table, id);
    if key in sizes {
      assert sizes == others[key := table[key].size];
      assert sizes.Keys == others.Keys + {key};
    } else {
      assert sizes == others;
    }
  }

  lemma OneMoreItem(items: seq<Item>, more: seq<Item>, id: int)
    requires |more| <= 1
    ensures var mine := more != [] && more[0].stackId == id;
            && BytesOf(items + more, id) == BytesOf(items, id) + (if mine then more[0].size else 0)
            && CountOf(items + more, id) == CountOf(items, id) + (if mine then 1 else 0)
  {
    if more == [] {
      assert items + more == items;
    } else {
      assert items + more == items + [more[0]];
      assert (items + more)[..|items|] == items;
    }
  }

  lemma {:induction false} ItemsOfTable(f: Filter, keys: seq<nat>, table: map<nat, AllocInfo>, x: Item)
    ensures x in ItemsAt(f, keys, table)
            <==> exists p :: p in keys && p in table && Passes(f, table[p])
                             && x == Item(table[p].stackId, table[p].size, Age(f, table[p]))
  {
    hide Passes, Age;
    if keys != [] {
      var before, key := keys[..|keys| - 1], keys[|keys| - 1];
      ItemsOfTable(f, before, table, x);
      assert keys == before + [key];
    }
  }

  /** A stack's group in the stack report: the allocations in the table that have its identifier. */
  lemma StackGroupOfTable(order: seq<nat>, table: map<nat, AllocInfo>, id: int)
    requires Sorting.NoRepeats(order) && 0 !in order && forall key :: key in order <==> key in table
    ensures var sizes: map<nat, nat> := map p: nat | p in table && table[p].stackId == id && id >= 0 :: table[p].size;
            var g := GroupOf(Report(Stacks, order, table), id);
            g.totalBytes == Sum(sizes) && g.count == |sizes|
  {
    hide Sum;
    VisitsAll(order);
    TotalsOfTable(Stacks, order, table, id);
    assert Counted(Stacks, order, table, id)
        == map p: nat | p in table && table[p].stackId == id && id >= 0 :: table[p].size;
  }

  /** A stack's allocations of at least this size, made before now and no later than this age ago. */
  ghost function OldAndLarge(table: map<nat, AllocInfo>, now: nat, minAge: nat, minSize: nat, id: int): map<nat, nat> {
    map p | p in table && table[p].stackId == id && table[p].timestamp < now
            && table[p].timestamp + minAge <= now && minSize <= table[p].size :: table[p].size
  }

  lemma LeaksAreOldAndLarge(keys: seq<nat>, table: map<nat, AllocInfo>, now: nat, minAge: nat, minSize: nat, id: int)
    requires forall key :: key in keys <==> key in table
    ensures Counted(Leaks(now, minAge, minSize), keys, table, id) == OldAndLarge(table, now, minAge, minSize, id)
  {
  }

  /** A stack's group in the leak report: its old and large allocations, and the age of the oldest of them. */
  lemma LeakGroupOfTable(order: seq<nat>, table: map<nat, AllocInfo>, now: nat, minAge: nat, minSize: nat, id: int)
    requires Sorting.NoRepeats(order) && 0 !in order && forall key :: key in order <==> key in table
    ensures var sizes := OldAndLarge(table, now, minAge, minSize, id);
            var g := GroupOf(Report(Leaks(now, minAge, minSize), order, table), id);
            && g.totalBytes == Sum(sizes) && g.count == |sizes|
            && (forall p | p in sizes :: now <= table[p].timestamp + g.oldestAge)
            && (sizes != map[] ==> exists p :: p in sizes && now == table[p].timestamp + g.oldestAge)
  {
    hide Sum, OldAndLarge, Counted, ItemsAt, BytesOf, CountOf, OldestOf;
    var f := Leaks(now, minAge, minSize);
    VisitsAll(order);
    TotalsOfTable(f, order, table, id);
    LeaksAreOldAndLarge(order, table, now, minAge, minSize, id);
    OldestInTable(f, order, table, id);
    CountedInTable(f, order, table, id);
  }

  lemma CountedInTable(f: Filter, keys: seq<nat>, table: map<nat, AllocInfo>, id: int)
    ensures forall p | p in Counted(f, keys, table, id) :: p in table
  {
  }

  lemma OldestInTable(f: Filter, keys: seq<nat>, table: map<nat, AllocInfo>, id: int)
    requires f.Leaks? && Sorting.NoRepeats(keys)
    ensures var sizes, oldest := Counted(f, keys, table, id), OldestOf(ItemsAt(f, keys, table), id);
            && (forall p | p in sizes :: f.now <= table[p].timestamp + oldest)
            && (sizes != map[] ==> exists p :: p in sizes && f.now == table[p].timestamp + oldest)
  {
    hide Sorting.NoRepeats;
    var sizes, items := Counted(f, keys, table, id), ItemsAt(f, keys, table);
    OldestIsMaximum(items, id);
    hide OldestOf;
    forall p | p in sizes
      ensures f.now <= table[p].timestamp + OldestOf(items, id)
    {
      ItemsOfTable(f, keys, table, Item(id, table[p].size, f.now - table[p].timestamp));
    }
    TotalsOfTable(f, keys, table, id);
    if sizes != map[] {
      assert |sizes| > 0;
      var x :| x in items && x.stackId == id && x.age == OldestOf(items, id);
      ItemsOfTable(f, keys, table, x);
    }
  }

  // ---- Merging ----

  /** The groups after one more item: the first group of its stack grows, or a group is added if there is room. */
  function Merged(groups: seq<Group>, x: Item, i: nat): seq<Group>
    requires i <= |groups|
  {
    if i < |groups| then
      var g := groups[i];
      groups[i := Group(g.stackId, g.totalBytes + x.size, g.count + 1, Older(x.age, g.oldestAge))]
    else if |groups| < MAX_DISPLAY_ENTRIES then groups + [Group(x.stackId, x.size, 1, x.age)]
    else groups
  }

  /** The first group of a stack is at i, or there is none and i is the number of groups. */
  predicate FoundAt(groups: seq<Group>, id: int, i: nat) {
    && i <= |groups|
    && (i < |groups| ==> groups[i].stackId == id)
    && forall k | 0 <= k < i :: groups[k].stackId != id
  }

  /** What one more item does to the group of a stack. */
  lemma GroupGrows(items: seq<Item>, x: Item, id: int)
    ensures var g := GroupOf(items, id);
            GroupOf(items + [x], id)
            == if x.stackId == id then Group(id, g.totalBytes + x.size, g.count + 1, Older(x.age, g.oldestAge)) else g
  {
    assert (items + [x])[..|items|] == items;
  }

  lemma KeptIdsGrow(items: seq<Item>, x: Item)
    ensures var ids := KeptIds(items);
            KeptIds(items + [x]) == if x.stackId !in ids && |ids| < MAX_DISPLAY_ENTRIES then ids + [x.stackId] else ids
  {
    assert (items + [x])[..|items|] == items;
  }

  /** Merging keeps every group exact. */
  lemma MergeIsExact(items: seq<Item>, x: Item, i: nat)
    requires FoundAt(Groups(items), x.stackId, i)
    ensures Merged(Groups(items), x, i) == Groups(items + [x])
  {
    hide KeptIds, Sorting.NoRepeats;
    var groups, after, ids := Groups(items), Groups(items + [x]), KeptIds(items);
    KeptIdsAppear(items);
    KeptIdsGrow(items, x);
    assert forall k | 0 <= k < |groups| :: groups[k].stackId == ids[k];
    assert i < |ids| <==> x.stackId in ids;
    if i == |ids| && |ids| < MAX_DISPLAY_ENTRIES {
      NoneOf(items, x.stackId);
      GroupGrows(items, x, x.stackId);
    }
    OneOfEach(items, i);
    forall k | 0 <= k < |groups|
      ensures after[k] == Merged(groups, x, i)[k]
    {
      GroupGrows(items, x, ids[k]);
    }
  }

  lemma OneOfEach(items: seq<Item>, i: nat)
    ensures i < |KeptIds(items)| ==>
              forall k | 0 <= k < |KeptIds(items)| && k != i :: KeptIds(items)[k] != KeptIds(items)[i]
  {
    KeptIdsAppear(items);
  }

  method Merge(entries: array<Group>, count: nat, x: Item) returns (after: nat, ghost i: nat)
    requires count <= entries.Length == MAX_DISPLAY_ENTRIES
    modifies entries
    ensures after <= MAX_DISPLAY_ENTRIES
    ensures FoundAt(old(entries[..count]), x.stackId, i)
    ensures entries[..after] == Merged(old(entries[..count]), x, i)
  {
    var found := false;
    var n := 0;
    while n < count
      invariant 0 <= n <= count
      invariant forall k | 0 <= k < n :: entries[k].stackId != x.stackId
    {
      if entries[n].stackId == x.stackId {
        found := true;
        break;
      }
      n := n + 1;
    }
    i, after := n, count;
    if found {
      var g := entries[n];
      entries[n] := Group(g.stackId, g.totalBytes + x.size, g.count + 1, Older(x.age, g.oldestAge));
    } else if count < MAX_DISPLAY_ENTRIES {
      entries[count] := Group(x.stackId, x.size, 1, x.age);
      after := count + 1;
    }
  }

  // ---- Showing ----

  predicate Descending(s: seq<Group>) {
    forall i, j | 0 <= i < j < |s| :: s[i].totalBytes >= s[j].totalBytes
  }

  /** What qsort may leave: the same groups by descending size; equal sizes in any order. */
  predicate SortedGroups(t: seq<Group>, s: seq<Group>) {
    Descending(t) && multiset(t) == multiset(s) && |t| == |s|
  }

  lemma SomeSortedGroups(s: seq<Group>)
    ensures exists t :: SortedGroups(t, s)
  {
    var key := (g: Group) => -(g.totalBytes as int);
    Sorting.SomeSortedPermutation(s, key);
    var t: seq<Group> :| Sorting.SortedPermutation(t, s, key);
    assert forall i | 0 <= i < |t| :: key(t[i]) == -(t[i].totalBytes as int);
    assert |multiset(t)| == |multiset(s)|;
    assert SortedGroups(t, s);
  }

  function Shown(count: nat, topN: int): (n: nat)
    ensures n <= count
  {
    if count < topN then count else if topN < 0 then 0 else topN
  }

  /** What is printed: the beginning of the groups in some order of descending size. */
  ghost predicate ShowsTop(groups: seq<Group>, topN: int, shown: seq<Group>) {
    exists sorted :: SortedGroups(sorted, groups) && shown == sorted[..Shown(|groups|, topN)]
  }

  lemma DescendingParts(shown: seq<Group>, rest: seq<Group>, g: Group, h: Group)
    requires Descending(shown + rest) && g in shown && h in rest
    ensures g.totalBytes >= h.totalBytes
  {
    var i :| 0 <= i < |shown| && shown[i] == g;
    var j :| 0 <= j < |rest| && rest[j] == h;
    assert (shown + rest)[i] == g && (shown + rest)[|shown| + j] == h;
  }

  /** The groups shown are the top ones: in descending order, and no smaller than any left out. */
  lemma ShownAreTop(groups: seq<Group>, topN: int, shown: seq<Group>)
    requires ShowsTop(groups, topN, shown)
    ensures |shown| == (if topN < 0 then 0 else if topN < |groups| then topN else |groups|) && Descending(shown)
    ensures multiset(shown) <= multiset(groups)
    ensures forall g, h | g in shown && h in multiset(groups) - multiset(shown) :: g.totalBytes >= h.totalBytes
  {
    var sorted :| SortedGroups(sorted, groups) && shown == sorted[..Shown(|groups|, topN)];
    var rest := sorted[|shown|..];
    assert sorted == shown + rest;
    assert multiset(groups) == multiset(shown) + multiset(rest);
    hide Descending;
    forall g, h | g in shown && h in multiset(groups) - multiset(shown)
      ensures g.totalBytes >= h.totalBytes
    {
      assert h in multiset(rest);
      DescendingParts(shown, rest, g, h);
    }
  }

  // ---- The reports ----

  /** The map's answer: the key after this one, if any. */
  function NextKey(order: seq<nat>, key: nat): Option<nat> {
    var i := NextPosition(order, key);
    if i < |order| then Some(order[i]) else None
  }

  /** The items of the keys from the first one visited up to a position. */
  ghost predicate Walked(f: Filter, order: seq<nat>, table: map<nat, AllocInfo>,
                         start: nat, pos: nat, items: seq<Item>) {
    start <= pos <= |order| && items == ItemsAt(f, order[start..pos], table)
  }

  lemma WalkStarts(f: Filter, order: seq<nat>, table: map<nat, AllocInfo>)
    ensures Walked(f, order, table, NextPosition(order, 0), NextPosition(order, 0), []) && Groups([]) == []
  {
  }

  lemma WalkStep(f: Filter, order: seq<nat>, table: map<nat, AllocInfo>, start: nat, pos: nat, items: seq<Item>)
    requires Sorting.NoRepeats(order) && Walked(f, order, table, start, pos, items) && pos < |order|
    ensures NextPosition(order, order[pos]) == pos + 1
    ensures Walked(f, order, table, start, pos + 1, items + ItemAt(f, order[pos], table))
  {
    NextIsSuccessor(order, pos);
    ItemsStep(f, order, start, pos, table);
  }

  lemma WalkEnds(f: Filter, order: seq<nat>, table: map<nat, AllocInfo>, pos: nat, items: seq<Item>)
    requires Walked(f, order, table, NextPosition(order, 0), pos, items) && pos == |order|
    ensures items == Report(f, order, table)
  {
    assert order[NextPosition(order, 0)..pos] == Visited(order);
  }

  lemma NothingShown(topN: int)
    ensures ShowsTop([], topN, [])
  {
    assert SortedGroups([], []);
  }

  lemma ItemsStep(f: Filter, order: seq<nat>, start: nat, i: nat, table: map<nat, AllocInfo>)
    requires start <= i < |order|
    ensures ItemsAt(f, order[start..i + 1], table) == ItemsAt(f, order[start..i], table) + ItemAt(f, order[i], table)
  {
    assert order[start..i + 1][..i - start] == order[start..i];
  }

  /** Merges one allocation into the groups: they stay the exact groups of the items so far. */
  method Count(entries: array<Group>, count: nat, ghost items: seq<Item>, x: Item) returns (after: nat)
    requires count <= entries.Length == MAX_DISPLAY_ENTRIES && entries[..count] == Groups(items)
    modifies entries
    ensures after <= MAX_DISPLAY_ENTRIES && entries[..after] == Groups(items + [x])
  {
    ghost var i;
    after, i := Merge(entries, count, x);
    MergeIsExact(items, x, i);
  }

  lemma TopShown(sorted: seq<Group>, groups: seq<Group>, topN: int, shown: seq<Group>)
    requires SortedGroups(sorted, groups) && shown == sorted[..Shown(|sorted|, topN)]
    ensures ShowsTop(groups, topN, shown)
  {
  }

  /** Sorts the groups and returns those shown. */
  method ShowTop(entries: array<Group>, count: nat, topN: int) returns (shown: seq<Group>)
    requires count <= entries.Length
    modifies entries
    ensures ShowsTop(old(entries[..count]), topN, shown)
  {
    hide ShowsTop, SortedGroups;
    ghost var groups := entries[..count];
    Sort(entries, count);
    ghost var sorted := entries[..count];
    var display := if count < topN then count else topN;
    shown := [];
    var i := 0;
    while i < display
      invariant 0 <= i <= Shown(count, topN) && shown == sorted[..i]
    {
      shown := shown + [entries[i]];
      i := i + 1;
    }
    TopShown(sorted, groups, topN, shown);
  }

  method Sort(entries: array<Group>, count: nat)
    requires count <= entries.Length
    modifies entries
    ensures SortedGroups(entries[..count], old(entries[..count]))
  {
    var groups := entries[..count];
    SomeSortedGroups(groups);
    var sorted :| SortedGroups(sorted, groups);
    forall i | 0 <= i < count {
      entries[i] := sorted[i];
    }
    assert entries[..count] == sorted;
  }

  /** The largest stacks of the allocation table, by the bytes they hold. */
  method StackTop(order: seq<nat>, table: map<nat, AllocInfo>, topN: int) returns (shown: seq<Group>)
    requires Sorting.NoRepeats(order)
    ensures ShowsTop(Groups(Report(Stacks, order, table)), topN, shown)
  {
    hide Groups, ItemsAt, NextPosition, ShowsTop, Sorting.NoRepeats;
    var stacks := new Group[MAX_DISPLAY_ENTRIES];
    var count: nat, key: nat := 0, 0;
    ghost var start, items := NextPosition(order, 0), [];
    ghost var pos := start;
    WalkStarts(Stacks, order, table);
    while true
      invariant count <= MAX_DISPLAY_ENTRIES && stacks[..count] == Groups(items)
      invariant pos == NextPosition(order, key) && Walked(Stacks, order, table, start, pos, items)
      decreases |order| - pos
    {
      var next := NextKey(order, key);
      if next.None? {
        break;
      }
      WalkStep(Stacks, order, table, start, pos, items);
      key, pos := next.value, pos + 1;
      if key !in table {
        continue;
      }
      var info := table[key];
      if info.stackId < 0 {
        continue;
      }
      count := Count(stacks, count, items, Item(info.stackId, info.size, 0));
      items := items + [Item(info.stackId, info.size, 0)];
    }
    WalkEnds(Stacks, order, table, pos, items);
    if count == 0 {
      NothingShown(topN);
      return [];
    }
    shown := ShowTop(stacks, count, topN);
  }

  /** The largest groups of allocations that are old and large enough. */
  method LeakSuspects(order: seq<nat>, table: map<nat, AllocInfo>, now: nat, minAge: nat, minSize: nat, topN: int)
    returns (shown: seq<Group>, count: nat)
    requires Sorting.NoRepeats(order)
    ensures var groups := Groups(Report(Leaks(now, minAge, minSize), order, table));
            count == |groups| && ShowsTop(groups, topN, shown)
  {
    hide Groups, ItemsAt, NextPosition, ShowsTop, Sorting.NoRepeats;
    ghost var f := Leaks(now, minAge, minSize);
    var entries := new Group[MAX_DISPLAY_ENTRIES];
    var key: nat := 0;
    count := 0;
    ghost var start, items := NextPosition(order, 0), [];
    ghost var pos := start;
    WalkStarts(f, order, table);
    while true
      invariant count <= MAX_DISPLAY_ENTRIES && entries[..count] == Groups(items)
      invariant pos == NextPosition(order, key) && Walked(f, order, table, start, pos, items)
      decreases |order| - pos
    {
      var next := NextKey(order, key);
      if next.None? {
        break;
      }
      WalkStep(f, order, table, start, pos, items);
      key, pos := next.value, pos + 1;
      if key !in table {
        continue;
      }
      var info := table[key];
      if now > info.timestamp {
        if now - info.timestamp < minAge {
          continue;
        }
      } else {
        continue;
      }
      if info.size < minSize {
        continue;
      }
      var x := Item(info.stackId, info.size, now - info.timestamp);
      count := Count(entries, count, items, x);
      items := items + [x];
    }
    WalkEnds(f, order, table, pos, items);
    if count == 0 {
      NothingShown(topN);
      return [], 0;
    }
    shown := ShowTop(entries, count, topN);
  }

  // ---- The whole report ----

  /** With at most 128 stacks in the table, what is shown is exact and no stack left out holds more. */
  lemma TrueTop(f: Filter, order: seq<nat>, table: map<nat, AllocInfo>, topN: int, shown: seq<Group>)
    requires 0 !in order && |IdsOf(ItemsAt(f, order, table))| <= MAX_DISPLAY_ENTRIES
    requires ShowsTop(Groups(Report(f, order, table)), topN, shown)
    ensures var items := ItemsAt(f, order, table);
            && (forall g | g in shown :: g.stackId in IdsOf(items) && g == GroupOf(items, g.stackId))
            && (forall g, id | g in shown && id in IdsOf(items) && GroupOf(items, id) !in shown ::
                  BytesOf(items, id) <= g.totalBytes)
  {
    var items := ItemsAt(f, order, table);
    VisitsAll(order);
    ShownAreTop(Groups(items), topN, shown);
    forall g | g in shown
      ensures g.stackId in IdsOf(items) && g == GroupOf(items, g.stackId)
    {
      assert g in multiset(shown);
      GroupIn(items, g);
    }
    forall g, id | g in shown && id in IdsOf(items) && GroupOf(items, id) !in shown
      ensures BytesOf(items, id) <= g.totalBytes
    {
      var h := GroupOf(items, id);
      GroupIn(items, h);
      assert h in multiset(Groups(items)) - multiset(shown);
    }
  }

  /** Any two walks over the allocation table of a run give the same groups, with at most 128 stacks. */
  lemma RunsReportAlike(target: uint32, events: seq<Event>, f: Filter, a: seq<nat>, b: seq<nat>)
    requires var table := Replay(target, events).table;
             && Sorting.NoRepeats(a) && Sorting.NoRepeats(b)
             && (forall key :: (key in a <==> key in table) && (key in b <==> key in table))
             && |IdsOf(Report(f, a, table))| <= MAX_DISPLAY_ENTRIES
    ensures var table := Replay(target, events).table;
            multiset(Groups(Report(f, a, table))) == multiset(Groups(Report(f, b, table)))
  {
    TableBounded(target, events);
    OrderDoesNotMatter(f, a, b, Replay(target, events).table);
  }
}
