/** What a sort may leave behind: any permutation in ascending order of a key. */
module Sorting {
  ghost predicate Ascending<T(!new)>(s: seq<T>, key: T -> int) {
    forall i, j | 0 <= i < j < |s| :: key(s[i]) <= key(s[j])
  }

  ghost predicate SortedPermutation<T(!new)>(t: seq<T>, s: seq<T>, key: T -> int) {
    Ascending(t, key) && multiset(t) == multiset(s)
  }

  function Insert<T>(x: T, s: seq<T>, key: T -> int): seq<T> {
    if s == [] || key(x) <= key(s[0]) then [x] + s else [s[0]] + Insert(x, s[1..], key)
  }

  lemma {:induction false} InsertKeepsAll<T(!new)>(x: T, s: seq<T>, key: T -> int)
    ensures multiset(Insert(x, s, key)) == multiset([x] + s)
  {
    if s != [] && key(x) > key(s[0]) {
      InsertKeepsAll(x, s[1..], key);
      assert s == [s[0]] + s[1..];
    }
  }

  lemma {:induction false} InsertKeepsAscending<T(!new)>(x: T, s: seq<T>, key: T -> int)
    requires Ascending(s, key)
    ensures Ascending(Insert(x, s, key), key)
  {
    if s != [] && key(x) > key(s[0]) {
      InsertKeepsAscending(x, s[1..], key);
      InsertKeepsAll(x, s[1..], key);
      var rest := Insert(x, s[1..], key);
      forall j | 0 <= j < |rest|
        ensures key(s[0]) <= key(rest[j])
      {
        assert rest[j] in multiset(rest);
        assert rest[j] == x || rest[j] in s[1..];
      }
    }
  }

  /** Every list can be sorted. */
  lemma {:induction false} SomeSortedPermutation<T(!new)>(s: seq<T>, key: T -> int)
    ensures exists t :: SortedPermutation(t, s, key)
  {
    if s == [] {
      assert SortedPermutation([], s, key);
    } else {
      SomeSortedPermutation(s[1..], key);
      var t :| SortedPermutation(t, s[1..], key);
      InsertKeepsAscending(s[0], t, key);
      InsertKeepsAll(s[0], t, key);
      assert s == [s[0]] + s[1..];
      assert SortedPermutation(Insert(s[0], t, key), s, key);
    }
  }

  // ---- Permutations ----

  ghost predicate NoRepeats<T(!new)>(s: seq<T>) {
    forall i, j | 0 <= i < j < |s| :: s[i] != s[j]
  }

  lemma {:induction false} OnceEach<T(!new)>(s: seq<T>, x: T)
    requires NoRepeats(s)
    ensures multiset(s)[x] == if x in s then 1 else 0
  {
    if s != [] {
      var before, last := s[..|s| - 1], s[|s| - 1];
      assert s == before + [last];
      OnceEach(before, x);
    }
  }

  /** Lists without repeats that have the same elements are permutations of each other. */
  lemma SameElements<T(!new)>(s: seq<T>, t: seq<T>)
    requires NoRepeats(s) && NoRepeats(t)
    requires forall x :: x in s <==> x in t
    ensures multiset(s) == multiset(t)
  {
    forall x: T
      ensures multiset(s)[x] == multiset(t)[x]
    {
      OnceEach(s, x);
      OnceEach(t, x);
    }
  }

  lemma {:induction false} CountsElements<T(!new)>(s: seq<T>, elements: set<T>)
    requires NoRepeats(s) && forall x :: x in s <==> x in elements
    ensures |s| == |elements|
  {
    if s == [] {
      assert elements == {};
    } else {
      var before, last := s[..|s| - 1], s[|s| - 1];
      assert s == before + [last];
      CountsElements(before, elements - {last});
    }
  }

  /** The list without its element at j. */
  function Without<T>(s: seq<T>, j: nat): seq<T>
    requires j < |s|
  {
    s[..j] + s[j + 1..]
  }

  lemma WithoutOne<T>(s: seq<T>, j: nat)
    requires j < |s|
    ensures multiset(s) == multiset(Without(s, j)) + multiset{s[j]}
  {
    assert s == s[..j] + [s[j]] + s[j + 1..];
  }

  lemma WithoutBefore<T>(s: seq<T>, j: nat, n: nat)
    requires j < n < |s|
    ensures Without(s[..n], j) == Without(s[..n + 1], j)[..n - 1] && Without(s[..n + 1], j)[n - 1] == s[n]
  {
    assert s[..n][j + 1..] == s[j + 1..n] && s[..n + 1][j + 1..] == s[j + 1..n + 1];
  }

  /** A permutation has the last element somewhere; without it there the rests are permutations. */
  lemma LastInPermutation<T>(a: seq<T>, b: seq<T>) returns (k: nat)
    requires multiset(a) == multiset(b) && a != []
    ensures k < |b| && b[k] == a[|a| - 1]
    ensures multiset(Without(a, |a| - 1)) == multiset(Without(b, k))
  {
    var j := |a| - 1;
    assert a[j] in multiset(b);
    k :| k < |b| && b[k] == a[j];
    WithoutOne(a, j);
    WithoutOne(b, k);
    assert multiset(Without(a, j)) == multiset(a) - multiset{a[j]};
    assert multiset(Without(b, k)) == multiset(b) - multiset{a[j]};
  }

  lemma PermutationOfNone<T>(b: seq<T>)
    requires multiset(b) == multiset{}
    ensures b == []
  {
    assert |multiset(b)| == 0;
  }
}
