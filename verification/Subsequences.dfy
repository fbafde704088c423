/** Subsequences: what is left of a list after dropping some of its elements. */
module Subsequences {

  ghost predicate IsSubsequence<T>(a: seq<T>, b: seq<T>)
    decreases |b|
  {
    if a == [] then true
    else if b == [] then false
    else
      || (a[|a| - 1] == b[|b| - 1] && IsSubsequence(a[..|a| - 1], b[..|b| - 1]))
      || IsSubsequence(a, b[..|b| - 1])
  }

  lemma KeepLast<T>(a: seq<T>, b: seq<T>, x: T)
    requires IsSubsequence(a, b)
    ensures IsSubsequence(a + [x], b + [x])
  {
    assert (a + [x])[..|a|] == a && (b + [x])[..|b|] == b;
  }

  lemma DropLast<T>(a: seq<T>, b: seq<T>, x: T)
    requires IsSubsequence(a, b)
    ensures IsSubsequence(a, b + [x])
  {
    assert (b + [x])[..|b|] == b;
  }

  lemma {:induction false} Extends<T>(a: seq<T>, c: seq<T>)
    ensures IsSubsequence(a, a + c)
    decreases |a| + |c|
  {
    if c != [] {
      Extends(a, c[..|c| - 1]);
      assert a + c == a + c[..|c| - 1] + [c[|c| - 1]];
      DropLast(a, a + c[..|c| - 1], c[|c| - 1]);
    } else if a != [] {
      Extends(a[..|a| - 1], []);
      assert a + c == a && a[..|a| - 1] + [] == a[..|a| - 1];
    }
  }

  lemma {:induction false} Transitive<T>(a: seq<T>, b: seq<T>, c: seq<T>)
    requires IsSubsequence(a, b) && IsSubsequence(b, c)
    ensures IsSubsequence(a, c)
    decreases |c|
  {
    if a != [] {
      var c0, b0, a0 := c[..|c| - 1], b[..|b| - 1], a[..|a| - 1];
      if b[|b| - 1] == c[|c| - 1] && IsSubsequence(b0, c0) {
        if a[|a| - 1] == b[|b| - 1] && IsSubsequence(a0, b0) {
          Transitive(a0, b0, c0);
        } else {
          Transitive(a, b0, c0);
        }
      } else {
        Transitive(a, b, c0);
      }
    }
  }

  lemma {:induction false} NotLonger<T>(a: seq<T>, b: seq<T>)
    requires IsSubsequence(a, b)
    ensures |a| <= |b|
    decreases |b|
  {
    if a != [] {
      if a[|a| - 1] == b[|b| - 1] && IsSubsequence(a[..|a| - 1], b[..|b| - 1]) {
        NotLonger(a[..|a| - 1], b[..|b| - 1]);
      } else {
        NotLonger(a, b[..|b| - 1]);
      }
    }
  }
}
