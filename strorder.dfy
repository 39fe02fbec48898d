/**
 * The order Python's `sorted` uses on `str` values: lexicographic by code
 * point, a proper prefix coming first. It is a strict total order, so a
 * strictly increasing sequence is determined by its set of elements.
 */
module StrOrder {

  /** Python's `a < b` on strings. */
  predicate Lt(a: string, b: string)
  {
    if |a| == 0 then |b| > 0
    else if |b| == 0 then false
    else if a[0] != b[0] then a[0] < b[0]
    else Lt(a[1..], b[1..])
  }

  lemma {:induction false} LtIrreflexive(a: string)
    ensures !Lt(a, a)
  {
    if |a| > 0 { LtIrreflexive(a[1..]); }
  }

  lemma {:induction false} LtTransitive(a: string, b: string, c: string)
    requires Lt(a, b) && Lt(b, c)
    ensures Lt(a, c)
  {
    if |a| > 0 && |b| > 0 && |c| > 0 && a[0] == b[0] && b[0] == c[0] {
      LtTransitive(a[1..], b[1..], c[1..]);
    }
  }

  lemma {:induction false} LtTotal(a: string, b: string)
    ensures a == b || Lt(a, b) || Lt(b, a)
  {
    if |a| > 0 && |b| > 0 && a[0] == b[0] {
      LtTotal(a[1..], b[1..]);
      if a[1..] == b[1..] {
        assert a == [a[0]] + a[1..] && b == [b[0]] + b[1..];
      }
    }
  }

  lemma LtAsymmetric(a: string, b: string)
    requires Lt(a, b)
    ensures !Lt(b, a) && a != b
  {
    LtIrreflexive(a);
    if Lt(b, a) { LtTransitive(a, b, a); }
  }

  /** A proper prefix comes before the longer string. */
  lemma {:induction false} LtPrefix(a: string, b: string)
    requires |a| < |b| && a == b[..|a|]
    ensures Lt(a, b)
  {
    if |a| > 0 {
      assert a[1..] == b[1..][..|a| - 1];
      LtPrefix(a[1..], b[1..]);
    }
  }

  /** Every element is smaller than every later one: sorted, no duplicates. */
  predicate StrictlySorted(s: seq<string>)
  {
    forall i, j :: 0 <= i < j < |s| ==> Lt(s[i], s[j])
  }

  /** Neighbours in order is enough for the whole sequence to be in order. */
  lemma {:induction false} AdjacentSorted(s: seq<string>)
    requires forall i :: 0 <= i < |s| - 1 ==> Lt(s[i], s[i + 1])
    ensures StrictlySorted(s)
    decreases |s|
  {
    if |s| > 1 {
      AdjacentSorted(s[1..]);
      forall j | 1 <= j < |s| ensures Lt(s[0], s[j]) {
        if j > 1 {
          assert s[1..][0] == s[1] && s[1..][j - 1] == s[j];
          LtTransitive(s[0], s[1], s[j]);
        }
      }
      forall i, j | 0 <= i < j < |s| ensures Lt(s[i], s[j]) {
        if i > 0 { assert s[1..][i - 1] == s[i] && s[1..][j - 1] == s[j]; }
      }
    }
  }

  /** Gluing two sorted sequences whose boundary is in order gives a sorted one. */
  lemma SortedAppend(a: seq<string>, b: seq<string>)
    requires StrictlySorted(a) && StrictlySorted(b)
    requires |a| > 0 && |b| > 0 ==> Lt(a[|a| - 1], b[0])
    ensures StrictlySorted(a + b)
  {
    var s := a + b;
    forall i, j | 0 <= i < j < |s| ensures Lt(s[i], s[j]) {
      if i < |a| && j >= |a| {
        if i < |a| - 1 { LtTransitive(a[i], a[|a| - 1], b[0]); }
        if j > |a| {
          if i < |a| - 1 {
            LtTransitive(a[i], b[0], b[j - |a|]);
          } else {
            LtTransitive(a[i], b[0], b[j - |a|]);
          }
        }
      }
    }
  }

  lemma SameElementsEmpty(a: seq<string>, b: seq<string>)
    requires forall x :: x in a <==> x in b
    ensures |a| == 0 <==> |b| == 0
  {
    if |a| > 0 { assert a[0] in b; }
    if |b| > 0 { assert b[0] in a; }
  }

  /** Two strictly sorted sequences with the same elements are equal. */
  lemma {:induction false} SortedUnique(a: seq<string>, b: seq<string>)
    requires StrictlySorted(a) && StrictlySorted(b)
    requires forall x :: x in a <==> x in b
    ensures a == b
    decreases |a|
  {
    SameElementsEmpty(a, b);
    if |a| > 0 {
      // a[0] and b[0] are both the least element of the common set
      if a[0] != b[0] {
        assert a[0] in a && b[0] in b;
        var i :| 0 <= i < |b| && b[i] == a[0];
        var j :| 0 <= j < |a| && a[j] == b[0];
        assert i > 0 && j > 0;
        LtAsymmetric(a[0], a[j]);
      }
      forall x ensures x in a[1..] <==> x in b[1..] {
        if x in a[1..] {
          var k :| 1 <= k < |a| && a[k] == x;
          LtAsymmetric(a[0], a[k]);
          assert x in b;
        }
        if x in b[1..] {
          var k :| 1 <= k < |b| && b[k] == x;
          LtAsymmetric(b[0], b[k]);
          assert x in a;
        }
      }
      SortedUnique(a[1..], b[1..]);
      assert a == [a[0]] + a[1..] && b == [b[0]] + b[1..];
    }
  }

  /** In a strictly sorted sequence no element occurs twice. */
  lemma SortedDistinct(s: seq<string>, i: int, j: int)
    requires StrictlySorted(s) && 0 <= i < |s| && 0 <= j < |s| && s[i] == s[j]
    ensures i == j
  {
    if i < j { LtIrreflexive(s[i]); }
    if j < i { LtIrreflexive(s[j]); }
  }
}
