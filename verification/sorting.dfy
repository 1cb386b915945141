/**
 * Python's `sorted` applied to the two kinds of collections the report
 * code sorts: a set of strings, and the set of word lengths. Both are
 * built by inserting one element at a time into a strictly ascending
 * sequence.
 *
 * The two are written out separately rather than over one generic order:
 * strings are compared by `Text.Less`, whose order laws are lemmas that
 * the proofs here call, while lengths use the built-in `<`, whose laws
 * the verifier knows. A generic version would take the order as a
 * function argument and carry those laws as preconditions on every member.
 */
module Sorting {
  import opened Text

  /** Strictly ascending in Python's string order, hence free of duplicates. */
  predicate StrictlySorted(xs: seq<string>) {
    forall i, j :: 0 <= i < j < |xs| ==> Less(xs[i], xs[j])
  }

  /** Strictly ascending numbers. */
  predicate Ascending(xs: seq<nat>) {
    forall i, j :: 0 <= i < j < |xs| ==> xs[i] < xs[j]
  }

  /** Whatever precedes the head of a sorted sequence precedes all of it. */
  lemma BelowHead(xs: seq<string>, x: string)
    requires StrictlySorted(xs) && |xs| > 0 && Less(x, xs[0])
    ensures forall j :: 0 <= j < |xs| ==> Less(x, xs[j])
  {
    forall j | 0 < j < |xs|
      ensures Less(x, xs[j])
    {
      LessTransitive(x, xs[0], xs[j]);
    }
  }

  /** A sorted sequence stays sorted under a head below all its elements. */
  lemma PrependSorted(h: string, t: seq<string>)
    requires StrictlySorted(t)
    requires forall y :: y in t ==> Less(h, y)
    ensures StrictlySorted([h] + t)
  {
    forall i, j | 0 <= i < j < |[h] + t|
      ensures Less(([h] + t)[i], ([h] + t)[j])
    {
      if i == 0 {
        assert ([h] + t)[j] == t[j - 1];
      }
    }
  }

  /** Puts `x` into its place in the sorted `xs`. */
  function InsertWord(xs: seq<string>, x: string): (r: seq<string>)
    requires StrictlySorted(xs) && x !in xs
    ensures StrictlySorted(r)
    ensures |r| == |xs| + 1
    ensures forall y :: y in r <==> y in xs || y == x
  {
    if |xs| == 0 then [x]
    else if Less(x, xs[0]) then
      BelowHead(xs, x);
      [x] + xs
    else
      LessTotal(x, xs[0]);
      assert forall y :: y in xs[1..] ==> Less(xs[0], y);
      PrependSorted(xs[0], InsertWord(xs[1..], x));
      [xs[0]] + InsertWord(xs[1..], x)
  }

  /** `sorted(list(s))` for a set of strings. */
  method SortWords(s: set<string>) returns (r: seq<string>)
    ensures StrictlySorted(r)
    ensures forall x :: x in r <==> x in s
    ensures |r| == |s|
  {
    r := [];
    var rest := s;
    while rest != {}
      invariant rest <= s
      invariant StrictlySorted(r)
      invariant forall x :: x in r <==> x in s && x !in rest
      invariant |r| + |rest| == |s|
      decreases |rest|
    {
      var x :| x in rest;
      r := InsertWord(r, x);
      rest := rest - {x};
    }
  }

  /** An ascending sequence stays ascending under a head below all its elements. */
  lemma PrependAscending(h: nat, t: seq<nat>)
    requires Ascending(t)
    requires forall y :: y in t ==> h < y
    ensures Ascending([h] + t)
  {
    forall i, j | 0 <= i < j < |[h] + t|
      ensures ([h] + t)[i] < ([h] + t)[j]
    {
      if i == 0 {
        assert ([h] + t)[j] == t[j - 1];
        assert t[j - 1] in t;
      }
    }
  }

  /** Puts `x` into its place in the ascending `xs`. */
  function InsertLength(xs: seq<nat>, x: nat): (r: seq<nat>)
    requires Ascending(xs) && x !in xs
    ensures Ascending(r)
    ensures |r| == |xs| + 1
    ensures forall y :: y in r <==> y in xs || y == x
  {
    if |xs| == 0 || x < xs[0] then [x] + xs
    else
      assert forall y :: y in xs[1..] ==> xs[0] < y;
      PrependAscending(xs[0], InsertLength(xs[1..], x));
      [xs[0]] + InsertLength(xs[1..], x)
  }

  /** `sorted(keys)` for a set of word lengths. */
  method SortLengths(s: set<nat>) returns (r: seq<nat>)
    ensures Ascending(r)
    ensures forall x :: x in r <==> x in s
    ensures |r| == |s|
  {
    r := [];
    var rest := s;
    while rest != {}
      invariant rest <= s
      invariant Ascending(r)
      invariant forall x :: x in r <==> x in s && x !in rest
      invariant |r| + |rest| == |s|
      decreases |rest|
    {
      var x :| x in rest;
      r := InsertLength(r, x);
      rest := rest - {x};
    }
  }

  /**
   * A set has only one strictly sorted listing, so the listing that
   * `sorted` returns does not depend on the set's iteration order.
   */
  lemma {:induction false} SortedUnique(a: seq<string>, b: seq<string>)
    requires StrictlySorted(a) && StrictlySorted(b)
    requires forall x :: x in a <==> x in b
    ensures a == b
    decreases |a|
  {
    if |a| > 0 {
      assert a[0] in a;
    }
    if |b| > 0 {
      assert b[0] in b;
    }
    if |a| > 0 && |b| > 0 {
      if a[0] != b[0] {
        assert b[0] in a;
        assert a[0] in b;
        var i :| 0 <= i < |a| && a[i] == b[0];
        var j :| 0 <= j < |b| && b[j] == a[0];
        assert Less(a[0], b[0]);
        assert Less(b[0], a[0]);
        LessAsymmetric(a[0], b[0]);
        assert false;
      }
      forall x
        ensures x in a[1..] <==> x in b[1..]
      {
        if x in a[1..] {
          var i :| 1 <= i < |a| && a[i] == x;
          assert x in b;
          var j :| 0 <= j < |b| && b[j] == x;
          if j == 0 {
            LessIrreflexive(x);
          }
          assert b[1..][j - 1] == x;
        }
        if x in b[1..] {
          var j :| 1 <= j < |b| && b[j] == x;
          assert x in a;
          var i :| 0 <= i < |a| && a[i] == x;
          if i == 0 {
            LessIrreflexive(x);
          }
          assert a[1..][i - 1] == x;
        }
      }
      SortedUnique(a[1..], b[1..]);
    }
  }

  /** An ascending sequence is determined by its set of elements. */
  lemma {:induction false} AscendingUnique(a: seq<nat>, b: seq<nat>)
    requires Ascending(a) && Ascending(b)
    requires forall x :: x in a <==> x in b
    ensures a == b
    decreases |a|
  {
    if |a| > 0 {
      assert a[0] in a;
    }
    if |b| > 0 {
      assert b[0] in b;
    }
    if |a| > 0 && |b| > 0 {
      assert a[0] in b && b[0] in a;
      assert a[0] == b[0];
      forall x
        ensures x in a[1..] <==> x in b[1..]
      {
        if x in a[1..] {
          var i :| 1 <= i < |a| && a[i] == x;
          assert x in b && x > a[0];
          var j :| 0 <= j < |b| && b[j] == x;
          assert b[1..][j - 1] == x;
        }
        if x in b[1..] {
          var j :| 1 <= j < |b| && b[j] == x;
          assert x in a && x > b[0];
          var i :| 0 <= i < |a| && a[i] == x;
          assert a[1..][i - 1] == x;
        }
      }
      AscendingUnique(a[1..], b[1..]);
    }
  }
}
