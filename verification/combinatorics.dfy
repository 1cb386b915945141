/**
 * `itertools.combinations` and `itertools.permutations` over a string,
 * each yielding its results in the order the library does, with each
 * tuple already joined back into a string.
 */
module Combinatorics {

  /** Puts `c` in front of every string of `xs`, keeping their order. */
  function PrependAll(c: char, xs: seq<string>): (r: seq<string>)
    ensures |r| == |xs|
    ensures forall k :: 0 <= k < |xs| ==> r[k] == [c] + xs[k]
  {
    seq(|xs|, k requires 0 <= k < |xs| => [c] + xs[k])
  }

  /** `s` with the character at position `i` taken out. */
  function RemoveAt(s: string, i: nat): (r: string)
    requires i < |s|
    ensures |r| == |s| - 1
    ensures multiset(s) == multiset(r) + multiset{s[i]}
  {
    assert s == s[..i] + [s[i]] + s[i + 1..];
    s[..i] + s[i + 1..]
  }

  /**
   * `combinations(s, r)`: the position-preserving selections of `r` of
   * the characters of `s`, those that use `s[0]` first. Equal letters at
   * different positions are different selections.
   */
  function Combinations(s: string, r: nat): seq<string>
    decreases |s|
  {
    if r == 0 then [[]]
    else if |s| == 0 then []
    else PrependAll(s[0], Combinations(s[1..], r - 1)) + Combinations(s[1..], r)
  }

  /** Every selection draws on the letters of `s`, each at most as often as `s` has it. */
  lemma {:induction false} CombinationsSound(s: string, r: nat, k: nat)
    requires k < |Combinations(s, r)|
    ensures |Combinations(s, r)[k]| == r
    ensures multiset(Combinations(s, r)[k]) <= multiset(s)
    decreases |s|
  {
    if r > 0 && |s| > 0 {
      assert s == [s[0]] + s[1..];
      var with := Combinations(s[1..], r - 1);
      if k < |with| {
        CombinationsSound(s[1..], r - 1, k);
        assert Combinations(s, r)[k] == [s[0]] + with[k];
      } else {
        CombinationsSound(s[1..], r, k - |with|);
      }
    }
  }

  /** The binomial coefficient, by Pascal's rule. */
  function Choose(n: nat, k: nat): nat {
    if k == 0 then 1
    else if n == 0 then 0
    else Choose(n - 1, k - 1) + Choose(n - 1, k)
  }

  /** Every selection of positions is produced exactly once: C(n, r) of them. */
  lemma {:induction false} CombinationsCount(s: string, r: nat)
    ensures |Combinations(s, r)| == Choose(|s|, r)
    decreases |s|
  {
    if r > 0 && |s| > 0 {
      CombinationsCount(s[1..], r - 1);
      CombinationsCount(s[1..], r);
      CombinationsUnfold(s, r);
      assert Choose(|s|, r) == Choose(|s| - 1, r - 1) + Choose(|s| - 1, r);
    }
  }

  /** The selections of `s` are those taking `s[0]` followed by those skipping it. */
  lemma CombinationsUnfold(s: string, r: nat)
    requires r > 0 && |s| > 0
    ensures |Combinations(s, r)| == |Combinations(s[1..], r - 1)| + |Combinations(s[1..], r)|
  {
    assert Combinations(s, r) == PrependAll(s[0], Combinations(s[1..], r - 1)) + Combinations(s[1..], r);
  }

  /** Adding the same element to two multisets keeps them apart. */
  lemma MultisetCancel(a: multiset<char>, b: multiset<char>, c: char)
    requires a + multiset{c} == b + multiset{c}
    ensures a == b
  {
    assert a == (a + multiset{c}) - multiset{c};
    assert b == (b + multiset{c}) - multiset{c};
  }

  /** Splitting the first letter off `s` splits any sub-multiset of it accordingly. */
  lemma SubMultisetOfTail(s: string, m: multiset<char>)
    requires |s| > 0 && m <= multiset(s)
    ensures s[0] in m ==> m - multiset{s[0]} <= multiset(s[1..])
    ensures s[0] in m ==> m == (m - multiset{s[0]}) + multiset{s[0]}
    ensures s[0] in m ==> |m - multiset{s[0]}| == |m| - 1
    ensures s[0] !in m ==> m <= multiset(s[1..])
  {
    assert s == [s[0]] + s[1..];
    assert multiset(s) == multiset{s[0]} + multiset(s[1..]);
  }

  /** Where the selections that take `s[0]` sit in `Combinations(s, r)`. */
  lemma CombinationsWithFirst(s: string, r: nat, k: nat)
    requires r > 0 && |s| > 0 && k < |Combinations(s[1..], r - 1)|
    ensures k < |Combinations(s, r)|
    ensures Combinations(s, r)[k] == [s[0]] + Combinations(s[1..], r - 1)[k]
    ensures multiset(Combinations(s, r)[k]) == multiset(Combinations(s[1..], r - 1)[k]) + multiset{s[0]}
  {
  }

  /** Where the selections that skip `s[0]` sit in `Combinations(s, r)`. */
  lemma CombinationsWithoutFirst(s: string, r: nat, k: nat) returns (j: nat)
    requires r > 0 && |s| > 0 && k < |Combinations(s[1..], r)|
    ensures j < |Combinations(s, r)|
    ensures Combinations(s, r)[j] == Combinations(s[1..], r)[k]
  {
    j := |Combinations(s[1..], r - 1)| + k;
  }

  /**
   * Every sub-multiset of the letters of `s` is the multiset of some
   * selection of `s`; `k` is its index in `Combinations(s, r)`.
   */
  lemma {:induction false} CombinationsComplete(s: string, m: multiset<char>, r: nat) returns (k: nat)
    requires m <= multiset(s) && |m| == r
    ensures k < |Combinations(s, r)| && multiset(Combinations(s, r)[k]) == m
    decreases |s|
  {
    if r == 0 {
      k := 0;
    } else {
      if |s| == 0 {
        assert false;
      }
      SubMultisetOfTail(s, m);
      if s[0] in m {
        k := CombinationsComplete(s[1..], m - multiset{s[0]}, r - 1);
        CombinationsWithFirst(s, r, k);
      } else {
        var k' := CombinationsComplete(s[1..], m, r);
        k := CombinationsWithoutFirst(s, r, k');
      }
    }
  }

  /** `permutations(s)`: every ordering of the positions of `s`. */
  function Permutations(s: string): (ps: seq<string>)
    ensures forall k :: 0 <= k < |ps| ==> multiset(ps[k]) == multiset(s)
    decreases |s|, 1
  {
    if |s| == 0 then [[]] else PermutationsFrom(s, 0)
  }

  /** The orderings of `s` whose first character comes from position `i` or later. */
  function PermutationsFrom(s: string, i: nat): (ps: seq<string>)
    requires i <= |s|
    ensures forall k :: 0 <= k < |ps| ==> multiset(ps[k]) == multiset(s)
    decreases |s|, 0, |s| - i
  {
    if i == |s| then []
    else PrependAll(s[i], Permutations(RemoveAt(s, i))) + PermutationsFrom(s, i + 1)
  }

  /** n! */
  function Factorial(n: nat): nat {
    if n == 0 then 1 else n * Factorial(n - 1)
  }

  /** `permutations(s)` yields |s|! orderings, one per arrangement of positions. */
  lemma {:induction false} PermutationsCount(s: string)
    ensures |Permutations(s)| == Factorial(|s|)
    decreases |s|, 1
  {
    if |s| > 0 {
      PermutationsFromCount(s, 0);
      assert Factorial(|s|) == |s| * Factorial(|s| - 1);
    }
  }

  lemma {:induction false} PermutationsFromCount(s: string, i: nat)
    requires 0 < |s| && i <= |s|
    ensures |PermutationsFrom(s, i)| == (|s| - i) * Factorial(|s| - 1)
    decreases |s|, 0, |s| - i
  {
    if i < |s| {
      var f := Factorial(|s| - 1);
      PermutationsCount(RemoveAt(s, i));
      PermutationsFromCount(s, i + 1);
      assert |PermutationsFrom(s, i)| == f + (|s| - i - 1) * f;
      assert (|s| - i) * f == f + (|s| - i - 1) * f;
    }
  }

  /** A position in `s` holding `c`, for a character that occurs in `s`. */
  lemma IndexOf(s: string, c: char) returns (i: nat)
    requires c in multiset(s)
    ensures i < |s| && s[i] == c
  {
    i := 0;
    while s[i] != c
      invariant i < |s|
      invariant c in multiset(s[i..])
      decreases |s| - i
    {
      assert s[i..] == [s[i]] + s[i + 1..];
      i := i + 1;
    }
  }

  /** Every rearrangement of the characters of `s` is among its permutations. */
  lemma {:induction false} PermutationsComplete(s: string, x: string)
    requires multiset(x) == multiset(s)
    ensures x in Permutations(s)
    decreases |s|, 1
  {
    if |s| > 0 {
      assert x == [x[0]] + x[1..];
      assert x[0] in multiset(x);
      var i := IndexOf(s, x[0]);
      RemoveMatchingLetter(s, i, x);
      PermutationsFromComplete(s, 0, i, x);
    }
  }

  lemma {:induction false} PermutationsFromComplete(s: string, j: nat, i: nat, x: string)
    requires j <= i < |s| && |x| > 0 && x[0] == s[i]
    requires multiset(x[1..]) == multiset(RemoveAt(s, i))
    ensures x in PermutationsFrom(s, j)
    decreases |s|, 0, |s| - j
  {
    PermutationsFromUnfold(s, j);
    if j < i {
      PermutationsFromComplete(s, j + 1, i, x);
    } else {
      PermutationsComplete(RemoveAt(s, i), x[1..]);
      PrependAllMember(s[i], Permutations(RemoveAt(s, i)), x[1..]);
      assert x == [s[i]] + x[1..];
    }
  }

  lemma PermutationsFromUnfold(s: string, j: nat)
    requires j < |s|
    ensures PermutationsFrom(s, j) == PrependAll(s[j], Permutations(RemoveAt(s, j))) + PermutationsFrom(s, j + 1)
  {
  }

  /** Prefixing a member of `xs` gives a member of `PrependAll(c, xs)`. */
  lemma PrependAllMember(c: char, xs: seq<string>, p: string)
    requires p in xs
    ensures [c] + p in PrependAll(c, xs)
  {
    var k :| 0 <= k < |xs| && xs[k] == p;
    assert PrependAll(c, xs)[k] == [c] + p;
  }

  /** Taking the first letter off `x` and the same letter off `s` keeps them rearrangements. */
  lemma RemoveMatchingLetter(s: string, i: nat, x: string)
    requires i < |s| && |x| > 0 && x[0] == s[i]
    requires multiset(x) == multiset(s)
    ensures multiset(x[1..]) == multiset(RemoveAt(s, i))
  {
    assert x == [x[0]] + x[1..];
    assert multiset(x) == multiset(x[1..]) + multiset{x[0]};
    MultisetCancel(multiset(x[1..]), multiset(RemoveAt(s, i)), x[0]);
  }

  /** The permutations of `s` are exactly the strings with the same letters. */
  lemma PermutationsCharacterized(s: string, x: string)
    ensures x in Permutations(s) <==> multiset(x) == multiset(s)
  {
    if multiset(x) == multiset(s) {
      PermutationsComplete(s, x);
    }
  }
}
