/**
 * The enumeration and classification loop of `generate_results`: every
 * selection of `r` letters for `r` from the minimum length up to the word
 * length, every ordering of each selection, collected into the set of all
 * strings and the set of dictionary words.
 */
module Engine {
  import opened Combinatorics

  /**
   * The strings the loop produces, characterised without enumeration:
   * long enough, and using each letter at most as often as the word does.
   */
  predicate Generates(letters: string, minLen: nat, x: string) {
    minLen <= |x| <= |letters| && multiset(x) <= multiset(letters)
  }

  /** `x` is an ordering of one of the first `n` selections of `cs`. */
  ghost predicate ArrangedFrom(cs: seq<string>, n: nat, x: string) {
    exists j :: 0 <= j < n && j < |cs| && x in Permutations(cs[j])
  }

  lemma ArrangedFromStep(cs: seq<string>, n: nat, x: string)
    requires n < |cs|
    ensures ArrangedFrom(cs, n + 1, x) <==> ArrangedFrom(cs, n, x) || x in Permutations(cs[n])
  {
  }

  /**
   * The orderings of all `r`-letter selections of `letters` are exactly
   * the `r`-letter strings drawn from the letters of `letters`.
   */
  lemma ArrangementsCharacterized(letters: string, r: nat, x: string)
    ensures ArrangedFrom(Combinations(letters, r), |Combinations(letters, r)|, x)
        <==> |x| == r && multiset(x) <= multiset(letters)
  {
    var cs := Combinations(letters, r);
    if ArrangedFrom(cs, |cs|, x) {
      var j :| 0 <= j < |cs| && x in Permutations(cs[j]);
      CombinationsSound(letters, r, j);
      PermutationsCharacterized(cs[j], x);
      assert |x| == |multiset(x)| == |multiset(cs[j])| == |cs[j]|;
    }
    if |x| == r && multiset(x) <= multiset(letters) {
      var k := CombinationsComplete(letters, multiset(x), r);
      PermutationsCharacterized(cs[k], x);
      assert ArrangedFrom(cs, |cs|, x);
    }
  }

  /**
   * The innermost loop: adds every string of `words` to `all`, and to
   * `valid` as well when the dictionary has it.
   */
  method AddWords(all: set<string>, valid: set<string>, words: seq<string>, dict: set<string>)
    returns (all': set<string>, valid': set<string>)
    requires valid == all * dict
    ensures forall x :: x in all' <==> x in all || x in words
    ensures valid' == all' * dict
  {
    all', valid' := all, valid;
    var i := 0;
    while i < |words|
      invariant i <= |words|
      invariant forall x :: x in all' <==> x in all || x in words[..i]
      invariant valid' == all' * dict
    {
      var joined := words[i];
      assert words[..i + 1] == words[..i] + [joined];
      all' := all' + {joined};
      if joined in dict {
        valid' := valid' + {joined};
      }
      i := i + 1;
    }
    assert words[..i] == words;
  }

  /**
   * The loop over the `r`-letter selections of `letters`: adds every
   * ordering of each of them.
   */
  method AddLength(letters: string, r: nat, all: set<string>, valid: set<string>, dict: set<string>)
    returns (all': set<string>, valid': set<string>)
    requires valid == all * dict
    ensures forall x :: x in all' <==> x in all || (|x| == r && multiset(x) <= multiset(letters))
    ensures valid' == all' * dict
  {
    all', valid' := all, valid;
    var combos := Combinations(letters, r);
    var ci := 0;
    while ci < |combos|
      invariant ci <= |combos|
      invariant forall x :: x in all' <==> x in all || ArrangedFrom(combos, ci, x)
      invariant valid' == all' * dict
    {
      all', valid' := AddWords(all', valid', Permutations(combos[ci]), dict);
      forall x {
        ArrangedFromStep(combos, ci, x);
      }
      ci := ci + 1;
    }
    forall x {
      ArrangementsCharacterized(letters, r, x);
    }
  }

  /**
   * The loop over lengths `r` from `minLen` to `|letters|`. The strings
   * it collects are exactly those `Generates` describes, and the
   * dictionary words among them.
   */
  method Enumerate(letters: string, minLen: nat, dict: set<string>) returns (all: set<string>, valid: set<string>)
    ensures forall x :: x in all <==> Generates(letters, minLen, x)
    ensures forall x :: x in valid <==> x in all && x in dict
  {
    all, valid := {}, {};
    var r := minLen;
    while r <= |letters|
      invariant minLen <= r
      invariant forall x :: x in all <==> Generates(letters, minLen, x) && |x| < r
      invariant valid == all * dict
      decreases |letters| + 1 - r
    {
      all, valid := AddLength(letters, r, all, valid, dict);
      r := r + 1;
    }
  }
}
