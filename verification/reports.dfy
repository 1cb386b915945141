/**
 * The two result panes, as structures rather than text: the sorted
 * listing of every generated string with its count, and the dictionary
 * words grouped by length with their count.
 */
module Reports {
  import opened Sorting

  /** The "All Combinations" pane: `(Total n unique strings)` and the listing. */
  datatype AllReport = AllReport(total: nat, items: seq<string>)

  /** One `L-Letter Words:` paragraph of the "Valid Words" pane. */
  datatype Group = Group(length: nat, words: seq<string>)

  /** The "Valid Words" pane: `(Total n valid words)` and one group per length. */
  datatype ValidReport = ValidReport(total: nat, groups: seq<Group>)

  /**
   * The "All Combinations" text of `generate_results` (reworded.py): count
   * the set and list it in sorted order.
   */
  method BuildAllReport(all: set<string>) returns (rep: AllReport)
    ensures rep.total == |all| == |rep.items|
    ensures StrictlySorted(rep.items)
    ensures forall x :: x in rep.items <==> x in all
  {
    var items := SortWords(all);
    rep := AllReport(|all|, items);
  }

  /**
   * The `defaultdict(list)` that `generate_results` (reworded.py) keys by
   * word length. A key is present exactly when some word has that length,
   * and its bucket holds exactly the words of that length.
   */
  method GroupByLength(valid: set<string>) returns (buckets: map<nat, set<string>>)
    ensures buckets.Keys == set w | w in valid :: |w|
    ensures forall L :: L in buckets ==> buckets[L] == set w | w in valid && |w| == L
  {
    buckets := map[];
    var rest := valid;
    while rest != {}
      invariant rest <= valid
      invariant buckets.Keys == set w | w in valid - rest :: |w|
      invariant forall L :: L in buckets ==> buckets[L] == set w | w in valid - rest && |w| == L
      decreases |rest|
    {
      var w :| w in rest;
      var bucket := if |w| in buckets then buckets[|w|] else {};
      buckets := buckets[|w| := bucket + {w}];
      rest := rest - {w};
    }
  }

  /** The number of words listed across `gs`. */
  function SumSizes(gs: seq<Group>): nat {
    if |gs| == 0 then 0 else SumSizes(gs[..|gs| - 1]) + |gs[|gs| - 1].words|
  }

  /**
   * `g` is the group of the words of `valid` that have its length: non-empty,
   * strictly sorted, and holding exactly those words.
   */
  ghost predicate GroupOf(valid: set<string>, g: Group) {
    && |g.words| > 0
    && StrictlySorted(g.words)
    && forall w :: w in g.words <==> w in valid && |w| == g.length
  }

  /**
   * `gs` lists the words of `valid` grouped by length: lengths strictly
   * ascending, each group the group of its length, and every word's length
   * has a group.
   */
  ghost predicate IsGrouping(valid: set<string>, gs: seq<Group>) {
    && (forall a, b :: 0 <= a < b < |gs| ==> gs[a].length < gs[b].length)
    && (forall k :: 0 <= k < |gs| ==> GroupOf(valid, gs[k]))
    && (forall w :: w in valid ==> exists k :: 0 <= k < |gs| && gs[k].length == |w|)
  }

  lemma SumSizesAppend(gs: seq<Group>, g: Group)
    ensures SumSizes(gs + [g]) == SumSizes(gs) + |g.words|
  {
    assert (gs + [g])[..|gs|] == gs;
  }

  /** The words of `valid` whose length is one of `lengths`, gathered group by group. */
  ghost function WordsOfLengths(valid: set<string>, lengths: seq<nat>): set<string>
    decreases |lengths|
  {
    if |lengths| == 0 then {}
    else WordsOfLengths(valid, lengths[..|lengths| - 1]) + set w | w in valid && |w| == lengths[|lengths| - 1]
  }

  lemma {:induction false} WordsOfLengthsMembers(valid: set<string>, lengths: seq<nat>)
    ensures forall w :: w in WordsOfLengths(valid, lengths) <==> w in valid && |w| in lengths
    decreases |lengths|
  {
    if |lengths| > 0 {
      var init := lengths[..|lengths| - 1];
      WordsOfLengthsMembers(valid, init);
      assert lengths == init + [lengths[|lengths| - 1]];
    }
  }

  /**
   * Adding the words of the next length to those already gathered: the
   * two are disjoint because the lengths ascend, so the count adds up.
   */
  lemma CoverNextLength(valid: set<string>, lengths: seq<nat>, i: nat, bucket: set<string>)
    requires Ascending(lengths) && i < |lengths|
    requires bucket == set w | w in valid && |w| == lengths[i]
    ensures WordsOfLengths(valid, lengths[..i + 1]) == WordsOfLengths(valid, lengths[..i]) + bucket
    ensures |WordsOfLengths(valid, lengths[..i + 1])| == |WordsOfLengths(valid, lengths[..i])| + |bucket|
  {
    assert lengths[..i + 1][..i] == lengths[..i];
    WordsOfLengthsMembers(valid, lengths[..i]);
    forall w | w in WordsOfLengths(valid, lengths[..i])
      ensures w !in bucket
    {
      var k :| 0 <= k < i && lengths[k] == |w|;
    }
    assert WordsOfLengths(valid, lengths[..i]) * bucket == {};
  }

  /** `b` is the non-empty bucket of the words of `valid` of length `L`. */
  ghost predicate IsBucket(valid: set<string>, b: set<string>, L: nat) {
    b != {} && b == set w | w in valid && |w| == L
  }

  /**
   * `groups` are, in order, the groups of the first `|groups|` lengths of
   * `lengths`.
   */
  ghost predicate GroupsAlong(valid: set<string>, lengths: seq<nat>, groups: seq<Group>) {
    && |groups| <= |lengths|
    && forall k :: 0 <= k < |groups| ==> groups[k].length == lengths[k] && GroupOf(valid, groups[k])
  }

  lemma GroupsAlongStep(valid: set<string>, lengths: seq<nat>, groups: seq<Group>, g: Group)
    requires GroupsAlong(valid, lengths, groups) && |groups| < |lengths|
    requires g.length == lengths[|groups|] && GroupOf(valid, g)
    ensures GroupsAlong(valid, lengths, groups + [g])
  {
  }

  /** One paragraph of the "Valid Words" text: the group of one length is its bucket, sorted. */
  method EmitGroup(valid: set<string>, bucket: set<string>, L: nat) returns (g: Group)
    requires IsBucket(valid, bucket, L)
    ensures g.length == L && GroupOf(valid, g)
    ensures |g.words| == |bucket|
  {
    var words := SortWords(bucket);
    g := Group(L, words);
  }

  /**
   * The loop over `sorted(valid_grouped.keys())` in `generate_results`:
   * one group per length of `lengths`, in that order, each with the words
   * of that length sorted.
   */
  method EmitGroups(valid: set<string>, buckets: map<nat, set<string>>, lengths: seq<nat>)
    returns (groups: seq<Group>)
    requires Ascending(lengths)
    requires forall k :: 0 <= k < |lengths| ==> lengths[k] in buckets && IsBucket(valid, buckets[lengths[k]], lengths[k])
    ensures |groups| == |lengths| && GroupsAlong(valid, lengths, groups)
    ensures SumSizes(groups) == |WordsOfLengths(valid, lengths)|
  {
    groups := [];
    var i := 0;
    while i < |lengths|
      invariant i <= |lengths| && |groups| == i
      invariant GroupsAlong(valid, lengths, groups)
      invariant SumSizes(groups) == |WordsOfLengths(valid, lengths[..i])|
    {
      var bucket := buckets[lengths[i]];
      var g := EmitGroup(valid, bucket, lengths[i]);
      CoverNextLength(valid, lengths, i, bucket);
      SumSizesAppend(groups, g);
      GroupsAlongStep(valid, lengths, groups, g);
      groups := groups + [g];
      i := i + 1;
    }
    assert lengths[..i] == lengths;
  }

  /** The sorted keys of the length buckets index those buckets, and every word's length is among them. */
  lemma BucketsAlongLengths(valid: set<string>, buckets: map<nat, set<string>>, lengths: seq<nat>)
    requires buckets.Keys == set w | w in valid :: |w|
    requires forall L :: L in buckets ==> buckets[L] == set w | w in valid && |w| == L
    requires forall x :: x in lengths <==> x in buckets.Keys
    ensures forall k :: 0 <= k < |lengths| ==> lengths[k] in buckets && IsBucket(valid, buckets[lengths[k]], lengths[k])
    ensures forall w :: w in valid ==> |w| in lengths
  {
    forall k | 0 <= k < |lengths|
      ensures lengths[k] in buckets && buckets[lengths[k]] != {}
    {
      assert lengths[k] in lengths;
      var w :| w in valid && |w| == lengths[k];
      assert w in buckets[lengths[k]];
    }
    forall w | w in valid
      ensures |w| in lengths
    {
      assert |w| in buckets.Keys;
    }
  }

  /** Groups emitted along all the ascending lengths of `valid` form a grouping of it. */
  lemma GroupingComplete(valid: set<string>, lengths: seq<nat>, groups: seq<Group>)
    requires Ascending(lengths)
    requires forall w :: w in valid ==> |w| in lengths
    requires |groups| == |lengths| && GroupsAlong(valid, lengths, groups)
    requires SumSizes(groups) == |WordsOfLengths(valid, lengths)|
    ensures IsGrouping(valid, groups)
    ensures SumSizes(groups) == |valid|
  {
    WordsOfLengthsMembers(valid, lengths);
    assert WordsOfLengths(valid, lengths) == valid;
    forall w | w in valid
      ensures exists k :: 0 <= k < |groups| && groups[k].length == |w|
    {
      var k :| 0 <= k < |lengths| && lengths[k] == |w|;
      assert groups[k].length == |w|;
    }
  }

  /**
   * The "Valid Words" text of `generate_results` (reworded.py): count the
   * valid set, then one sorted group per length in ascending order.
   */
  method BuildValidReport(valid: set<string>) returns (rep: ValidReport)
    ensures rep.total == |valid|
    ensures IsGrouping(valid, rep.groups)
    ensures SumSizes(rep.groups) == rep.total
  {
    var buckets := GroupByLength(valid);
    var lengths := SortLengths(buckets.Keys);
    BucketsAlongLengths(valid, buckets, lengths);
    var groups := EmitGroups(valid, buckets, lengths);
    GroupingComplete(valid, lengths, groups);
    rep := ValidReport(|valid|, groups);
  }

  /** The group lengths of `gs`, in order. */
  function LengthsOf(gs: seq<Group>): (ls: seq<nat>)
    ensures |ls| == |gs| && forall k :: 0 <= k < |gs| ==> ls[k] == gs[k].length
  {
    seq(|gs|, k requires 0 <= k < |gs| => gs[k].length)
  }

  /** A grouping lists exactly the lengths of the words of `valid`, in ascending order. */
  lemma GroupingLengths(valid: set<string>, gs: seq<Group>)
    requires IsGrouping(valid, gs)
    ensures Ascending(LengthsOf(gs))
    ensures forall L :: L in LengthsOf(gs) <==> exists w :: w in valid && |w| == L
  {
    var ls := LengthsOf(gs);
    forall L | L in ls
      ensures exists w :: w in valid && |w| == L
    {
      var k :| 0 <= k < |ls| && ls[k] == L;
      assert gs[k].words[0] in gs[k].words;
    }
    forall w | w in valid
      ensures |w| in ls
    {
      var k :| 0 <= k < |gs| && gs[k].length == |w|;
      assert ls[k] == |w|;
    }
  }

  /**
   * The grouped listing of a set is unique, so building it twice from the
   * same valid set gives the same report.
   */
  lemma GroupingUnique(valid: set<string>, a: seq<Group>, b: seq<Group>)
    requires IsGrouping(valid, a) && IsGrouping(valid, b)
    ensures a == b
  {
    GroupingLengths(valid, a);
    GroupingLengths(valid, b);
    AscendingUnique(LengthsOf(a), LengthsOf(b));
    forall k | 0 <= k < |a|
      ensures a[k] == b[k]
    {
      assert a[k].length == LengthsOf(a)[k] == LengthsOf(b)[k] == b[k].length;
      assert GroupOf(valid, a[k]) && GroupOf(valid, b[k]);
      SortedUnique(a[k].words, b[k].words);
    }
  }

  /** Every group holds a valid word, so an empty valid set has no groups. */
  lemma GroupsNeedWords(valid: set<string>, gs: seq<Group>)
    requires IsGrouping(valid, gs)
    ensures |gs| > 0 ==> valid != {}
  {
    if |gs| > 0 {
      assert gs[0].words[0] in valid;
    }
  }
}
