/**
 * The "Generate" button handler, `generate_results`, without its widget
 * reads and writes: the raw word and the parsed minimum length come in as
 * parameters, and the two panes come out as report structures.
 */
module Reworded {
  import opened Wrappers
  import opened Text
  import opened Engine
  import opened Sorting
  import opened Reports

  /** Why the handler produces no results. */
  datatype InputError =
    | InvalidInput       // the "Please enter letters only." message box
    | NegativeMinLength  // `combinations` rejects a negative size and the handler stops

  /** A validated request: the lower-cased letters and the minimum length. */
  datatype Request = Request(letters: string, minLen: nat)

  /** What the handler shows once it gets that far. */
  datatype Results = Results(all: AllReport, valid: ValidReport)

  /** The minimum length used when the selector's value does not parse. */
  const DefaultMinLen: nat := 2

  /**
   * The input checks at the top of `generate_results` (reworded.py).
   * `minLenField` is `None` when `int(...)` raises `ValueError`. The word
   * is stripped and lower-cased, then must be non-empty and alphabetic; a
   * negative minimum makes the first `combinations` call raise, so it
   * fails too, but only after the word has been accepted.
   */
  function ParseInput(rawWord: string, minLenField: Option<int>): (r: Result<Request, InputError>)
    ensures r == Failure(InvalidInput) <==> !IsAlpha(Strip(rawWord))
    ensures r == Failure(NegativeMinLength) <==> IsAlpha(Strip(rawWord)) && minLenField.GetOr(DefaultMinLen) < 0
    ensures r.Success? ==> IsAlpha(r.value.letters) && IsLowerWord(r.value.letters)
    ensures r.Success? ==> |r.value.letters| == |Strip(rawWord)|
    ensures r.Success? ==> forall i :: 0 <= i < |r.value.letters| ==> r.value.letters[i] == LowerChar(Strip(rawWord)[i])
    ensures r.Success? ==> r.value.minLen == (if minLenField.None? then 2 else minLenField.value)
  {
    var word := Lower(Strip(rawWord));
    var minLen := minLenField.GetOr(DefaultMinLen);
    if !IsAlpha(word) then Failure(InvalidInput)
    else if minLen < 0 then Failure(NegativeMinLength)
    else Success(Request(word, minLen))
  }

  /**
   * `generate_results` in reworded.py: validate, enumerate and classify, then build both
   * reports. On success the flat listing holds exactly the strings whose
   * length is in range and whose letters come from the word, sorted; the
   * grouped listing holds exactly those of them that are dictionary words.
   */
  method GenerateResults(rawWord: string, minLenField: Option<int>, dict: set<string>)
    returns (out: Result<Results, InputError>)
    ensures ParseInput(rawWord, minLenField).Failure? ==>
      out == Failure(ParseInput(rawWord, minLenField).error)
    ensures ParseInput(rawWord, minLenField).Success? ==>
      var req := ParseInput(rawWord, minLenField).value;
      && out.Success?
      && var items := out.value.all.items;
      && (forall x :: x in items <==> Generates(req.letters, req.minLen, x))
      && StrictlySorted(items)
      && out.value.all.total == |items|
      && IsGrouping((set x | x in items && x in dict), out.value.valid.groups)
      && out.value.valid.total == |set x | x in items && x in dict|
      && SumSizes(out.value.valid.groups) == out.value.valid.total
    ensures ParseInput(rawWord, minLenField).Success? ==>
      var req := ParseInput(rawWord, minLenField).value;
      req.minLen > |req.letters| ==> out == Success(Results(AllReport(0, []), ValidReport(0, [])))
    ensures ParseInput(rawWord, minLenField).Success? && dict == {} ==>
      out.Success? && out.value.valid == ValidReport(0, [])
  {
    var parsed := ParseInput(rawWord, minLenField);
    if parsed.Failure? {
      return Failure(parsed.error);
    }
    var req := parsed.value;
    var all, valid := Enumerate(req.letters, req.minLen, dict);
    var allReport := BuildAllReport(all);
    var validReport := BuildValidReport(valid);
    assert valid == set x | x in allReport.items && x in dict;
    if req.minLen > |req.letters| {
      assert all == {};
      assert valid == {};
    }
    GroupsNeedWords(valid, validReport.groups);
    return Success(Results(allReport, validReport));
  }

  /** Each character of a generated string is a letter of the word. */
  lemma GeneratedLetter(letters: string, minLen: nat, x: string, i: nat)
    requires Generates(letters, minLen, x) && i < |x|
    ensures x[i] in multiset(letters)
  {
    assert x[i] in multiset(x);
  }

  /** Repeated letters collapse: "aa" with minimum 2 gives the single string "aa". */
  lemma DuplicateLettersCollapse(x: string)
    ensures Generates("aa", 2, x) <==> x == "aa"
  {
    if Generates("aa", 2, x) {
      GeneratedLetter("aa", 2, x, 0);
      GeneratedLetter("aa", 2, x, 1);
      assert x == [x[0], x[1]];
    }
  }

  /** "ab" with minimum 2 gives exactly its two orderings. */
  lemma TwoLetterWord(x: string)
    ensures Generates("ab", 2, x) <==> x == "ab" || x == "ba"
  {
    if Generates("ab", 2, x) {
      GeneratedLetter("ab", 2, x, 0);
      GeneratedLetter("ab", 2, x, 1);
      assert x == [x[0], x[1]];
      assert multiset(x) == multiset{x[0], x[1]};
    }
  }

  /** A generated string repeats no letter that the word has only once. */
  lemma DistinctLetters(letters: string, x: string, i: nat, j: nat)
    requires multiset(x) <= multiset(letters) && i < j < |x|
    requires multiset(letters)[x[i]] <= 1
    ensures x[i] != x[j]
  {
    assert x == x[..j] + x[j..];
    assert x[i] == x[..j][i];
    assert x[j] == x[j..][0];
    assert multiset(x) == multiset(x[..j]) + multiset(x[j..]);
  }

  /** "cat" with minimum 3 gives exactly its six orderings. */
  lemma ThreeLetterWord(x: string)
    ensures Generates("cat", 3, x) <==> x in {"act", "atc", "cat", "cta", "tac", "tca"}
  {
    if Generates("cat", 3, x) {
      CatArrangement(x);
    }
    if x in {"act", "atc", "cat", "cta", "tac", "tca"} {
      CatOrdering(x);
      assert multiset("cat") == multiset{'c', 'a', 't'};
    }
  }

  /** Each letter of "cat" occurs in it once. */
  lemma CatLetter(ch: char)
    requires ch in multiset("cat")
    ensures (ch == 'c' || ch == 'a' || ch == 't') && multiset("cat")[ch] == 1
  {
    assert multiset("cat") == multiset{'c', 'a', 't'};
  }

  /** A string generated from "cat" with minimum 3 is one of its orderings. */
  lemma CatArrangement(x: string)
    requires Generates("cat", 3, x)
    ensures x in {"act", "atc", "cat", "cta", "tac", "tca"}
  {
    GeneratedLetter("cat", 3, x, 0);
    GeneratedLetter("cat", 3, x, 1);
    GeneratedLetter("cat", 3, x, 2);
    CatLetter(x[0]);
    CatLetter(x[1]);
    CatLetter(x[2]);
    DistinctLetters("cat", x, 0, 1);
    DistinctLetters("cat", x, 0, 2);
    DistinctLetters("cat", x, 1, 2);
    assert x == [x[0], x[1], x[2]];
  }

  /** Each of the six orderings of "cat" has its letters. */
  lemma CatOrdering(x: string)
    requires x in {"act", "atc", "cat", "cta", "tac", "tca"}
    ensures |x| == 3 && multiset(x) == multiset{'c', 'a', 't'}
  {
  }

  /**
   * The grouped report for "cat" with minimum 3 against a dictionary that
   * has two of its orderings and an unrelated word: a single group of
   * three-letter words, "act" before "cat".
   */
  lemma CatGrouping(items: seq<string>, gs: seq<Group>)
    requires forall x :: x in items <==> Generates("cat", 3, x)
    requires IsGrouping((set x | x in items && x in {"act", "cat", "dog"}), gs)
    ensures gs == [Group(3, ["act", "cat"])]
  {
    CatValidWords(items);
    CatGroup();
    GroupingUnique({"act", "cat"}, gs, [Group(3, ["act", "cat"])]);
  }

  /** Of the dictionary {"act", "cat", "dog"}, exactly "act" and "cat" come from "cat". */
  lemma CatValidWords(items: seq<string>)
    requires forall x :: x in items <==> Generates("cat", 3, x)
    ensures (set x | x in items && x in {"act", "cat", "dog"}) == {"act", "cat"}
  {
    var valid := set x | x in items && x in {"act", "cat", "dog"};
    forall x | x in valid
      ensures x == "act" || x == "cat"
    {
      NotDog(items, x);
    }
    CatIsGenerated(items, "act");
    CatIsGenerated(items, "cat");
  }

  /** "dog" is not generated from "cat". */
  lemma NotDog(items: seq<string>, x: string)
    requires forall x :: x in items <==> Generates("cat", 3, x)
    requires x in items && x in {"act", "cat", "dog"}
    ensures x == "act" || x == "cat"
  {
    ThreeLetterWord(x);
    assert x in {"act", "atc", "cat", "cta", "tac", "tca"};
  }

  lemma CatIsGenerated(items: seq<string>, x: string)
    requires forall x :: x in items <==> Generates("cat", 3, x)
    requires x == "act" || x == "cat"
    ensures x in items
  {
    ThreeLetterWord(x);
  }

  /** The one group of {"act", "cat"}. */
  lemma CatGroup()
    ensures IsGrouping({"act", "cat"}, [Group(3, ["act", "cat"])])
  {
    var valid: set<string> := {"act", "cat"};
    assert Less("act", "cat");
    assert forall w :: w in ["act", "cat"] <==> w in valid && |w| == 3;
  }
}
