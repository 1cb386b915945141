# reworded — a Dafny model of the word-generation engine

`reworded.py` is a small desktop tool. The user types some letters and picks a
minimum word length. The tool then lists every distinct string that can be
formed from a subset of those letters. It also lists the strings that are
English words, grouped by length. This project models the engine behind the
"Generate" button, `generate_results`, and proves what it computes:

- **Input handling** (`Reworded.ParseInput`). The word is stripped and
  lower-cased, then it must be non-empty and alphabetic. An unparseable
  minimum length becomes 2.
- **Enumeration and classification** (`Engine.Enumerate`). The model runs
  the same three nested loops as the source: over lengths `r`, over
  `itertools.combinations(letters, r)` and over `itertools.permutations`
  of each combination. Every string goes into the set of all strings, and
  into the valid set when the dictionary has it. `Combinatorics` defines
  both itertools generators, in the library's order.
- **Reports** (`Reports`). The flat listing is the count plus the sorted
  set. The grouped listing is the valid count plus one sorted group per
  word length, in ascending length order. `Sorting` models Python's
  `sorted` on strings and on lengths.

The central characterisation is `Engine.Generates`: a string is produced
exactly when its length lies in `[minLen, |word|]` and it uses each letter
no more often than the word does. The proofs connect the loops, the two
itertools generators and the reports to that predicate.

Three behaviours of the code that a reader might not expect:

- The code does not clamp the minimum length. A minimum of 0 adds the empty
  string, since `combinations(letters, 0)` yields one empty tuple.
- A negative minimum makes the first `combinations` call raise `ValueError`.
  The handler then stops with no output. The model returns
  `NegativeMinLength`, and only after the word has been accepted, as in the
  source order.
- The default of 2 applies only when `int(...)` fails. A parsed value is used
  as it is.

## Model

| member | source | states |
|---|---|---|
| Reworded.ParseInput | reworded.py:43-51 | fails with InvalidInput exactly when the stripped word is empty or not all letters; fails with NegativeMinLength exactly when the word is fine but the minimum is negative; on success the letters are the stripped word lower-cased, and the minimum is the parsed value or 2 when parsing failed |
| Reworded.GenerateResults | reworded.py:42-78 | fails exactly when the input is rejected, with the same error; otherwise the flat listing holds exactly the generated strings, strictly sorted, with total equal to their number; the grouped listing is a grouping of the generated strings that are in the dictionary; its total is their number and equals the sum of the group sizes; a minimum above the word length gives two empty reports; an empty dictionary gives an empty grouped report |
| Engine.Enumerate | reworded.py:53-64 | after the loops, the all-set holds a string exactly when its length is between the minimum and the word length and its letters are a sub-multiset of the word's; the valid set is the all-set intersected with the dictionary |
| Engine.AddLength | reworded.py:59-64 | one pass over the r-letter combinations adds exactly the r-letter strings drawn from the word's letters, keeping valid = all ∩ dictionary |
| Engine.AddWords | reworded.py:60-64 | one pass over the orderings adds each of them to the all-set, and to the valid set exactly when the dictionary has it |
| Engine.ArrangementsCharacterized | reworded.py:58-61 | the orderings of all r-letter combinations of the word are exactly the strings of length r whose letters form a sub-multiset of the word's |
| Combinatorics.Combinations | reworded.py:59 | `itertools.combinations(s, r)` as a definition: the selections that take the first letter, followed by those that skip it, which is the library's lexicographic order of positions; its properties are stated by CombinationsSound, CombinationsComplete and CombinationsCount |
| Combinatorics.CombinationsSound | reworded.py:59 | every combination of size r has length r and draws each letter at most as often as the word has it |
| Combinatorics.CombinationsComplete | reworded.py:59 | every sub-multiset of the word's letters is the multiset of some combination of that size, so nothing is missed |
| Combinatorics.CombinationsCount | reworded.py:59 | there are C(n, r) combinations of size r, one for each set of positions, repeated letters included |
| Combinatorics.Permutations | reworded.py:60 | every ordering produced has exactly the letters of the combination |
| Combinatorics.PermutationsCharacterized | reworded.py:60-61 | a string is among the orderings of a combination exactly when it has the same multiset of letters |
| Combinatorics.PermutationsCount | reworded.py:60 | a combination of r letters has r! orderings, so duplicate strings are produced and only the set collapses them |
| Reworded.DuplicateLettersCollapse | reworded.py:54-62 | the word "aa" with minimum 2 generates the single string "aa" |
| Reworded.TwoLetterWord | reworded.py:58-62 | the word "ab" with minimum 2 generates exactly "ab" and "ba" |
| Reworded.ThreeLetterWord | reworded.py:58-62 | the word "cat" with minimum 3 generates exactly its six orderings |
| Reworded.CatGrouping | reworded.py:53-78 | with "cat", minimum 3 and a dictionary of "act", "cat" and "dog", any grouping of the valid words is the single group of three-letter words "act", "cat" |
| Reports.BuildAllReport | reworded.py:67-68 | the listing is strictly ascending, holds exactly the strings of the set, and its total equals the set's size and the listing's length |
| Reports.GroupByLength | reworded.py:71-73 | the length buckets have one key for each word length that occurs, and each bucket holds exactly the words of its length |
| Reports.EmitGroups | reworded.py:76-78 | walking the sorted lengths gives one non-empty, strictly sorted group per length, holding exactly the words of that length; the group sizes add up to the number of words covered |
| Reports.EmitGroup | reworded.py:77 | the group of one length holds exactly the valid words of that length, strictly sorted and non-empty, and has as many words as its bucket |
| Reports.BuildValidReport | reworded.py:75-78 | the groups have strictly ascending lengths; each group is non-empty, strictly sorted and holds exactly the valid words of its length; every valid word's length has a group; the total is the valid set's size and equals the sum of the group sizes |
| Reports.GroupingLengths | reworded.py:71-76 | the group lengths are strictly ascending and are exactly the lengths of the valid words |
| Reports.GroupingUnique | reworded.py:71-78 | two groupings of the same valid set are equal, so the grouped report does not depend on set iteration order |
| Reports.GroupsNeedWords | reworded.py:71-73 | a grouping with any group comes from a non-empty valid set |
| Sorting.SortWords | reworded.py:68 | `sorted` on a set of strings gives a strictly ascending sequence holding exactly the set's elements, one per element |
| Sorting.SortLengths | reworded.py:76 | `sorted` on the set of lengths gives a strictly ascending sequence holding exactly those lengths |
| Sorting.InsertWord | reworded.py:68 | inserting a new string into a strictly sorted listing keeps it strictly sorted and adds exactly that string |
| Sorting.SortedUnique | reworded.py:68 | a set has only one strictly sorted listing, so the flat report does not depend on set iteration order |
| Sorting.AscendingUnique | reworded.py:76 | a set of lengths has only one ascending listing |
| Text.Strip | reworded.py:43 | the result is the input without its leading and trailing whitespace, and neither starts nor ends with whitespace |
| Text.Lower | reworded.py:43 | lower-casing keeps the length, lower-cases each character as LowerChar does, leaves no upper-case letter, and keeps the word alphabetic exactly when it was |
| Text.IsAlpha | reworded.py:49 | `str.isalpha` as a definition over ASCII: non-empty and letters only; ParseInput's contract states the rejection in terms of it |
| Text.LowerChar | reworded.py:43 | an upper-case ASCII letter becomes the lower-case letter at the same position of the alphabet; no upper-case letter is left; every other character is unchanged |
| Text.Less | reworded.py:68 | the string `<` that `sorted` uses, as a definition: lexicographic by code point, a proper prefix first; LessAsymmetric, LessTransitive and LessTotal state that it is a strict total order |
| Text.LessTotal | reworded.py:68 | Python's string order relates any two different strings one way or the other |
| Text.LessTransitive | reworded.py:68 | Python's string order is transitive |
| Text.LessAsymmetric | reworded.py:68 | Python's string order is asymmetric |

## Left out

- GUI construction, theming, layout, the view toggle and the clear handler
  (reworded.py:1-17, 91-192). These are widget code with no computation.
- Writing the reports into the text boxes (reworded.py:80-89). The model
  returns the report structures instead.
- Dictionary loading (reworded.py:20-39). It is file I/O with message boxes
  and a file picker. The dictionary is a `set<string>` parameter. The model
  needs no assumption about its entries: entries that are not lower-case
  simply never match a generated string.
- The text rendering of the reports: the "Total" lines, the
  "L-Letter Words:" headings and the ", " joins. The model keeps the counts
  and sequences that the text is printed from.
- Reading the two input widgets. The raw word is a string parameter, and the
  minimum length is an `Option<int>`. `None` stands for a value that
  `int(...)` cannot parse. The parsing itself is not modelled.
- Text.LowerChar: lower-cases ASCII only, and `IsAlpha` accepts ASCII
  letters only. Python's `str.lower` and `str.isalpha` are Unicode-aware, so
  a word with non-ASCII letters is accepted by the source but rejected by the
  model. `Strip` uses the full set of characters `str.isspace` accepts.
- The buckets of `valid_grouped` are lists in the source and sets in the
  model. They are filled from a set, so they hold no duplicates, and each is
  sorted before use. The result is the same.
- Enumeration cost, cancellation and running on a worker thread. The source
  runs the loops synchronously with no limit. Only the resulting sets are
  modelled.
