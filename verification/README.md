# beets-audible: track-ordering helpers, verified in Dafny

This project models the pure helpers that the beets `audible` plugin uses to
put the files of an audiobook in chapter order. It also models the two
numbering-based ordering strategies of `sort_tracks`. The test file
`tests/test_audible.py` fixes their behaviour with exact input/output
vectors and fixtures. The implementation module `beetsplug.audible` is not
part of this model. The test file is the specification, and every vector is
proved as a lemma.

Modules:

- `Wrappers` (wrappers.dfy): `Option`.
- `Numbers` (numbers.dfy): `check_starts_with_number`. It reads the maximal
  leading run of ASCII digits as a natural number, and gives `None` when the
  title does not start with a digit.
- `Continuity` (continuity.dfy): `is_continuous_number_series`. It holds when
  every element is present and each one is the previous one plus one.
- `Affixes` (affixes.dfy): `strip_affixes` and `find_regular_affixes`.
  - `strip_affixes` removes a literal prefix once, then a literal suffix once.
  - The algorithm of `find_regular_affixes` is not visible. It is defined as
    follows. For every pair of tokens `i < j`, taken in the order of
    `itertools.combinations`, take the longest common prefix and the longest
    common suffix. Each side's result is the non-empty candidate that occurs
    most often. Ties go to the longer candidate, then to the first seen. The
    result is empty when no pair shares anything.
- `Levenshtein` (levenshtein.dfy): `specialised_levenshtein`. It is the edit
  distance in which inserting, deleting or substituting a digit costs 10 and
  any other edit costs 1.
  - It is given as a recursive definition on the first characters.
  - A verified dynamic-programming method computes the same value one table
    row at a time.
- `Ordering` (ordering.dfy): the `starting_numbers` and `source_numbering`
  strategies of `sort_tracks`, and the strategy chain.
  - An item is a `(title, track)` record.
  - Each strategy returns `None` to reject, or a reordering of the items.
  - The chain returns the first order that a strategy produces.
- `AudibleTests` (test_audible.dfy): the test vectors and fixture lists, as
  lemmas about the model.

Modelling decisions:

- A digit is an ASCII `'0'..'9'`.
- The empty series counts as continuous. No vector covers it.
- `natural_sort` and `chapter_levenshtein` are an oracle parameter. The oracle
  may reject or return any permutation of its input, and nothing more is
  assumed about it.
- The order of the strategies is a plain list parameter. The plugin reads it
  from its configuration.
- There is no non-overlap rule between prefix and suffix. The vector at
  tests/test_audible.py:653 expects `("test", "test")` for two tokens
  `"test"`, so both affixes cover the whole token.
- `sort_tracks` rejects an empty list of items before trying any strategy.

## Model

| member | source | states |
|---|---|---|
| Numbers.CheckStartsWithNumber | tests/test_audible.py:704-718 | `None` exactly when the title is empty or does not start with a digit. Otherwise the value of a leading digit run that is all digits and is followed by the end or by a non-digit. |
| Numbers.LeadingZeroDiscarded | tests/test_audible.py:712-713 | Putting a `'0'` in front of a title gives the same number as the title, or 0 when the title has none. |
| Numbers.NumeralRoundTrip | tests/test_audible.py:704-711 | The decimal numeral of any `n`, followed by text that does not start with a digit, reads back as exactly `n`. |
| Numbers.Numeral | tests/test_audible.py:707 | The numeral of `n` is non-empty and all digits. Its value is `n` and it has no leading zero. |
| Continuity.IsContinuousNumberSeries | tests/test_audible.py:687-698 | True exactly when the series is empty, or every element is present and equals the first plus its position. |
| Continuity.ContinuousIffPresentWithUnitSteps | tests/test_audible.py:687-693 | Both directions: continuous exactly when no element is `None` and each element is its predecessor plus one. |
| Continuity.ConsecutiveIsContinuous | tests/test_audible.py:687-692 | Any run `start, start+1, ...` is continuous, whatever the start. |
| Affixes.StripPrefix | tests/test_audible.py:673 | A present prefix, put back in front of the result, rebuilds the token. An absent prefix leaves the token unchanged. |
| Affixes.StripSuffix | tests/test_audible.py:674-676 | A present suffix, put back behind the result, rebuilds the token. An absent suffix leaves the token unchanged. |
| Affixes.StripAffixes | tests/test_audible.py:670-681 | The token is the removed prefix (if it was present), then the result, then the removed suffix (if it was present in what remained). The result is never longer than the token. |
| Affixes.StripAffixesRoundTrip | tests/test_audible.py:671-675 | Removing `prefix` and `suffix` from `prefix + middle + suffix` gives back exactly `middle`, once each. |
| Affixes.StripEmptyAffixes | tests/test_audible.py:670 | Empty affixes leave every token unchanged. |
| Affixes.StripAbsentAffixes | tests/test_audible.py:676 | Affixes that do not literally occur leave the token unchanged. |
| Affixes.CommonPrefix | tests/test_audible.py:654-657 | The result is a prefix of both strings and cannot be extended: it ends one string, or the next characters differ. |
| Affixes.CommonSuffixLength | tests/test_audible.py:654-657 | The strings agree on that many trailing characters, and not on one more. |
| Affixes.CommonSuffix | tests/test_audible.py:654-657 | The result is a suffix of both strings and cannot be extended to the left. |
| Affixes.CommonPrefixUnique | tests/test_audible.py:654-657 | Reference definition: any common prefix that cannot be extended equals `CommonPrefix`. |
| Affixes.CommonSuffixUnique | tests/test_audible.py:654-657 | Reference definition: any common suffix that cannot be extended equals `CommonSuffix`. |
| Affixes.PairsFrom | tests/test_audible.py:658 | Lists index pairs `i < j` in range, every such pair appears, and they come in lexicographic order, as `itertools.combinations` yields them. |
| Affixes.OccurrencesIsMultiplicity | tests/test_audible.py:658 | The count of a candidate equals its multiplicity in the multiset of candidates. |
| Affixes.MostFrequentAmong | tests/test_audible.py:658 | Empty exactly when the first `n` candidates are all empty. Otherwise one of them, occurring at least as often as any non-empty one, no shorter than any equally frequent one, and seen no later than any candidate it ties with on both. |
| Affixes.MostFrequent | tests/test_audible.py:658 | Empty exactly when every candidate is empty. Otherwise a candidate that no non-empty candidate beats on count, or on length at equal count, and whose first occurrence comes no later than any tied candidate. |
| Affixes.MostFrequentPairCandidate | tests/test_audible.py:645-664 | The most frequent pairwise candidate is empty exactly when no pair shares anything. Otherwise it is what some pair shares, no pair's candidate occurs more often or is longer at equal count, and among tied candidates it is the first the pairs produce. |
| Affixes.MajorityCandidateUnique | tests/test_audible.py:645-664 | The majority rule with its tie-breaks leaves no choice: two majority candidates of the same tokens are equal. |
| Affixes.FindRegularAffixes | tests/test_audible.py:645-664 | `("", "")` for fewer than two tokens. Each side is the majority candidate over all pairs: empty exactly when no pair shares anything, otherwise shared by some pair, at least as frequent as any other pair's candidate, at least as long as any equally frequent one, and the first seen among full ties. |
| Affixes.SoleSharedCandidate | tests/test_audible.py:658 | When every pair shares either nothing or the same `p`, and some pair shares `p`, the affix is `p`. |
| Affixes.IdenticalTokensAffixes | tests/test_audible.py:653 | For two or more identical tokens, the whole token is both the prefix and the suffix. |
| Affixes.TwoTokensAffixes | tests/test_audible.py:654-657 | With exactly two tokens, the affixes are their longest common prefix and longest common suffix. |
| Affixes.TwoTokensMaximalAffixes | tests/test_audible.py:654-657 | With two tokens, any common prefix and common suffix that cannot be extended are the affixes. |
| Levenshtein.SpecialisedLevenshtein | tests/test_audible.py:636-639 | The distance is at least the difference in length. Its other properties are the lemmas below: `ZeroIffIdentical`, `Symmetric`, `DigitMismatchCostsTen`, and `ComputeSpecialisedLevenshtein` for the table method. |
| Levenshtein.WeightCountsDigits | tests/test_audible.py:633 | Inserting a whole string costs exactly one per character plus nine more per digit. |
| Levenshtein.ZeroIffIdentical | tests/test_audible.py:627 | The distance is 0 exactly for identical strings. |
| Levenshtein.Symmetric | tests/test_audible.py:628-629 | The distance does not depend on the order of the arguments. |
| Levenshtein.SharedPrefix | tests/test_audible.py:628-633 | A common prefix never changes the distance. |
| Levenshtein.DeleteFirstBound | tests/test_audible.py:629 | Deleting a leading character costs at most its edit cost. |
| Levenshtein.InsertFirstBound | tests/test_audible.py:628 | Inserting a leading character costs at most its edit cost. |
| Levenshtein.DropFromSecond | tests/test_audible.py:628 | Dropping a leading character from the second string lowers the distance by at most its edit cost. |
| Levenshtein.DropFromFirst | tests/test_audible.py:629 | Dropping a leading character from the first string lowers the distance by at most its edit cost. |
| Levenshtein.DigitMismatchCostsTen | tests/test_audible.py:629-632 | Strings whose digit sequences differ are at distance at least 10. |
| Levenshtein.AppendedText | tests/test_audible.py:628 | Appending text costs exactly the weight of the text. |
| Levenshtein.ReplacedLastCharacter | tests/test_audible.py:630 | Changing only the last character costs exactly one substitution. |
| Levenshtein.SwappedTrailingDigits | tests/test_audible.py:632 | Swapping two different trailing digits costs exactly 20. |
| Levenshtein.ComputeSpecialisedLevenshtein | tests/test_audible.py:636-639 | The dynamic-programming method returns exactly the distance of the recursive definition. |
| Ordering.Insert | tests/test_audible.py:343-350 | Inserting into a sorted list adds exactly one copy of the item and keeps the list sorted. |
| Ordering.SortBy | tests/test_audible.py:343-350 | The result is a permutation of the input, of the same length, sorted by the key. |
| Ordering.PermutationKeepsDistinctKeys | tests/test_audible.py:343-350 | Reordering never makes two keys equal. |
| Ordering.SortedArrangementUnique | tests/test_audible.py:343-350 | When a strictly sorted arrangement exists, it is the only sorted permutation, so sorting any shuffle gives it back. |
| Ordering.ByStartingNumbers | tests/test_audible.py:353-375 | Accepts exactly when every title has a leading number and no two share one. Then it returns a permutation of the same length, strictly ordered by leading number. |
| Ordering.BySourceNumbering | tests/test_audible.py:353-375 | When it accepts, the track indices are distinct, and the result is a permutation of the same length whose indices count up by one. |
| Ordering.SourceNumberingAcceptsGaplessRuns | tests/test_audible.py:360 | Both directions: it accepts exactly when the indices are distinct and fit a window as wide as the item count. |
| Ordering.StartingNumbersRestoresOrder | tests/test_audible.py:343-350 | Any shuffle of a list with strictly increasing leading numbers is put back in exactly that order. |
| Ordering.SourceNumberingRestoresOrder | tests/test_audible.py:343-350 | Any shuffle of a list whose indices count up by one is put back in exactly that order. |
| Ordering.RunStrategy | tests/test_audible.py:371-374 | Any order a strategy returns is a permutation of the items, of the same length. |
| Ordering.FirstAccepted | tests/test_audible.py:371-375 | The result is a permutation. It is `None` exactly when every strategy rejects. Otherwise it is some strategy's order, and every strategy before that one rejected. |
| Ordering.SortTracks | tests/test_audible.py:343-350 | An empty item list gives `None`. Otherwise the result is a permutation, `None` exactly when every strategy rejects, and else the order of the first strategy that accepts. |
| Ordering.FirstAcceptingStrategyWins | tests/test_audible.py:371-375 | Once every earlier strategy rejects, the first one that accepts decides the result, for any non-empty item list. |
| AudibleTests.LeadingNumberBeforeSeparator | tests/test_audible.py:704-711 | "01 test", "01-test", "01_test", "01 - test" and "01" read as 1. |
| AudibleTests.LeadingNumberHundred | tests/test_audible.py:707 | "100_test" reads as 100. |
| AudibleTests.LeadingNumberAbsent | tests/test_audible.py:709 | "test" has no leading number. |
| AudibleTests.LeadingNumberEndsAtAnyNonDigit | tests/test_audible.py:710 | "0t1 test" reads as 0. |
| AudibleTests.LeadingZerosDiscarded | tests/test_audible.py:712-713 | "001" reads as 1 and "012" as 12. |
| AudibleTests.ContinuousSeriesVectors | tests/test_audible.py:687-689 | (1), (1, 2), (0, 1, 2) and (10, 11, 12) are continuous. |
| AudibleTests.BrokenSeriesVectors | tests/test_audible.py:690-693 | (0, None, 2), (0, 1, None) and (10, 11, 13) are not continuous. |
| AudibleTests.StripWholeToken | tests/test_audible.py:670-672 | Empty affixes keep "example". An affix equal to the whole token "test" leaves "". |
| AudibleTests.StripPrefixOnce | tests/test_audible.py:673 | "testexampletest" without prefix "test" is "exampletest". |
| AudibleTests.StripSuffixOnce | tests/test_audible.py:674 | "testexampletest" without suffix "test" is "testexample". |
| AudibleTests.StripExtension | tests/test_audible.py:675 | "test.mp3" without suffix ".mp3" is "test". |
| AudibleTests.StripAbsentExtension | tests/test_audible.py:676 | "testxmp3" keeps its text: ".mp3" does not occur literally. |
| AudibleTests.NoAffixesBelowTwoTokens | tests/test_audible.py:645-652 | No tokens, or one token, give `("", "")`. |
| AudibleTests.IdenticalPairAffixes | tests/test_audible.py:653 | ["test", "test"] gives ("test", "test"). |
| AudibleTests.DifferingLastCharacterAffixes | tests/test_audible.py:654 | ["test1", "test2"] gives ("test", ""). |
| AudibleTests.DifferentLengthsAffixes | tests/test_audible.py:655-656 | ["testing", "test2"] gives ("test", ""). |
| AudibleTests.AffixesAroundMiddle | tests/test_audible.py:657 | ["prefix1suffix", "prefix2suffix"] gives ("prefix", "suffix"). |
| AudibleTests.OutlierTokenAffixes | tests/test_audible.py:658 | ["prologue", "chapter1", "chapter2", "chapter3"] gives ("chapter", ""). |
| AudibleTests.IdenticalStringsDistance | tests/test_audible.py:627 | "example" against itself is at distance 0. |
| AudibleTests.MissingLetterDistance | tests/test_audible.py:628 | "exampl" against "example" is at distance 1. |
| AudibleTests.MissingDigitDistance | tests/test_audible.py:629 | "example1" against "example" is at distance 10. |
| AudibleTests.ReplacedDigitDistance | tests/test_audible.py:630 | "example1" against "example2" is at distance 10. |
| AudibleTests.ExtraDigitDistance | tests/test_audible.py:631 | "example1" against "example12" is at distance 10. |
| AudibleTests.TwoDigitMismatchesDistance | tests/test_audible.py:632 | "example21" against "example12" is at distance 20. |
| AudibleTests.AppendedWordDistance | tests/test_audible.py:633 | "example1" against "example1 test" is at distance 5. |
| AudibleTests.ChapterList0Numbered | tests/test_audible.py:116-130 | Chapter list 0 ("01" .. "13") is all numbered and strictly increasing by leading number. |
| AudibleTests.ChapterList7Tracks | tests/test_audible.py:217-231 | The track indices of chapter list 7 are 1 .. 13 in order. |
| AudibleTests.StartingNumbersChain | tests/test_audible.py:343-350 | `starting_numbers` restores a non-empty list with strictly increasing leading numbers from any shuffle. It does so on its own and after a `chapter_levenshtein` that rejects. An empty list is rejected. |
| AudibleTests.SourceNumberingChain | tests/test_audible.py:343-350 | `source_numbering` restores a non-empty list with gapless track indices from any shuffle. It does so on its own and after a `starting_numbers` that rejects. An empty list is rejected. |
| AudibleTests.StartingNumbersSortsChapterList0 | tests/test_audible.py:353-375 | Any shuffle of chapter list 0, sorted with `starting_numbers`, comes back in canonical order. The same holds after a `chapter_levenshtein` that rejects. |
| AudibleTests.SourceNumberingSortsChapterList7 | tests/test_audible.py:353-375 | Any shuffle of chapter list 7, sorted with `source_numbering`, comes back in canonical order. `starting_numbers` rejects the list, so a chain that tries it first gives the same order. |
| AudibleTests.TwoDigitLabel | tests/test_audible.py:233-252 | The label of `n` below 100 is two digits whose value is `n`. |
| AudibleTests.ChapterList8Numbered | tests/test_audible.py:232-253 | Chapter list 8 ("01 - ..." .. "20 - ...") is all numbered and strictly increasing by leading number. |
| AudibleTests.StartingNumbersSortsChapterList8 | tests/test_audible.py:232-253 | Any shuffle of chapter list 8, sorted with `starting_numbers`, comes back in canonical order. The same holds after a `chapter_levenshtein` that rejects. |
| AudibleTests.SourceNumberingSortsChapterList9 | tests/test_audible.py:254-275 | Any shuffle of chapter list 9, sorted with `source_numbering`, comes back in canonical order. `starting_numbers` rejects the list, so a chain that tries it first gives the same order. |
| AudibleTests.ChapterList10Numbered | tests/test_audible.py:276-303 | Chapter list 10 ("00 Part One.mp3", "01.mp3" .. "25.mp3") is all numbered, from 0, and strictly increasing by leading number. |
| AudibleTests.StartingNumbersSortsChapterList10 | tests/test_audible.py:276-303 | Any shuffle of chapter list 10, sorted with `starting_numbers`, comes back in canonical order. The same holds after a `chapter_levenshtein` that rejects. |

## Left out

- The online test (tests/test_audible.py:378-621) is left out. It fetches album data over the network.
- Test plumbing is left out:
  - `MagicMock` items
  - file paths built with `bytestring_path`/`Path`
  - beets `Item` objects and their string form
  - The model's item is a `(title, track)` record.
- Randomness is left out (`random.seed`, `shuffle`, `random.sample`, random strings). The ordering lemmas instead quantify over every permutation of a fixture.
- The patched collaborators `get_common_data_attributes` and `convert_items_to_trackinfo` are left out. So is the plugin configuration that selects the strategies, which is a list parameter here.
- The internals of `natural_sort` and `chapter_levenshtein` are left out. Their source is not part of this model, and the tests exercise them only against random album data. They appear only as an oracle that rejects or returns a permutation. Fixture lists 1-6 rely on them, so they are not proved.
- The commented-out fixture at tests/test_audible.py:304-320 is left out. The test file marks it as unsolved.
- Unicode digits are left out. Python's notion of a digit also covers non-ASCII decimal digits, but the model only knows `'0'..'9'`.
- Ordering.BySourceNumbering: the plugin also rejects items that lack a source index. Every item here carries an integer track, as in the fixtures, so that case cannot arise.
