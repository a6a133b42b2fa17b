/**
 * The input/output vectors and fixtures of tests/test_audible.py, proved
 * about the model. Where a vector's strings would make the verifier evaluate
 * a recursive definition on literals, the strings are lemma parameters fixed
 * by the precondition.
 */
module AudibleTests {
  import opened Wrappers
  import opened Numbers
  import opened Continuity
  import opened Affixes
  import opened Levenshtein
  import opened Ordering

  /** "01" followed by any text that does not start with a digit reads as 1. */
  lemma LeadingOne(s: string, rest: string)
    requires s == "01" + rest
    requires |rest| == 0 || !IsDigit(rest[0])
    ensures CheckStartsWithNumber(s) == Some(1)
  {
    NumeralRoundTrip(1, rest);
    assert Numeral(1) == "1";
    LeadingZeroDiscarded("1" + rest);
    assert ['0'] + ("1" + rest) == "01" + rest;
  }

  lemma LeadingNumberBeforeSeparator(s: string)
    requires s == "01 test" || s == "01-test" || s == "01_test" || s == "01 - test" || s == "01"
    ensures CheckStartsWithNumber(s) == Some(1)
  {
    if s == "01 test" {
      LeadingOne(s, " test");
    } else if s == "01-test" {
      LeadingOne(s, "-test");
    } else if s == "01_test" {
      LeadingOne(s, "_test");
    } else if s == "01 - test" {
      LeadingOne(s, " - test");
    } else {
      LeadingOne(s, "");
    }
  }

  lemma LeadingNumberHundred(s: string)
    requires s == "100_test"
    ensures CheckStartsWithNumber(s) == Some(100)
  {
    var ds := "100";
    LeadingDigitsOfNumeral(ds, "_test");
    assert ds + "_test" == s;
    assert ds[..2][..1] == "1" && ds[..2][..1][..0] == "";
    assert DecimalValue(ds[..2][..1]) == 1;
    assert DecimalValue(ds[..2]) == 10;
    assert DecimalValue(ds) == 100;
  }

  lemma LeadingNumberAbsent()
    ensures CheckStartsWithNumber("test") == None
  {
  }

  lemma LeadingNumberEndsAtAnyNonDigit()
    ensures CheckStartsWithNumber("0t1 test") == Some(0)
  {
  }

  lemma LeadingZerosDiscarded(s: string, t: string)
    requires s == "001" && t == "012"
    ensures CheckStartsWithNumber(s) == Some(1)
    ensures CheckStartsWithNumber(t) == Some(12)
  {
    var u := s[1..];
    LeadingOne(u, []);
    LeadingZeroDiscarded(u);
    assert ['0'] + u == s;
    var v := t[1..];
    TwoDigitTitle(v, 12);
    LeadingZeroDiscarded(v);
    assert ['0'] + v == t;
  }

  lemma ContinuousSeriesVectors()
    ensures IsContinuousNumberSeries([Some(1)])
    ensures IsContinuousNumberSeries([Some(1), Some(2)])
    ensures IsContinuousNumberSeries([Some(0), Some(1), Some(2)])
    ensures IsContinuousNumberSeries([Some(10), Some(11), Some(12)])
  {
  }

  lemma BrokenSeriesVectors()
    ensures !IsContinuousNumberSeries([Some(0), None, Some(2)])
    ensures !IsContinuousNumberSeries([Some(0), Some(1), None])
    ensures !IsContinuousNumberSeries([Some(10), Some(11), Some(13)])
  {
  }

  lemma StripWholeToken()
    ensures StripAffixes("example", "", "") == "example"
    ensures StripAffixes("test", "test", "") == ""
    ensures StripAffixes("test", "", "test") == ""
  {
    StripEmptyAffixes("example");
    StripAffixesRoundTrip("test", "", "");
    StripAffixesRoundTrip("", "", "test");
  }

  /** A prefix and a suffix are each removed once, with the middle intact. */
  lemma StripAffixOnce(token: string, prefix: string, suffix: string, middle: string)
    requires prefix + middle + suffix == token
    ensures StripAffixes(token, prefix, suffix) == middle
  {
    StripAffixesRoundTrip(prefix, middle, suffix);
  }

  lemma StripPrefixOnce(token: string, prefix: string, r: string)
    requires token == "testexampletest" && prefix == "test" && r == "exampletest"
    ensures StripAffixes(token, prefix, "") == r
  {
    StripAffixOnce(token, prefix, "", r);
  }

  lemma StripSuffixOnce(token: string, suffix: string, r: string)
    requires token == "testexampletest" && suffix == "test" && r == "testexample"
    ensures StripAffixes(token, "", suffix) == r
  {
    StripAffixOnce(token, "", suffix, r);
  }

  lemma StripExtension(token: string, suffix: string, r: string)
    requires token == "test.mp3" && suffix == ".mp3" && r == "test"
    ensures StripAffixes(token, "", suffix) == r
  {
    StripAffixOnce(token, "", suffix, r);
  }

  lemma StripAbsentExtension(token: string)
    requires token == "testxmp3"
    ensures StripAffixes(token, "", ".mp3") == token
  {
    assert token[|token| - 4..] == "xmp3";
  }

  lemma NoAffixesBelowTwoTokens()
    ensures FindRegularAffixes([]) == ("", "")
    ensures FindRegularAffixes(["test"]) == ("", "")
  {
  }

  lemma IdenticalPairAffixes()
    ensures FindRegularAffixes(["test", "test"]) == ("test", "test")
  {
    IdenticalTokensAffixes(["test", "test"], "test");
  }

  lemma DifferingLastCharacterAffixes(a: string, b: string, p: string)
    requires a == "test1" && b == "test2" && p == "test"
    ensures FindRegularAffixes([a, b]) == (p, "")
  {
    assert a[..4] == p && b[..4] == p;
    assert a[|a|..] == [] && b[|b|..] == [];
    TwoTokensMaximalAffixes(a, b, p, "");
  }

  lemma DifferentLengthsAffixes(a: string, b: string, p: string)
    requires a == "testing" && b == "test2" && p == "test"
    ensures FindRegularAffixes([a, b]) == (p, "")
  {
    assert a[..4] == p && b[..4] == p;
    assert a[|a|..] == [] && b[|b|..] == [];
    TwoTokensMaximalAffixes(a, b, p, "");
  }

  lemma AffixesAroundMiddle(a: string, b: string, p: string, x: string)
    requires a == "prefix1suffix" && b == "prefix2suffix" && p == "prefix" && x == "suffix"
    ensures FindRegularAffixes([a, b]) == (p, x)
  {
    assert a[..6] == p && b[..6] == p;
    assert a[7..] == x && b[7..] == x;
    TwoTokensMaximalAffixes(a, b, p, x);
  }

  /** What every pair of the outlier vector's tokens has in common. */
  lemma OutlierPairs(tokens: seq<string>, p: string, i: nat, j: nat)
    requires tokens == ["prologue", "chapter1", "chapter2", "chapter3"] && p == "chapter"
    requires i < j < 4
    ensures CommonPrefix(tokens[i], tokens[j]) == (if i == 0 then [] else p)
    ensures CommonSuffix(tokens[i], tokens[j]) == []
  {
    var a, b := tokens[i], tokens[j];
    if i == 0 {
      CommonPrefixUnique(a, b, []);
    } else {
      assert a[..7] == p && b[..7] == p;
      CommonPrefixUnique(a, b, p);
    }
    CommonSuffixUnique(a, b, []);
  }

  /** The majority prefix survives an outlier token. */
  lemma OutlierTokenAffixes(tokens: seq<string>, p: string)
    requires tokens == ["prologue", "chapter1", "chapter2", "chapter3"] && p == "chapter"
    ensures FindRegularAffixes(tokens) == (p, [])
  {
    var r := FindRegularAffixes(tokens);
    forall i, j | 0 <= i < j < |tokens|
      ensures CommonPrefix(tokens[i], tokens[j]) == [] || CommonPrefix(tokens[i], tokens[j]) == p
      ensures CommonSuffix(tokens[i], tokens[j]) == []
    {
      OutlierPairs(tokens, p, i, j);
    }
    OutlierPairs(tokens, p, 1, 2);
    SoleSharedCandidate(r.0, tokens, CommonPrefix, p);
  }

  lemma IdenticalStringsDistance(a: string)
    requires a == "example"
    ensures SpecialisedLevenshtein(a, a) == 0
  {
    ZeroIffIdentical(a, a);
  }

  lemma MissingLetterDistance(a: string, b: string)
    requires a == "exampl" && b == "example"
    ensures SpecialisedLevenshtein(a, b) == 1
  {
    AppendedText(a, "e");
    assert a + "e" == b;
  }

  lemma MissingDigitDistance(a: string, b: string)
    requires a == "example1" && b == "example"
    ensures SpecialisedLevenshtein(a, b) == 10
  {
    AppendedText(b, "1");
    assert b + "1" == a;
    Symmetric(a, b);
  }

  lemma ReplacedDigitDistance(a: string, b: string)
    requires a == "example1" && b == "example2"
    ensures SpecialisedLevenshtein(a, b) == 10
  {
    ReplacedLastCharacter("example", '1', '2');
    assert "example" + ['1'] == a && "example" + ['2'] == b;
  }

  lemma ExtraDigitDistance(a: string, b: string)
    requires a == "example1" && b == "example12"
    ensures SpecialisedLevenshtein(a, b) == 10
  {
    AppendedText(a, "2");
    assert a + "2" == b;
  }

  lemma TwoDigitMismatchesDistance(a: string, b: string)
    requires a == "example21" && b == "example12"
    ensures SpecialisedLevenshtein(a, b) == 20
  {
    SwappedTrailingDigits("example", '2', '1');
    assert "example" + ['2', '1'] == a && "example" + ['1', '2'] == b;
  }

  lemma AppendedWordDistance(a: string, b: string)
    requires a == "example1" && b == "example1 test"
    ensures SpecialisedLevenshtein(a, b) == 5
  {
    AppendedText(a, " test");
    assert a + " test" == b;
    assert Weight(" test") == 5;
  }

  /** A title opening with exactly two digits reads as their two-digit value. */
  lemma TwoDigitTitle(s: string, n: nat)
    requires |s| >= 2 && IsDigit(s[0]) && IsDigit(s[1]) && (|s| == 2 || !IsDigit(s[2]))
    requires DigitValue(s[0]) * 10 + DigitValue(s[1]) == n
    ensures CheckStartsWithNumber(s) == Some(n)
  {
    var ds := s[..2];
    LeadingDigitsOfNumeral(ds, s[2..]);
    assert ds + s[2..] == s;
    assert ds[..|ds| - 1] == [s[0]] && [s[0]][..0] == [];
    assert DecimalValue([s[0]]) == DigitValue(s[0]);
    assert DecimalValue(ds) == n;
  }

  /** Chapter list 0: thirteen titles "01" .. "13", all with track index 0. */
  predicate ChapterList0(items: seq<Item>) {
    items == [Item("01", 0), Item("02", 0), Item("03", 0), Item("04", 0), Item("05", 0), Item("06", 0), Item("07", 0), Item("08", 0), Item("09", 0), Item("10", 0), Item("11", 0), Item("12", 0), Item("13", 0)]
  }

  /** Chapter list 7: "Prologue" .. "Author's Note", with track indices 1 .. 13. */
  predicate ChapterList7(items: seq<Item>) {
    items == [Item("Prologue", 1), Item("Chapter 1", 2), Item("Chapter 2", 3), Item("Chapter 3", 4), Item("Chapter 4", 5), Item("Chapter 5", 6), Item("Chapter 6", 7), Item("Chapter 7", 8), Item("Chapter 8", 9), Item("Chapter 9", 10), Item("Chapter 10", 11), Item("End", 12), Item("Author's Note", 13)]
  }

  /** The random chapter texts shared by chapter lists 8 and 9. */
  const FixtureTexts: seq<string> := [
    "Zg503IhGHXyRdZeVn838pZGhvO7uwM5C",
    "Hf7KcfUB8rsP2AzR8DlZgx3CRXN5ABKM",
    "nzCOIa8IGCZtInmoxa1M3zS5FmM9F8E7",
    "atijzxWA7 PZOI5aN mzNxyE1FU4hFGQ",
    "ucwzgmf4aA5YlHCvcYMdn2TCGz1Uxb6E",
    "k4yXBbaPPgtPOpI6nVnXM1ex Dg1Hgaw",
    "VtQIEznFhhWPvGLzljcL8vpHGITPv ey",
    "xe4fePnrboPoYKiiGTFC4LEOB8nP5NSt",
    "B8V 7YSwH02fjRFnkBpfvD8x iHNdUF2",
    "vPusDiJioUeF8j67IXBzcCoYuENxtjrU",
    "PHxgYdqZPcI6DwPIJXKy3AQvLzrdgzQD",
    "7KCqFir8teX GEG Pa oi8S4K3t3leSI",
    "CvSesAAwUHbCIJbnI43aVdPlApEiUcIZ",
    "lvDZY0kn60eEmb3mkTC9vkCyDZSf1ifk",
    "dzlLiHkRm3FMd8Yad8Iigrm0qK8gIRib",
    "SKW2vzcx3mgjro3GjBu51qBSaMwiVFRB",
    "xGnYqQILdJVM3VcaqbqorbdiPMcieOzw",
    "XIvowcJjMMBjgTht8azQb3XIGQSb1s9e",
    "97D0VmI9qgnRDPhwwkRwuL7atFCSKmNJ",
    "AEBmW2Dspf6czIMsF3l9u2IwmqUw826u"
  ]

  /** The two-digit numeral of `n`, with a leading zero below 10. */
  function TwoDigitLabel(n: nat): (s: string)
    requires n < 100
    ensures |s| == 2 && IsDigit(s[0]) && IsDigit(s[1])
    ensures DigitValue(s[0]) * 10 + DigitValue(s[1]) == n
  {
    [DigitChar(n / 10), DigitChar(n % 10)]
  }

  /** Chapter list 8: "01 - " .. "20 - " before the fixture texts, all with track index 0. */
  predicate ChapterList8(items: seq<Item>) {
    && |items| == |FixtureTexts|
    && forall k :: 0 <= k < |items| ==> items[k] == Item(TwoDigitLabel(k + 1) + " - " + FixtureTexts[k], 0)
  }

  /** Chapter list 9: the fixture texts alone, with track indices 1 .. 20. */
  predicate ChapterList9(items: seq<Item>) {
    && |items| == |FixtureTexts|
    && forall k :: 0 <= k < |items| ==> items[k] == Item(FixtureTexts[k], k + 1)
  }

  /** What follows the two-digit numbers 00 .. 25 in the titles of chapter list 10. */
  const List10Tails: seq<string> := [" Part One.mp3", ".mp3", ".mp3", ".mp3", ".mp3", ".mp3", " Part Two.mp3", ".mp3", ".mp3", ".mp3", ".mp3", " Part Three.mp3", ".mp3", ".mp3", ".mp3", ".mp3", " Part Four.mp3", ".mp3", ".mp3", ".mp3", ".mp3", " Part Five.mp3", ".mp3", ".mp3", ".mp3", ".mp3"]

  /** Chapter list 10: "00 Part One.mp3", "01.mp3" .. "25.mp3", all with track index 0. */
  predicate ChapterList10(items: seq<Item>) {
    && |items| == |List10Tails|
    && forall k :: 0 <= k < |items| ==> items[k] == Item(TwoDigitLabel(k) + List10Tails[k], 0)
  }

  /** The titles of chapter list 0 carry the leading numbers 1 .. 13, in order. */
  lemma ChapterList0Numbered(canonical: seq<Item>)
    requires ChapterList0(canonical)
    ensures AllTitlesNumbered(canonical) && StrictlySortedBy(canonical, TitleNumber)
  {
    forall k | 0 <= k < |canonical|
      ensures TitleNumber(canonical[k]) == k + 1
    {
      TwoDigitTitle(canonical[k].title, k + 1);
    }
  }

  /**
   * `starting_numbers` alone, or after a `chapter_levenshtein` that rejects,
   * restores a canonical order of strictly increasing leading numbers.
   */
  lemma StartingNumbersChain(canonical: seq<Item>, shuffled: seq<Item>,
                             oracle: (Strategy, seq<Item>) -> Option<seq<Item>>)
    requires AllTitlesNumbered(canonical) && StrictlySortedBy(canonical, TitleNumber)
    requires IsPermutation(shuffled, canonical)
    requires OracleReorders(oracle)
    ensures SortTracks([StartingNumbers], shuffled, oracle) == if |canonical| == 0 then None else Some(canonical)
    ensures oracle(ChapterLevenshtein, shuffled).None? ==>
      SortTracks([ChapterLevenshtein, StartingNumbers], shuffled, oracle) == if |canonical| == 0 then None else Some(canonical)
  {
    assert |multiset(shuffled)| == |multiset(canonical)|;
    StartingNumbersRestoresOrder(canonical, shuffled);
    FirstAcceptingStrategyWins([StartingNumbers], shuffled, oracle, 0);
    if oracle(ChapterLevenshtein, shuffled).None? {
      FirstAcceptingStrategyWins([ChapterLevenshtein, StartingNumbers], shuffled, oracle, 1);
    }
  }

  /**
   * `source_numbering` alone, or after a `starting_numbers` that rejects,
   * restores a canonical order whose track indices count up by one.
   */
  lemma SourceNumberingChain(canonical: seq<Item>, shuffled: seq<Item>,
                             oracle: (Strategy, seq<Item>) -> Option<seq<Item>>, lo: int)
    requires forall k :: 0 <= k < |canonical| ==> canonical[k].track == lo + k
    requires IsPermutation(shuffled, canonical)
    requires OracleReorders(oracle)
    ensures SortTracks([SourceNumbering], shuffled, oracle) == if |canonical| == 0 then None else Some(canonical)
    ensures ByStartingNumbers(shuffled).None? ==>
      SortTracks([StartingNumbers, SourceNumbering], shuffled, oracle) == if |canonical| == 0 then None else Some(canonical)
  {
    assert |multiset(shuffled)| == |multiset(canonical)|;
    SourceNumberingRestoresOrder(canonical, shuffled, lo);
    FirstAcceptingStrategyWins([SourceNumbering], shuffled, oracle, 0);
    if ByStartingNumbers(shuffled).None? {
      FirstAcceptingStrategyWins([StartingNumbers, SourceNumbering], shuffled, oracle, 1);
    }
  }

  /**
   * `starting_numbers` puts any shuffle of chapter list 0 back in order, on
   * its own and when `chapter_levenshtein` rejects before it.
   */
  lemma StartingNumbersSortsChapterList0(canonical: seq<Item>, shuffled: seq<Item>,
                                         oracle: (Strategy, seq<Item>) -> Option<seq<Item>>)
    requires ChapterList0(canonical) && IsPermutation(shuffled, canonical)
    requires OracleReorders(oracle)
    ensures SortTracks([StartingNumbers], shuffled, oracle) == Some(canonical)
    ensures oracle(ChapterLevenshtein, shuffled).None? ==>
      SortTracks([ChapterLevenshtein, StartingNumbers], shuffled, oracle) == Some(canonical)
  {
    ChapterList0Numbered(canonical);
    StartingNumbersChain(canonical, shuffled, oracle);
  }

  /** The track indices of chapter list 7 count up by one from 1. */
  lemma ChapterList7Tracks(canonical: seq<Item>)
    requires ChapterList7(canonical)
    ensures forall k :: 0 <= k < |canonical| ==> canonical[k].track == 1 + k
  {
  }

  /**
   * `source_numbering` puts any shuffle of chapter list 7 back in order;
   * `starting_numbers` rejects the list, whose first title has no leading
   * number, so a chain that tries it first ends with the same order.
   */
  lemma SourceNumberingSortsChapterList7(canonical: seq<Item>, shuffled: seq<Item>,
                                         oracle: (Strategy, seq<Item>) -> Option<seq<Item>>)
    requires ChapterList7(canonical) && IsPermutation(shuffled, canonical)
    requires OracleReorders(oracle)
    ensures SortTracks([SourceNumbering], shuffled, oracle) == Some(canonical)
    ensures ByStartingNumbers(shuffled).None?
    ensures SortTracks([StartingNumbers, SourceNumbering], shuffled, oracle) == Some(canonical)
  {
    assert canonical[0] in multiset(shuffled);
    var i :| 0 <= i < |shuffled| && shuffled[i] == canonical[0];
    assert CheckStartsWithNumber(shuffled[i].title).None?;
    ChapterList7Tracks(canonical);
    SourceNumberingChain(canonical, shuffled, oracle, 1);
  }

  /** The titles of chapter list 8 carry the leading numbers 1 .. 20, in order. */
  lemma ChapterList8Numbered(canonical: seq<Item>)
    requires ChapterList8(canonical)
    ensures AllTitlesNumbered(canonical) && StrictlySortedBy(canonical, TitleNumber)
  {
    forall k | 0 <= k < |canonical|
      ensures TitleNumber(canonical[k]) == k + 1
    {
      TwoDigitTitle(canonical[k].title, k + 1);
    }
  }

  /**
   * `starting_numbers` puts any shuffle of chapter list 8 back in order, on
   * its own and when `chapter_levenshtein` rejects before it.
   */
  lemma StartingNumbersSortsChapterList8(canonical: seq<Item>, shuffled: seq<Item>,
                                         oracle: (Strategy, seq<Item>) -> Option<seq<Item>>)
    requires ChapterList8(canonical) && IsPermutation(shuffled, canonical)
    requires OracleReorders(oracle)
    ensures SortTracks([StartingNumbers], shuffled, oracle) == Some(canonical)
    ensures oracle(ChapterLevenshtein, shuffled).None? ==>
      SortTracks([ChapterLevenshtein, StartingNumbers], shuffled, oracle) == Some(canonical)
  {
    ChapterList8Numbered(canonical);
    StartingNumbersChain(canonical, shuffled, oracle);
  }

  /**
   * `source_numbering` puts any shuffle of chapter list 9 back in order;
   * `starting_numbers` rejects the list, whose first title has no leading
   * number, so a chain that tries it first ends with the same order.
   */
  lemma SourceNumberingSortsChapterList9(canonical: seq<Item>, shuffled: seq<Item>,
                                         oracle: (Strategy, seq<Item>) -> Option<seq<Item>>)
    requires ChapterList9(canonical) && IsPermutation(shuffled, canonical)
    requires OracleReorders(oracle)
    ensures SortTracks([SourceNumbering], shuffled, oracle) == Some(canonical)
    ensures ByStartingNumbers(shuffled).None?
    ensures SortTracks([StartingNumbers, SourceNumbering], shuffled, oracle) == Some(canonical)
  {
    assert canonical[0] in multiset(shuffled);
    var i :| 0 <= i < |shuffled| && shuffled[i] == canonical[0];
    assert CheckStartsWithNumber(shuffled[i].title).None?;
    assert forall k :: 0 <= k < |canonical| ==> canonical[k].track == 1 + k;
    SourceNumberingChain(canonical, shuffled, oracle, 1);
  }

  /** The titles of chapter list 10 carry the leading numbers 0 .. 25, in order. */
  lemma ChapterList10Numbered(canonical: seq<Item>)
    requires ChapterList10(canonical)
    ensures AllTitlesNumbered(canonical) && StrictlySortedBy(canonical, TitleNumber)
  {
    forall k | 0 <= k < |canonical|
      ensures TitleNumber(canonical[k]) == k
    {
      TwoDigitTitle(canonical[k].title, k);
    }
  }

  /**
   * `starting_numbers` puts any shuffle of chapter list 10 back in order,
   * numbering from 0, on its own and when `chapter_levenshtein` rejects
   * before it.
   */
  lemma StartingNumbersSortsChapterList10(canonical: seq<Item>, shuffled: seq<Item>,
                                          oracle: (Strategy, seq<Item>) -> Option<seq<Item>>)
    requires ChapterList10(canonical) && IsPermutation(shuffled, canonical)
    requires OracleReorders(oracle)
    ensures SortTracks([StartingNumbers], shuffled, oracle) == Some(canonical)
    ensures oracle(ChapterLevenshtein, shuffled).None? ==>
      SortTracks([ChapterLevenshtein, StartingNumbers], shuffled, oracle) == Some(canonical)
  {
    ChapterList10Numbered(canonical);
    StartingNumbersChain(canonical, shuffled, oracle);
  }
}
