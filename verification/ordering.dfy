/**
 * The numbering-based strategies of `sort_tracks` and the strategy chain that
 * tries them in the configured order until one yields a complete order.
 */
module Ordering {
  import opened Wrappers
  import Numbers
  import Continuity

  /** A local audio file: its current title and the track index it already carries. */
  datatype Item = Item(title: string, track: int)

  /** The configurable chapter-matching strategies. */
  datatype Strategy = StartingNumbers | NaturalSort | ChapterLevenshtein | SourceNumbering

  predicate SortedBy(s: seq<Item>, key: Item -> int) {
    forall i, j :: 0 <= i < j < |s| ==> key(s[i]) <= key(s[j])
  }

  predicate StrictlySortedBy(s: seq<Item>, key: Item -> int) {
    forall i, j :: 0 <= i < j < |s| ==> key(s[i]) < key(s[j])
  }

  /** No two positions of `s` carry the same key. */
  predicate DistinctKeys(s: seq<Item>, key: Item -> int) {
    forall i, j :: 0 <= i < j < |s| ==> key(s[i]) != key(s[j])
  }

  predicate IsPermutation(r: seq<Item>, s: seq<Item>) {
    multiset(r) == multiset(s)
  }

  /** Inserts `x` into an already sorted sequence, before the first larger-or-equal key. */
  function Insert(x: Item, s: seq<Item>, key: Item -> int): (r: seq<Item>)
    requires SortedBy(s, key)
    ensures multiset(r) == multiset(s) + multiset{x}
    ensures forall i :: 0 <= i < |r| ==> r[i] == x || r[i] in s
    ensures SortedBy(r, key)
  {
    if |s| == 0 then [x]
    else if key(x) <= key(s[0]) then [x] + s
    else
      var rest := Insert(x, s[1..], key);
      assert s == [s[0]] + s[1..];
      LowerBoundOfInsert(x, s, key, rest);
      ConsSorted(s[0], rest, key);
      [s[0]] + rest
  }

  /** What `Insert` puts behind the head of `s` is no smaller than that head. */
  lemma LowerBoundOfInsert(x: Item, s: seq<Item>, key: Item -> int, rest: seq<Item>)
    requires SortedBy(s, key) && |s| > 0 && key(s[0]) < key(x)
    requires forall i :: 0 <= i < |rest| ==> rest[i] == x || rest[i] in s[1..]
    ensures forall i :: 0 <= i < |rest| ==> key(s[0]) <= key(rest[i])
  {
    forall i | 0 <= i < |rest|
      ensures key(s[0]) <= key(rest[i])
    {
      if rest[i] != x {
        var k :| 0 <= k < |s[1..]| && s[1..][k] == rest[i];
        assert s[1..][k] == s[k + 1];
      }
    }
  }

  /** A head no larger than anything behind it keeps a sorted sequence sorted. */
  lemma ConsSorted(h: Item, rest: seq<Item>, key: Item -> int)
    requires SortedBy(rest, key)
    requires forall i :: 0 <= i < |rest| ==> key(h) <= key(rest[i])
    ensures SortedBy([h] + rest, key)
  {
    var r := [h] + rest;
    forall i, j | 0 <= i < j < |r|
      ensures key(r[i]) <= key(r[j])
    {
      assert r[j] == rest[j - 1];
      if i > 0 {
        assert r[i] == rest[i - 1];
      }
    }
  }

  /** Insertion sort by `key`. */
  function SortBy(s: seq<Item>, key: Item -> int): (r: seq<Item>)
    ensures IsPermutation(r, s) && |r| == |s|
    ensures SortedBy(r, key)
  {
    if |s| == 0 then []
    else
      assert s == [s[0]] + s[1..];
      Insert(s[0], SortBy(s[1..], key), key)
  }

  /** A repeated value is counted at least twice. */
  lemma CountedTwice(s: seq<Item>, i: nat, j: nat)
    requires i < j < |s| && s[i] == s[j]
    ensures multiset(s)[s[i]] >= 2
  {
    assert s == s[..j] + s[j..];
    assert s[i] in s[..j];
    assert s[j] in s[j..];
  }

  /** A value counted at least twice sits at two positions. */
  lemma {:induction false} TwoPositions(s: seq<Item>, x: Item) returns (i: nat, j: nat)
    requires multiset(s)[x] >= 2
    ensures i < j < |s| && s[i] == x && s[j] == x
  {
    assert s == [s[0]] + s[1..];
    if s[0] == x {
      assert x in multiset(s[1..]);
      var k :| 0 <= k < |s[1..]| && s[1..][k] == x;
      i, j := 0, k + 1;
    } else {
      var i', j' := TwoPositions(s[1..], x);
      i, j := i' + 1, j' + 1;
    }
  }

  /** Distinct keys are a property of the multiset: every reordering keeps them. */
  lemma PermutationKeepsDistinctKeys(s: seq<Item>, t: seq<Item>, key: Item -> int)
    requires IsPermutation(t, s) && DistinctKeys(s, key)
    ensures DistinctKeys(t, key)
  {
    forall i, j | 0 <= i < j < |t|
      ensures key(t[i]) != key(t[j])
    {
      if t[i] == t[j] {
        CountedTwice(t, i, j);
        var i', j' := TwoPositions(s, t[i]);
        assert false;
      } else {
        assert t[i] in multiset(s) && t[j] in multiset(s);
        var i' :| 0 <= i' < |s| && s[i'] == t[i];
        var j' :| 0 <= j' < |s| && s[j'] == t[j];
        assert i' != j';
        if i' < j' {
          assert key(s[i']) != key(s[j']);
        } else {
          assert key(s[j']) != key(s[i']);
        }
      }
    }
  }

  /** A sorted sequence without repeated keys is strictly sorted. */
  lemma SortedAndDistinctIsStrict(s: seq<Item>, key: Item -> int)
    requires SortedBy(s, key) && DistinctKeys(s, key)
    ensures StrictlySortedBy(s, key)
  {
  }

  /** A sorted arrangement starts with the strictly-sorted one's first element. */
  lemma SameFirst(s: seq<Item>, c: seq<Item>, key: Item -> int)
    requires IsPermutation(s, c) && SortedBy(s, key) && StrictlySortedBy(c, key)
    requires |s| > 0 && |c| > 0
    ensures s[0] == c[0]
  {
    assert s[0] in multiset(c);
    var k :| 0 <= k < |c| && c[k] == s[0];
    assert c[0] in multiset(s);
    var m :| 0 <= m < |s| && s[m] == c[0];
    assert key(c[k]) <= key(c[0]) by {
      assert key(s[0]) <= key(s[m]);
    }
    assert k == 0;
  }

  /** Dropping the same first element from two permutations leaves permutations. */
  lemma TailPermutation(s: seq<Item>, c: seq<Item>)
    requires IsPermutation(s, c) && |s| > 0 && |c| > 0 && s[0] == c[0]
    ensures IsPermutation(s[1..], c[1..])
  {
    assert s == [s[0]] + s[1..] && c == [c[0]] + c[1..];
    assert multiset(s[1..]) == multiset(s) - multiset{s[0]};
    assert multiset(c[1..]) == multiset(c) - multiset{c[0]};
  }

  /**
   * Only one arrangement of a collection is sorted when one strictly sorted
   * arrangement exists: sorting any shuffle restores it exactly.
   */
  lemma {:induction false} SortedArrangementUnique(s: seq<Item>, c: seq<Item>, key: Item -> int)
    requires IsPermutation(s, c) && SortedBy(s, key) && StrictlySortedBy(c, key)
    ensures s == c
  {
    if |c| > 0 {
      assert |s| == |c| by {
        assert |multiset(s)| == |multiset(c)|;
      }
      SameFirst(s, c, key);
      TailPermutation(s, c);
      assert SortedBy(s[1..], key) && StrictlySortedBy(c[1..], key);
      SortedArrangementUnique(s[1..], c[1..], key);
      assert s == [s[0]] + s[1..] && c == [c[0]] + c[1..];
    }
  }

  /** Key of the `starting_numbers` strategy: the title's leading number, or -1. */
  function TitleNumber(item: Item): (n: int)
    ensures n >= -1
    ensures n == -1 <==> Numbers.CheckStartsWithNumber(item.title).None?
  {
    match Numbers.CheckStartsWithNumber(item.title)
    case Some(v) => v
    case None => -1
  }

  /** Key of the `source_numbering` strategy: the pre-existing track index. */
  function TrackIndex(item: Item): int {
    item.track
  }

  predicate AllTitlesNumbered(items: seq<Item>) {
    forall i :: 0 <= i < |items| ==> Numbers.CheckStartsWithNumber(items[i].title).Some?
  }

  /**
   * `starting_numbers`: order by the number each title starts with. Rejected
   * when a title has no leading number or two titles share one.
   */
  function ByStartingNumbers(items: seq<Item>): (r: Option<seq<Item>>)
    ensures r.Some? <==> AllTitlesNumbered(items) && DistinctKeys(items, TitleNumber)
    ensures r.Some? ==> IsPermutation(r.value, items) && |r.value| == |items|
    ensures r.Some? ==> StrictlySortedBy(r.value, TitleNumber)
  {
    if AllTitlesNumbered(items) && DistinctKeys(items, TitleNumber) then
      var s := SortBy(items, TitleNumber);
      PermutationKeepsDistinctKeys(items, s, TitleNumber);
      assert |multiset(s)| == |multiset(items)|;
      Some(s)
    else None
  }

  /** The track indices of `s`, in order, as a series of present numbers. */
  function Tracks(s: seq<Item>): (ts: seq<Option<int>>)
    ensures |ts| == |s|
    ensures forall k :: 0 <= k < |s| ==> ts[k] == Some(s[k].track)
  {
    seq(|s|, k requires 0 <= k < |s| => Some(s[k].track))
  }

  /**
   * `source_numbering`: order by the pre-existing track index. Rejected when
   * two items share an index or the sorted indices leave a gap.
   */
  function BySourceNumbering(items: seq<Item>): (r: Option<seq<Item>>)
    ensures r.Some? ==> DistinctKeys(items, TrackIndex)
    ensures r.Some? ==> IsPermutation(r.value, items) && |r.value| == |items|
    ensures r.Some? ==> forall k :: 0 <= k < |r.value| ==> r.value[k].track == r.value[0].track + k
  {
    if DistinctKeys(items, TrackIndex) then
      var s := SortBy(items, TrackIndex);
      assert |multiset(s)| == |multiset(items)|;
      if Continuity.IsContinuousNumberSeries(Tracks(s)) then Some(s) else None
    else None
  }

  /** Every track index lies in the window `lo .. lo + |items| - 1`. */
  predicate TracksWithin(items: seq<Item>, lo: int) {
    forall i :: 0 <= i < |items| ==> lo <= items[i].track < lo + |items|
  }

  /** In a strictly sorted sequence, keys grow at least by the distance in positions. */
  lemma {:induction false} StrictGrowth(s: seq<Item>, key: Item -> int, i: nat, j: nat)
    requires StrictlySortedBy(s, key) && i <= j < |s|
    ensures key(s[j]) - key(s[i]) >= j - i
    decreases j - i
  {
    if i < j {
      StrictGrowth(s, key, i + 1, j);
    }
  }

  /** An accepted set of track indices fits a window as wide as the set. */
  lemma AcceptedTracksFitWindow(items: seq<Item>)
    requires BySourceNumbering(items).Some?
    ensures exists lo :: TracksWithin(items, lo)
  {
    var s := BySourceNumbering(items).value;
    if |items| > 0 {
      assert TracksWithin(items, s[0].track) by {
        forall i | 0 <= i < |items|
          ensures s[0].track <= items[i].track < s[0].track + |items|
        {
          assert items[i] in multiset(s);
        }
      }
    } else {
      assert TracksWithin(items, 0);
    }
  }

  lemma InWindow(items: seq<Item>, lo: int, x: Item)
    requires TracksWithin(items, lo) && x in multiset(items)
    ensures lo <= x.track < lo + |items|
  {
    var i :| 0 <= i < |items| && items[i] == x;
  }

  /** Strictly increasing indices inside a window as wide as the sequence fill it exactly. */
  lemma StrictWindowIsRun(s: seq<Item>, lo: int)
    requires StrictlySortedBy(s, TrackIndex) && TracksWithin(s, lo)
    ensures forall k :: 0 <= k < |s| ==> s[k].track == lo + k
  {
    forall k | 0 <= k < |s|
      ensures s[k].track == lo + k
    {
      var n := |s|;
      StrictGrowth(s, TrackIndex, 0, k);
      StrictGrowth(s, TrackIndex, k, n - 1);
      assert TrackIndex(s[k]) == s[k].track && TrackIndex(s[0]) == s[0].track && TrackIndex(s[n - 1]) == s[n - 1].track;
    }
  }

  /** Sorting distinct track indices that fit a window lays them out as a run. */
  lemma SortedWindowIsRun(items: seq<Item>, lo: int)
    requires DistinctKeys(items, TrackIndex) && TracksWithin(items, lo)
    ensures forall k :: 0 <= k < |items| ==> SortBy(items, TrackIndex)[k].track == lo + k
  {
    var s := SortBy(items, TrackIndex);
    assert |multiset(s)| == |multiset(items)|;
    PermutationKeepsDistinctKeys(items, s, TrackIndex);
    SortedAndDistinctIsStrict(s, TrackIndex);
    forall k | 0 <= k < |s|
      ensures lo <= s[k].track < lo + |s|
    {
      assert s[k] in multiset(s);
      InWindow(items, lo, s[k]);
    }
    StrictWindowIsRun(s, lo);
  }

  /** Distinct track indices that fit a window as wide as the set are accepted. */
  lemma WindowedTracksAccepted(items: seq<Item>, lo: int)
    requires DistinctKeys(items, TrackIndex) && TracksWithin(items, lo)
    ensures BySourceNumbering(items).Some?
  {
    var s := SortBy(items, TrackIndex);
    assert Continuity.IsContinuousNumberSeries(Tracks(s)) by {
      SortedWindowIsRun(items, lo);
      var ts := Tracks(s);
      assert forall i :: 0 <= i < |ts| ==> ts[i] == Some(lo + i);
      Continuity.ConsecutiveIsContinuous(ts, lo);
    }
    assert BySourceNumbering(items) == Some(s);
  }

  /**
   * `source_numbering` accepts exactly the item sets whose indices are
   * distinct and fit a window as wide as the set: a complete, gapless run.
   */
  lemma SourceNumberingAcceptsGaplessRuns(items: seq<Item>)
    ensures BySourceNumbering(items).Some? <==>
      DistinctKeys(items, TrackIndex) && exists lo :: TracksWithin(items, lo)
  {
    if BySourceNumbering(items).Some? {
      AcceptedTracksFitWindow(items);
    }
    if DistinctKeys(items, TrackIndex) && exists lo :: TracksWithin(items, lo) {
      var lo :| TracksWithin(items, lo);
      WindowedTracksAccepted(items, lo);
    }
  }

  /**
   * `starting_numbers` restores the canonical order from any shuffle, when
   * the canonical titles carry strictly increasing leading numbers.
   */
  lemma StartingNumbersRestoresOrder(canonical: seq<Item>, shuffled: seq<Item>)
    requires AllTitlesNumbered(canonical) && StrictlySortedBy(canonical, TitleNumber)
    requires IsPermutation(shuffled, canonical)
    ensures ByStartingNumbers(shuffled) == Some(canonical)
  {
    forall i | 0 <= i < |shuffled|
      ensures Numbers.CheckStartsWithNumber(shuffled[i].title).Some?
    {
      assert shuffled[i] in multiset(canonical);
    }
    PermutationKeepsDistinctKeys(canonical, shuffled, TitleNumber);
    var s := SortBy(shuffled, TitleNumber);
    SortedArrangementUnique(s, canonical, TitleNumber);
  }

  /**
   * `source_numbering` restores the canonical order from any shuffle, when
   * the canonical track indices count up by one from some start.
   */
  lemma SourceNumberingRestoresOrder(canonical: seq<Item>, shuffled: seq<Item>, lo: int)
    requires forall k :: 0 <= k < |canonical| ==> canonical[k].track == lo + k
    requires IsPermutation(shuffled, canonical)
    ensures BySourceNumbering(shuffled) == Some(canonical)
  {
    assert StrictlySortedBy(canonical, TrackIndex);
    PermutationKeepsDistinctKeys(canonical, shuffled, TrackIndex);
    assert |multiset(shuffled)| == |multiset(canonical)|;
    forall i | 0 <= i < |shuffled|
      ensures lo <= shuffled[i].track < lo + |shuffled|
    {
      assert shuffled[i] in multiset(canonical);
    }
    WindowedTracksAccepted(shuffled, lo);
    var s := SortBy(shuffled, TrackIndex);
    SortedArrangementUnique(s, canonical, TrackIndex);
  }

  /**
   * The two strategies whose internals are not part of this model,
   * `natural_sort` and `chapter_levenshtein`, are supplied as an oracle that
   * either rejects or returns a reordering of what it was given.
   */
  ghost predicate OracleReorders(oracle: (Strategy, seq<Item>) -> Option<seq<Item>>) {
    forall s, xs :: oracle(s, xs).Some? ==> IsPermutation(oracle(s, xs).value, xs)
  }

  function RunStrategy(s: Strategy, items: seq<Item>, oracle: (Strategy, seq<Item>) -> Option<seq<Item>>): (r: Option<seq<Item>>)
    requires OracleReorders(oracle)
    ensures r.Some? ==> IsPermutation(r.value, items) && |r.value| == |items|
  {
    match s
    case StartingNumbers => ByStartingNumbers(items)
    case SourceNumbering => BySourceNumbering(items)
    case _ =>
      var r := oracle(s, items);
      assert r.Some? ==> |multiset(r.value)| == |multiset(items)|;
      r
  }

  /**
   * The strategy chain: the first configured strategy that produces an order
   * wins; None when every strategy rejects.
   */
  function FirstAccepted(strategies: seq<Strategy>, items: seq<Item>,
                         oracle: (Strategy, seq<Item>) -> Option<seq<Item>>): (r: Option<seq<Item>>)
    requires OracleReorders(oracle)
    ensures r.Some? ==> IsPermutation(r.value, items) && |r.value| == |items|
    ensures r.None? <==> forall k :: 0 <= k < |strategies| ==> RunStrategy(strategies[k], items, oracle).None?
    ensures r.Some? ==> exists k :: 0 <= k < |strategies| && r == RunStrategy(strategies[k], items, oracle)
                                    && (forall j :: 0 <= j < k ==> RunStrategy(strategies[j], items, oracle).None?)
  {
    if |strategies| == 0 then None
    else
      match RunStrategy(strategies[0], items, oracle)
      case Some(order) => Some(order)
      case None =>
        var r := FirstAccepted(strategies[1..], items, oracle);
        assert forall k :: 0 < k < |strategies| ==> strategies[k] == strategies[1..][k - 1];
        if r.Some? then
          var k :| 0 <= k < |strategies[1..]| && r == RunStrategy(strategies[1..][k], items, oracle)
                   && (forall j :: 0 <= j < k ==> RunStrategy(strategies[1..][j], items, oracle).None?);
          assert r == RunStrategy(strategies[k + 1], items, oracle);
          r
        else r
  }

  /**
   * `sort_tracks`: an empty list of items is rejected before any strategy
   * runs; otherwise the strategy chain decides.
   */
  function SortTracks(strategies: seq<Strategy>, items: seq<Item>,
                      oracle: (Strategy, seq<Item>) -> Option<seq<Item>>): (r: Option<seq<Item>>)
    requires OracleReorders(oracle)
    ensures |items| == 0 ==> r.None?
    ensures r.Some? ==> IsPermutation(r.value, items) && |r.value| == |items|
    ensures r.None? <==> |items| == 0 || forall k :: 0 <= k < |strategies| ==> RunStrategy(strategies[k], items, oracle).None?
    ensures r.Some? ==> exists k :: 0 <= k < |strategies| && r == RunStrategy(strategies[k], items, oracle)
                                    && (forall j :: 0 <= j < k ==> RunStrategy(strategies[j], items, oracle).None?)
  {
    if |items| == 0 then None else FirstAccepted(strategies, items, oracle)
  }

  /**
   * The chain's result is the first strategy that produces an order: once
   * every earlier strategy rejects, the later ones are never consulted.
   */
  lemma FirstAcceptingStrategyWins(strategies: seq<Strategy>, items: seq<Item>,
                                   oracle: (Strategy, seq<Item>) -> Option<seq<Item>>, k: nat)
    requires OracleReorders(oracle)
    requires k < |strategies| && RunStrategy(strategies[k], items, oracle).Some?
    requires forall j :: 0 <= j < k ==> RunStrategy(strategies[j], items, oracle).None?
    ensures FirstAccepted(strategies, items, oracle) == RunStrategy(strategies[k], items, oracle)
    ensures SortTracks(strategies, items, oracle) == if |items| == 0 then None else RunStrategy(strategies[k], items, oracle)
  {
    var r := FirstAccepted(strategies, items, oracle);
    var k' :| 0 <= k' < |strategies| && r == RunStrategy(strategies[k'], items, oracle)
              && (forall j :: 0 <= j < k' ==> RunStrategy(strategies[j], items, oracle).None?);
    assert k' == k;
  }
}
