/**
 * Affix analysis: stripping a literal prefix/suffix pair from a token
 * (`strip_affixes`) and discovering the prefix and suffix that dominate a set
 * of tokens (`find_regular_affixes`).
 */
module Affixes {

  predicate IsPrefix(p: string, s: string) {
    |p| <= |s| && s[..|p|] == p
  }

  predicate IsSuffix(x: string, s: string) {
    |x| <= |s| && s[|s| - |x|..] == x
  }

  /** Removes `prefix` from the front of `token` if it is literally there. */
  function StripPrefix(token: string, prefix: string): (r: string)
    ensures IsPrefix(prefix, token) ==> prefix + r == token
    ensures !IsPrefix(prefix, token) ==> r == token
  {
    if IsPrefix(prefix, token) then
      assert token == token[..|prefix|] + token[|prefix|..];
      token[|prefix|..]
    else token
  }

  /** Removes `suffix` from the end of `token` if it is literally there. */
  function StripSuffix(token: string, suffix: string): (r: string)
    ensures IsSuffix(suffix, token) ==> r + suffix == token
    ensures !IsSuffix(suffix, token) ==> r == token
  {
    if IsSuffix(suffix, token) then
      assert token == token[..|token| - |suffix|] + token[|token| - |suffix|..];
      token[..|token| - |suffix|]
    else token
  }

  /**
   * `strip_affixes`: the prefix is removed first, then the suffix from what is
   * left; each only where it literally occurs. The token is always the result
   * with the removed pieces put back around it.
   */
  function StripAffixes(token: string, prefix: string, suffix: string): (r: string)
    ensures |r| <= |token|
    ensures token ==
      (if IsPrefix(prefix, token) then prefix else [])
      + r
      + (if IsSuffix(suffix, StripPrefix(token, prefix)) then suffix else [])
  {
    StripSuffix(StripPrefix(token, prefix), suffix)
  }

  /** Inverse: wrapping a token in the affixes and stripping them gives it back. */
  lemma StripAffixesRoundTrip(prefix: string, middle: string, suffix: string)
    ensures StripAffixes(prefix + middle + suffix, prefix, suffix) == middle
  {
    var token := prefix + middle + suffix;
    assert token[..|prefix|] == prefix;
    assert token[|prefix|..] == middle + suffix;
    var t := middle + suffix;
    assert t[|t| - |suffix|..] == suffix;
    assert t[..|t| - |suffix|] == middle;
  }

  /** Empty affixes leave every token unchanged. */
  lemma StripEmptyAffixes(token: string)
    ensures StripAffixes(token, [], []) == token
  {
    assert token[..0] == [];
    assert token[|token|..] == [];
  }

  /** Affixes that do not literally occur are skipped: no fuzzy matching. */
  lemma StripAbsentAffixes(token: string, prefix: string, suffix: string)
    requires !IsPrefix(prefix, token) && !IsSuffix(suffix, token)
    ensures StripAffixes(token, prefix, suffix) == token
  {
  }

  /** Longest common prefix of two strings. */
  function CommonPrefix(a: string, b: string): (r: string)
    ensures IsPrefix(r, a) && IsPrefix(r, b)
    ensures |r| == |a| || |r| == |b| || a[|r|] != b[|r|]
  {
    if |a| == 0 || |b| == 0 || a[0] != b[0] then []
    else
      var rest := CommonPrefix(a[1..], b[1..]);
      PrefixOfTail(a, rest);
      PrefixOfTail(b, rest);
      assert |rest| < |a| - 1 && |rest| < |b| - 1 ==> a[|rest| + 1] == a[1..][|rest|] && b[|rest| + 1] == b[1..][|rest|];
      [a[0]] + rest
  }

  /** A prefix of the tail, behind the head, is a prefix of the whole. */
  lemma PrefixOfTail(s: string, p: string)
    requires |s| > 0 && IsPrefix(p, s[1..])
    ensures IsPrefix([s[0]] + p, s)
  {
    assert s[..|p| + 1] == [s[0]] + s[1..][..|p|];
  }

  /** The `k`-th characters from the end of `a` and `b` agree. */
  predicate SameFromEnd(a: string, b: string, k: nat)
    requires 0 < k <= |a| && k <= |b|
  {
    a[|a| - k] == b[|b| - k]
  }

  /** Number of trailing characters two strings agree on. */
  function CommonSuffixLength(a: string, b: string): (n: nat)
    ensures n <= |a| && n <= |b|
    ensures forall k :: 0 < k <= n ==> SameFromEnd(a, b, k)
    ensures n == |a| || n == |b| || a[|a| - n - 1] != b[|b| - n - 1]
  {
    if |a| == 0 || |b| == 0 || a[|a| - 1] != b[|b| - 1] then 0
    else
      var a', b' := a[..|a| - 1], b[..|b| - 1];
      var n' := CommonSuffixLength(a', b');
      assert forall k :: 1 < k <= n' + 1 ==> SameFromEnd(a, b, k) by {
        forall k | 1 < k <= n' + 1
          ensures SameFromEnd(a, b, k)
        {
          assert SameFromEnd(a', b', k - 1);
        }
      }
      n' + 1
  }

  /** Longest common suffix of two strings. */
  function CommonSuffix(a: string, b: string): (r: string)
    ensures IsSuffix(r, a) && IsSuffix(r, b)
    ensures |r| == |a| || |r| == |b| || a[|a| - |r| - 1] != b[|b| - |r| - 1]
  {
    var n := CommonSuffixLength(a, b);
    var ta, tb := a[|a| - n..], b[|b| - n..];
    assert ta == tb by {
      forall k | 0 <= k < n
        ensures ta[k] == tb[k]
      {
        assert SameFromEnd(a, b, n - k);
      }
    }
    ta
  }

  /** Pair `p` comes before pair `q`: by first index, then by second. */
  predicate LexLess(p: (nat, nat), q: (nat, nat)) {
    p.0 < q.0 || (p.0 == q.0 && p.1 < q.1)
  }

  predicate InLexicographicOrder(ps: seq<(nat, nat)>) {
    forall k, l :: 0 <= k < l < |ps| ==> LexLess(ps[k], ps[l])
  }

  /** The pairs starting at `from`, by second index, then later pairs in order. */
  lemma RowThenRest(row: seq<(nat, nat)>, rest: seq<(nat, nat)>, from: nat)
    requires forall k :: 0 <= k < |row| ==> row[k] == (from, from + 1 + k)
    requires forall k :: 0 <= k < |rest| ==> rest[k].0 > from
    requires InLexicographicOrder(rest)
    ensures InLexicographicOrder(row + rest)
  {
    var ps := row + rest;
    forall k, l | 0 <= k < l < |ps|
      ensures LexLess(ps[k], ps[l])
    {
      if l < |row| {
        assert ps[k] == row[k] && ps[l] == row[l];
      } else if k < |row| {
        assert ps[k] == row[k] && ps[l] == rest[l - |row|];
      } else {
        assert ps[k] == rest[k - |row|] && ps[l] == rest[l - |row|];
      }
    }
  }

  /** The index pairs `(i, j)` with `from <= i < j < n`, in the order of `itertools.combinations`. */
  function PairsFrom(from: nat, n: nat): (ps: seq<(nat, nat)>)
    requires from <= n
    ensures forall k :: 0 <= k < |ps| ==> from <= ps[k].0 < ps[k].1 < n
    ensures forall i, j :: from <= i < j < n ==> (i, j) in ps
    ensures InLexicographicOrder(ps)
    decreases n - from
  {
    if from == n then []
    else
      var row := seq(n - from - 1, k requires 0 <= k < n - from - 1 => (from, from + 1 + k));
      assert forall j :: from < j < n ==> row[j - from - 1] == (from, j);
      var rest := PairsFrom(from + 1, n);
      RowThenRest(row, rest, from);
      row + rest
  }

  /**
   * The candidates of one token set: `common(tokens[i], tokens[j])` for every
   * pair `i < j`.
   */
  function PairCandidates(tokens: seq<string>, common: (string, string) -> string): (cs: seq<string>)
  {
    var ps := PairsFrom(0, |tokens|);
    seq(|ps|, k requires 0 <= k < |ps| => common(tokens[ps[k].0], tokens[ps[k].1]))
  }

  /** How many times `c` occurs among the candidates, counted from the front. */
  function Occurrences(c: string, cs: seq<string>): (n: nat)
    ensures n <= |cs|
  {
    if |cs| == 0 then 0
    else (if cs[0] == c then 1 else 0) + Occurrences(c, cs[1..])
  }

  /** The count agrees with the multiplicity of `c` in the multiset of the candidates. */
  lemma {:induction false} OccurrencesIsMultiplicity(c: string, cs: seq<string>)
    ensures Occurrences(c, cs) == multiset(cs)[c]
  {
    if |cs| > 0 {
      OccurrencesIsMultiplicity(c, cs[1..]);
      assert cs == [cs[0]] + cs[1..];
    }
  }

  /**
   * Whether candidate `c` is preferred to the best so far, `best`: it occurs
   * more often, or as often and is longer. Nothing is preferred to a real
   * candidate by an empty one.
   */
  predicate Preferred(c: string, best: string, cs: seq<string>) {
    || best == []
    || Occurrences(c, cs) > Occurrences(best, cs)
    || (Occurrences(c, cs) == Occurrences(best, cs) && |c| > |best|)
  }

  /** Index of the first occurrence of `c` in `cs`, or `|cs|` when there is none. */
  function Position(c: string, cs: seq<string>): (k: nat)
    ensures k <= |cs|
    ensures k < |cs| ==> cs[k] == c
    ensures forall m :: 0 <= m < k ==> cs[m] != c
  {
    if |cs| == 0 then 0
    else if cs[0] == c then 0
    else
      var k' := Position(c, cs[1..]);
      assert forall m :: 0 < m <= k' ==> cs[m] == cs[1..][m - 1];
      k' + 1
  }

  /**
   * Candidate `c` draws with `best`: it is non-empty, occurs as often and is
   * as long, so only the order in which they are seen separates them.
   */
  predicate Tied(c: string, best: string, cs: seq<string>) {
    c != [] && Occurrences(c, cs) == Occurrences(best, cs) && |c| == |best|
  }

  /**
   * `best` is the most frequent non-empty candidate among the first `n`:
   * empty exactly when they all are, otherwise one of them, occurring at
   * least as often as each of them, at least as long as each that occurs as
   * often, and seen no later than any it ties with.
   */
  predicate BestAmong(best: string, cs: seq<string>, n: nat)
    requires n <= |cs|
  {
    && (best == [] <==> forall i :: 0 <= i < n ==> cs[i] == [])
    && (best != [] ==> best in cs[..n])
    && (forall i :: 0 <= i < n && cs[i] != [] ==>
          || Occurrences(cs[i], cs) < Occurrences(best, cs)
          || (Occurrences(cs[i], cs) == Occurrences(best, cs) && |cs[i]| <= |best|))
    && (forall i :: 0 <= i < n && Tied(cs[i], best, cs) ==> Position(best, cs) <= i)
  }

  /**
   * The most frequent non-empty candidate among the first `n`; ties go to the
   * longer candidate, then to the one seen first. Empty when there is none.
   */
  function MostFrequentAmong(cs: seq<string>, n: nat): (best: string)
    requires n <= |cs|
    ensures BestAmong(best, cs, n)
  {
    if n == 0 then []
    else
      var prev := MostFrequentAmong(cs, n - 1);
      if cs[n - 1] != [] && Preferred(cs[n - 1], prev, cs) then
        PreferredStep(cs, n, prev);
        cs[n - 1]
      else
        KeptStep(cs, n, prev);
        prev
  }

  /** A candidate preferred to the best of the first `n - 1` is the best of the first `n`. */
  lemma PreferredStep(cs: seq<string>, n: nat, prev: string)
    requires 0 < n <= |cs| && BestAmong(prev, cs, n - 1)
    requires cs[n - 1] != [] && Preferred(cs[n - 1], prev, cs)
    ensures BestAmong(cs[n - 1], cs, n)
  {
    var c := cs[n - 1];
    assert c == cs[..n][n - 1];
    forall i | 0 <= i < n && cs[i] != []
      ensures Occurrences(cs[i], cs) < Occurrences(c, cs) || (Occurrences(cs[i], cs) == Occurrences(c, cs) && |cs[i]| <= |c|)
      ensures Tied(cs[i], c, cs) ==> Position(c, cs) <= i
    {
      if i < n - 1 {
        assert prev != [];
        assert Occurrences(cs[i], cs) < Occurrences(prev, cs)
            || (Occurrences(cs[i], cs) == Occurrences(prev, cs) && |cs[i]| <= |prev|);
        assert Occurrences(c, cs) > Occurrences(prev, cs)
            || (Occurrences(c, cs) == Occurrences(prev, cs) && |c| > |prev|);
      }
    }
  }

  /** When the next candidate is not preferred, the best so far stays the best. */
  lemma KeptStep(cs: seq<string>, n: nat, prev: string)
    requires 0 < n <= |cs| && BestAmong(prev, cs, n - 1)
    requires !(cs[n - 1] != [] && Preferred(cs[n - 1], prev, cs))
    ensures BestAmong(prev, cs, n)
  {
    assert cs[..n] == cs[..n - 1] + [cs[n - 1]];
    forall i | 0 <= i < n && Tied(cs[i], prev, cs)
      ensures Position(prev, cs) <= i
    {
      if i == n - 1 {
        var j :| 0 <= j < n - 1 && cs[..n - 1][j] == prev;
        assert cs[j] == prev;
      }
    }
  }

  /** The most frequent non-empty candidate of the whole list, or empty. */
  function MostFrequent(cs: seq<string>): (best: string)
    ensures best == [] <==> forall c :: c in cs ==> c == []
    ensures best != [] ==> best in cs
    ensures forall c :: c in cs && c != [] ==>
      || Occurrences(c, cs) < Occurrences(best, cs)
      || (Occurrences(c, cs) == Occurrences(best, cs) && |c| <= |best|)
    ensures forall i :: 0 <= i < |cs| && Tied(cs[i], best, cs) ==> Position(best, cs) <= i
  {
    var best := MostFrequentAmong(cs, |cs|);
    assert cs[..|cs|] == cs;
    best
  }

  /**
   * `best` is a majority candidate of the pairs of `tokens` under `common`:
   * empty exactly when every pair shares nothing, otherwise what some pair
   * shares, occurring at least as often as anything a pair shares, at least
   * as long as anything shared as often, and among those the first one the
   * pairs produce, in the order of `PairsFrom`.
   */
  predicate MajorityCandidate(best: string, tokens: seq<string>, common: (string, string) -> string) {
    var cs := PairCandidates(tokens, common);
    && (best == [] <==> forall i, j :: 0 <= i < j < |tokens| ==> common(tokens[i], tokens[j]) == [])
    && (best != [] ==> exists i, j :: 0 <= i < j < |tokens| && best == common(tokens[i], tokens[j]))
    && (forall i, j :: 0 <= i < j < |tokens| && common(tokens[i], tokens[j]) != [] ==>
          Occurrences(common(tokens[i], tokens[j]), cs) <= Occurrences(best, cs))
    && (forall i, j :: 0 <= i < j < |tokens| && common(tokens[i], tokens[j]) != [] ==>
          (Occurrences(common(tokens[i], tokens[j]), cs) == Occurrences(best, cs) ==>
             |common(tokens[i], tokens[j])| <= |best|))
    && (forall k :: 0 <= k < |cs| && Tied(cs[k], best, cs) ==> Position(best, cs) <= k)
  }

  /** Every pair of tokens contributes its candidate. */
  lemma PairCandidatesCover(tokens: seq<string>, common: (string, string) -> string, i: nat, j: nat)
    requires i < j < |tokens|
    ensures common(tokens[i], tokens[j]) in PairCandidates(tokens, common)
  {
    var ps := PairsFrom(0, |tokens|);
    assert (i, j) in ps;
    var k :| 0 <= k < |ps| && ps[k] == (i, j);
    assert PairCandidates(tokens, common)[k] == common(tokens[i], tokens[j]);
  }

  /** The most frequent pairwise candidate is a majority candidate. */
  lemma MostFrequentPairCandidate(tokens: seq<string>, common: (string, string) -> string)
    ensures MajorityCandidate(MostFrequent(PairCandidates(tokens, common)), tokens, common)
  {
    var ps := PairsFrom(0, |tokens|);
    var cs := PairCandidates(tokens, common);
    var best := MostFrequent(cs);
    forall i, j | 0 <= i < j < |tokens|
      ensures common(tokens[i], tokens[j]) in cs
    {
      PairCandidatesCover(tokens, common, i, j);
    }
    if best != [] {
      var k :| 0 <= k < |cs| && cs[k] == best;
      assert best == common(tokens[ps[k].0], tokens[ps[k].1]);
    }
    forall i, j | 0 <= i < j < |tokens| && common(tokens[i], tokens[j]) != []
      ensures Occurrences(common(tokens[i], tokens[j]), cs) <= Occurrences(best, cs)
      ensures Occurrences(common(tokens[i], tokens[j]), cs) == Occurrences(best, cs) ==>
                |common(tokens[i], tokens[j])| <= |best|
    {
      var c := common(tokens[i], tokens[j]);
      assert c in cs;
    }
  }

  /**
   * The majority rule leaves no choice: two majority candidates of the same
   * tokens are the same string.
   */
  lemma MajorityCandidateUnique(b1: string, b2: string, tokens: seq<string>, common: (string, string) -> string)
    requires MajorityCandidate(b1, tokens, common) && MajorityCandidate(b2, tokens, common)
    ensures b1 == b2
  {
    var cs := PairCandidates(tokens, common);
    if b1 != [] {
      assert b2 != [];
      MajorityAmongCandidates(b1, tokens, common);
      MajorityAmongCandidates(b2, tokens, common);
      assert Tied(b1, b2, cs);
      FirstOfTiesUnique(b1, b2, cs);
    }
  }

  /**
   * A non-empty majority candidate is itself a candidate, and every
   * non-empty candidate occurs at most as often, and when as often is at
   * most as long.
   */
  lemma MajorityAmongCandidates(b: string, tokens: seq<string>, common: (string, string) -> string)
    requires MajorityCandidate(b, tokens, common) && b != []
    ensures b in PairCandidates(tokens, common)
    ensures forall k :: 0 <= k < |PairCandidates(tokens, common)| && PairCandidates(tokens, common)[k] != [] ==>
      var c := PairCandidates(tokens, common)[k];
      && Occurrences(c, PairCandidates(tokens, common)) <= Occurrences(b, PairCandidates(tokens, common))
      && (Occurrences(c, PairCandidates(tokens, common)) == Occurrences(b, PairCandidates(tokens, common)) ==> |c| <= |b|)
  {
    var i, j :| 0 <= i < j < |tokens| && b == common(tokens[i], tokens[j]);
    PairCandidatesCover(tokens, common, i, j);
    var ps := PairsFrom(0, |tokens|);
    forall k | 0 <= k < |PairCandidates(tokens, common)| && PairCandidates(tokens, common)[k] != []
      ensures var c := PairCandidates(tokens, common)[k];
        && Occurrences(c, PairCandidates(tokens, common)) <= Occurrences(b, PairCandidates(tokens, common))
        && (Occurrences(c, PairCandidates(tokens, common)) == Occurrences(b, PairCandidates(tokens, common)) ==> |c| <= |b|)
    {
      assert PairCandidates(tokens, common)[k] == common(tokens[ps[k].0], tokens[ps[k].1]);
    }
  }

  /** Two tied candidates that each come first among their ties are one. */
  lemma FirstOfTiesUnique(b1: string, b2: string, cs: seq<string>)
    requires b1 in cs && b2 in cs && Tied(b1, b2, cs)
    requires forall k :: 0 <= k < |cs| && Tied(cs[k], b1, cs) ==> Position(b1, cs) <= k
    requires forall k :: 0 <= k < |cs| && Tied(cs[k], b2, cs) ==> Position(b2, cs) <= k
    ensures b1 == b2
  {
    var p1, p2 := Position(b1, cs), Position(b2, cs);
    var j1 :| 0 <= j1 < |cs| && cs[j1] == b1;
    var j2 :| 0 <= j2 < |cs| && cs[j2] == b2;
    assert p1 <= j1 && p2 <= j2;
    assert Tied(cs[p2], b1, cs) && Tied(cs[p1], b2, cs);
  }

  /**
   * When the pairs share either nothing or one and the same `p`, and some
   * pair does share `p`, then `p` is the majority candidate.
   */
  lemma SoleSharedCandidate(best: string, tokens: seq<string>, common: (string, string) -> string, p: string)
    requires MajorityCandidate(best, tokens, common) && p != []
    requires forall i, j :: 0 <= i < j < |tokens| ==> common(tokens[i], tokens[j]) == [] || common(tokens[i], tokens[j]) == p
    requires exists i, j :: 0 <= i < j < |tokens| && common(tokens[i], tokens[j]) == p
    ensures best == p
  {
    var i, j :| 0 <= i < j < |tokens| && common(tokens[i], tokens[j]) == p;
    assert best != [];
    var i', j' :| 0 <= i' < j' < |tokens| && best == common(tokens[i'], tokens[j']);
  }

  /**
   * `find_regular_affixes`: the prefix is the most frequent non-empty longest
   * common prefix over all pairs of tokens, the suffix likewise for longest
   * common suffixes; ties go to the longer candidate, then to the one the
   * pairs produce first. Each is empty when no pair shares one, and by
   * `MajorityCandidateUnique` the contract fixes both.
   */
  function FindRegularAffixes(tokens: seq<string>): (r: (string, string))
    ensures |tokens| < 2 ==> r == ([], [])
    ensures MajorityCandidate(r.0, tokens, CommonPrefix)
    ensures MajorityCandidate(r.1, tokens, CommonSuffix)
  {
    MostFrequentPairCandidate(tokens, CommonPrefix);
    MostFrequentPairCandidate(tokens, CommonSuffix);
    (MostFrequent(PairCandidates(tokens, CommonPrefix)), MostFrequent(PairCandidates(tokens, CommonSuffix)))
  }

  lemma {:induction false} IdenticalPairCandidates(tokens: seq<string>, common: (string, string) -> string, t: string)
    requires |tokens| >= 2
    requires forall i :: 0 <= i < |tokens| ==> tokens[i] == t
    requires common(t, t) == t
    ensures MostFrequent(PairCandidates(tokens, common)) == t
  {
    var best := MostFrequent(PairCandidates(tokens, common));
    MostFrequentPairCandidate(tokens, common);
    if best != [] {
      var i, j :| 0 <= i < j < |tokens| && best == common(tokens[i], tokens[j]);
      assert tokens[i] == t && tokens[j] == t;
    } else {
      assert common(tokens[0], tokens[1]) == [];
    }
  }

  /** Identical tokens share themselves entirely: the whole token is both affixes. */
  lemma IdenticalTokensAffixes(tokens: seq<string>, t: string)
    requires |tokens| >= 2
    requires forall i :: 0 <= i < |tokens| ==> tokens[i] == t
    ensures FindRegularAffixes(tokens) == (t, t)
  {
    assert CommonPrefix(t, t) == t && CommonSuffix(t, t) == t by {
      assert t[..|t|] == t && t[|t| - |t|..] == t;
    }
    IdenticalPairCandidates(tokens, CommonPrefix, t);
    IdenticalPairCandidates(tokens, CommonSuffix, t);
  }

  /**
   * Reference characterisation of the longest common prefix: any common
   * prefix that cannot be extended is it.
   */
  lemma CommonPrefixUnique(a: string, b: string, r: string)
    requires IsPrefix(r, a) && IsPrefix(r, b)
    requires |r| == |a| || |r| == |b| || a[|r|] != b[|r|]
    ensures CommonPrefix(a, b) == r
  {
    var c := CommonPrefix(a, b);
    assert forall k :: 0 <= k < |r| ==> a[k] == r[k] == b[k];
    assert forall k :: 0 <= k < |c| ==> a[k] == c[k] == b[k];
    assert |c| == |r|;
  }

  /**
   * Reference characterisation of the longest common suffix: any common
   * suffix that cannot be extended is it.
   */
  lemma CommonSuffixUnique(a: string, b: string, r: string)
    requires IsSuffix(r, a) && IsSuffix(r, b)
    requires |r| == |a| || |r| == |b| || a[|a| - |r| - 1] != b[|b| - |r| - 1]
    ensures CommonSuffix(a, b) == r
  {
  }

  /** With exactly two tokens the affixes are what the pair has in common. */
  lemma TwoTokensAffixes(a: string, b: string)
    ensures FindRegularAffixes([a, b]) == (CommonPrefix(a, b), CommonSuffix(a, b))
  {
    var t := [a, b];
    var r := FindRegularAffixes(t);
    assert t[0] == a && t[1] == b;
    if r.0 != [] {
      var i, j :| 0 <= i < j < |t| && r.0 == CommonPrefix(t[i], t[j]);
      assert i == 0 && j == 1;
    } else {
      assert CommonPrefix(t[0], t[1]) == [];
    }
    if r.1 != [] {
      var i, j :| 0 <= i < j < |t| && r.1 == CommonSuffix(t[i], t[j]);
      assert i == 0 && j == 1;
    } else {
      assert CommonSuffix(t[0], t[1]) == [];
    }
  }

  /**
   * For two tokens, the affixes are the common prefix and common suffix that
   * cannot be extended any further.
   */
  lemma TwoTokensMaximalAffixes(a: string, b: string, p: string, x: string)
    requires IsPrefix(p, a) && IsPrefix(p, b)
    requires |p| == |a| || |p| == |b| || a[|p|] != b[|p|]
    requires IsSuffix(x, a) && IsSuffix(x, b)
    requires |x| == |a| || |x| == |b| || a[|a| - |x| - 1] != b[|b| - |x| - 1]
    ensures FindRegularAffixes([a, b]) == (p, x)
  {
    CommonPrefixUnique(a, b, p);
    CommonSuffixUnique(a, b, x);
    TwoTokensAffixes(a, b);
  }
}
