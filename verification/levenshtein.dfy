/**
 * Digit-weighted edit distance (`specialised_levenshtein`): Levenshtein
 * distance in which inserting, deleting or substituting a decimal digit costs
 * 10 and every other edit costs 1, so that numeric disagreement dominates.
 */
module Levenshtein {
  import Numbers

  /** Cost of inserting or deleting one character. */
  function EditCost(c: char): (w: nat)
    ensures w == 1 || w == 10
    ensures w == 10 <==> Numbers.IsDigit(c)
  {
    if Numbers.IsDigit(c) then 10 else 1
  }

  /** Cost of replacing `x` by `y`; free when they are equal. */
  function SubstitutionCost(x: char, y: char): (w: nat)
    ensures w == 0 <==> x == y
    ensures x != y ==> (w == 10 <==> Numbers.IsDigit(x) || Numbers.IsDigit(y))
  {
    if x == y then 0
    else if Numbers.IsDigit(x) || Numbers.IsDigit(y) then 10
    else 1
  }

  /** Total cost of inserting (or deleting) every character of `s`. */
  function Weight(s: string): (w: nat)
    ensures w >= |s|
  {
    if |s| == 0 then 0 else EditCost(s[0]) + Weight(s[1..])
  }

  function Min3(x: nat, y: nat, z: nat): (m: nat)
    ensures m <= x && m <= y && m <= z
    ensures m == x || m == y || m == z
  {
    if x <= y && x <= z then x else if y <= z then y else z
  }

  /**
   * `specialised_levenshtein`, as the edit-distance recurrence on the first
   * characters: substitute (or keep) both, delete from `a`, or insert from `b`.
   * Each edit changes the length by at most one and costs at least one, so
   * the distance is at least the difference of the lengths.
   */
  function SpecialisedLevenshtein(a: string, b: string): (d: nat)
    ensures d >= |a| - |b| && d >= |b| - |a|
    decreases |a| + |b|
  {
    if |a| == 0 then Weight(b)
    else if |b| == 0 then Weight(a)
    else Min3(SpecialisedLevenshtein(a[1..], b[1..]) + SubstitutionCost(a[0], b[0]),
              SpecialisedLevenshtein(a[1..], b) + EditCost(a[0]),
              SpecialisedLevenshtein(a, b[1..]) + EditCost(b[0]))
  }

  /** Deleting a first character costs at most its edit cost. */
  lemma DeleteFirstBound(x: char, a: string, b: string)
    ensures SpecialisedLevenshtein([x] + a, b) <= SpecialisedLevenshtein(a, b) + EditCost(x)
  {
    assert ([x] + a)[1..] == a;
  }

  /** Inserting a first character costs at most its edit cost. */
  lemma InsertFirstBound(a: string, y: char, b: string)
    ensures SpecialisedLevenshtein(a, [y] + b) <= SpecialisedLevenshtein(a, b) + EditCost(y)
  {
    assert ([y] + b)[1..] == b;
  }

  /** Dropping a character from the second string saves at most its edit cost. */
  lemma {:induction false} DropFromSecond(a: string, x: char, b: string)
    ensures SpecialisedLevenshtein(a, b) <= SpecialisedLevenshtein(a, [x] + b) + EditCost(x)
    decreases |a|
  {
    var xb := [x] + b;
    assert xb[1..] == b;
    if |a| > 0 {
      var y, a' := a[0], a[1..];
      assert a == [y] + a';
      DeleteFirstBound(y, a', b);
      DropFromSecond(a', x, b);
    }
  }

  /** Dropping a character from the first string saves at most its edit cost. */
  lemma {:induction false} DropFromFirst(x: char, a: string, b: string)
    ensures SpecialisedLevenshtein(a, b) <= SpecialisedLevenshtein([x] + a, b) + EditCost(x)
    decreases |b|
  {
    var xa := [x] + a;
    assert xa[1..] == a;
    if |b| > 0 {
      var y, b' := b[0], b[1..];
      assert b == [y] + b';
      InsertFirstBound(a, y, b');
      DropFromFirst(x, a, b');
    }
  }

  /** A shared first character is always kept: it never changes the distance. */
  lemma SharedFirstCharacter(x: char, a: string, b: string)
    ensures SpecialisedLevenshtein([x] + a, [x] + b) == SpecialisedLevenshtein(a, b)
  {
    var xa, xb := [x] + a, [x] + b;
    assert xa[1..] == a && xb[1..] == b;
    DropFromSecond(a, x, b);
    DropFromFirst(x, a, b);
  }

  /** A shared prefix never changes the distance. */
  lemma {:induction false} SharedPrefix(p: string, a: string, b: string)
    ensures SpecialisedLevenshtein(p + a, p + b) == SpecialisedLevenshtein(a, b)
  {
    if |p| > 0 {
      assert p + a == [p[0]] + (p[1..] + a);
      assert p + b == [p[0]] + (p[1..] + b);
      SharedFirstCharacter(p[0], p[1..] + a, p[1..] + b);
      SharedPrefix(p[1..], a, b);
    } else {
      assert p + a == a && p + b == b;
    }
  }

  /** The distance is zero exactly for identical strings. */
  lemma {:induction false} ZeroIffIdentical(a: string, b: string)
    ensures SpecialisedLevenshtein(a, b) == 0 <==> a == b
    decreases |a| + |b|
  {
    if |a| > 0 && |b| > 0 {
      ZeroIffIdentical(a[1..], b[1..]);
      if a == b {
        assert a[1..] == b[1..];
      } else if a[0] == b[0] {
        assert a == [a[0]] + a[1..] && b == [b[0]] + b[1..];
      }
    }
  }

  /** Every edit is reversible at the same cost: the distance is symmetric. */
  lemma {:induction false} Symmetric(a: string, b: string)
    ensures SpecialisedLevenshtein(a, b) == SpecialisedLevenshtein(b, a)
    decreases |a| + |b|
  {
    if |a| > 0 && |b| > 0 {
      Symmetric(a[1..], b[1..]);
      Symmetric(a[1..], b);
      Symmetric(a, b[1..]);
    }
  }

  /** The digits of a string, in order. */
  function Digits(s: string): (ds: string)
    ensures Numbers.AllDigits(ds)
  {
    if |s| == 0 then []
    else if Numbers.IsDigit(s[0]) then [s[0]] + Digits(s[1..])
    else Digits(s[1..])
  }

  /** The weight of a string is one per character and nine more per digit. */
  lemma {:induction false} WeightCountsDigits(s: string)
    ensures Weight(s) == |s| + 9 * |Digits(s)|
  {
    if |s| > 0 {
      WeightCountsDigits(s[1..]);
    }
  }

  /**
   * Numeric divergence dominates: strings whose digit sequences differ are at
   * distance at least 10, however similar their text is.
   */
  lemma {:induction false} DigitMismatchCostsTen(a: string, b: string)
    requires Digits(a) != Digits(b)
    ensures SpecialisedLevenshtein(a, b) >= 10
    decreases |a| + |b|
  {
    if |a| > 0 && |b| > 0 {
      var d := SpecialisedLevenshtein(a, b);
      if d < 10 {
        if d == SpecialisedLevenshtein(a[1..], b[1..]) + SubstitutionCost(a[0], b[0]) {
          assert Numbers.IsDigit(a[0]) == Numbers.IsDigit(b[0]);
          assert a[0] == b[0] || !Numbers.IsDigit(a[0]);
          assert Digits(a[1..]) != Digits(b[1..]);
          DigitMismatchCostsTen(a[1..], b[1..]);
        } else if d == SpecialisedLevenshtein(a[1..], b) + EditCost(a[0]) {
          DigitMismatchCostsTen(a[1..], b);
        } else {
          DigitMismatchCostsTen(a, b[1..]);
        }
      }
    } else {
      WeightCountsDigits(a);
      WeightCountsDigits(b);
    }
  }

  /** Appending text to a string costs exactly the weight of the text. */
  lemma AppendedText(p: string, t: string)
    ensures SpecialisedLevenshtein(p, p + t) == Weight(t)
  {
    SharedPrefix(p, [], t);
    assert p + [] == p;
  }

  /** Changing the last character costs exactly one substitution. */
  lemma ReplacedLastCharacter(p: string, x: char, y: char)
    ensures SpecialisedLevenshtein(p + [x], p + [y]) == SubstitutionCost(x, y)
  {
    SharedPrefix(p, [x], [y]);
    assert [x][1..] == [] && [y][1..] == [];
    assert SpecialisedLevenshtein([], [y]) == EditCost(y);
    assert SpecialisedLevenshtein([x], []) == EditCost(x);
  }

  /** Swapping two different trailing digits costs two digit edits, 20. */
  lemma SwappedTrailingDigits(p: string, x: char, y: char)
    requires Numbers.IsDigit(x) && Numbers.IsDigit(y) && x != y
    ensures SpecialisedLevenshtein(p + [x, y], p + [y, x]) == 20
  {
    SharedPrefix(p, [x, y], [y, x]);
    assert [x, y][1..] == [y] && [y, x][1..] == [x];
    ReplacedLastCharacter([], y, x);
    AppendedText([y], [x]);
    AppendedText([x], [y]);
    Symmetric([x, y], [x]);
    assert [] + [y] == [y] && [] + [x] == [x] && [y] + [x] == [y, x] && [x] + [y] == [x, y];
    assert Weight([x]) == 10 && Weight([y]) == 10;
  }

  /** The recurrence read on suffixes `a[i..]` and `b[j..]`, as the table uses it. */
  lemma {:induction false} SuffixRecurrence(a: string, b: string, i: nat, j: nat)
    requires i < |a| && j < |b|
    ensures SpecialisedLevenshtein(a[i..], b[j..]) ==
      Min3(SpecialisedLevenshtein(a[i + 1..], b[j + 1..]) + SubstitutionCost(a[i], b[j]),
           SpecialisedLevenshtein(a[i + 1..], b[j..]) + EditCost(a[i]),
           SpecialisedLevenshtein(a[i..], b[j + 1..]) + EditCost(b[j]))
  {
    var x, y := a[i..], b[j..];
    assert x[0] == a[i] && y[0] == b[j];
    assert x[1..] == a[i + 1..] && y[1..] == b[j + 1..];
    Recurrence(x, y);
  }

  /** One step of the recurrence on two non-empty strings. */
  lemma {:induction false} Recurrence(x: string, y: string)
    requires |x| > 0 && |y| > 0
    ensures SpecialisedLevenshtein(x, y) ==
      Min3(SpecialisedLevenshtein(x[1..], y[1..]) + SubstitutionCost(x[0], y[0]),
           SpecialisedLevenshtein(x[1..], y) + EditCost(x[0]),
           SpecialisedLevenshtein(x, y[1..]) + EditCost(y[0]))
  {
  }

  /** Against an empty string the distance is the weight of the other one. */
  lemma AgainstEmpty(s: string, i: nat)
    requires i < |s|
    ensures SpecialisedLevenshtein(s[i..], []) == EditCost(s[i]) + SpecialisedLevenshtein(s[i + 1..], [])
    ensures SpecialisedLevenshtein([], s[i..]) == EditCost(s[i]) + SpecialisedLevenshtein([], s[i + 1..])
  {
    assert s[i..][1..] == s[i + 1..];
  }

  /** `row` is the table row of suffix `s` of the first string against `b`. */
  predicate IsRow(row: seq<nat>, s: string, b: string) {
    |row| == |b| + 1 && forall k :: 0 <= k < |row| ==> row[k] == SpecialisedLevenshtein(s, b[k..])
  }

  /** The row of the empty suffix: the weights of the suffixes of `b`. */
  method LastRow(b: string) returns (row: seq<nat>)
    ensures IsRow(row, [], b)
  {
    row := [0];
    var j := |b|;
    while j > 0
      invariant 0 <= j <= |b|
      invariant |row| == |b| - j + 1
      invariant forall k :: 0 <= k < |row| ==> row[k] == SpecialisedLevenshtein([], b[j + k..])
    {
      j := j - 1;
      AgainstEmpty(b, j);
      row := [EditCost(b[j]) + row[0]] + row;
    }
  }

  /** The cells of row `a[i..]` from column `j` on, as the loop below holds them. */
  predicate IsPartialRow(cur: seq<nat>, a: string, b: string, i: nat, j: nat)
    requires i < |a| && j <= |b|
  {
    |cur| == |b| - j + 1 && forall k :: 0 <= k < |cur| ==> cur[k] == SpecialisedLevenshtein(a[i..], b[j + k..])
  }

  /** One more cell to the left extends a partial row. */
  lemma ExtendPartialRow(a: string, b: string, i: nat, j: nat, row: seq<nat>, cur: seq<nat>)
    requires i < |a| && j < |b| && IsRow(row, a[i + 1..], b) && IsPartialRow(cur, a, b, i, j + 1)
    ensures IsPartialRow([Min3(row[j + 1] + SubstitutionCost(a[i], b[j]), row[j] + EditCost(a[i]),
                               cur[0] + EditCost(b[j]))] + cur, a, b, i, j)
  {
    SuffixRecurrence(a, b, i, j);
    var next := [Min3(row[j + 1] + SubstitutionCost(a[i], b[j]), row[j] + EditCost(a[i]),
                      cur[0] + EditCost(b[j]))] + cur;
    forall k | 0 <= k < |next|
      ensures next[k] == SpecialisedLevenshtein(a[i..], b[j + k..])
    {
      if k == 0 {
        assert row[j + 1] == SpecialisedLevenshtein(a[i + 1..], b[j + 1..]);
        assert row[j] == SpecialisedLevenshtein(a[i + 1..], b[j..]);
        assert cur[0] == SpecialisedLevenshtein(a[i..], b[j + 1..]);
      } else {
        assert next[k] == cur[k - 1];
        assert (j + 1) + (k - 1) == j + k;
      }
    }
  }

  /** The row of `a[i..]`, computed from the row of `a[i + 1..]`. */
  method PreviousRow(a: string, b: string, i: nat, row: seq<nat>) returns (cur: seq<nat>)
    requires i < |a| && IsRow(row, a[i + 1..], b)
    ensures IsRow(cur, a[i..], b)
  {
    var n := |b|;
    AgainstEmpty(a, i);
    cur := [EditCost(a[i]) + row[n]];
    var j := n;
    while j > 0
      invariant 0 <= j <= n
      invariant IsPartialRow(cur, a, b, i, j)
    {
      j := j - 1;
      ExtendPartialRow(a, b, i, j, row, cur);
      cur := [Min3(row[j + 1] + SubstitutionCost(a[i], b[j]), row[j] + EditCost(a[i]), cur[0] + EditCost(b[j]))] + cur;
    }
  }

  /**
   * The dynamic-programming evaluation of the distance, one table row at a
   * time from the ends of both strings.
   */
  method ComputeSpecialisedLevenshtein(a: string, b: string) returns (d: nat)
    ensures d == SpecialisedLevenshtein(a, b)
  {
    var row := LastRow(b);
    assert a[|a|..] == [];
    var i := |a|;
    while i > 0
      invariant 0 <= i <= |a|
      invariant IsRow(row, a[i..], b)
    {
      i := i - 1;
      row := PreviousRow(a, b, i, row);
    }
    assert a[0..] == a && b[0..] == b;
    d := row[0];
  }
}
