/**
 * Leading-number extraction (`check_starts_with_number`): the maximal run of
 * decimal digits at the start of a title, read as a non-negative integer.
 */
module Numbers {
  import opened Wrappers

  predicate IsDigit(c: char) {
    '0' <= c <= '9'
  }

  predicate AllDigits(s: string) {
    forall i :: 0 <= i < |s| ==> IsDigit(s[i])
  }

  function DigitValue(c: char): (d: nat)
    requires IsDigit(c)
    ensures d < 10
  {
    (c as int) - ('0' as int)
  }

  function DigitChar(d: nat): (c: char)
    requires d < 10
    ensures IsDigit(c) && DigitValue(c) == d
  {
    (('0' as int) + d) as char
  }

  /** Value of a digit string, most significant digit first. */
  function DecimalValue(ds: string): nat
    requires AllDigits(ds)
  {
    if |ds| == 0 then 0
    else DecimalValue(ds[..|ds| - 1]) * 10 + DigitValue(ds[|ds| - 1])
  }

  /** The decimal numeral of `n`, without leading zeros. */
  function Numeral(n: nat): (ds: string)
    ensures |ds| > 0 && AllDigits(ds)
    ensures DecimalValue(ds) == n
    ensures |ds| > 1 ==> ds[0] != '0'
  {
    if n < 10 then [DigitChar(n)]
    else
      var ds := Numeral(n / 10) + [DigitChar(n % 10)];
      assert ds[..|ds| - 1] == Numeral(n / 10);
      ds
  }

  /** The maximal run of digits at the start of `s`. */
  function LeadingDigits(s: string): (run: string)
    ensures |run| <= |s| && run == s[..|run|]
    ensures AllDigits(run)
    ensures |run| == |s| || !IsDigit(s[|run|])
  {
    if |s| == 0 || !IsDigit(s[0]) then []
    else [s[0]] + LeadingDigits(s[1..])
  }

  /**
   * `check_starts_with_number`: the integer spelled by the leading digit run,
   * or None when the string does not start with a digit.
   */
  function CheckStartsWithNumber(s: string): (r: Option<nat>)
    ensures r.None? <==> |s| == 0 || !IsDigit(s[0])
    ensures r.Some? ==>
      exists k :: 0 < k <= |s| && AllDigits(s[..k]) && (k == |s| || !IsDigit(s[k]))
               && r.value == DecimalValue(s[..k])
  {
    var run := LeadingDigits(s);
    if |run| == 0 then None
    else
      assert run == s[..|run|];
      Some(DecimalValue(run))
  }

  /** A zero in front of a digit run adds nothing to its value. */
  lemma {:induction false} LeadingZeroValue(ds: string)
    requires AllDigits(ds)
    ensures AllDigits(['0'] + ds)
    ensures DecimalValue(['0'] + ds) == DecimalValue(ds)
  {
    var zs := ['0'] + ds;
    if |ds| > 0 {
      assert zs[..|zs| - 1] == ['0'] + ds[..|ds| - 1];
      LeadingZeroValue(ds[..|ds| - 1]);
    }
  }

  /**
   * Leading zeros are discarded ("001" -> 1, "012" -> 12); a lone zero
   * followed by a non-digit is the number 0 ("0t1 test" -> 0).
   */
  lemma LeadingZeroDiscarded(s: string)
    ensures CheckStartsWithNumber(['0'] + s) == Some(CheckStartsWithNumber(s).GetOr(0))
  {
    var zs := ['0'] + s;
    assert zs[1..] == s;
    assert LeadingDigits(zs) == ['0'] + LeadingDigits(s);
    LeadingZeroValue(LeadingDigits(s));
  }

  lemma {:induction false} LeadingDigitsOfNumeral(ds: string, rest: string)
    requires AllDigits(ds)
    requires |rest| == 0 || !IsDigit(rest[0])
    ensures LeadingDigits(ds + rest) == ds
  {
    if |ds| > 0 {
      assert (ds + rest)[1..] == ds[1..] + rest;
      LeadingDigitsOfNumeral(ds[1..], rest);
      assert ds == [ds[0]] + ds[1..];
    } else {
      assert ds + rest == rest;
    }
  }

  /**
   * Round trip: the numeral of `n` followed by any text that does not start
   * with a digit reads back as `n`.
   */
  lemma NumeralRoundTrip(n: nat, rest: string)
    requires |rest| == 0 || !IsDigit(rest[0])
    ensures CheckStartsWithNumber(Numeral(n) + rest) == Some(n)
  {
    LeadingDigitsOfNumeral(Numeral(n), rest);
  }
}
