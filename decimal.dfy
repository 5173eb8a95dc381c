/** Decimal text for integers: the formatting used when a verdict message
    interpolates the number, and the parsing that turns the `number` query
    parameter into an integer. */
module Decimal {
  import opened Wrappers

  predicate IsDigit(c: char)
  {
    '0' <= c <= '9'
  }

  predicate AllDigits(s: string)
  {
    forall i :: 0 <= i < |s| ==> IsDigit(s[i])
  }

  function DigitChar(d: nat): (c: char)
    requires d < 10
    ensures IsDigit(c) && c as int - '0' as int == d
  {
    ('0' as int + d) as char
  }

  function DigitValue(c: char): nat
    requires IsDigit(c)
  {
    c as int - '0' as int
  }

  /** Value of a run of decimal digits, most significant digit first;
      leading zeros are allowed. */
  function DigitsValue(s: string): nat
    requires AllDigits(s)
    decreases |s|
  {
    if s == [] then 0 else 10 * DigitsValue(s[..|s| - 1]) + DigitValue(s[|s| - 1])
  }

  /** A digit run without leading zeros ("0" itself excepted): the form in
      which numbers are printed. */
  predicate Canonical(s: string)
  {
    AllDigits(s) && |s| > 0 && (|s| == 1 || s[0] != '0')
  }

  /** Shortest decimal text of a non-negative integer. */
  function NatToString(n: nat): (s: string)
    ensures Canonical(s)
    ensures n < 10 ==> |s| == 1
    ensures s[0] == '0' ==> n == 0
    decreases n
  {
    if n < 10 then [DigitChar(n)] else NatToString(n / 10) + [DigitChar(n % 10)]
  }

  function Pow10(k: nat): nat
  {
    if k == 0 then 1 else 10 * Pow10(k - 1)
  }

  /** The interpreter's default cap on the number of digits `int` converts
      from text; a longer digit run is refused as not a valid integer. */
  const MaxStrDigits: nat := 4300

  /** An optional '+' or '-' followed by one to MaxStrDigits decimal digits;
      anything else does not parse. */
  function ParseInt(s: string): (r: Option<int>)
    ensures s == "" ==> r == None
    ensures r.Some? && r.value < 0 ==> s[0] == '-'
    ensures r.Some? ==> |s| <= MaxStrDigits + 1
    ensures |s| > 0 && AllDigits(s) ==> (r.Some? <==> |s| <= MaxStrDigits)
  {
    if |s| > 0 && (s[0] == '+' || s[0] == '-') then
      var body := s[1..];
      if |body| > 0 && AllDigits(body) && |body| <= MaxStrDigits then
        var magnitude: int := DigitsValue(body);
        Some(if s[0] == '-' then -magnitude else magnitude)
      else
        None
    else if |s| > 0 && AllDigits(s) && |s| <= MaxStrDigits then
      Some(DigitsValue(s))
    else
      None
  }

  /** Formatting and then reading the digits gives the number back. */
  lemma {:induction false} DigitsOfNatToString(n: nat)
    ensures DigitsValue(NatToString(n)) == n
    decreases n
  {
    var s := NatToString(n);
    if n >= 10 {
      DigitsOfNatToString(n / 10);
      assert s[..|s| - 1] == NatToString(n / 10);
    }
  }

  /** A number below 10^k, for k >= 1, prints with at most k digits. */
  lemma {:induction false} NatToStringLength(n: nat, k: nat)
    requires k >= 1 && n < Pow10(k)
    ensures |NatToString(n)| <= k
    decreases n
  {
    if n >= 10 {
      assert n / 10 < Pow10(k - 1);
      assert k - 1 >= 1;
      NatToStringLength(n / 10, k - 1);
    }
  }

  /** The text of a number parses back to it, unless it has more digits than
      the cap allows. */
  lemma ParseNatToString(n: nat)
    ensures ParseInt(NatToString(n)) == if |NatToString(n)| <= MaxStrDigits then Some(n) else None
  {
    DigitsOfNatToString(n);
  }

  /** A minus sign in front of that text parses to the negated number, under
      the same cap. */
  lemma ParseNegated(n: nat)
    ensures ParseInt("-" + NatToString(n))
         == if |NatToString(n)| <= MaxStrDigits then Some(-(n as int)) else None
  {
    var s := "-" + NatToString(n);
    assert s[1..] == NatToString(n);
    DigitsOfNatToString(n);
  }

  /** A leading zero does not change the value of a digit run. */
  lemma {:induction false} LeadingZero(s: string)
    requires AllDigits(s)
    ensures AllDigits("0" + s) && DigitsValue("0" + s) == DigitsValue(s)
    decreases |s|
  {
    var z := "0" + s;
    if s != [] {
      assert z[..|z| - 1] == "0" + s[..|s| - 1];
      LeadingZero(s[..|s| - 1]);
    }
  }

  /** Any run of digits within the cap parses to its value, also behind a
      '+' or a '-'. */
  lemma ParseDigitRun(s: string)
    requires |s| > 0 && AllDigits(s) && |s| <= MaxStrDigits
    ensures ParseInt(s) == Some(DigitsValue(s))
    ensures ParseInt("+" + s) == ParseInt(s)
    ensures ParseInt("-" + s) == Some(-(DigitsValue(s) as int))
  {
    ParseBehindSign(s, '+');
    ParseBehindSign(s, '-');
  }

  /** One sign in front of a digit run within the cap. */
  lemma ParseBehindSign(s: string, sign: char)
    requires |s| > 0 && AllDigits(s) && |s| <= MaxStrDigits
    requires sign == '+' || sign == '-'
    ensures ParseInt([sign] + s)
         == Some(if sign == '-' then -(DigitsValue(s) as int) else DigitsValue(s))
  {
    var t := [sign] + s;
    assert t[0] == sign && t[1..] == s;
  }

  /** A leading zero does not change what a digit run parses to. */
  lemma ParseLeadingZero(s: string)
    requires |s| > 0 && AllDigits(s) && |s| < MaxStrDigits
    ensures ParseInt("0" + s) == ParseInt(s) == Some(DigitsValue(s))
  {
    var padded := "0" + s;
    LeadingZero(s);
    assert padded[0] == '0' && |padded| <= MaxStrDigits;
    assert ParseInt(padded) == Some(DigitsValue(padded));
  }

  /** A digit run whose first digit is not zero has a positive value. */
  lemma {:induction false} LeadingDigitPositive(s: string)
    requires AllDigits(s) && |s| > 0 && s[0] != '0'
    ensures DigitsValue(s) >= 1
    decreases |s|
  {
    if |s| > 1 {
      var init := s[..|s| - 1];
      assert init[0] == s[0];
      LeadingDigitPositive(init);
    }
  }

  /** A canonical digit run is exactly how its value prints, so the printed
      form of a number is the only canonical text for it. */
  lemma {:induction false} CanonicalIsNatToString(s: string)
    requires Canonical(s)
    ensures NatToString(DigitsValue(s)) == s
    decreases |s|
  {
    var v := DigitsValue(s);
    if |s| == 1 {
      assert DigitsValue(s[..0]) == 0;
      assert [DigitChar(v)] == s;
    } else {
      var init := s[..|s| - 1];
      assert init[0] == s[0];
      LeadingDigitPositive(init);
      CanonicalIsNatToString(init);
      var d := DigitValue(s[|s| - 1]);
      assert v == 10 * DigitsValue(init) + d && v >= 10;
      assert v / 10 == DigitsValue(init) && v % 10 == d;
      assert NatToString(v) == init + [s[|s| - 1]];
      assert init + [s[|s| - 1]] == s;
    }
  }

  /** Distinct numbers print differently. */
  lemma NatToStringInjective(m: nat, n: nat)
    ensures NatToString(m) == NatToString(n) ==> m == n
  {
    DigitsOfNatToString(m);
    DigitsOfNatToString(n);
  }

  /** A text with a character that is neither a digit nor a leading sign
      does not parse. */
  lemma ParseRejects(s: string, k: int)
    requires 0 <= k < |s| && !IsDigit(s[k])
    requires k > 0 || (s[k] != '+' && s[k] != '-')
    ensures ParseInt(s) == None
  {
    if |s| > 0 && (s[0] == '+' || s[0] == '-') {
      assert s[1..][k - 1] == s[k];
    }
  }

  /** A sign with no digits after it does not parse. */
  lemma ParseSignOnly()
    ensures ParseInt("+") == None && ParseInt("-") == None
  {
  }
}
