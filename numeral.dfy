/** The integer reading of an option value: base-10 digits with an optional
    sign, the whole value and nothing else. */
module Numeral {

  import opened Options

  predicate IsDigit(c: char) {
    '0' <= c <= '9'
  }

  predicate AllDigits(s: string) {
    forall i :: 0 <= i < |s| ==> IsDigit(s[i])
  }

  function DigitValue(c: char): (d: nat)
    requires IsDigit(c)
    ensures d < 10
  {
    c as int - '0' as int
  }

  function DigitChar(d: nat): (c: char)
    requires d < 10
    ensures IsDigit(c) && DigitValue(c) == d
  {
    ('0' as int + d) as char
  }

  /** A numeral: an optional `+` or `-`, then at least one digit. */
  predicate IsNumeral(s: string) {
    var digits := if s != [] && (s[0] == '-' || s[0] == '+') then s[1..] else s;
    digits != [] && AllDigits(digits)
  }

  /** The value of a string of decimal digits, most significant first. */
  function ParseDigits(s: string): (r: Option<nat>)
    ensures r.Some? <==> s != [] && AllDigits(s)
    decreases |s|
  {
    if s == [] || !IsDigit(s[|s| - 1]) then None
    else if |s| == 1 then Some(DigitValue(s[0]))
    else
      match ParseDigits(s[..|s| - 1])
      case None => None
      case Some(n) => Some(10 * n + DigitValue(s[|s| - 1]))
  }

  /** The value of a numeral, or None for any other text. */
  function ParseInt(s: string): (r: Option<int>)
    ensures r.Some? <==> IsNumeral(s)
  {
    if s != [] && (s[0] == '-' || s[0] == '+') then
      match ParseDigits(s[1..])
      case None => None
      case Some(n) =>
        var v: int := if s[0] == '-' then -(n as int) else n;
        Some(v)
    else
      match ParseDigits(s)
      case None => None
      case Some(n) => Some(n)
  }

  /** The shortest decimal digits of `n`. */
  function FormatNat(n: nat): (s: string)
    ensures s != [] && AllDigits(s)
  {
    if n < 10 then [DigitChar(n)] else FormatNat(n / 10) + [DigitChar(n % 10)]
  }

  /** The numeral of `n`: a minus sign for negative values, then its digits. */
  function FormatInt(n: int): string {
    if n < 0 then "-" + FormatNat(-n) else FormatNat(n)
  }

  lemma {:induction false} ParseFormatNat(n: nat)
    ensures ParseDigits(FormatNat(n)) == Some(n)
  {
    var s := FormatNat(n);
    if n >= 10 {
      ParseFormatNat(n / 10);
      assert s[..|s| - 1] == FormatNat(n / 10);
    }
  }

  /** Reading a numeral undoes writing it, for every integer. */
  lemma ParseFormatInt(n: int)
    ensures ParseInt(FormatInt(n)) == Some(n)
  {
    if n < 0 {
      var d := FormatNat(-n);
      ParseFormatNat(-n);
      assert FormatInt(n) == "-" + d;
      assert ("-" + d)[0] == '-' && ("-" + d)[1..] == d;
    } else {
      var d := FormatNat(n);
      ParseFormatNat(n);
      assert FormatInt(n) == d;
      assert IsDigit(d[0]);
    }
  }

  function Pow10(n: nat): (p: nat)
    ensures p >= 1
  {
    if n == 0 then 1 else 10 * Pow10(n - 1)
  }

  /** Positional reading of a digit string, independent of ParseDigits:
      each digit weighted by ten to the power of the digits after it. */
  function DigitsValue(s: string): nat
    requires AllDigits(s)
    decreases |s|
  {
    if s == [] then 0
    else
      assert AllDigits(s[1..]) by {
        assert forall i :: 0 <= i < |s| - 1 ==> s[1..][i] == s[i + 1];
      }
      DigitValue(s[0]) * Pow10(|s| - 1) + DigitsValue(s[1..])
  }

  lemma Regroup(d: int, p: int, a: int, c: int)
    ensures d * (10 * p) + (10 * a + c) == 10 * (d * p + a) + c
  {
    assert d * (10 * p) == 10 * (d * p);
  }

  /** Appending a digit multiplies the positional value by ten and adds it. */
  lemma {:induction false} DigitsValueSnoc(s: string, c: char)
    requires AllDigits(s) && IsDigit(c)
    ensures AllDigits(s + [c]) && DigitsValue(s + [c]) == 10 * DigitsValue(s) + DigitValue(c)
    decreases |s|
  {
    var t := s + [c];
    assert AllDigits(t) by {
      assert forall i :: 0 <= i < |s| ==> t[i] == s[i];
      assert t[|s|] == c;
    }
    if s == [] {
      assert t == [c] && t[1..] == [];
    } else {
      var tail := s[1..];
      assert AllDigits(tail) by {
        assert forall i :: 0 <= i < |tail| ==> tail[i] == s[i + 1];
      }
      assert t[0] == s[0] && t[1..] == tail + [c];
      DigitsValueSnoc(tail, c);
      assert DigitsValue(t) == DigitValue(s[0]) * Pow10(|s|) + DigitsValue(tail + [c]);
      assert Pow10(|s|) == 10 * Pow10(|s| - 1);
      Regroup(DigitValue(s[0]), Pow10(|s| - 1), DigitsValue(tail), DigitValue(c));
    }
  }

  /** ParseDigits reads every non-empty digit string, leading zeros
      included, as its positional value. */
  lemma {:induction false} ParseDigitsValue(s: string)
    requires s != [] && AllDigits(s)
    ensures ParseDigits(s) == Some(DigitsValue(s))
    decreases |s|
  {
    if |s| == 1 {
      assert s[1..] == [];
    } else {
      var n := |s| - 1;
      var init := s[..n];
      assert AllDigits(init) by {
        assert forall i :: 0 <= i < n ==> init[i] == s[i];
      }
      ParseDigitsValue(init);
      DigitsValueSnoc(init, s[n]);
      assert init + [s[n]] == s;
    }
  }

  /** A numeral reads as the positional value of its digits: unsigned and
      after `+` as that value, after `-` as its negation. */
  lemma ParseSigned(d: string)
    requires d != [] && AllDigits(d)
    ensures ParseInt(d) == Some(DigitsValue(d))
    ensures ParseInt("+" + d) == Some(DigitsValue(d))
    ensures ParseInt("-" + d) == Some(-(DigitsValue(d) as int))
  {
    ParseDigitsValue(d);
    assert IsDigit(d[0]);
    assert ("+" + d)[0] == '+' && ("+" + d)[1..] == d;
    assert ("-" + d)[0] == '-' && ("-" + d)[1..] == d;
  }
}
