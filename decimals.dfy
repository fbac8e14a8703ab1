/** C#'s `decimal` as the agent uses it: an exact value written in base ten,
    produced by `decimal.TryParse` from page ids and chapter labels. A value
    is a mantissa and a scale (the number of digits after the point), which
    is what a .NET decimal keeps: "1.50" parses to mantissa 150, scale 2. */
module Decimals {
  import opened Wrappers
  import opened Text

  /** mantissa / 10^scale */
  datatype Dec = Dec(mantissa: nat, scale: nat)

  /** `0m` */
  const Zero: Dec := Dec(0, 0)

  // ---------------------------------------------------------------------
  // The text a decimal is parsed from
  // ---------------------------------------------------------------------

  /** The characters of a numeric run: a digit or the decimal point. */
  predicate IsNumericChar(c: char) {
    IsDigit(c) || c == '.'
  }

  predicate AllDigits(s: string) {
    forall k :: 0 <= k < |s| ==> IsDigit(s[k])
  }

  predicate AllNumeric(s: string) {
    forall k :: 0 <= k < |s| ==> IsNumericChar(s[k])
  }

  predicate HasDigit(s: string) {
    exists k :: 0 <= k < |s| && IsDigit(s[k])
  }

  /** Number of decimal points in `s`. */
  function DotCount(s: string): nat {
    if s == [] then 0 else (if s[0] == '.' then 1 else 0) + DotCount(s[1..])
  }

  /** The text `decimal.TryParse` accepts in this model: digits with at most
      one point (no '.' after the first one), and at least one digit. */
  predicate IsDecimalText(s: string) {
    var k := IndexOf(s, '.');
    AllNumeric(s) && HasDigit(s) && (k == |s| || '.' !in s[k + 1..])
  }

  function DigitValue(c: char): nat
    requires IsDigit(c)
  {
    c as int - '0' as int
  }

  function DigitChar(n: nat): (c: char)
    requires n < 10
    ensures IsDigit(c) && DigitValue(c) == n
  {
    ('0' as int + n) as char
  }

  /** The value of a string of decimal digits, most significant first. */
  function DigitsValue(s: string): nat
    requires AllDigits(s)
  {
    if s == [] then 0 else DigitsValue(s[..|s| - 1]) * 10 + DigitValue(s[|s| - 1])
  }

  // ---------------------------------------------------------------------
  // decimal.TryParse
  // ---------------------------------------------------------------------

  /** `decimal.TryParse(s, out d)`: `Some(d)` on success, `None` on failure.
      The digits on both sides of the point form the mantissa, and the
      digits after it give the scale. */
  function ParseDecimal(s: string): (r: Option<Dec>)
    ensures r.Some? <==> IsDecimalText(s)
  {
    if !IsDecimalText(s) then None
    else
      var k := IndexOf(s, '.');
      if k == |s| then Some(Dec(DigitsValue(s), 0))
      else
        var digits := s[..k] + s[k + 1..];
        assert AllDigits(digits) by {
          forall j | 0 <= j < |digits| ensures IsDigit(digits[j]) {
            if j < k {
              assert digits[j] == s[j];
            } else {
              assert digits[j] == s[k + 1..][j - k];
            }
          }
        }
        Some(Dec(DigitsValue(digits), |s| - k - 1))
  }

  /** What `ParseDecimal` gives for a text with a point at `k`, its first. */
  lemma ParsePointedAt(s: string, k: nat, digits: string)
    requires IsDecimalText(s) && k == IndexOf(s, '.') && k < |s|
    requires digits == s[..k] + s[k + 1..] && AllDigits(digits)
    ensures ParseDecimal(s) == Some(Dec(DigitsValue(digits), |s| - k - 1))
  {
  }

  lemma {:induction false} DotCountZero(s: string)
    ensures DotCount(s) == 0 <==> '.' !in s
  {
    if s != [] {
      DotCountZero(s[1..]);
      assert s == [s[0]] + s[1..];
    }
  }

  /** "No point after the first point" is "at most one point". */
  lemma {:induction false} AtMostOneDot(s: string)
    ensures (DotCount(s) <= 1) <==> (var k := IndexOf(s, '.'); k == |s| || '.' !in s[k + 1..])
  {
    if s != [] {
      if s[0] == '.' {
        IndexOfIs(s, '.', 0);
        DotCountZero(s[1..]);
      } else {
        var t := s[1..];
        AtMostOneDot(t);
        var k := IndexOf(t, '.');
        assert forall j :: 0 <= j < k + 1 ==> s[j] != '.' by {
          forall j | 0 < j < k + 1 ensures s[j] != '.' { assert s[j] == t[j - 1]; }
        }
        assert k < |t| ==> s[k + 1] == t[k];
        IndexOfIs(s, '.', k + 1);
        assert k < |t| ==> s[k + 2..] == t[k + 1..];
      }
    }
  }

  /** The acceptance rule in its plain form: `TryParse` succeeds exactly
      when the text holds only digits and points, at least one digit, and at
      most one point. */
  lemma ParseDecimalAccepts(s: string)
    ensures ParseDecimal(s).Some? <==> AllNumeric(s) && HasDigit(s) && DotCount(s) <= 1
  {
    AtMostOneDot(s);
  }

  // ---------------------------------------------------------------------
  // Formatting, the inverse of parsing
  // ---------------------------------------------------------------------

  /** The digits of `n` without leading zeros ("0" for zero). */
  function NatDigits(n: nat): (r: string)
    ensures |r| >= 1 && AllDigits(r) && DigitsValue(r) == n
  {
    if n < 10 then
      var r := [DigitChar(n)];
      assert r[..0] == [];
      r
    else
      var front := NatDigits(n / 10);
      var r := front + [DigitChar(n % 10)];
      assert r[..|r| - 1] == front;
      r
  }

  function Zeros(k: nat): (r: string)
    ensures |r| == k && AllDigits(r)
  {
    if k == 0 then [] else Zeros(k - 1) + ['0']
  }

  lemma {:induction false} ZerosValue(k: nat)
    ensures DigitsValue(Zeros(k)) == 0
  {
    if k > 0 {
      ZerosValue(k - 1);
      assert Zeros(k)[..k - 1] == Zeros(k - 1);
    }
  }

  /** Leading zeros do not change the value. */
  lemma {:induction false} LeadingZerosValue(k: nat, t: string)
    requires AllDigits(t)
    ensures AllDigits(Zeros(k) + t) && DigitsValue(Zeros(k) + t) == DigitsValue(t)
  {
    var s := Zeros(k) + t;
    assert AllDigits(s) by {
      forall j | 0 <= j < |s| ensures IsDigit(s[j]) {
        if j < k { assert s[j] == Zeros(k)[j]; } else { assert s[j] == t[j - k]; }
      }
    }
    if t == [] {
      assert s == Zeros(k);
      ZerosValue(k);
    } else {
      LeadingZerosValue(k, t[..|t| - 1]);
      assert s[..|s| - 1] == Zeros(k) + t[..|t| - 1];
      assert s[|s| - 1] == t[|t| - 1];
    }
  }

  /** The digits of the mantissa, zero-padded so there is at least one digit
      before the point. */
  function PaddedDigits(d: Dec): (p: string)
    ensures |p| >= d.scale + 1 && AllDigits(p) && DigitsValue(p) == d.mantissa
  {
    var digits := NatDigits(d.mantissa);
    if |digits| <= d.scale then
      LeadingZerosValue(d.scale + 1 - |digits|, digits);
      Zeros(d.scale + 1 - |digits|) + digits
    else digits
  }

  /** `d.ToString()` in invariant form: the mantissa's digits with the point
      placed `scale` digits from the right ("0.05" for mantissa 5, scale 2). */
  function Format(d: Dec): string {
    var p := PaddedDigits(d);
    if d.scale == 0 then p
    else p[..|p| - d.scale] + "." + p[|p| - d.scale..]
  }

  lemma AllDigitsHasNoDot(s: string)
    requires AllDigits(s)
    ensures '.' !in s && AllNumeric(s)
  {
  }

  lemma IndexOfAfterDigits(a: string, rest: string)
    requires AllDigits(a)
    requires rest != [] && rest[0] == '.'
    ensures IndexOf(a + rest, '.') == |a|
  {
    var s := a + rest;
    forall j | 0 <= j < |a| ensures s[j] != '.' { assert s[j] == a[j]; }
    assert s[|a|] == rest[0];
    IndexOfIs(s, '.', |a|);
  }

  /** A run of digits, read as a decimal, is that integer with scale 0. */
  lemma ParseDigits(p: string)
    requires |p| >= 1 && AllDigits(p)
    ensures ParseDecimal(p) == Some(Dec(DigitsValue(p), 0))
  {
    AllDigitsHasNoDot(p);
    IndexOfIs(p, '.', |p|);
    assert IsDigit(p[0]);
  }

  lemma AllDigitsConcat(a: string, b: string)
    requires AllDigits(a) && AllDigits(b)
    ensures AllDigits(a + b)
  {
    forall j | 0 <= j < |a + b| ensures IsDigit((a + b)[j]) {
      if j < |a| { assert (a + b)[j] == a[j]; } else { assert (a + b)[j] == b[j - |a|]; }
    }
  }

  lemma PointedAllNumeric(a: string, b: string)
    requires AllDigits(a) && AllDigits(b)
    ensures AllNumeric(a + "." + b)
  {
    var f := a + "." + b;
    forall j | 0 <= j < |f| ensures IsNumericChar(f[j]) {
      if j < |a| { assert f[j] == a[j]; }
      else if j > |a| { assert f[j] == b[j - |a| - 1]; }
    }
  }

  lemma PointedHasDigit(a: string, b: string)
    requires AllDigits(a) && AllDigits(b) && |a| + |b| >= 1
    ensures HasDigit(a + "." + b)
  {
    var f := a + "." + b;
    if |a| >= 1 {
      assert f[0] == a[0];
    } else {
      assert f[1] == b[0];
    }
  }

  lemma PointedFirstDot(a: string, b: string)
    requires AllDigits(a) && AllDigits(b)
    ensures IndexOf(a + "." + b, '.') == |a|
    ensures (a + "." + b)[|a| + 1..] == b && '.' !in b
  {
    assert a + "." + b == a + ("." + b);
    IndexOfAfterDigits(a, "." + b);
    AllDigitsHasNoDot(b);
  }

  /** Digits, a point, digits, with at least one digit, is decimal text
      whose first point is the one written. */
  lemma PointedIsDecimalText(a: string, b: string)
    requires AllDigits(a) && AllDigits(b) && |a| + |b| >= 1
    ensures IndexOf(a + "." + b, '.') == |a|
    ensures IsDecimalText(a + "." + b)
  {
    PointedAllNumeric(a, b);
    PointedHasDigit(a, b);
    PointedFirstDot(a, b);
  }

  /** Digits, a point, digits: the mantissa is all the digits, the scale
      the number written after the point. */
  lemma ParsePointed(a: string, b: string)
    requires AllDigits(a) && AllDigits(b) && |a| + |b| >= 1
    ensures AllDigits(a + b)
    ensures ParseDecimal(a + "." + b) == Some(Dec(DigitsValue(a + b), |b|))
  {
    AllDigitsConcat(a, b);
    PointedIsDecimalText(a, b);
    PointedDigits(a, b);
    ParsePointedAt(a + "." + b, |a|, a + b);
  }

  /** Dropping the point written between two strings joins them. */
  lemma PointedDigits(a: string, b: string)
    ensures var f := a + "." + b; f[..|a|] + f[|a| + 1..] == a + b
  {
    var f := a + "." + b;
    assert f[..|a|] == a;
    assert f[|a| + 1..] == b;
  }

  /** Every decimal value formats to a text that parses back to it. */
  lemma FormatRoundTrip(d: Dec)
    ensures ParseDecimal(Format(d)) == Some(d)
  {
    if d.scale == 0 {
      FormatRoundTripWhole(d);
    } else {
      FormatRoundTripPointed(d);
    }
  }

  lemma FormatRoundTripWhole(d: Dec)
    requires d.scale == 0
    ensures ParseDecimal(Format(d)) == Some(d)
  {
    var p := PaddedDigits(d);
    assert Format(d) == p;
    ParseDigits(p);
  }

  lemma FormatRoundTripPointed(d: Dec)
    requires d.scale > 0
    ensures ParseDecimal(Format(d)) == Some(d)
  {
    var p := PaddedDigits(d);
    var n := |p| - d.scale;
    AllDigitsHalves(p, n);
    ParsePointed(p[..n], p[n..]);
  }

  /** Both halves of a digit string are digit strings, and they make it up. */
  lemma AllDigitsHalves(p: string, n: nat)
    requires AllDigits(p) && n <= |p|
    ensures AllDigits(p[..n]) && AllDigits(p[n..]) && p[..n] + p[n..] == p
  {
    forall j | 0 <= j < n ensures IsDigit(p[..n][j]) { assert p[..n][j] == p[j]; }
    forall j | 0 <= j < |p| - n ensures IsDigit(p[n..][j]) { assert p[n..][j] == p[j + n]; }
  }

  // ---------------------------------------------------------------------
  // The acceptance rule on the texts it is meant for
  // ---------------------------------------------------------------------

  /** "10." parses: no digit is needed after the point, and the scale
      counts the digits written after it. */
  lemma ParseDecimalTrailingPoint()
    ensures ParseDecimal("10.") == Some(Dec(10, 0))
  {
    var s := "10.";
    IndexOfIs(s, '.', 2);
    assert IsDecimalText(s) by { assert IsDigit(s[0]); assert s[3..] == []; }
    assert s[..2] + s[3..] == "10";
    assert DigitsValue("10") == 10 by { assert "10"[..1] == "1" && "1"[..0] == []; }
    ParsePointedAt(s, 2, "10");
  }

  /** Plain digits parse with scale 0. */
  lemma ParseDecimalDigitsExample()
    ensures ParseDecimal("3") == Some(Dec(3, 0))
  {
    assert "3"[..0] == [];
    ParseDigits("3");
  }

  /** "1.50" keeps its trailing zero in the scale. */
  lemma ParseDecimalScaleExample()
    ensures ParseDecimal("1.50") == Some(Dec(150, 2))
  {
    var s := "1.50";
    IndexOfIs(s, '.', 1);
    assert s[2..] == "50";
    assert IsDecimalText(s) by { assert IsDigit(s[0]); }
    assert s[..1] + s[2..] == "150";
    assert DigitsValue("150") == 150 by { assert "150"[..2] == "15" && "15"[..1] == "1" && "1"[..0] == []; }
    ParsePointedAt(s, 1, "150");
  }

  /** ".5" parses: no digit is needed before the point. */
  lemma ParseDecimalLeadingPoint()
    ensures ParseDecimal(".5") == Some(Dec(5, 1))
  {
    LeadingPointText();
    assert DigitsValue("5") == 5 by { assert "5"[..0] == []; }
    ParsePointedAt(".5", 0, "5");
  }

  lemma LeadingPointText()
    ensures IndexOf(".5", '.') == 0
    ensures IsDecimalText(".5")
    ensures ".5"[..0] + ".5"[1..] == "5"
  {
    var s := ".5";
    IndexOfIs(s, '.', 0);
    assert s[1..] == "5";
    assert IsDigit(s[1]);
  }

  /** "." (no digit), "1.2.3" (two points), "" and "-3" (a sign) do not. */
  lemma ParseDecimalRejectsExamples()
    ensures ParseDecimal(".") == None
    ensures ParseDecimal("1.2.3") == None
    ensures ParseDecimal("") == None
    ensures ParseDecimal("-3") == None
  {
    assert !HasDigit(".");
    IndexOfIs("1.2.3", '.', 1);
    assert "1.2.3"[2..][1] == '.';
    assert !IsNumericChar("-3"[0]);
  }
}
