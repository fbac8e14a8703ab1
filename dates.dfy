/** The year of a release date, as `DateTime.TryParseExact(text,
    "MMM-dd-yyyy", ..)` recovers it: an abbreviated English month name
    (matched without regard to case), '-', exactly two day digits, '-',
    exactly four year digits, nothing else; and the day must exist in that
    month of that (proleptic Gregorian) year, with year 1 the first. */
module Dates {
  import opened Wrappers
  import opened Text
  import opened Decimals

  /** The English abbreviated month names, January first. */
  function MonthAbbreviation(m: nat): (name: string)
    requires 1 <= m <= 12
    ensures |name| == 3
  {
    match m
    case 1 => "Jan" case 2 => "Feb" case 3 => "Mar" case 4 => "Apr"
    case 5 => "May" case 6 => "Jun" case 7 => "Jul" case 8 => "Aug"
    case 9 => "Sep" case 10 => "Oct" case 11 => "Nov" case _ => "Dec"
  }

  /** The month (1 to 12) whose abbreviation is `m` ignoring case, or 0. */
  function MonthNumber(m: string): (n: nat)
    ensures n <= 12
  {
    if |m| != 3 then 0 else MonthOfLetters(LowerChar(m[0]), LowerChar(m[1]), LowerChar(m[2]))
  }

  /** The month whose lower-case abbreviation is spelt `a`, `b`, `c`, or 0. */
  function MonthOfLetters(a: char, b: char, c: char): (n: nat)
    ensures n <= 12
  {
    match (a, b, c)
    case ('j', 'a', 'n') => 1 case ('f', 'e', 'b') => 2 case ('m', 'a', 'r') => 3
    case ('a', 'p', 'r') => 4 case ('m', 'a', 'y') => 5 case ('j', 'u', 'n') => 6
    case ('j', 'u', 'l') => 7 case ('a', 'u', 'g') => 8 case ('s', 'e', 'p') => 9
    case ('o', 'c', 't') => 10 case ('n', 'o', 'v') => 11 case ('d', 'e', 'c') => 12
    case _ => 0
  }

  predicate IsLeapYear(y: int) {
    y % 4 == 0 && (y % 100 != 0 || y % 400 == 0)
  }

  function DaysInMonth(m: nat, y: int): nat
    requires 1 <= m <= 12
  {
    if m == 2 then (if IsLeapYear(y) then 29 else 28)
    else if m == 4 || m == 6 || m == 9 || m == 11 then 30
    else 31
  }

  /** The shape "MMM-dd-yyyy" before the calendar check. */
  predicate HasDateShape(t: string) {
    |t| == 11 && t[3] == '-' && t[6] == '-' && AllDigits(t[4..6]) && AllDigits(t[7..])
  }

  /** `TryParseExact(releaseDate, "MMM-dd-yyyy", ..) ? parsed.Year : 0`;
      a missing text (`null`) does not parse. */
  function ReleaseYear(text: Option<string>): (y: int)
    ensures y == 0 || y >= 1
  {
    match text
    case None => 0
    case Some(t) =>
      if HasDateShape(t) && MonthNumber(t[..3]) != 0 then
        var m, d, y := MonthNumber(t[..3]), DigitsValue(t[4..6]), DigitsValue(t[7..]);
        if 1 <= y && 1 <= d <= DaysInMonth(m, y) then y else 0
      else 0
  }

  // ---------------------------------------------------------------------
  // Writing a date, the inverse
  // ---------------------------------------------------------------------

  function Pow10(n: nat): (p: nat)
    ensures p >= 1
  {
    if n == 0 then 1 else 10 * Pow10(n - 1)
  }

  /** `n` written with exactly `width` digits, zero-padded. */
  function FixedDigits(n: nat, width: nat): (r: string)
    requires n < Pow10(width)
    ensures |r| == width && AllDigits(r) && DigitsValue(r) == n
  {
    if width == 0 then []
    else
      var front := FixedDigits(n / 10, width - 1);
      var r := front + [DigitChar(n % 10)];
      assert r[..|r| - 1] == front;
      r
  }

  predicate IsValidDate(m: nat, d: nat, y: int) {
    1 <= m <= 12 && 1 <= y <= 9999 && 1 <= d <= DaysInMonth(m, y)
  }

  /** A month, a day and a year written in the "MMM-dd-yyyy" pattern, the
      day with two digits and the year with four. */
  function FormatDate(m: nat, d: nat, y: nat): (t: string)
    requires 1 <= m <= 12 && d < 100 && y < 10000
    ensures |t| == 11
  {
    MonthAbbreviation(m) + "-" + FixedDigits(d, 2) + "-" + FixedDigits(y, 4)
  }

  /** Each abbreviation names its own month. */
  lemma MonthNumberOfAbbreviation(m: nat)
    requires 1 <= m <= 12
    ensures MonthNumber(MonthAbbreviation(m)) == m
  {
    var name := MonthAbbreviation(m);
    assert MonthNumber(name) == MonthOfLetters(LowerChar(name[0]), LowerChar(name[1]), LowerChar(name[2]));
  }

  /** A month name is recognised through its lower-cased letters. */
  lemma MonthNumberOfLowerCase(m: string)
    ensures MonthNumber(m) == MonthNumber(ToLower(m))
  {
  }

  /** A text written in the pattern gives its year exactly when it names a
      day of the calendar, and 0 otherwise. */
  lemma ReleaseYearOfFormattedDate(m: nat, d: nat, y: nat)
    requires 1 <= m <= 12 && d < 100 && y < 10000
    ensures ReleaseYear(Some(FormatDate(m, d, y))) == if IsValidDate(m, d, y) then y else 0
  {
    var t := FormatDate(m, d, y);
    var dd, yyyy := FixedDigits(d, 2), FixedDigits(y, 4);
    assert t == MonthAbbreviation(m) + "-" + dd + "-" + yyyy;
    assert t[..3] == MonthAbbreviation(m);
    assert t[4..6] == dd;
    assert t[7..] == yyyy;
    MonthNumberOfAbbreviation(m);
  }

  /** The month is matched without regard to case: texts that differ only
      in the case of the month give the same year. */
  lemma ReleaseYearIgnoresMonthCase(t: string, u: string)
    requires |t| == |u| >= 3 && t[3..] == u[3..] && ToLower(t[..3]) == ToLower(u[..3])
    ensures ReleaseYear(Some(t)) == ReleaseYear(Some(u))
  {
    MonthNumberOfLowerCase(t[..3]);
    MonthNumberOfLowerCase(u[..3]);
    if |t| == 11 {
      assert t[3] == t[3..][0] == u[3];
      assert t[6] == t[3..][3] == u[6];
      assert t[4..6] == t[3..][1..3] == u[4..6];
      assert t[7..] == t[3..][4..] == u[7..];
    }
  }

  /** A text of the right shape, read piece by piece. */
  lemma ReleaseYearOfPieces(t: string, m: nat, d: nat, y: nat)
    requires HasDateShape(t) && 1 <= m <= 12 && MonthNumber(t[..3]) == m
    requires DigitsValue(t[4..6]) == d && DigitsValue(t[7..]) == y
    ensures ReleaseYear(Some(t)) == if 1 <= y && 1 <= d <= DaysInMonth(m, y) then y else 0
  {
  }

  /** A text of digits is its own value written with as many digits. */
  lemma {:induction false} FixedDigitsOfValue(s: string)
    requires AllDigits(s)
    ensures DigitsValue(s) < Pow10(|s|) && FixedDigits(DigitsValue(s), |s|) == s
    decreases |s|
  {
    if s != [] {
      var front, c := s[..|s| - 1], s[|s| - 1];
      assert AllDigits(front) by {
        forall k | 0 <= k < |front| ensures IsDigit(front[k]) { assert front[k] == s[k]; }
      }
      FixedDigitsOfValue(front);
      var n := DigitsValue(s);
      assert n == DigitsValue(front) * 10 + DigitValue(c);
      assert n / 10 == DigitsValue(front) && n % 10 == DigitValue(c);
      assert DigitChar(DigitValue(c)) == c;
      assert front + [c] == s;
    }
  }

  /** A recognised month name is its month's abbreviation up to case. */
  lemma MonthNameIsAbbreviation(s: string)
    requires MonthNumber(s) != 0
    ensures ToLower(s) == ToLower(MonthAbbreviation(MonthNumber(s)))
  {
    var name := MonthAbbreviation(MonthNumber(s));
    var lower := [LowerChar(s[0]), LowerChar(s[1]), LowerChar(s[2])];
    ToLowerIs(s, lower);
    ToLowerIs(name, lower);
  }

  /** The converse of `ReleaseYearOfFormattedDate`: a text that gives a
      year is a date of the calendar written in the pattern, up to the case
      of the month, and the year it gives is that date's. */
  lemma ReleaseYearIsFormattedDate(t: string)
    requires ReleaseYear(Some(t)) != 0
    ensures HasDateShape(t) && MonthNumber(t[..3]) != 0
    ensures exists m: nat, d: nat, y: nat ::
              IsValidDate(m, d, y)
              && ToLower(t[..3]) == ToLower(MonthAbbreviation(m))
              && t[3..] == FormatDate(m, d, y)[3..]
              && ReleaseYear(Some(t)) == y
  {
    assert HasDateShape(t) && MonthNumber(t[..3]) != 0;
    var m, d, y := MonthNumber(t[..3]), DigitsValue(t[4..6]), DigitsValue(t[7..]);
    assert 1 <= y && 1 <= d <= DaysInMonth(m, y);
    FixedDigitsOfValue(t[4..6]);
    FixedDigitsOfValue(t[7..]);
    assert Pow10(2) == 100 && Pow10(4) == 10000;
    MonthNameIsAbbreviation(t[..3]);
    assert IsValidDate(m, d, y);
    FormatDateTail(m, d, y);
    DateShapeTail(t);
  }

  /** A written date after its month name. */
  lemma FormatDateTail(m: nat, d: nat, y: nat)
    requires 1 <= m <= 12 && d < 100 && y < 10000
    ensures FormatDate(m, d, y)[3..] == "-" + FixedDigits(d, 2) + "-" + FixedDigits(y, 4)
  {
    var tail := "-" + FixedDigits(d, 2) + "-" + FixedDigits(y, 4);
    assert FormatDate(m, d, y) == MonthAbbreviation(m) + tail;
  }

  /** A text of the date's length after its month name, piece by piece. */
  lemma DateShapeTail(t: string)
    requires |t| == 11
    ensures t[3..] == [t[3]] + t[4..6] + [t[6]] + t[7..]
  {
  }

  lemma TwoDigitValues()
    ensures DigitsValue("05") == 5 && DigitsValue("29") == 29
  {
    assert "05"[..1] == "0" && "29"[..1] == "2";
    assert "0"[..0] == [] && "2"[..0] == [];
  }

  lemma DigitsValueSnoc(s: string, c: char)
    requires AllDigits(s) && IsDigit(c)
    ensures AllDigits(s + [c]) && DigitsValue(s + [c]) == DigitsValue(s) * 10 + DigitValue(c)
  {
    assert (s + [c])[..|s|] == s;
  }

  lemma FourDigitValue(a: char, b: char, c: char, e: char)
    requires IsDigit(a) && IsDigit(b) && IsDigit(c) && IsDigit(e)
    ensures DigitsValue([a, b, c, e])
      == ((DigitValue(a) * 10 + DigitValue(b)) * 10 + DigitValue(c)) * 10 + DigitValue(e)
  {
    DigitsValueSnoc([], a);
    assert [] + [a] == [a];
    DigitsValueSnoc([a], b);
    assert [a] + [b] == [a, b];
    DigitsValueSnoc([a, b], c);
    assert [a, b] + [c] == [a, b, c];
    DigitsValueSnoc([a, b, c], e);
    assert [a, b, c] + [e] == [a, b, c, e];
  }

  /** "Jan-05-2020" gives 2020. */
  lemma ReleaseYearExample()
    ensures ReleaseYear(Some("Jan-05-2020")) == 2020
  {
    var t := "Jan-05-2020";
    assert t[..3] == "Jan" && t[4..6] == "05" && t[7..] == ['2', '0', '2', '0'];
    TwoDigitValues();
    FourDigitValue('2', '0', '2', '0');
    assert MonthNumber("Jan") == 1;
    ReleaseYearOfPieces(t, 1, 5, 2020);
  }

  /** "JAN-05-2020" gives 2020 too. */
  lemma ReleaseYearUpperCaseExample()
    ensures ReleaseYear(Some("JAN-05-2020")) == 2020
  {
    ReleaseYearExample();
    var t, u := "JAN-05-2020", "Jan-05-2020";
    assert t[..3] == "JAN" && u[..3] == "Jan";
    assert LowerChar('J') == 'j' && LowerChar('A') == 'a' && LowerChar('N') == 'n';
    ToLowerIs("JAN", "jan");
    ToLowerIs("Jan", "jan");
    assert t[3..] == u[3..];
    ReleaseYearIgnoresMonthCase(t, u);
  }

  /** "05 Jan 2020" does not follow the pattern, and a missing text does
      not parse: both give 0. */
  lemma ReleaseYearWrongPatternExamples()
    ensures ReleaseYear(Some("05 Jan 2020")) == 0
    ensures ReleaseYear(None) == 0
  {
    assert !HasDateShape("05 Jan 2020") by { assert "05 Jan 2020"[3] != '-'; }
  }

  /** February 29th of 2019 does not exist, so its year is 0. */
  lemma ReleaseYearNoSuchDayExample()
    ensures ReleaseYear(Some("Feb-29-2019")) == 0
  {
    var t := "Feb-29-2019";
    assert t[..3] == "Feb";
    assert t[4..6] == "29";
    assert t[7..] == ['2', '0', '1', '9'];
    TwoDigitValues();
    FourDigitValue('2', '0', '1', '9');
    assert MonthNumber("Feb") == 2;
    assert DaysInMonth(2, 2019) == 28;
    ReleaseYearOfPieces(t, 2, 29, 2019);
  }
}
