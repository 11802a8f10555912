/**
  The ISO 8601 calendar-date text the picker emits (`YYYY-MM-DD`), i.e. the part
  of `toISOString()` before the `T`, taken of the calendar date itself.

  Years 0..9999 are written with four digits; other years in the expanded form
  `toISOString` uses, a sign followed by six digits (exactly six within the
  `Date` range -271821 .. 275760; the model pads wider years to at least six).
*/
module IsoFormat {
  import opened Wrappers
  import opened Calendar

  predicate IsDigit(c: char) {
    '0' <= c <= '9'
  }

  function DigitChar(k: int): (c: char)
    requires 0 <= k < 10
    ensures IsDigit(c)
  {
    (48 + k) as char
  }

  /** Decimal digits of `n`, padded with leading zeros to at least `width` characters. */
  function Decimal(n: nat, width: nat): (s: string)
    ensures |s| >= width
    ensures forall i :: 0 <= i < |s| ==> IsDigit(s[i])
    decreases n + width
  {
    if n == 0 && width == 0 then ""
    else Decimal(n / 10, if width == 0 then 0 else width - 1) + [DigitChar(n % 10)]
  }

  /** Value of a string of decimal digits. */
  function DecimalValue(s: string): int {
    if s == [] then 0
    else 10 * DecimalValue(s[..|s| - 1]) + (s[|s| - 1] as int - 48)
  }

  lemma {:induction false} DecimalRoundTrip(n: nat, width: nat)
    ensures DecimalValue(Decimal(n, width)) == n
    decreases n + width
  {
    if !(n == 0 && width == 0) {
      var w := if width == 0 then 0 else width - 1;
      var s := Decimal(n, width);
      assert s[..|s| - 1] == Decimal(n / 10, w);
      DecimalRoundTrip(n / 10, w);
    }
  }

  /** Two-digit, zero-padded: months and days of the month. */
  function Pad2(n: nat): string
    requires n < 100
  {
    [DigitChar(n / 10), DigitChar(n % 10)]
  }

  /** Four-digit, zero-padded: years 0..9999. */
  function Pad4(n: nat): string
    requires n < 10000
  {
    [DigitChar(n / 1000), DigitChar(n / 100 % 10), DigitChar(n / 10 % 10), DigitChar(n % 10)]
  }

  lemma Pad4Value(n: nat)
    requires n < 10000
    ensures DecimalValue(Pad4(n)) == n
  {
    var s := Pad4(n);
    assert s[..3] == s[..4][..3];
    assert s[..2] == s[..3][..2];
    assert s[..1] == s[..2][..1];
    assert s[..1][..0] == [];
    assert DecimalValue(s[..1]) == n / 1000;
    assert DecimalValue(s[..2]) == n / 100;
    assert DecimalValue(s[..3]) == n / 10;
  }

  /** The year as `toISOString` writes it: four digits, or a sign and six or more. */
  function YearText(y: int): string {
    if 0 <= y <= 9999 then Pad4(y)
    else if y < 0 then "-" + Decimal(-y, 6)
    else "+" + Decimal(y, 6)
  }

  /** `date.toISOString().split("T")[0]` for a date at midnight UTC. */
  function Format(d: CalendarDate): string {
    YearText(d.year) + "-" + Pad2(d.month + 1) + "-" + Pad2(d.day)
  }

  /** Formats every date of a list, keeping the order. */
  function FormatAll(ds: seq<CalendarDate>): (r: seq<string>)
    ensures |r| == |ds|
    ensures forall i :: 0 <= i < |ds| ==> r[i] == Format(ds[i])
  {
    if ds == [] then [] else [Format(ds[0])] + FormatAll(ds[1..])
  }

  function ParseYearText(p: string): Option<int> {
    if |p| == 0 then None
    else if p[0] == '-' then Some(-DecimalValue(p[1..]))
    else if p[0] == '+' then Some(DecimalValue(p[1..]))
    else Some(DecimalValue(p))
  }

  function DigitValue(c: char): int {
    c as int - 48
  }

  /** Value of the two digits at `s[i]` and `s[i + 1]`. */
  function TwoDigitValue(s: string, i: nat): int
    requires i + 1 < |s|
  {
    10 * DigitValue(s[i]) + DigitValue(s[i + 1])
  }

  /** Reads back a `YYYY-MM-DD` text (no validation beyond its shape). */
  function ParseIso(s: string): Option<Date> {
    if |s| < 7 then None
    else
      match ParseYearText(s[..|s| - 6])
      case None => None
      case Some(y) => Some(Date(y, TwoDigitValue(s, |s| - 5) - 1, TwoDigitValue(s, |s| - 2)))
  }

  lemma YearTextRoundTrip(y: int)
    ensures ParseYearText(YearText(y)) == Some(y)
  {
    var p := YearText(y);
    if 0 <= y <= 9999 {
      assert IsDigit(p[0]);
      Pad4Value(y);
    } else {
      var n := if y < 0 then -y else y;
      assert p[1..] == Decimal(n, 6);
      DecimalRoundTrip(n, 6);
    }
  }

  lemma ParseIsoSplit(yt: string, mm: string, dd: string)
    requires |yt| >= 1 && |mm| == 2 && |dd| == 2
    ensures ParseIso(yt + "-" + mm + "-" + dd)
         == match ParseYearText(yt)
            case None => None
            case Some(y) => Some(Date(y, TwoDigitValue(mm, 0) - 1, TwoDigitValue(dd, 0)))
  {
    var s := yt + "-" + mm + "-" + dd;
    assert s[..|s| - 6] == yt;
  }

  /** For years 0..9999 the text is `YYYY-MM-DD`: ten characters, dashes at 4 and 7, digits elsewhere. */
  lemma FormatShape(d: CalendarDate)
    requires 0 <= d.year <= 9999
    ensures |Format(d)| == 10 && Format(d)[4] == '-' && Format(d)[7] == '-'
    ensures forall i :: 0 <= i < 10 && i != 4 && i != 7 ==> IsDigit(Format(d)[i])
  {
  }

  /** The emitted text determines the date. */
  lemma FormatRoundTrip(d: CalendarDate)
    ensures ParseIso(Format(d)) == Some(d)
  {
    var yt, mm, dd := YearText(d.year), Pad2(d.month + 1), Pad2(d.day);
    assert |yt| >= 4;
    ParseIsoSplit(yt, mm, dd);
    YearTextRoundTrip(d.year);
  }

  lemma FormatInjective(a: CalendarDate, b: CalendarDate)
    ensures Format(a) == Format(b) <==> a == b
  {
    FormatRoundTrip(a);
    FormatRoundTrip(b);
  }

  /** The texts of the endpoints of the 2024-03-01 .. 2024-03-10 example. */
  lemma MarchTwentyTwentyFourEndsText()
    ensures Format(Date(2024, 2, 1)) == "2024-03-01" && Format(Date(2024, 2, 10)) == "2024-03-10"
  {
    assert YearText(2024) == "2024";
  }

  /** The texts of the weekends of the 2024-03-01 .. 2024-03-10 example. */
  lemma MarchTwentyTwentyFourWeekendsText()
    ensures FormatAll([Date(2024, 2, 2), Date(2024, 2, 3), Date(2024, 2, 9), Date(2024, 2, 10)])
         == ["2024-03-02", "2024-03-03", "2024-03-09", "2024-03-10"]
  {
    assert YearText(2024) == "2024";
    assert Format(Date(2024, 2, 2)) == "2024-03-02";
    assert Format(Date(2024, 2, 3)) == "2024-03-03";
    assert Format(Date(2024, 2, 9)) == "2024-03-09";
    assert Format(Date(2024, 2, 10)) == "2024-03-10";
  }
}
