/**
  * The report timestamp: the label that introduces it in a report header and
  * a strict reading of the `%Y-%m-%d %H:%M` format used by `datetime.strptime`.
  */
module Timestamps {
  import opened Wrappers

  /** The header label after which a report states when it was produced. */
  const LastUpdateMarker: string := "Last Update :"

  datatype DateTime = DateTime(year: int, month: int, day: int, hour: int, minute: int)

  /** Proleptic Gregorian leap years, as Python's `datetime` uses them. */
  predicate IsLeapYear(y: int) {
    y % 4 == 0 && (y % 100 != 0 || y % 400 == 0)
  }

  function DaysInMonth(y: int, m: int): (d: int)
    requires 1 <= m <= 12
    ensures 28 <= d <= 31
  {
    if m == 2 then (if IsLeapYear(y) then 29 else 28)
    else if m == 4 || m == 6 || m == 9 || m == 11 then 30
    else 31
  }

  /** The values `datetime` accepts: years 1 to 9999 and real calendar days. */
  predicate Valid(t: DateTime) {
    1 <= t.year <= 9999 && 1 <= t.month <= 12 && 1 <= t.day <= DaysInMonth(t.year, t.month)
    && 0 <= t.hour < 24 && 0 <= t.minute < 60
  }

  predicate IsDigit(c: char) {
    '0' <= c <= '9'
  }

  function DigitValue(c: char): (n: nat)
    requires IsDigit(c)
    ensures n < 10
  {
    c as int - '0' as int
  }

  function DigitChar(n: nat): (c: char)
    requires n < 10
    ensures IsDigit(c) && DigitValue(c) == n
  {
    ('0' as int + n) as char
  }

  /** The shape `DDDD-DD-DD DD:DD`, D a decimal digit. */
  predicate HasShape(s: string) {
    |s| == 16
    && IsDigit(s[0]) && IsDigit(s[1]) && IsDigit(s[2]) && IsDigit(s[3]) && s[4] == '-'
    && IsDigit(s[5]) && IsDigit(s[6]) && s[7] == '-'
    && IsDigit(s[8]) && IsDigit(s[9]) && s[10] == ' '
    && IsDigit(s[11]) && IsDigit(s[12]) && s[13] == ':'
    && IsDigit(s[14]) && IsDigit(s[15])
  }

  function Number2(c1: char, c0: char): nat
    requires IsDigit(c1) && IsDigit(c0)
  {
    10 * DigitValue(c1) + DigitValue(c0)
  }

  function Number4(c3: char, c2: char, c1: char, c0: char): nat
    requires IsDigit(c3) && IsDigit(c2) && IsDigit(c1) && IsDigit(c0)
  {
    100 * Number2(c3, c2) + Number2(c1, c0)
  }

  /**
    * `datetime.strptime(s, "%Y-%m-%d %H:%M")`, read strictly: two-digit
    * fields, one space, and the range checks of `datetime` itself.
    */
  function ParseDateTime(s: string): (r: Option<DateTime>)
    ensures r.Some? ==> Valid(r.value) && |s| == 16
  {
    if !HasShape(s) then None
    else
      var t := DateTime(Number4(s[0], s[1], s[2], s[3]), Number2(s[5], s[6]),
                        Number2(s[8], s[9]), Number2(s[11], s[12]), Number2(s[14], s[15]));
      if Valid(t) then Some(t) else None
  }

  function Pad2(n: nat): (s: string)
    requires n < 100
  {
    [DigitChar(n / 10), DigitChar(n % 10)]
  }

  function Pad4(n: nat): (s: string)
    requires n < 10000
  {
    Pad2(n / 100) + Pad2(n % 100)
  }

  /** `t.strftime("%Y-%m-%d %H:%M")`. */
  function Format(t: DateTime): (s: string)
    requires Valid(t)
  {
    Pad4(t.year) + "-" + Pad2(t.month) + "-" + Pad2(t.day) + " " + Pad2(t.hour) + ":" + Pad2(t.minute)
  }

  lemma Pad2Digits(n: nat)
    requires n < 100
    ensures var s := Pad2(n); IsDigit(s[0]) && IsDigit(s[1]) && Number2(s[0], s[1]) == n
  {
  }

  lemma Pad4Digits(n: nat)
    requires n < 10000
    ensures var s := Pad4(n);
      |s| == 4 && IsDigit(s[0]) && IsDigit(s[1]) && IsDigit(s[2]) && IsDigit(s[3])
      && Number4(s[0], s[1], s[2], s[3]) == n
  {
    Pad2Digits(n / 100);
    Pad2Digits(n % 100);
  }

  /** Every valid timestamp is read back from its own text. */
  lemma ParseFormat(t: DateTime)
    requires Valid(t)
    ensures ParseDateTime(Format(t)) == Some(t)
  {
    var s := Format(t);
    Pad4Digits(t.year);
    Pad2Digits(t.month);
    Pad2Digits(t.day);
    Pad2Digits(t.hour);
    Pad2Digits(t.minute);
    assert s[0..4] == Pad4(t.year);
    assert HasShape(s);
  }

  lemma Number2Pad(c1: char, c0: char)
    requires IsDigit(c1) && IsDigit(c0)
    ensures Pad2(Number2(c1, c0)) == [c1, c0]
  {
    var n := Number2(c1, c0);
    assert n / 10 == DigitValue(c1) && n % 10 == DigitValue(c0);
  }

  /** A text that parses is exactly the formatted form of what it parses to. */
  lemma FormatParse(s: string)
    requires ParseDateTime(s).Some?
    ensures Format(ParseDateTime(s).value) == s
  {
    var t := ParseDateTime(s).value;
    Number2Pad(s[0], s[1]);
    Number2Pad(s[2], s[3]);
    Number2Pad(s[5], s[6]);
    Number2Pad(s[8], s[9]);
    Number2Pad(s[11], s[12]);
    Number2Pad(s[14], s[15]);
    var hi, lo := Number2(s[0], s[1]), Number2(s[2], s[3]);
    assert t.year / 100 == hi && t.year % 100 == lo;
    assert Pad4(t.year) == s[0..4];
    assert Format(t) == s;
  }
}
