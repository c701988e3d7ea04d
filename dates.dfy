/** Calendar dates as the date step writes them: `strftime('%Y-%m-%d')`
    and the `YYYY-MM-DD` strings it produces. */
module Dates {
  import opened Wrappers
  import opened Strings

  /** A calendar date (a pandas `Timestamp` without its time of day). */
  datatype Date = Date(year: nat, month: nat, day: nat)

  /** Gregorian leap years. */
  predicate LeapYear(y: nat) {
    (y % 4 == 0 && y % 100 != 0) || y % 400 == 0
  }

  /** Length of a month in days. */
  function DaysInMonth(y: nat, m: nat): (n: nat)
    requires 1 <= m <= 12
    ensures 28 <= n <= 31
  {
    if m == 2 then (if LeapYear(y) then 29 else 28)
    else if m == 4 || m == 6 || m == 9 || m == 11 then 30
    else 31
  }

  /** A real calendar day with a four-digit year. */
  predicate ValidDate(d: Date) {
    1 <= d.year <= 9999 && 1 <= d.month <= 12 && 1 <= d.day <= DaysInMonth(d.year, d.month)
  }

  /** `strftime('%Y-%m-%d')`: year, month and day zero-padded to four, two
      and two digits, separated by dashes. */
  function Format(d: Date): (s: string)
    ensures |s| == 10 && s[4] == '-' && s[7] == '-'
  {
    PadDigits(d.year, 4) + "-" + PadDigits(d.month, 2) + "-" + PadDigits(d.day, 2)
  }

  /** Every character of `s` is a decimal digit. */
  predicate AllDigits(s: string) {
    forall c :: c in s ==> IsDigit(c)
  }

  /** Reads a `YYYY-MM-DD` string: ten characters, digits apart from the two
      dashes, naming a real calendar day. */
  function ParseIso(s: string): (r: Option<Date>)
    ensures r.Some? ==> ValidDate(r.value)
  {
    if |s| == 10 && s[4] == '-' && s[7] == '-'
       && AllDigits(s[..4]) && AllDigits(s[5..7]) && AllDigits(s[8..])
    then
      var d := Date(DigitsValue(s[..4]), DigitsValue(s[5..7]), DigitsValue(s[8..]));
      if ValidDate(d) then Some(d) else None
    else None
  }

  /** A formatted date reads back as the same date. */
  lemma ParseFormat(d: Date)
    requires ValidDate(d)
    ensures ParseIso(Format(d)) == Some(d)
  {
    var y, m, dd := PadDigits(d.year, 4), PadDigits(d.month, 2), PadDigits(d.day, 2);
    var s := Format(d);
    assert s[..4] == y && s[5..7] == m && s[8..] == dd;
    assert Pow10(4) == 10000 && Pow10(2) == 100;
    PadDigitsRoundTrip(d.year, 4);
    PadDigitsRoundTrip(d.month, 2);
    PadDigitsRoundTrip(d.day, 2);
  }

  /** A valid `YYYY-MM-DD` string is formatted back to itself. */
  lemma FormatParse(s: string)
    requires ParseIso(s).Some?
    ensures Format(ParseIso(s).value) == s
  {
    DigitsRoundTrip(s[..4]);
    DigitsRoundTrip(s[5..7]);
    DigitsRoundTrip(s[8..]);
    assert s == s[..4] + "-" + s[5..7] + "-" + s[8..];
  }
}
