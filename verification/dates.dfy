/** Calendar dates as chrono's `NaiveDate` presents them to the core: a
    proleptic Gregorian (year, month, day) within chrono's year range, the
    ISO "YYYY-MM-DD" text form chrono prints and parses, and the day count
    the scheduler does its arithmetic on. Timestamps are whole seconds since
    1970-01-01T00:00:00Z. */
module Dates {
  import opened Wrappers
  import opened Text

  datatype Ymd = Ymd(year: int, month: int, day: int)

  /** chrono's `NaiveDate::MIN` and `NaiveDate::MAX` years. */
  const MinYear: int := -262144
  const MaxYear: int := 262143

  const SecondsPerDay: int := 86400

  predicate IsLeapYear(y: int) {
    (y % 4 == 0 && y % 100 != 0) || y % 400 == 0
  }

  function DaysInMonth(y: int, m: int): int
    requires 1 <= m <= 12
  {
    if m == 2 then (if IsLeapYear(y) then 29 else 28)
    else if m == 4 || m == 6 || m == 9 || m == 11 then 30
    else 31
  }

  predicate IsValidDate(d: Ymd) {
    && MinYear <= d.year <= MaxYear
    && 1 <= d.month <= 12
    && 1 <= d.day <= DaysInMonth(d.year, d.month)
  }

  /** A date chrono can represent. */
  type Date = d: Ymd | IsValidDate(d) witness Ymd(1970, 1, 1)

  /** chrono's chronological order on dates. */
  predicate Before(a: Date, b: Date) {
    || a.year < b.year
    || (a.year == b.year && a.month < b.month)
    || (a.year == b.year && a.month == b.month && a.day < b.day)
  }

  /** The number of days from 1970-01-01 to `d` (negative before it), by the
      usual era/day-of-era decomposition of the Gregorian calendar with years
      starting in March. */
  function DayNumber(d: Date): int {
    var y := if d.month <= 2 then d.year - 1 else d.year;
    var era := y / 400;
    var yoe := y - era * 400;
    var mp := if d.month > 2 then d.month - 3 else d.month + 9;
    var doy := (153 * mp + 2) / 5 + d.day - 1;
    var doe := yoe * 365 + yoe / 4 - yoe / 100 + doy;
    era * 146097 + doe - 719468
  }

  /** The UTC day a timestamp falls on, as a day number (chrono's
      `date_naive()`; Dafny's `/` rounds down for a positive divisor, as a
      calendar does for instants before 1970). */
  function DayOfTimestamp(t: int): int {
    t / SecondsPerDay
  }

  // ---------------------------------------------------------------------------
  // ISO text form

  /** chrono's `Display` for `NaiveDate`: a four-digit year for years 0 to
      9999, otherwise a sign and at least four digits; then two-digit month
      and day. */
  function FormatIso(d: Date): string {
    var year := if 0 <= d.year <= 9999 then FormatInt(d.year, 4, false) else FormatInt(d.year, 5, true);
    year + "-" + FormatInt(d.month, 2, false) + "-" + FormatInt(d.day, 2, false)
  }

  /** The longest prefix of at most `max` ASCII digits, and what follows it. */
  function TakeDigits(s: string, max: nat): (r: (string, string))
    ensures r.0 + r.1 == s && AllDigits(r.0) && |r.0| <= max
    ensures |r.0| < max && r.1 != [] ==> !IsDigit(r.1[0])
  {
    if max == 0 || |s| == 0 || !IsDigit(s[0]) then ([], s)
    else
      var tail := TakeDigits(s[1..], max - 1);
      var digits := [s[0]] + tail.0;
      assert forall i :: 1 <= i < |digits| ==> digits[i] == tail.0[i - 1];
      assert digits + tail.1 == s;
      (digits, tail.1)
  }

  /** One to `max` ASCII digits at the start of `s`, taken greedily: their
      value and the text after them. */
  function ParseField(s: string, max: nat): Option<(nat, string)> {
    var (digits, rest) := TakeDigits(s, max);
    if |digits| == 0 then None else Some((DigitsValue(digits), rest))
  }

  /** chrono's year field: a sign followed by any number of digits, or one to
      four unsigned digits. */
  function ParseYear(s: string): Option<(int, string)> {
    if |s| > 0 && (s[0] == '+' || s[0] == '-') then
      match ParseField(s[1..], |s|)
      case None => None
      case Some((v, rest)) => Some((if s[0] == '-' then 0 - v as int else v as int, rest))
    else
      match ParseField(s, 4)
      case None => None
      case Some((v, rest)) => Some((v as int, rest))
  }

  /** chrono's `FromStr` for `NaiveDate`: a year, '-', a one- or two-digit
      month, '-', a one- or two-digit day, and nothing else; the fields must
      name a date chrono can represent. */
  function ParseIso(s: string): Option<Date> {
    match ParseYear(s)
    case None => None
    case Some((year, rest)) =>
      if |rest| == 0 || rest[0] != '-' then None
      else match ParseField(rest[1..], 2)
        case None => None
        case Some((month, rest)) =>
          if |rest| == 0 || rest[0] != '-' then None
          else match ParseField(rest[1..], 2)
            case None => None
            case Some((day, rest)) =>
              var ymd := Ymd(year, month, day);
              if rest == [] && IsValidDate(ymd) then Some(ymd) else None
  }

  lemma {:induction false} TakeDigitsExact(digits: string, rest: string, max: nat)
    requires AllDigits(digits) && |digits| <= max
    requires rest == [] || !IsDigit(rest[0])
    ensures TakeDigits(digits + rest, max) == (digits, rest)
  {
    if |digits| > 0 {
      assert (digits + rest)[1..] == digits[1..] + rest;
      TakeDigitsExact(digits[1..], rest, max - 1);
      assert [digits[0]] + digits[1..] == digits;
    } else {
      assert digits + rest == rest;
    }
  }

  lemma {:induction false} NatToDigitsLength(n: nat, k: nat)
    requires 1 <= k && n < Pow10(k)
    ensures |NatToDigits(n)| <= k
  {
    if n >= 10 {
      assert k >= 2;
      assert n / 10 < Pow10(k - 1);
      NatToDigitsLength(n / 10, k - 1);
      assert |NatToDigits(n)| == |NatToDigits(n / 10)| + 1;
    }
  }

  function Pow10(k: nat): nat {
    if k == 0 then 1 else 10 * Pow10(k - 1)
  }

  /** A number below 10^k, zero-padded to k digits, is exactly k digits long
      and denotes the number again. */
  lemma PaddedField(n: nat, k: nat)
    requires 1 <= k && n < Pow10(k)
    ensures var s := FormatInt(n, k, false);
      |s| == k && AllDigits(s) && DigitsValue(s) == n
  {
    FormatIntShape(n, k, false);
    NatToDigitsLength(n, k);
  }

  lemma FieldRoundTrip(n: nat, k: nat, rest: string)
    requires 1 <= k && n < Pow10(k)
    requires rest == [] || !IsDigit(rest[0])
    ensures ParseField(FormatInt(n, k, false) + rest, k) == Some((n, rest))
  {
    PaddedField(n, k);
    TakeDigitsExact(FormatInt(n, k, false), rest, k);
  }

  lemma Pow10Values()
    ensures Pow10(2) == 100 && Pow10(4) == 10000
  {
    assert Pow10(1) == 10;
    assert Pow10(3) == 1000;
  }

  lemma YearRoundTrip(d: Date, rest: string)
    requires rest != [] && rest[0] == '-'
    ensures var y := if 0 <= d.year <= 9999 then FormatInt(d.year, 4, false) else FormatInt(d.year, 5, true);
      ParseYear(y + rest) == Some((d.year, rest))
  {
    if 0 <= d.year <= 9999 {
      UnsignedYearRoundTrip(d.year, rest);
    } else {
      SignedYearRoundTrip(d.year, rest);
    }
  }

  lemma UnsignedYearRoundTrip(year: nat, rest: string)
    requires year <= 9999
    requires rest != [] && rest[0] == '-'
    ensures ParseYear(FormatInt(year, 4, false) + rest) == Some((year, rest))
  {
    var y := FormatInt(year, 4, false);
    Pow10Values();
    FieldRoundTrip(year, 4, rest);
    PaddedField(year, 4);
    var s := y + rest;
    assert s[0] == y[0];
    assert IsDigit(s[0]);
  }

  lemma SignedYearRoundTrip(year: int, rest: string)
    requires rest != [] && rest[0] == '-'
    ensures ParseYear(FormatInt(year, 5, true) + rest) == Some((year, rest))
  {
    var y := FormatInt(year, 5, true);
    FormatIntShape(year, 5, true);
    var s := y + rest;
    assert s[0] == y[0];
    assert s[1..] == y[1..] + rest;
    TakeDigitsExact(y[1..], rest, |s|);
  }

  /** Parsing the printed form of a date gives the date back. */
  lemma ParseFormatIso(d: Date)
    ensures ParseIso(FormatIso(d)) == Some(d)
  {
    var y := if 0 <= d.year <= 9999 then FormatInt(d.year, 4, false) else FormatInt(d.year, 5, true);
    var m := FormatInt(d.month, 2, false);
    var dd := FormatInt(d.day, 2, false);
    IsoParts(d, y, m, dd);
    ParseIsoFields(d, y, m, dd);
  }

  lemma IsoParts(d: Date, y: string, m: string, dd: string)
    requires y == if 0 <= d.year <= 9999 then FormatInt(d.year, 4, false) else FormatInt(d.year, 5, true)
    requires m == FormatInt(d.month, 2, false) && dd == FormatInt(d.day, 2, false)
    ensures FormatIso(d) == y + ("-" + (m + ("-" + dd)))
  {
  }

  lemma ParseIsoFields(d: Date, y: string, m: string, dd: string)
    requires y == if 0 <= d.year <= 9999 then FormatInt(d.year, 4, false) else FormatInt(d.year, 5, true)
    requires m == FormatInt(d.month, 2, false) && dd == FormatInt(d.day, 2, false)
    ensures ParseIso(y + ("-" + (m + ("-" + dd)))) == Some(d)
  {
    Pow10Values();
    YearRoundTrip(d, "-" + (m + ("-" + dd)));
    FieldRoundTrip(d.month, 2, "-" + dd);
    FieldRoundTrip(d.day, 2, []);
    assert dd + [] == dd;
    ParseIsoOfParts(y, m, dd, d);
  }

  lemma ParseIsoOfParts(y: string, m: string, dd: string, d: Date)
    requires ParseYear(y + ("-" + (m + ("-" + dd)))) == Some((d.year, "-" + (m + ("-" + dd))))
    requires ParseField(m + ("-" + dd), 2) == Some((d.month as nat, "-" + dd))
    requires ParseField(dd, 2) == Some((d.day as nat, []))
    ensures ParseIso(y + ("-" + (m + ("-" + dd)))) == Some(d)
  {
    var t2 := "-" + dd;
    var t1 := "-" + (m + t2);
    assert t1[1..] == m + t2;
    assert t2[1..] == dd;
  }
}
