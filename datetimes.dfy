/**
 * The parts of Python's `datetime` the shift parser uses: the proleptic
 * Gregorian calendar that bounds a valid date, the 12-hour to 24-hour
 * conversion `strptime` applies for `%I` with `%p`, and
 * `datetime.isoformat()` for a value without microseconds or time zone.
 */
module DateTimes {
  import opened Wrappers
  import opened Text

  /** `datetime.MINYEAR` and `datetime.MAXYEAR`. */
  const MinYear := 1
  const MaxYear := 9999

  predicate IsLeapYear(year: int) {
    year % 4 == 0 && (year % 100 != 0 || year % 400 == 0)
  }

  function DaysInMonth(year: int, month: int): (days: int)
    requires 1 <= month <= 12
    ensures 28 <= days <= 31
  {
    if month == 2 then (if IsLeapYear(year) then 29 else 28)
    else if month == 4 || month == 6 || month == 9 || month == 11 then 30
    else 31
  }

  /** What `datetime.date(year, month, day)` accepts without a ValueError. */
  predicate ValidDate(year: int, month: int, day: int) {
    MinYear <= year <= MaxYear && 1 <= month <= 12 && 1 <= day <= DaysInMonth(year, month)
  }

  /**
   * The month lengths of the Gregorian calendar: every month of a year in
   * range has 28 days, only February lacks the 30th, the 29th of February
   * exists exactly in leap years, and seven months have a 31st.
   */
  lemma MonthLengths(year: int, month: int)
    requires MinYear <= year <= MaxYear && 1 <= month <= 12
    ensures ValidDate(year, month, 28) && !ValidDate(year, month, 32) && !ValidDate(year, month, 0)
    ensures ValidDate(year, month, 29) <==> month != 2 || IsLeapYear(year)
    ensures ValidDate(year, month, 30) <==> month != 2
    ensures ValidDate(year, month, 31) <==> month in {1, 3, 5, 7, 8, 10, 12}
  {
  }

  /** A naive `datetime` with whole seconds. */
  datatype DateTime = DateTime(year: int, month: int, day: int, hour: int, minute: int, second: int)
  {
    predicate Valid() {
      ValidDate(year, month, day) && 0 <= hour < 24 && 0 <= minute < 60 && 0 <= second < 60
    }
  }

  // ---------------------------------------------------------------------
  // 12-hour clock

  /**
   * The hour `strptime` stores for `%I` read with `%p`: 12am is midnight,
   * 12pm is noon, and any other afternoon hour moves up by twelve. The
   * result is the one hour of the day that is afternoon exactly when `pm`
   * holds and that agrees with `hour12` on the twelve-hour dial.
   */
  function To24Hour(hour12: int, pm: bool): (hour: int)
    requires 1 <= hour12 <= 12
    ensures 0 <= hour < 24
    ensures hour >= 12 <==> pm
    ensures hour % 12 == hour12 % 12
  {
    if pm then (if hour12 == 12 then 12 else hour12 + 12)
    else (if hour12 == 12 then 0 else hour12)
  }

  /** The 12-hour reading of a 24-hour hour: dial position and afternoon flag. */
  function To12Hour(hour: int): (r: (int, bool))
    requires 0 <= hour < 24
    ensures 1 <= r.0 <= 12
    ensures To24Hour(r.0, r.1) == hour
  {
    var h := hour % 12;
    (if h == 0 then 12 else h, hour >= 12)
  }

  /** Each 12-hour reading names a different hour of the day. */
  lemma To24HourInjective(h1: int, pm1: bool, h2: int, pm2: bool)
    requires 1 <= h1 <= 12 && 1 <= h2 <= 12
    requires To24Hour(h1, pm1) == To24Hour(h2, pm2)
    ensures h1 == h2 && pm1 == pm2
  {
    var hour := To24Hour(h1, pm1);
    assert pm1 == pm2;
    assert h1 % 12 == h2 % 12;
  }

  // ---------------------------------------------------------------------
  // ISO 8601 extended format

  /** `datetime.isoformat()`: `YYYY-MM-DDTHH:MM:SS`, every field zero-padded. */
  function IsoFormat(dt: DateTime): (s: string)
    requires dt.Valid()
    ensures |s| == 19
    ensures s[4] == '-' && s[7] == '-' && s[10] == 'T' && s[13] == ':' && s[16] == ':'
  {
    Pad4(dt.year) + "-" + Pad2(dt.month) + "-" + Pad2(dt.day) + "T"
      + Pad2(dt.hour) + ":" + Pad2(dt.minute) + ":" + Pad2(dt.second)
  }

  predicate IsoShape(s: string) {
    |s| == 19 && s[4] == '-' && s[7] == '-' && s[10] == 'T' && s[13] == ':' && s[16] == ':'
    && AllDigits(s[0..4]) && AllDigits(s[5..7]) && AllDigits(s[8..10])
    && AllDigits(s[11..13]) && AllDigits(s[14..16]) && AllDigits(s[17..19])
  }

  /** Reads an ISO 8601 extended date-time back; the partner of `IsoFormat`. */
  function ParseIso(s: string): (r: Option<DateTime>)
    ensures r.Some? ==> r.value.Valid()
  {
    if !IsoShape(s) then None
    else
      var dt := DateTime(DecimalValue(s[0..4]), DecimalValue(s[5..7]), DecimalValue(s[8..10]),
                         DecimalValue(s[11..13]), DecimalValue(s[14..16]), DecimalValue(s[17..19]));
      if dt.Valid() then Some(dt) else None
  }

  lemma IsoFields(dt: DateTime)
    requires dt.Valid()
    ensures var s := IsoFormat(dt);
      s[0..4] == Pad4(dt.year) && s[5..7] == Pad2(dt.month) && s[8..10] == Pad2(dt.day)
      && s[11..13] == Pad2(dt.hour) && s[14..16] == Pad2(dt.minute) && s[17..19] == Pad2(dt.second)
  {
    var s := IsoFormat(dt);
    var y, mo, d, h, mi, se := Pad4(dt.year), Pad2(dt.month), Pad2(dt.day), Pad2(dt.hour), Pad2(dt.minute), Pad2(dt.second);
    assert s == y + "-" + mo + "-" + d + "T" + h + ":" + mi + ":" + se;
    assert forall i | 0 <= i < 4 :: s[i] == y[i];
    assert forall i | 0 <= i < 2 ::
      s[5 + i] == mo[i] && s[8 + i] == d[i] && s[11 + i] == h[i] && s[14 + i] == mi[i] && s[17 + i] == se[i];
  }

  /** Formatting and then reading back gives the same date-time. */
  lemma IsoRoundTrip(dt: DateTime)
    requires dt.Valid()
    ensures ParseIso(IsoFormat(dt)) == Some(dt)
  {
    IsoFields(dt);
  }

  lemma Pad2Canonical(d: string)
    requires |d| == 2 && AllDigits(d)
    ensures Pad2(DecimalValue(d)) == d
  {
    assert d[..1][..0] == [];
  }

  lemma Pad4Canonical(d: string)
    requires |d| == 4 && AllDigits(d)
    ensures Pad4(DecimalValue(d)) == d
  {
    var hi, lo := d[..2], d[2..];
    assert d == hi + lo;
    DecimalValueConcat(hi, lo);
    var n := DecimalValue(d);
    assert n == DecimalValue(hi) * 100 + DecimalValue(lo);
    assert n / 100 == DecimalValue(hi) && n % 100 == DecimalValue(lo);
    Pad2Canonical(hi);
    Pad2Canonical(lo);
  }

  /**
   * Every string `ParseIso` accepts is the one `IsoFormat` writes for the
   * value it reads, so the representation is unambiguous.
   */
  lemma IsoCanonical(s: string)
    requires ParseIso(s).Some?
    ensures IsoFormat(ParseIso(s).value) == s
  {
    var dt := ParseIso(s).value;
    IsoFields(dt);
    Pad4Canonical(s[0..4]);
    Pad2Canonical(s[5..7]);
    Pad2Canonical(s[8..10]);
    Pad2Canonical(s[11..13]);
    Pad2Canonical(s[14..16]);
    Pad2Canonical(s[17..19]);
    var t := IsoFormat(dt);
    assert forall i | 0 <= i < 19 :: t[i] == s[i] by {
      forall i | 0 <= i < 19 ensures t[i] == s[i] {
        if i < 4 { assert t[i] == t[0..4][i]; }
        else if 5 <= i < 7 { assert t[i] == t[5..7][i - 5]; }
        else if 8 <= i < 10 { assert t[i] == t[8..10][i - 8]; }
        else if 11 <= i < 13 { assert t[i] == t[11..13][i - 11]; }
        else if 14 <= i < 16 { assert t[i] == t[14..16][i - 14]; }
        else if 17 <= i < 19 { assert t[i] == t[17..19][i - 17]; }
      }
    }
  }

  /** Two formatted values share their first ten characters exactly when they share a date. */
  lemma IsoDatePrefix(a: DateTime, b: DateTime)
    requires a.Valid() && b.Valid()
    ensures IsoFormat(a)[..10] == IsoFormat(b)[..10]
        <==> a.year == b.year && a.month == b.month && a.day == b.day
  {
    IsoFields(a);
    IsoFields(b);
    var s, t := IsoFormat(a), IsoFormat(b);
    if s[..10] == t[..10] {
      assert s[0..4] == s[..10][0..4] && t[0..4] == t[..10][0..4];
      assert s[5..7] == s[..10][5..7] && t[5..7] == t[..10][5..7];
      assert s[8..10] == s[..10][8..10] && t[8..10] == t[..10][8..10];
    }
  }
}
