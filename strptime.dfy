/**
 * `datetime.strptime(data, '%m/%d %I:%M%p %Y')` in the C locale.
 *
 * CPython compiles the format into a case-insensitive regular expression:
 * every run of whitespace in the format becomes `\s+`, `%m` and `%I` become
 * `1[0-2]|0[1-9]|[1-9]`, `%d` becomes `3[01]|[12]\d|0[1-9]|[1-9]| [1-9]`,
 * `%M` becomes `[0-5]\d|\d`, `%p` becomes `am|pm` and `%Y` becomes
 * `\d\d\d\d`. The match must start at the beginning of the data and end at
 * its end. Every number directive but `%Y` is followed in the pattern by
 * something that is not a digit, so the only capture of such a number that
 * can lead to a match is the whole run of digits where it starts; the model
 * reads the data left to right on that basis. `%Y` ends the pattern: on a
 * run of more than four digits CPython matches the first four and then
 * raises "unconverted data remains", which the model reports as no match.
 * After the match, the captured date must exist in the calendar.
 */
module Strptime {
  import opened Wrappers
  import opened Text
  import opened DateTimes

  datatype Meridiem = AM | PM

  /** The groups the pattern captures, as numbers. */
  datatype Fields = Fields(month: int, day: int, hour12: int, minute: int, meridiem: Meridiem, year: int)

  /** The two ValueErrors `strptime` raises for this format. */
  datatype StrptimeError =
    | NoMatch(data: string)        // "does not match format" or "unconverted data remains"
    | DateOutOfRange(data: string) // the captured year, month and day name no calendar date

  /** A captured number and the data left after it. */
  datatype Capture = Capture(value: int, rest: string)

  datatype DateCapture = DateCapture(month: int, day: int, rest: string)
  datatype ClockCapture = ClockCapture(hour12: int, minute: int, rest: string)
  datatype TailCapture = TailCapture(meridiem: Meridiem, year: int)

  // ---------------------------------------------------------------------
  // Character runs

  /** The length of the run of digits `s` starts with. */
  function LeadingDigits(s: string): (n: nat)
    ensures n <= |s|
    ensures forall k | 0 <= k < n :: IsDigit(s[k])
    ensures n == |s| || !IsDigit(s[n])
  {
    if s != [] && IsDigit(s[0]) then 1 + LeadingDigits(s[1..]) else 0
  }

  /** The length of the run of whitespace `s` starts with. */
  function LeadingSpaces(s: string): (n: nat)
    ensures n <= |s|
    ensures forall k | 0 <= k < n :: IsSpace(s[k])
    ensures n == |s| || !IsSpace(s[n])
  {
    if s != [] && IsSpace(s[0]) then 1 + LeadingSpaces(s[1..]) else 0
  }

  /** `r` is what is left of `s` once a prefix has been consumed. */
  predicate Suffix(r: string, s: string) {
    |r| <= |s| && s[|s| - |r|..] == r
  }

  lemma SuffixTransitive(r: string, t: string, s: string)
    requires Suffix(r, t) && Suffix(t, s)
    ensures Suffix(r, s)
  {
    assert s[|s| - |r|..] == s[|s| - |t|..][|t| - |r|..];
  }

  /** ASCII lower-casing, as the case-insensitive match compares letters. */
  function Lower(c: char): char {
    if 'A' <= c <= 'Z' then (c as int - 'A' as int + 'a' as int) as char else c
  }

  // ---------------------------------------------------------------------
  // The pattern's elements; each consumes a prefix of the data

  /**
   * A number directive: between `minWidth` and `maxWidth` digits whose value
   * lies in `lo..hi`, ending where the run of digits ends.
   */
  function Number(s: string, minWidth: nat, maxWidth: nat, lo: int, hi: int): (r: Option<Capture>)
    ensures r.Some? ==> minWidth <= |s| - |r.value.rest| && Suffix(r.value.rest, s) && lo <= r.value.value <= hi
  {
    var n := LeadingDigits(s);
    assert AllDigits(s[..n]) by {
      forall k | 0 <= k < n ensures IsDigit(s[..n][k]) {
        assert s[..n][k] == s[k];
      }
    }
    if minWidth <= n <= maxWidth && lo <= DecimalValue(s[..n]) <= hi then
      Some(Capture(DecimalValue(s[..n]), s[n..]))
    else
      None
  }

  /** `%d`, whose last alternative is a space followed by one digit 1-9. */
  function Day(s: string): (r: Option<Capture>)
    ensures r.Some? ==> |r.value.rest| < |s| && Suffix(r.value.rest, s) && 1 <= r.value.value <= 31
  {
    if 2 <= |s| && s[0] == ' ' && '1' <= s[1] <= '9' then
      Some(Capture(DigitValue(s[1]), s[2..]))
    else
      Number(s, 1, 2, 1, 31)
  }

  /** The data after the literal character `c`, if it starts with one. */
  function Literal(s: string, c: char): (r: Option<string>)
    ensures r.Some? ==> s == [c] + r.value
  {
    if s != [] && s[0] == c then Some(s[1..]) else None
  }

  /** `\s+`: at least one whitespace character, as many as there are. */
  function Spaces(s: string): (r: Option<string>)
    ensures r.Some? ==> |r.value| < |s| && Suffix(r.value, s)
    ensures r.Some? ==> forall k | 0 <= k < |s| - |r.value| :: IsSpace(s[k])
    ensures r.Some? ==> r.value == [] || !IsSpace(r.value[0])
  {
    var n := LeadingSpaces(s);
    if 0 < n then Some(s[n..]) else None
  }

  /** `%p` in the C locale: `am` or `pm` in either case, at the start of `s`. */
  function MeridiemAt(s: string): (r: Option<Meridiem>)
    ensures r.Some? ==> 2 <= |s| && Lower(s[1]) == 'm'
    ensures r.Some? ==> (r.value == PM <==> Lower(s[0]) == 'p')
    ensures r.Some? ==> (r.value == AM <==> Lower(s[0]) == 'a')
  {
    if 2 <= |s| && Lower(s[1]) == 'm' then
      if Lower(s[0]) == 'a' then Some(AM)
      else if Lower(s[0]) == 'p' then Some(PM)
      else None
    else None
  }

  // ---------------------------------------------------------------------
  // The pattern, piece by piece

  /** `%m/%d` at the start of the data. */
  function DatePart(s: string): (r: Option<DateCapture>)
    ensures r.Some? ==> |r.value.rest| < |s| && Suffix(r.value.rest, s)
    ensures r.Some? ==> 1 <= r.value.month <= 12 && 1 <= r.value.day <= 31
  {
    match Number(s, 1, 2, 1, 12)
    case None => None
    case Some(month) =>
      match Literal(month.rest, '/')
      case None => None
      case Some(afterSlash) =>
        match Day(afterSlash)
        case None => None
        case Some(day) =>
          SuffixTransitive(afterSlash, month.rest, s);
          SuffixTransitive(day.rest, afterSlash, s);
          Some(DateCapture(month.value, day.value, day.rest))
  }

  /** `%I:%M` at the start of `s`. */
  function ClockPart(s: string): (r: Option<ClockCapture>)
    ensures r.Some? ==> |r.value.rest| < |s| && Suffix(r.value.rest, s)
    ensures r.Some? ==> 1 <= r.value.hour12 <= 12 && 0 <= r.value.minute <= 59
  {
    match Number(s, 1, 2, 1, 12)
    case None => None
    case Some(hour) =>
      match Literal(hour.rest, ':')
      case None => None
      case Some(afterColon) =>
        match Number(afterColon, 1, 2, 0, 59)
        case None => None
        case Some(minute) =>
          SuffixTransitive(afterColon, hour.rest, s);
          SuffixTransitive(minute.rest, afterColon, s);
          Some(ClockCapture(hour.value, minute.value, minute.rest))
  }

  /** `%p\s+%Y` at the start of `s`, which must then be used up. */
  function TailPart(s: string): (r: Option<TailCapture>)
    ensures r.Some? ==> 0 <= r.value.year <= 9999
  {
    match MeridiemAt(s)
    case None => None
    case Some(meridiem) =>
      match Spaces(s[2..])
      case None => None
      case Some(gap) =>
        match Number(gap, 4, 4, 0, 9999)
        case None => None
        case Some(year) => if year.rest == [] then Some(TailCapture(meridiem, year.value)) else None
  }

  /** The whole pattern `%m/%d\s+%I:%M%p\s+%Y`, matched against all of `s`. */
  function MatchFormat(s: string): (r: Option<Fields>)
    ensures r.Some? ==> 1 <= r.value.month <= 12 && 1 <= r.value.day <= 31
    ensures r.Some? ==> 1 <= r.value.hour12 <= 12 && 0 <= r.value.minute <= 59
    ensures r.Some? ==> 0 <= r.value.year <= 9999
    ensures r.Some? ==> DatePart(s).Some? && r.value.month == DatePart(s).value.month && r.value.day == DatePart(s).value.day
  {
    match DatePart(s)
    case None => None
    case Some(date) =>
      match Spaces(date.rest)
      case None => None
      case Some(gap) =>
        match ClockPart(gap)
        case None => None
        case Some(clock) =>
          match TailPart(clock.rest)
          case None => None
          case Some(tail) => Some(Fields(date.month, date.day, clock.hour12, clock.minute, tail.meridiem, tail.year))
  }
  /**
   * `datetime.strptime(s, '%m/%d %I:%M%p %Y')`: a valid date-time with no
   * seconds, or the ValueError it raises.
   */
  function Parse(s: string): (r: Result<DateTime, StrptimeError>)
    ensures r.Ok? ==> r.value.Valid() && r.value.second == 0
    ensures r.Ok? <==> MatchFormat(s).Some? && var f := MatchFormat(s).value; ValidDate(f.year, f.month, f.day)
    ensures r.Ok? ==> var f := MatchFormat(s).value;
      r.value.year == f.year && r.value.month == f.month && r.value.day == f.day
      && r.value.minute == f.minute && r.value.hour == To24Hour(f.hour12, f.meridiem == PM)
  {
    match MatchFormat(s)
    case None => Err(NoMatch(s))
    case Some(f) =>
      if !ValidDate(f.year, f.month, f.day) then Err(DateOutOfRange(s))
      else Ok(DateTime(f.year, f.month, f.day, To24Hour(f.hour12, f.meridiem == PM), f.minute, 0))
  }

  /** The outcome of `strptime` on data the pattern matches. */
  lemma ParseMatched(s: string, f: Fields)
    requires MatchFormat(s) == Some(f)
    ensures Parse(s) == if ValidDate(f.year, f.month, f.day)
      then Ok(DateTime(f.year, f.month, f.day, To24Hour(f.hour12, f.meridiem == PM), f.minute, 0))
      else Err(DateOutOfRange(s))
  {
  }

  /** The outcome of `strptime` on data the pattern does not match. */
  lemma ParseUnmatched(s: string)
    requires MatchFormat(s) == None
    ensures Parse(s) == Err(NoMatch(s))
  {
  }

  // ---------------------------------------------------------------------
  // The grammar the pattern accepts

  /** A numeral of the given width whose value lies in `lo..hi`. */
  predicate NumberToken(t: string, minWidth: nat, maxWidth: nat, lo: int, hi: int) {
    minWidth <= |t| <= maxWidth && AllDigits(t) && lo <= DecimalValue(t) <= hi
  }

  /** A non-empty run of whitespace. */
  predicate SpaceRun(w: string) {
    |w| >= 1 && forall i | 0 <= i < |w| :: IsSpace(w[i])
  }

  /** `am` or `pm`, in any mix of cases. */
  predicate MeridiemText(t: string, m: Meridiem) {
    |t| == 2 && Lower(t[0]) == (if m == PM then 'p' else 'a') && Lower(t[1]) == 'm'
  }

  lemma SpaceIsNotDigit(c: char)
    requires IsSpace(c)
    ensures !IsDigit(c)
  {
  }

  lemma DigitIsNotSpace(c: char)
    requires IsDigit(c)
    ensures !IsSpace(c)
  {
  }

  /** The digit run at the start of `t + rest` is `t` when `rest` does not go on with a digit. */
  lemma LeadingDigitsOf(t: string, rest: string)
    requires AllDigits(t) && (rest == [] || !IsDigit(rest[0]))
    ensures LeadingDigits(t + rest) == |t|
  {
    assert forall k | 0 <= k < |t| :: (t + rest)[k] == t[k];
    assert rest != [] ==> (t + rest)[|t|] == rest[0];
  }

  lemma LeadingSpacesOf(w: string, rest: string)
    requires SpaceRun(w) && rest != [] && !IsSpace(rest[0])
    ensures LeadingSpaces(w + rest) == |w|
  {
    assert forall k | 0 <= k < |w| :: (w + rest)[k] == w[k];
    assert (w + rest)[|w|] == rest[0];
  }

  /** A number directive reads the numeral `t` when a non-digit follows it. */
  lemma NumberThen(t: string, rest: string, minWidth: nat, maxWidth: nat, lo: int, hi: int)
    requires NumberToken(t, minWidth, maxWidth, lo, hi) && (rest == [] || !IsDigit(rest[0]))
    ensures Number(t + rest, minWidth, maxWidth, lo, hi) == Some(Capture(DecimalValue(t), rest))
  {
    LeadingDigitsOf(t, rest);
    assert (t + rest)[..|t|] == t;
    assert (t + rest)[|t|..] == rest;
  }

  /** `\s+` reads the whitespace run `w` when something else follows it. */
  lemma SpacesThen(w: string, rest: string)
    requires SpaceRun(w) && rest != [] && !IsSpace(rest[0])
    ensures Spaces(w + rest) == Some(rest)
  {
    LeadingSpacesOf(w, rest);
    assert (w + rest)[|w|..] == rest;
  }

  /** `%m/%d` matches once the month, the slash and the day have matched in turn. */
  lemma DatePartSteps(s: string, month: Capture, afterSlash: string, day: Capture)
    requires Number(s, 1, 2, 1, 12) == Some(month) && Literal(month.rest, '/') == Some(afterSlash)
    requires Day(afterSlash) == Some(day)
    ensures DatePart(s) == Some(DateCapture(month.value, day.value, day.rest))
  {
  }

  /** `%d` reads the numeral `dS` when whitespace follows. */
  lemma DayThen(dS: string, rest: string)
    requires NumberToken(dS, 1, 2, 1, 31) && rest != [] && IsSpace(rest[0])
    ensures Day(dS + rest) == Some(Capture(DecimalValue(dS), rest))
  {
    assert (dS + rest)[0] == dS[0] && IsDigit(dS[0]);
    SpaceIsNotDigit(rest[0]);
    NumberThen(dS, rest, 1, 2, 1, 31);
  }

  /** `%m/%d` reads `mS/dS` when whitespace follows. */
  lemma DatePartThen(mS: string, dS: string, rest: string)
    requires NumberToken(mS, 1, 2, 1, 12) && NumberToken(dS, 1, 2, 1, 31)
    requires rest != [] && IsSpace(rest[0])
    ensures DatePart(mS + ("/" + (dS + rest))) == Some(DateCapture(DecimalValue(mS), DecimalValue(dS), rest))
  {
    var afterMonth := "/" + (dS + rest);
    NumberThen(mS, afterMonth, 1, 2, 1, 12);
    assert afterMonth[1..] == dS + rest;
    DayThen(dS, rest);
    DatePartSteps(mS + afterMonth, Capture(DecimalValue(mS), afterMonth), dS + rest, Capture(DecimalValue(dS), rest));
  }

  /** `%I:%M` reads `hS:miS` when a non-digit follows. */
  lemma ClockPartThen(hS: string, miS: string, rest: string)
    requires NumberToken(hS, 1, 2, 1, 12) && NumberToken(miS, 1, 2, 0, 59)
    requires rest != [] && !IsDigit(rest[0])
    ensures ClockPart(hS + (":" + (miS + rest))) == Some(ClockCapture(DecimalValue(hS), DecimalValue(miS), rest))
  {
    NumberThen(hS, ":" + (miS + rest), 1, 2, 1, 12);
    assert (":" + (miS + rest))[1..] == miS + rest;
    NumberThen(miS, rest, 1, 2, 0, 59);
  }

  /** `%p\s+%Y` reads `ap`, a whitespace run and four digits that end the data. */
  lemma TailPartOf(ap: string, m: Meridiem, w2: string, yS: string)
    requires MeridiemText(ap, m) && SpaceRun(w2) && |yS| == 4 && AllDigits(yS)
    ensures TailPart(ap + (w2 + yS)) == Some(TailCapture(m, DecimalValue(yS)))
  {
    var s := ap + (w2 + yS);
    assert s[0] == ap[0] && s[1] == ap[1];
    assert s[2..] == w2 + yS;
    assert IsDigit(yS[0]);
    SpacesThen(w2, yS);
    assert yS + [] == yS;
    NumberThen(yS, [], 4, 4, 0, 9999);
  }

  /** The pattern matches once its three pieces and the gap between them do. */
  lemma MatchFromParts(s: string, date: DateCapture, gap: string, clock: ClockCapture, tail: TailCapture)
    requires DatePart(s) == Some(date) && Spaces(date.rest) == Some(gap)
    requires ClockPart(gap) == Some(clock) && TailPart(clock.rest) == Some(tail)
    ensures MatchFormat(s) == Some(Fields(date.month, date.day, clock.hour12, clock.minute, tail.meridiem, tail.year))
  {
  }

  /** What follows `%m/%d` in a string of the grammar: the gap, `%I:%M` and `%p\s+%Y`. */
  lemma AfterDateThen(w1: string, hS: string, miS: string, ap: string, m: Meridiem, w2: string, yS: string)
    requires SpaceRun(w1) && NumberToken(hS, 1, 2, 1, 12) && NumberToken(miS, 1, 2, 0, 59)
    requires MeridiemText(ap, m) && SpaceRun(w2) && |yS| == 4 && AllDigits(yS)
    ensures var clock := hS + (":" + (miS + (ap + (w2 + yS))));
      w1 + clock != [] && IsSpace((w1 + clock)[0]) && Spaces(w1 + clock) == Some(clock)
      && ClockPart(clock) == Some(ClockCapture(DecimalValue(hS), DecimalValue(miS), ap + (w2 + yS)))
      && TailPart(ap + (w2 + yS)) == Some(TailCapture(m, DecimalValue(yS)))
  {
    var tail := ap + (w2 + yS);
    var clock := hS + (":" + (miS + tail));
    assert IsDigit(hS[0]);
    SpacesThen(w1, clock);
    assert !IsDigit(tail[0]);
    ClockPartThen(hS, miS, tail);
    TailPartOf(ap, m, w2, yS);
  }

  /** The pattern matches once `%m/%d` has matched and the grammar's remainder follows. */
  lemma MatchWithDate(s: string, month: int, day: int, w1: string, hS: string, miS: string,
                      ap: string, m: Meridiem, w2: string, yS: string)
    requires SpaceRun(w1) && NumberToken(hS, 1, 2, 1, 12) && NumberToken(miS, 1, 2, 0, 59)
    requires MeridiemText(ap, m) && SpaceRun(w2) && |yS| == 4 && AllDigits(yS)
    requires DatePart(s) == Some(DateCapture(month, day, w1 + (hS + (":" + (miS + (ap + (w2 + yS)))))))
    ensures MatchFormat(s) == Some(Fields(month, day, DecimalValue(hS), DecimalValue(miS), m, DecimalValue(yS)))
  {
    var tail := ap + (w2 + yS);
    var clock := hS + (":" + (miS + tail));
    AfterDateThen(w1, hS, miS, ap, m, w2, yS);
    MatchFromParts(s, DateCapture(month, day, w1 + clock), clock,
                   ClockCapture(DecimalValue(hS), DecimalValue(miS), tail), TailCapture(m, DecimalValue(yS)));
  }

  /**
   * Every string of the pattern's grammar is matched, and the match
   * captures the values its numerals spell. The day is either alternative
   * of `%d`: a numeral 1-31, or a space and a digit 1-9.
   */
  lemma MatchComplete(mS: string, day: string, d: int, w1: string, hS: string, miS: string,
                      ap: string, m: Meridiem, w2: string, yS: string)
    requires NumberToken(mS, 1, 2, 1, 12) && DayToken(day, d) && SpaceRun(w1)
    requires NumberToken(hS, 1, 2, 1, 12) && NumberToken(miS, 1, 2, 0, 59)
    requires MeridiemText(ap, m) && SpaceRun(w2) && |yS| == 4 && AllDigits(yS)
    ensures MatchFormat(mS + ("/" + (day + (w1 + (hS + (":" + (miS + (ap + (w2 + yS)))))))))
         == Some(Fields(DecimalValue(mS), d, DecimalValue(hS), DecimalValue(miS), m, DecimalValue(yS)))
  {
    if NumberToken(day, 1, 2, 1, 31) && d == DecimalValue(day) {
      MatchNumeralDay(mS, day, w1, hS, miS, ap, m, w2, yS);
    } else {
      var clock := hS + (":" + (miS + (ap + (w2 + yS))));
      assert day == [' ', day[1]];
      DatePartSpaceDay(mS, day[1], w1 + clock);
      MatchWithDate(mS + ("/" + (day + (w1 + clock))), DecimalValue(mS), d, w1, hS, miS, ap, m, w2, yS);
    }
  }

  /** `MatchComplete` for a day written as a numeral. */
  lemma MatchNumeralDay(mS: string, dS: string, w1: string, hS: string, miS: string,
                        ap: string, m: Meridiem, w2: string, yS: string)
    requires NumberToken(mS, 1, 2, 1, 12) && NumberToken(dS, 1, 2, 1, 31) && SpaceRun(w1)
    requires NumberToken(hS, 1, 2, 1, 12) && NumberToken(miS, 1, 2, 0, 59)
    requires MeridiemText(ap, m) && SpaceRun(w2) && |yS| == 4 && AllDigits(yS)
    ensures MatchFormat(mS + ("/" + (dS + (w1 + (hS + (":" + (miS + (ap + (w2 + yS)))))))))
         == Some(Fields(DecimalValue(mS), DecimalValue(dS), DecimalValue(hS), DecimalValue(miS), m, DecimalValue(yS)))
  {
    var clock := hS + (":" + (miS + (ap + (w2 + yS))));
    DatePartGap(mS, dS, w1, clock);
    MatchWithDate(mS + ("/" + (dS + (w1 + clock))), DecimalValue(mS), DecimalValue(dS), w1, hS, miS, ap, m, w2, yS);
  }

  /**
   * `%d`'s alternative ` [1-9]`: right after the slash, a space and a
   * digit 1-9 are read as the day.
   */
  lemma DatePartSpaceDay(mS: string, c: char, rest: string)
    requires NumberToken(mS, 1, 2, 1, 12) && '1' <= c <= '9'
    ensures DatePart(mS + ("/" + ([' ', c] + rest))) == Some(DateCapture(DecimalValue(mS), DigitValue(c), rest))
  {
    NumberThen(mS, "/" + ([' ', c] + rest), 1, 2, 1, 12);
    assert ("/" + ([' ', c] + rest))[1..] == [' ', c] + rest;
    assert ([' ', c] + rest)[2..] == rest;
  }

  /** A numeral outside a number directive's widths or range is refused. */
  lemma NumberRejects(t: string, rest: string, minWidth: nat, maxWidth: nat, lo: int, hi: int)
    requires AllDigits(t) && !NumberToken(t, minWidth, maxWidth, lo, hi) && (rest == [] || !IsDigit(rest[0]))
    ensures Number(t + rest, minWidth, maxWidth, lo, hi) == None
  {
    LeadingDigitsOf(t, rest);
    assert (t + rest)[..|t|] == t;
  }

  /** A month numeral outside 1-12 (or of more than two digits) makes the match fail. */
  lemma MonthRejected(mS: string, rest: string)
    requires AllDigits(mS) && !NumberToken(mS, 1, 2, 1, 12) && (rest == [] || !IsDigit(rest[0]))
    ensures MatchFormat(mS + rest) == None
  {
    NumberRejects(mS, rest, 1, 2, 1, 12);
  }

  /** After `%m/%d` and whitespace, data that `%I:%M` refuses makes the match fail. */
  lemma MatchWithoutClock(s: string, w1: string, clock: string)
    requires DatePart(s).Some? && DatePart(s).value.rest == w1 + clock
    requires SpaceRun(w1) && clock != [] && !IsSpace(clock[0]) && ClockPart(clock) == None
    ensures MatchFormat(s) == None
  {
    SpacesThen(w1, clock);
  }

  /** An hour numeral outside 1-12 makes the match fail. */
  lemma HourRejected(mS: string, dS: string, w1: string, hS: string, rest: string)
    requires NumberToken(mS, 1, 2, 1, 12) && NumberToken(dS, 1, 2, 1, 31) && SpaceRun(w1)
    requires AllDigits(hS) && !NumberToken(hS, 1, 2, 1, 12) && (rest == [] || !IsDigit(rest[0]))
    requires hS != []
    ensures MatchFormat(mS + ("/" + (dS + (w1 + (hS + rest))))) == None
  {
    assert IsDigit(hS[0]) && (hS + rest)[0] == hS[0];
    ClockRejectsHour(hS, rest);
    MatchRejectsClock(mS, dS, w1, hS + rest);
  }

  /** After `%m/%d` and whitespace, a clock token starting with a digit that `%I:%M` refuses makes the match fail. */
  lemma MatchRejectsClock(mS: string, dS: string, w1: string, clock: string)
    requires NumberToken(mS, 1, 2, 1, 12) && NumberToken(dS, 1, 2, 1, 31) && SpaceRun(w1)
    requires clock != [] && IsDigit(clock[0]) && ClockPart(clock) == None
    ensures MatchFormat(mS + ("/" + (dS + (w1 + clock)))) == None
  {
    DatePartGap(mS, dS, w1, clock);
    DigitIsNotSpace(clock[0]);
    MatchWithoutClock(mS + ("/" + (dS + (w1 + clock))), w1, clock);
  }

  /** `%m/%d` reads `mS/dS` when a whitespace run follows. */
  lemma DatePartGap(mS: string, dS: string, w1: string, clock: string)
    requires NumberToken(mS, 1, 2, 1, 12) && NumberToken(dS, 1, 2, 1, 31) && SpaceRun(w1)
    ensures DatePart(mS + ("/" + (dS + (w1 + clock)))) == Some(DateCapture(DecimalValue(mS), DecimalValue(dS), w1 + clock))
  {
    assert (w1 + clock)[0] == w1[0];
    DatePartThen(mS, dS, w1 + clock);
  }

  /** `%I:%M` refuses an hour numeral outside 1-12. */
  lemma ClockRejectsHour(hS: string, rest: string)
    requires AllDigits(hS) && !NumberToken(hS, 1, 2, 1, 12) && (rest == [] || !IsDigit(rest[0]))
    ensures ClockPart(hS + rest) == None
  {
    NumberRejects(hS, rest, 1, 2, 1, 12);
  }

  /** `%I:%M` refuses a minute numeral outside 0-59. */
  lemma ClockRejects(hS: string, miS: string, rest: string)
    requires NumberToken(hS, 1, 2, 1, 12)
    requires AllDigits(miS) && !NumberToken(miS, 1, 2, 0, 59) && (rest == [] || !IsDigit(rest[0]))
    ensures ClockPart(hS + (":" + (miS + rest))) == None
  {
    NumberThen(hS, ":" + (miS + rest), 1, 2, 1, 12);
    assert (":" + (miS + rest))[1..] == miS + rest;
    NumberRejects(miS, rest, 1, 2, 0, 59);
  }

  /** A minute numeral outside 0-59 makes the match fail. */
  lemma MinuteRejected(mS: string, dS: string, w1: string, hS: string, miS: string, rest: string)
    requires NumberToken(mS, 1, 2, 1, 12) && NumberToken(dS, 1, 2, 1, 31) && SpaceRun(w1)
    requires NumberToken(hS, 1, 2, 1, 12)
    requires AllDigits(miS) && !NumberToken(miS, 1, 2, 0, 59) && (rest == [] || !IsDigit(rest[0]))
    ensures MatchFormat(mS + ("/" + (dS + (w1 + (hS + (":" + (miS + rest))))))) == None
  {
    var clock := hS + (":" + (miS + rest));
    assert IsDigit(hS[0]) && clock[0] == hS[0];
    ClockRejects(hS, miS, rest);
    MatchRejectsClock(mS, dS, w1, clock);
  }

  /** A run of digits that stops inside `t` is not lengthened by what follows `t`. */
  lemma LeadingDigitsPrefix(t: string, x: string)
    requires t != [] && !IsDigit(t[|t| - 1])
    ensures LeadingDigits(t) < |t|
    ensures LeadingDigits(t + x) == LeadingDigits(t)
  {
    assert forall k | 0 <= k < |t| :: (t + x)[k] == t[k];
  }

  /**
   * The month `%m/%d` reads depends only on data that ends with something
   * other than a digit: appending to it keeps the month numeral read.
   */
  lemma DateMonth(t: string, x: string, s: string)
    requires t != [] && !IsDigit(t[|t| - 1]) && s == t + x && DatePart(s).Some?
    ensures Number(t, 1, 2, 1, 12).Some?
    ensures DatePart(s).value.month == Number(t, 1, 2, 1, 12).value.value
  {
    NumberFrame(t, x, 1, 2, 1, 12);
    DatePartMonth(s);
  }

  /** The month of data `strptime` accepts is the one `%m/%d` reads. */
  lemma ParsedMonth(s: string)
    requires Parse(s).Ok?
    ensures DatePart(s).Some? && Parse(s).value.month == DatePart(s).value.month
  {
  }

  /** A match of `%m/%d` reads its month with the month directive. */
  lemma DatePartMonth(s: string)
    requires DatePart(s).Some?
    ensures Number(s, 1, 2, 1, 12).Some? && DatePart(s).value.month == Number(s, 1, 2, 1, 12).value.value
  {
  }

  /** A capture with `x` appended to the data it leaves. */
  function Extend(o: Option<Capture>, x: string): (r: Option<Capture>)
    ensures r.Some? <==> o.Some?
    ensures r.Some? ==> r.value.value == o.value.value && r.value.rest == o.value.rest + x
  {
    match o
    case None => None
    case Some(c) => Some(Capture(c.value, c.rest + x))
  }

  /** A number directive whose digits stop inside `t` reads the same whatever follows `t`. */
  lemma NumberFrame(t: string, x: string, minWidth: nat, maxWidth: nat, lo: int, hi: int)
    requires t != [] && !IsDigit(t[|t| - 1])
    ensures Number(t, minWidth, maxWidth, lo, hi).Some? ==> Number(t, minWidth, maxWidth, lo, hi).value.rest != []
    ensures Number(t + x, minWidth, maxWidth, lo, hi) == Extend(Number(t, minWidth, maxWidth, lo, hi), x)
  {
    var n := LeadingDigits(t);
    LeadingDigitsPrefix(t, x);
    assert (t + x)[..n] == t[..n];
    assert (t + x)[n..] == t[n..] + x;
  }

  /** `r` does not end with a digit, and a slash that starts it is followed by something other than a space. */
  predicate SlashDayClosed(r: string) {
    r != [] && !IsDigit(r[|r| - 1]) && (r[0] == '/' ==> |r| >= 2 && r[1] != ' ')
  }

  /** The `/%d` step of `%m/%d`, after the month. */
  function SlashDay(r: string): Option<Capture> {
    match Literal(r, '/')
    case None => None
    case Some(afterSlash) => Day(afterSlash)
  }

  /** `%m/%d` once the month has matched: the `/%d` step decides. */
  lemma DatePartAfterMonth(s: string, month: Capture)
    requires Number(s, 1, 2, 1, 12) == Some(month)
    ensures DatePart(s).Some? <==> SlashDay(month.rest).Some?
    ensures DatePart(s).Some? ==>
      DatePart(s).value.month == month.value && DatePart(s).value.day == SlashDay(month.rest).value.value
  {
  }

  /** `%m/%d` fails when the month does. */
  lemma DatePartNoMonth(s: string)
    requires Number(s, 1, 2, 1, 12) == None
    ensures DatePart(s) == None
  {
  }

  /** The `/%d` step reads the same whatever follows `r`, when `r` is closed in that sense. */
  lemma SlashDayFrame(r: string, x: string)
    requires SlashDayClosed(r)
    ensures SlashDay(r + x) == Extend(SlashDay(r), x)
  {
    assert (r + x)[0] == r[0];
    if r[0] == '/' {
      var a := r[1..];
      assert a[|a| - 1] == r[|r| - 1];
      assert (r + x)[1..] == a + x;
      assert (a + x)[0] == a[0];
      NumberFrame(a, x, 1, 2, 1, 31);
    }
  }

  /** `%m/%d` reads the same from `t` and `t + x` when the month's digits stop inside `t` and leave it closed. */
  lemma DatePartExtend(t: string, x: string)
    requires t != [] && !IsDigit(t[|t| - 1])
    requires Number(t, 1, 2, 1, 12).Some? ==> SlashDayClosed(Number(t, 1, 2, 1, 12).value.rest)
    ensures DatePart(t + x).Some? <==> DatePart(t).Some?
    ensures DatePart(t).Some? ==>
      DatePart(t + x).value.month == DatePart(t).value.month && DatePart(t + x).value.day == DatePart(t).value.day
  {
    NumberFrame(t, x, 1, 2, 1, 12);
    match Number(t, 1, 2, 1, 12)
    case None =>
      DatePartNoMonth(t);
      DatePartNoMonth(t + x);
    case Some(month) =>
      SlashDayFrame(month.rest, x);
      DatePartAfterMonth(t, month);
      DatePartAfterMonth(t + x, Capture(month.value, month.rest + x));
  }

  /**
   * When the date token holds no space and does not end with `/`, `%m/%d`
   * reads it alone: what follows the space after it changes nothing.
   */
  lemma DatePartFrame(date: string, x: string)
    requires ' ' !in date && (date == [] || date[|date| - 1] != '/')
    ensures DatePart(date + (" " + x)).Some? <==> DatePart(date + " ").Some?
    ensures DatePart(date + " ").Some? ==>
      DatePart(date + (" " + x)).value.month == DatePart(date + " ").value.month
      && DatePart(date + (" " + x)).value.day == DatePart(date + " ").value.day
  {
    var t := date + " ";
    assert t[|t| - 1] == ' ';
    NumberFrame(t, [], 1, 2, 1, 12);
    if Number(t, 1, 2, 1, 12).Some? {
      AfterMonth(date, Number(t, 1, 2, 1, 12).value.rest);
    }
    DatePartExtend(t, x);
    assert date + (" " + x) == t + x;
  }

  /** What is left of the date token and its space after the month's digits. */
  lemma AfterMonth(date: string, r: string)
    requires ' ' !in date && (date == [] || date[|date| - 1] != '/')
    requires Suffix(r, date + " ") && r != []
    ensures r[|r| - 1] == ' '
    ensures r[0] == '/' ==> |r| >= 3 && r[1] != ' '
  {
    var t := date + " ";
    var k := |t| - |r|;
    assert t[k..] == r;
    assert r[|r| - 1] == t[k..][|r| - 1] == t[|t| - 1];
    assert r[0] == t[k..][0] == t[k];
    if r[0] == '/' {
      assert k + 1 < |date|;
      assert r[1] == t[k..][1] == t[k + 1] == date[k + 1];
    }
  }

  /** Any match ends with a `%p\s+%Y` piece that carries the match's meridiem and year. */
  lemma MatchTail(s: string) returns (u: string)
    requires MatchFormat(s).Some?
    ensures Suffix(u, s)
    ensures TailPart(u) == Some(TailCapture(MatchFormat(s).value.meridiem, MatchFormat(s).value.year))
  {
    var date := DatePart(s).value;
    var gap := Spaces(date.rest).value;
    var clock := ClockPart(gap).value;
    u := clock.rest;
    SuffixTransitive(gap, date.rest, s);
    SuffixTransitive(u, gap, s);
  }

  /**
   * Data that `strptime` accepts ends with a `%p\s+%Y` piece carrying the
   * year of the result and whether its hour is in the afternoon.
   */
  lemma ParsedTail(s: string) returns (u: string)
    requires Parse(s).Ok?
    ensures Suffix(u, s) && TailPart(u).Some?
    ensures TailPart(u).value.year == Parse(s).value.year
    ensures TailPart(u).value.meridiem == PM <==> Parse(s).value.hour >= 12
  {
    u := MatchTail(s);
  }

  /** Of two suffixes of the same string, the shorter is a suffix of the longer. */
  lemma SuffixOfSuffix(r: string, t: string, s: string)
    requires Suffix(r, s) && Suffix(t, s) && |r| <= |t|
    ensures Suffix(r, t)
  {
    assert t[|t| - |r|..] == s[|s| - |t|..][|t| - |r|..];
  }

  /** The shape of a `%p\s+%Y` piece that uses up its data: `am` or `pm`, whitespace, four digits. */
  predicate TailForm(u: string) {
    |u| >= 7 && Lower(u[1]) == 'm' && (Lower(u[0]) == 'a' || Lower(u[0]) == 'p')
    && (forall k | 2 <= k < |u| - 4 :: IsSpace(u[k]))
    && (forall k | |u| - 4 <= k < |u| :: IsDigit(u[k]))
  }

  /** What a `%p\s+%Y` piece that uses up its data looks like. */
  lemma TailPartShape(u: string)
    requires TailPart(u).Some?
    ensures TailForm(u)
    ensures TailPart(u).value.year == DecimalValue(u[|u| - 4..])
    ensures TailPart(u).value.meridiem == PM <==> Lower(u[0]) == 'p'
  {
    var gap := Spaces(u[2..]).value;
    var year := Number(gap, 4, 4, 0, 9999).value;
    assert |gap| == 4 && AllDigits(gap) && year.value == DecimalValue(gap) by {
      assert gap[..|gap|] == gap;
    }
    var n := |u| - 6;
    assert u[2..][n..] == gap == u[|u| - 4..];
    forall k | 2 <= k < 2 + n ensures IsSpace(u[k]) {
      assert u[2..][k - 2] == u[k];
    }
    forall k | 2 + n <= k < |u| ensures IsDigit(u[k]) {
      assert u[k] == gap[k - 2 - n];
    }
  }

  /** A piece of that shape that ends with `m`, one space and digits `y`. */
  lemma TailEndsWith(u: string, y: string)
    requires AllDigits(y) && TailForm(u) && Suffix("m " + y, u)
    ensures |u| == 7 && |y| == 4 && u[1..] == "m " + y
  {
    var t := "m " + y;
    var j := |u| - |t|;
    assert u[j..] == t;
    assert u[j] == 'm' && u[j + 1] == ' ';
    assert forall k | j + 2 <= k < |u| :: u[k] == u[j..][k - j] == y[k - j - 2];
    if j + 1 >= |u| - 4 {
      assert false;
    }
    if j < |u| - 6 {
      assert IsSpace(u[j + 2]) && IsDigit(u[j + 2]);
      SpaceIsNotDigit(u[j + 2]);
      assert false;
    }
    if |u| > 7 {
      assert false;
    }
    assert u[1..] == u[j..];
  }

  /**
   * When the data ends with `m`, one space and a run of digits `y`, the
   * `%p\s+%Y` piece that ends it is the character before that `m`, the `m`,
   * the space and `y`, and `y` has exactly four digits.
   */
  lemma TailShape(u: string, p: string, y: string)
    requires AllDigits(y) && Suffix(u, p + ("m " + y)) && TailPart(u).Some?
    ensures |y| == 4 && TailPart(u).value.year == DecimalValue(y)
    ensures p != [] && u == [p[|p| - 1]] + ("m " + y)
    ensures Lower(p[|p| - 1]) == 'a' || Lower(p[|p| - 1]) == 'p'
    ensures TailPart(u).value.meridiem == PM <==> Lower(p[|p| - 1]) == 'p'
  {
    TailPartShape(u);
    TailFormAt(u, p, y);
  }

  /** The same for any piece of the right shape. */
  lemma TailFormAt(u: string, p: string, y: string)
    requires AllDigits(y) && Suffix(u, p + ("m " + y)) && TailForm(u)
    ensures |y| == 4 && p != [] && u == [p[|p| - 1]] + ("m " + y)
    ensures u[0] == p[|p| - 1] && u[|u| - 4..] == y
  {
    var t := "m " + y;
    assert Suffix(t, p + t);
    TailLonger(u, p, y);
    SuffixOfSuffix(t, u, p + t);
    TailEndsWith(u, y);
    SuffixSplit(u, p, t);
    assert u[|u| - 4..] == y;
  }

  /** A suffix of `p + t` one longer than `t` is the last character of `p` followed by `t`. */
  lemma SuffixSplit(u: string, p: string, t: string)
    requires Suffix(u, p + t) && |u| == |t| + 1
    ensures p != [] && u == [p[|p| - 1]] + t
  {
    assert (p + t)[|p + t| - |u|..] == u;
    assert u[0] == (p + t)[|p| - 1] == p[|p| - 1];
    assert u == [u[0]] + u[1..];
    assert u[1..] == (p + t)[|p| ..] == t;
  }

  /** A piece of that shape at the end of such data reaches back past the `m`. */
  lemma TailLonger(u: string, p: string, y: string)
    requires AllDigits(y) && Suffix(u, p + ("m " + y)) && TailForm(u)
    ensures |u| > |"m " + y|
  {
    var t := "m " + y;
    if |u| <= |t| {
      assert Suffix(t, p + t);
      SuffixOfSuffix(u, t, p + t);
      SuffixHead(u, y);
      assert false;
    }
  }

  /** No suffix of `m`, one space and a run of digits starts with the first letter of `am` or `pm`. */
  lemma SuffixHead(u: string, y: string)
    requires AllDigits(y) && Suffix(u, "m " + y) && u != []
    ensures Lower(u[0]) != 'a' && Lower(u[0]) != 'p'
  {
    var t := "m " + y;
    assert forall k | 2 <= k < |t| :: t[k] == y[k - 2];
    assert u[0] == t[|t| - |u|];
  }

  // ---------------------------------------------------------------------
  // Everything the pattern matches is of its grammar

  /** What `%d` may consume: a numeral 1-31, or a space and one digit 1-9. */
  predicate DayToken(t: string, day: int) {
    (NumberToken(t, 1, 2, 1, 31) && day == DecimalValue(t))
    || (|t| == 2 && t[0] == ' ' && '1' <= t[1] <= '9' && day == DigitValue(t[1]))
  }

  /** A number directive that matched consumed a numeral of its widths and range, and nothing else. */
  lemma NumberSpelled(s: string, minWidth: nat, maxWidth: nat, lo: int, hi: int) returns (t: string)
    requires Number(s, minWidth, maxWidth, lo, hi).Some?
    ensures var c := Number(s, minWidth, maxWidth, lo, hi).value;
      NumberToken(t, minWidth, maxWidth, lo, hi) && c.value == DecimalValue(t) && s == t + c.rest
      && (c.rest == [] || !IsDigit(c.rest[0]))
  {
    var n := LeadingDigits(s);
    t := s[..n];
    assert s == t + s[n..];
  }

  /** `%d`, once matched, consumed a day token. */
  lemma DaySpelled(s: string) returns (t: string)
    requires Day(s).Some?
    ensures DayToken(t, Day(s).value.value) && s == t + Day(s).value.rest
  {
    if 2 <= |s| && s[0] == ' ' && '1' <= s[1] <= '9' {
      t := s[..2];
      assert s == t + s[2..];
    } else {
      t := NumberSpelled(s, 1, 2, 1, 31);
    }
  }

  /** `\s+`, once matched, consumed a whitespace run. */
  lemma SpacesSpelled(s: string) returns (w: string)
    requires Spaces(s).Some?
    ensures SpaceRun(w) && s == w + Spaces(s).value
  {
    w := s[..|s| - |Spaces(s).value|];
    assert s == w + s[|s| - |Spaces(s).value|..];
  }

  /** `%m/%d`, once matched, consumed a month numeral, a slash and a day token. */
  lemma DatePartSpelled(s: string) returns (mS: string, day: string)
    requires DatePart(s).Some?
    ensures var d := DatePart(s).value;
      NumberToken(mS, 1, 2, 1, 12) && d.month == DecimalValue(mS) && DayToken(day, d.day)
      && s == mS + ("/" + (day + d.rest))
  {
    var month := Number(s, 1, 2, 1, 12).value;
    mS := NumberSpelled(s, 1, 2, 1, 12);
    var afterSlash := Literal(month.rest, '/').value;
    day := DaySpelled(afterSlash);
  }

  /** `%I:%M`, once matched, consumed an hour numeral, a colon and a minute numeral. */
  lemma ClockPartSpelled(s: string) returns (hS: string, miS: string)
    requires ClockPart(s).Some?
    ensures var c := ClockPart(s).value;
      NumberToken(hS, 1, 2, 1, 12) && c.hour12 == DecimalValue(hS)
      && NumberToken(miS, 1, 2, 0, 59) && c.minute == DecimalValue(miS)
      && s == hS + (":" + (miS + c.rest))
  {
    var hour := Number(s, 1, 2, 1, 12).value;
    hS := NumberSpelled(s, 1, 2, 1, 12);
    var afterColon := Literal(hour.rest, ':').value;
    miS := NumberSpelled(afterColon, 1, 2, 0, 59);
  }

  /** `%p\s+%Y`, once matched, consumed `am` or `pm`, a whitespace run and four digits that end the data. */
  lemma TailPartSpelled(s: string) returns (ap: string, w2: string, yS: string)
    requires TailPart(s).Some?
    ensures var t := TailPart(s).value;
      MeridiemText(ap, t.meridiem) && SpaceRun(w2) && |yS| == 4 && AllDigits(yS)
      && t.year == DecimalValue(yS) && s == ap + (w2 + yS)
  {
    ap := s[..2];
    var gap := Spaces(s[2..]).value;
    w2 := SpacesSpelled(s[2..]);
    yS := NumberSpelled(gap, 4, 4, 0, 9999);
    assert s == ap + s[2..];
  }

  /**
   * The converse of `MatchComplete`: data the pattern matches is spelled
   * by its grammar, and the fields are the values its numerals spell.
   */
  lemma MatchSpelled(s: string) returns (mS: string, day: string, w1: string, hS: string, miS: string,
                                          ap: string, w2: string, yS: string)
    requires MatchFormat(s).Some?
    ensures var f := MatchFormat(s).value;
      NumberToken(mS, 1, 2, 1, 12) && f.month == DecimalValue(mS) && DayToken(day, f.day) && SpaceRun(w1)
      && NumberToken(hS, 1, 2, 1, 12) && f.hour12 == DecimalValue(hS)
      && NumberToken(miS, 1, 2, 0, 59) && f.minute == DecimalValue(miS)
      && MeridiemText(ap, f.meridiem) && SpaceRun(w2) && |yS| == 4 && AllDigits(yS) && f.year == DecimalValue(yS)
      && s == mS + ("/" + (day + (w1 + (hS + (":" + (miS + (ap + (w2 + yS))))))))
  {
    var date := DatePart(s).value;
    var gap := Spaces(date.rest).value;
    var clock := ClockPart(gap).value;
    mS, day := DatePartSpelled(s);
    w1 := SpacesSpelled(date.rest);
    hS, miS := ClockPartSpelled(gap);
    ap, w2, yS := TailPartSpelled(clock.rest);
  }

  /**
   * `strptime` over the grammar: accepted data is spelled by it, and the
   * date-time holds the values its numerals spell, the hour on the 24-hour
   * clock.
   */
  lemma ParseSpelled(s: string) returns (mS: string, day: string, w1: string, hS: string, miS: string,
                                          ap: string, m: Meridiem, w2: string, yS: string)
    requires Parse(s).Ok?
    ensures var dt := Parse(s).value;
      NumberToken(mS, 1, 2, 1, 12) && dt.month == DecimalValue(mS) && DayToken(day, dt.day) && SpaceRun(w1)
      && NumberToken(hS, 1, 2, 1, 12) && NumberToken(miS, 1, 2, 0, 59) && dt.minute == DecimalValue(miS)
      && MeridiemText(ap, m) && dt.hour == To24Hour(DecimalValue(hS), m == PM)
      && SpaceRun(w2) && |yS| == 4 && AllDigits(yS) && dt.year == DecimalValue(yS)
      && s == mS + ("/" + (day + (w1 + (hS + (":" + (miS + (ap + (w2 + yS))))))))
  {
    mS, day, w1, hS, miS, ap, w2, yS := MatchSpelled(s);
    m := MatchFormat(s).value.meridiem;
  }
}
