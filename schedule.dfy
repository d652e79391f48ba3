/**
 * `parse_input` of schedule.py: the text of a shift list becomes a list of
 * `[start, end]` pairs of ISO 8601 date-time strings.
 *
 * A line of the list reads `<month>/<day> <start>–<end>`, where the two
 * times are 12-hour clock readings with `am`/`pm` cut down to `a`/`p`, as in
 * `3/14 9:00a–5:30p`. Blank lines are skipped. The year is the current one
 * when the program runs; here it is a parameter.
 */
module Schedule {
  import opened Wrappers
  import opened Text
  import opened DateTimes
  import opened Strptime

  /** EN DASH (U+2013), between the start and the end of a shift. */
  const EnDash: char := '\U{2013}'

  /** The `[start.isoformat(), end.isoformat()]` pair of one shift. */
  datatype Shift = Shift(start: string, end: string)

  /** The ValueErrors that end a call; nothing after the failing line is read. */
  datatype ParseError =
    | Unpack(expected: nat, got: nat) // `a, b = s.split(sep)` on other than two pieces
    | BadTime(cause: StrptimeError)    // `strptime` refused the start or the end

  /** `f'{date} {time}m {year}'`, the data handed to `strptime`. */
  function Stamp(date: string, time: string, year: nat): string {
    date + (" " + (time + ("m " + Decimal(year))))
  }

  /** The line `<date> <start>–<end>`. */
  function ShiftLine(date: string, start: string, end: string): string {
    date + (" " + (start + ([EnDash] + end)))
  }

  /** A time token: hour numeral, colon, minute numeral and the letter `a` or `p`. */
  function TimeToken(hS: string, miS: string, c: char): string {
    hS + (":" + (miS + [c]))
  }

  // ---------------------------------------------------------------------
  // One line

  /**
   * The start and end a line names: split at the one space into the date
   * token and the times token, split the times token at the one en dash,
   * and read `<date> <time>m <year>` for each time with
   * `%m/%d %I:%M%p %Y`, the start first.
   */
  function ShiftTimes(line: string, year: nat): (r: Result<(DateTime, DateTime), ParseError>)
    ensures multiset(line)[' '] != 1 ==> r == Err(Unpack(2, multiset(line)[' '] + 1))
    ensures r.Ok? ==> r.value.0.Valid() && r.value.0.second == 0
    ensures r.Ok? ==> r.value.1.Valid() && r.value.1.second == 0
  {
    var parts := Split(line, ' ');
    if |parts| != 2 then Err(Unpack(2, |parts|))
    else
      var times := Split(parts[1], EnDash);
      if |times| != 2 then Err(Unpack(2, |times|))
      else ReadPair(parts[0], times[0], times[1], year)
  }

  /** The two `strptime` calls of a line, the start first. */
  function ReadPair(date: string, start: string, end: string, year: nat): Result<(DateTime, DateTime), ParseError> {
    match Parse(Stamp(date, start, year))
    case Err(e) => Err(BadTime(e))
    case Ok(a) =>
      match Parse(Stamp(date, end, year))
      case Err(e) => Err(BadTime(e))
      case Ok(b) => Ok((a, b))
  }

  /**
   * Both date-times when both stamps are read; otherwise the error of the
   * first stamp refused, the start's before the end's.
   */
  lemma ReadPairOutcome(date: string, start: string, end: string, year: nat)
    ensures var a, b := Parse(Stamp(date, start, year)), Parse(Stamp(date, end, year));
      var r := ReadPair(date, start, end, year);
      (r.Ok? <==> a.Ok? && b.Ok?)
      && (r.Ok? ==> r.value == (a.value, b.value))
      && (a.Err? ==> r == Err(BadTime(a.error)))
      && (a.Ok? && b.Err? ==> r == Err(BadTime(b.error)))
  {
  }

  /** One line's output pair: both date-times in ISO 8601 extended form. */
  function ParseLine(line: string, year: nat): (r: Result<Shift, ParseError>)
    ensures r.Ok? <==> ShiftTimes(line, year).Ok?
    ensures r.Err? ==> r.error == ShiftTimes(line, year).error
    ensures r.Ok? ==> ParseIso(r.value.start) == Some(ShiftTimes(line, year).value.0)
    ensures r.Ok? ==> ParseIso(r.value.end) == Some(ShiftTimes(line, year).value.1)
  {
    match ShiftTimes(line, year)
    case Err(e) => Err(e)
    case Ok((start, end)) =>
      IsoRoundTrip(start);
      IsoRoundTrip(end);
      Ok(Shift(IsoFormat(start), IsoFormat(end)))
  }

  /** A line of three separate tokens is read token by token. */
  lemma ShiftTimesOf(date: string, start: string, end: string, year: nat)
    requires ' ' !in date && ' ' !in start && ' ' !in end && EnDash !in start && EnDash !in end
    ensures ShiftTimes(ShiftLine(date, start, end), year) == ReadPair(date, start, end, year)
  {
    LineSplits(date, start, end);
  }

  /** The line `<date> <start>–<end>` splits back into its three tokens. */
  lemma LineSplits(date: string, start: string, end: string)
    requires ' ' !in date && ' ' !in start && ' ' !in end && EnDash !in start && EnDash !in end
    ensures Split(ShiftLine(date, start, end), ' ') == [date, start + ([EnDash] + end)]
    ensures Split(start + ([EnDash] + end), EnDash) == [start, end]
  {
    var times := start + ([EnDash] + end);
    assert start + [EnDash] + end == times;
    SplitTwo(start, end, EnDash);
    assert ' ' !in times;
    assert date + [' '] + times == ShiftLine(date, start, end);
    SplitTwo(date, times, ' ');
  }

  /** A line whose two stamps both parse gives those two date-times. */
  lemma ShiftTimesOk(date: string, start: string, end: string, year: nat, a: DateTime, b: DateTime)
    requires ' ' !in date && ' ' !in start && ' ' !in end && EnDash !in start && EnDash !in end
    requires Parse(Stamp(date, start, year)) == Ok(a) && Parse(Stamp(date, end, year)) == Ok(b)
    ensures ShiftTimes(ShiftLine(date, start, end), year) == Ok((a, b))
  {
    ShiftTimesOf(date, start, end, year);
  }

  /** A times token without exactly one en dash ends the call with the unpacking error. */
  lemma TimesNeedOneDash(date: string, times: string, year: nat)
    requires ' ' !in date && ' ' !in times && multiset(times)[EnDash] != 1
    ensures ShiftTimes(date + (" " + times), year) == Err(Unpack(2, multiset(times)[EnDash] + 1))
  {
    assert date + [' '] + times == date + (" " + times);
    SplitTwo(date, times, ' ');
  }

  /** A plain hyphen between the two times is not the separator. */
  lemma HyphenRejected(date: string, start: string, end: string, year: nat)
    requires ' ' !in date && ' ' !in start && ' ' !in end && EnDash !in start && EnDash !in end
    ensures ShiftTimes(date + (" " + (start + ("-" + end))), year) == Err(Unpack(2, 1))
  {
    var times := start + ("-" + end);
    assert multiset(times) == multiset(start) + multiset("-") + multiset(end);
    assert multiset(times)[EnDash] == 0;
    TimesNeedOneDash(date, times, year);
  }

  /**
   * The end of a stamp: when `%p\s+%Y` matches there, the year numeral has
   * four digits, the time token ends with `a` or `p` in either case, and
   * that letter is the meridiem.
   */
  lemma StampTail(date: string, time: string, year: nat, u: string)
    requires Suffix(u, Stamp(date, time, year)) && TailPart(u).Some?
    ensures 1000 <= year && TailPart(u).value.year == year
    ensures time != [] && (Lower(time[|time| - 1]) == 'a' || Lower(time[|time| - 1]) == 'p')
    ensures TailPart(u).value.meridiem == PM <==> Lower(time[|time| - 1]) == 'p'
  {
    StampBeforeM(date, time, year);
    TailShape(u, date + (" " + time), Decimal(year));
    DecimalLength(year);
  }

  /** A stamp is its date and time tokens, then `m`, a space and the year. */
  lemma StampBeforeM(date: string, time: string, year: nat)
    ensures var p := date + (" " + time);
      Stamp(date, time, year) == p + ("m " + Decimal(year)) && p[|p| - 1] == if time == [] then ' ' else time[|time| - 1]
  {
  }

  /**
   * A time that `strptime` accepts after `m` is appended: the year is the
   * call's, it has four digits, the time token ends with `a` or `p` in
   * either case, and that letter decides morning or afternoon.
   */
  lemma StampParsed(date: string, time: string, year: nat)
    requires Parse(Stamp(date, time, year)).Ok?
    ensures 1000 <= year
    ensures time != [] && (Lower(time[|time| - 1]) == 'a' || Lower(time[|time| - 1]) == 'p')
    ensures Parse(Stamp(date, time, year)).value.year == year
    ensures Parse(Stamp(date, time, year)).value.hour >= 12 <==> Lower(time[|time| - 1]) == 'p'
  {
    var u := ParsedTail(Stamp(date, time, year));
    StampTail(date, time, year, u);
  }

  /** Before the year 1000, `str(year)` is too short for `%Y`, so no line is accepted. */
  lemma EarlyYearRejected(line: string, year: nat)
    requires year < 1000
    ensures ShiftTimes(line, year).Err?
  {
    if ShiftTimes(line, year).Ok? {
      var parts := Split(line, ' ');
      var times := Split(parts[1], EnDash);
      StampParsed(parts[0], times[0], year);
    }
  }

  /**
   * Both times of an accepted line end with `a` or `p` in either case, and
   * that letter decides whether the hour is in the afternoon.
   */
  lemma MeridiemLetters(line: string, year: nat)
    requires ShiftTimes(line, year).Ok?
    ensures var times := Split(Split(line, ' ')[1], EnDash); var t := times[0];
      t != [] && (Lower(t[|t| - 1]) == 'a' || Lower(t[|t| - 1]) == 'p')
      && (ShiftTimes(line, year).value.0.hour >= 12 <==> Lower(t[|t| - 1]) == 'p')
    ensures var times := Split(Split(line, ' ')[1], EnDash); var t := times[1];
      t != [] && (Lower(t[|t| - 1]) == 'a' || Lower(t[|t| - 1]) == 'p')
      && (ShiftTimes(line, year).value.1.hour >= 12 <==> Lower(t[|t| - 1]) == 'p')
  {
    var parts := Split(line, ' ');
    var times := Split(parts[1], EnDash);
    StampParsed(parts[0], times[0], year);
    StampParsed(parts[0], times[1], year);
  }

  /**
   * `%m/%d` reads the same month and day from every stamp of a date token
   * that has no space and does not end with `/`.
   */
  lemma StampDate(date: string, time: string, year: nat)
    requires ' ' !in date && (date == [] || date[|date| - 1] != '/')
    ensures DatePart(Stamp(date, time, year)).Some? <==> DatePart(date + " ").Some?
    ensures DatePart(Stamp(date, time, year)).Some? ==>
      DatePart(Stamp(date, time, year)).value.month == DatePart(date + " ").value.month
      && DatePart(Stamp(date, time, year)).value.day == DatePart(date + " ").value.day
  {
    DatePartFrame(date, time + ("m " + Decimal(year)));
  }

  /** The date of an accepted stamp is the one the date token alone reads as. */
  lemma StampDateParsed(date: string, time: string, year: nat)
    requires ' ' !in date && (date == [] || date[|date| - 1] != '/')
    requires Parse(Stamp(date, time, year)).Ok?
    ensures DatePart(date + " ").Some?
    ensures Parse(Stamp(date, time, year)).value.month == DatePart(date + " ").value.month
    ensures Parse(Stamp(date, time, year)).value.day == DatePart(date + " ").value.day
  {
    StampDate(date, time, year);
  }

  /**
   * Start and end of an accepted line fall on the same day of the call's
   * year, as long as the date token does not end with `/`.
   */
  lemma SameDate(line: string, year: nat)
    requires ShiftTimes(line, year).Ok?
    requires var date := Split(line, ' ')[0]; date == [] || date[|date| - 1] != '/'
    ensures var (start, end) := ShiftTimes(line, year).value;
      start.year == year && end.year == year && start.month == end.month && start.day == end.day
  {
    ShiftTimesParts(line, year);
    var parts := Split(line, ' ');
    var times := Split(parts[1], EnDash);
    SameDateOf(parts[0], times[0], times[1], year);
  }

  /**
   * Start and end of every accepted line fall in the same month of the
   * call's year: the month is always the numeral before the date token's
   * first `/`.
   */
  lemma SameMonth(line: string, year: nat)
    requires ShiftTimes(line, year).Ok?
    ensures var (start, end) := ShiftTimes(line, year).value;
      start.year == year && end.year == year && start.month == end.month
  {
    ShiftTimesParts(line, year);
    var parts := Split(line, ' ');
    var times := Split(parts[1], EnDash);
    SameMonthOf(parts[0], times[0], times[1], year);
  }

  /** Two accepted stamps of one date token name the same month of `year`. */
  lemma SameMonthOf(date: string, start: string, end: string, year: nat)
    requires Parse(Stamp(date, start, year)).Ok? && Parse(Stamp(date, end, year)).Ok?
    ensures var a, b := Parse(Stamp(date, start, year)).value, Parse(Stamp(date, end, year)).value;
      a.year == year && b.year == year && a.month == b.month
  {
    StampParsed(date, start, year);
    StampParsed(date, end, year);
    ParsedMonth(Stamp(date, start, year));
    ParsedMonth(Stamp(date, end, year));
    StampMonth(date, start, year);
    StampMonth(date, end, year);
  }

  /** The month `%m/%d` reads from a stamp is the month numeral read from its date token and a space. */
  lemma StampMonth(date: string, time: string, year: nat)
    requires DatePart(Stamp(date, time, year)).Some?
    ensures Number(date + " ", 1, 2, 1, 12).Some?
    ensures DatePart(Stamp(date, time, year)).value.month == Number(date + " ", 1, 2, 1, 12).value.value
  {
    var x := time + ("m " + Decimal(year));
    SpaceAfter(date, x);
    DateMonth(date + " ", x, Stamp(date, time, year));
  }

  /** A token, a space and what follows, with the space kept on the token's side. */
  lemma SpaceAfter(date: string, x: string)
    ensures date + (" " + x) == (date + " ") + x
    ensures (date + " ")[|date + " "| - 1] == ' '
  {
  }

  /** Two accepted stamps of one date token without a trailing `/` name the same day of `year`. */
  lemma SameDateOf(date: string, start: string, end: string, year: nat)
    requires ' ' !in date && (date == [] || date[|date| - 1] != '/')
    requires Parse(Stamp(date, start, year)).Ok? && Parse(Stamp(date, end, year)).Ok?
    ensures var a, b := Parse(Stamp(date, start, year)).value, Parse(Stamp(date, end, year)).value;
      a.year == year && b.year == year && a.month == b.month && a.day == b.day
  {
    StampParsed(date, start, year);
    StampParsed(date, end, year);
    StampDateParsed(date, start, year);
    StampDateParsed(date, end, year);
  }

  /** An accepted line splits into a date token and two times, whose stamps give its start and end. */
  lemma ShiftTimesParts(line: string, year: nat)
    requires ShiftTimes(line, year).Ok?
    ensures var parts := Split(line, ' ');
      |parts| == 2 && ' ' !in parts[0] && |Split(parts[1], EnDash)| == 2
    ensures var parts := Split(line, ' '); var times := Split(parts[1], EnDash);
      Parse(Stamp(parts[0], times[0], year)) == Ok(ShiftTimes(line, year).value.0)
      && Parse(Stamp(parts[0], times[1], year)) == Ok(ShiftTimes(line, year).value.1)
  {
  }

  /**
   * Without that proviso the dates can differ: after a trailing `/`, `%d`'s
   * alternative ` [1-9]` takes the space and the first digit of each time
   * token as the day, and whitespace other than a space (a tab, say) may
   * follow that digit. So `03/ 5<TAB>9:00a–6<TAB>5:00p` is a shift from
   * 9:00 on the 5th of March to 17:00 on the 6th.
   */
  lemma TrailingSlashSplitsDate(mS: string, year: nat, month: int,
                                d1: char, w1: string, hS1: string, miS1: string, c1: char, hour1: int, minute1: int,
                                d2: char, w2: string, hS2: string, miS2: string, c2: char, hour2: int, minute2: int)
    requires NumberToken(mS, 1, 2, 1, 12) && month == DecimalValue(mS) && 1000 <= year <= 9999
    requires '1' <= d1 <= '9' && SpaceRun(w1) && ' ' !in w1 && EnDash !in w1 && (Lower(c1) == 'a' || Lower(c1) == 'p')
    requires NumberToken(hS1, 1, 2, 1, 12) && NumberToken(miS1, 1, 2, 0, 59)
    requires hour1 == DecimalValue(hS1) && minute1 == DecimalValue(miS1)
    requires '1' <= d2 <= '9' && SpaceRun(w2) && ' ' !in w2 && EnDash !in w2 && (Lower(c2) == 'a' || Lower(c2) == 'p')
    requires NumberToken(hS2, 1, 2, 1, 12) && NumberToken(miS2, 1, 2, 0, 59)
    requires hour2 == DecimalValue(hS2) && minute2 == DecimalValue(miS2)
    requires ValidDate(year, month, DigitValue(d1)) && ValidDate(year, month, DigitValue(d2))
    ensures var start := [d1] + (w1 + TimeToken(hS1, miS1, c1)); var end := [d2] + (w2 + TimeToken(hS2, miS2, c2));
      ShiftTimes(ShiftLine(mS + "/", start, end), year)
        == Ok((DateTime(year, month, DigitValue(d1), To24Hour(hour1, Lower(c1) == 'p'), minute1, 0),
               DateTime(year, month, DigitValue(d2), To24Hour(hour2, Lower(c2) == 'p'), minute2, 0)))
  {
    var start := [d1] + (w1 + TimeToken(hS1, miS1, c1));
    var end := [d2] + (w2 + TimeToken(hS2, miS2, c2));
    SlashDayReads(mS, d1, w1, hS1, miS1, c1, year, month, DigitValue(d1), hour1, minute1);
    SlashDayReads(mS, d2, w2, hS2, miS2, c2, year, month, DigitValue(d2), hour2, minute2);
    SlashTokensFree(mS, d1, d1, w1, hS1, miS1, c1);
    SlashTokensFree(mS, d2, d2, w2, hS2, miS2, c2);
    ShiftTimesOk(mS + "/", start, end, year,
      DateTime(year, month, DigitValue(d1), To24Hour(hour1, Lower(c1) == 'p'), minute1, 0),
      DateTime(year, month, DigitValue(d2), To24Hour(hour2, Lower(c2) == 'p'), minute2, 0));
  }

  /** The tokens of such a line hold no separator of their own. */
  lemma SlashTokensFree(mS: string, d1: char, d2: char, w: string, hS: string, miS: string, c: char)
    requires AllDigits(mS) && IsDigit(d1) && IsDigit(d2) && ' ' !in w && EnDash !in w
    requires AllDigits(hS) && AllDigits(miS) && (Lower(c) == 'a' || Lower(c) == 'p')
    ensures var time := w + TimeToken(hS, miS, c);
      ' ' !in mS + "/" && ' ' !in [d1] + time && ' ' !in [d2] + time && EnDash !in [d1] + time && EnDash !in [d2] + time
  {
    DigitsFree(mS);
    TimeTokenFree(hS, miS, c);
  }

  /** What `strptime` makes of a stamp whose date token ends with `/`. */
  lemma SlashDayReads(mS: string, d: char, w: string, hS: string, miS: string, c: char, year: nat,
                      month: int, day: int, hour12: int, minute: int)
    requires NumberToken(mS, 1, 2, 1, 12) && '1' <= d <= '9' && SpaceRun(w)
    requires NumberToken(hS, 1, 2, 1, 12) && NumberToken(miS, 1, 2, 0, 59)
    requires month == DecimalValue(mS) && day == DigitValue(d)
    requires hour12 == DecimalValue(hS) && minute == DecimalValue(miS)
    requires (Lower(c) == 'a' || Lower(c) == 'p') && 1000 <= year <= 9999 && ValidDate(year, month, day)
    ensures Parse(Stamp(mS + "/", [d] + (w + TimeToken(hS, miS, c)), year))
         == Ok(DateTime(year, month, day, To24Hour(hour12, Lower(c) == 'p'), minute, 0))
  {
    var m := if Lower(c) == 'p' then PM else AM;
    var f := SlashDayFields(mS, d, w, hS, miS, c, m, year);
    ParseMatched(Stamp(mS + "/", [d] + (w + TimeToken(hS, miS, c)), year), f);
  }

  /** The fields the pattern captures from such a stamp: the day is the digit after the space. */
  lemma SlashDayFields(mS: string, d: char, w: string, hS: string, miS: string, c: char, m: Meridiem, year: nat)
    returns (f: Fields)
    requires NumberToken(mS, 1, 2, 1, 12) && '1' <= d <= '9' && SpaceRun(w)
    requires NumberToken(hS, 1, 2, 1, 12) && NumberToken(miS, 1, 2, 0, 59)
    requires m == (if Lower(c) == 'p' then PM else AM) && (Lower(c) == 'a' || Lower(c) == 'p')
    requires 1000 <= year <= 9999
    ensures f == Fields(DecimalValue(mS), DigitValue(d), DecimalValue(hS), DecimalValue(miS), m, year)
    ensures MatchFormat(Stamp(mS + "/", [d] + (w + TimeToken(hS, miS, c)), year)) == Some(f)
  {
    var y := Decimal(year);
    DecimalLength(year);
    assert MeridiemText([c, 'm'], m);
    assert SpaceRun(" ");
    var clock := w + (hS + (":" + (miS + ([c, 'm'] + (" " + y)))));
    SlashStampText(mS, d, w, hS, miS, c, year);
    DatePartSpaceDay(mS, d, clock);
    MatchWithDate(mS + ("/" + ([' ', d] + clock)), DecimalValue(mS), DigitValue(d), w, hS, miS, [c, 'm'], m, " ", y);
    f := Fields(DecimalValue(mS), DigitValue(d), DecimalValue(hS), DecimalValue(miS), m, year);
  }

  /** Such a stamp spelled out: the space before the time now follows the slash. */
  lemma SlashStampText(mS: string, d: char, w: string, hS: string, miS: string, c: char, year: nat)
    ensures Stamp(mS + "/", [d] + (w + TimeToken(hS, miS, c)), year)
         == mS + ("/" + ([' ', d] + (w + (hS + (":" + (miS + ([c, 'm'] + (" " + Decimal(year)))))))))
  {
  }

  /** A numeral holds neither separator. */
  lemma DigitsFree(t: string)
    requires AllDigits(t)
    ensures ' ' !in t && EnDash !in t && ' ' !in t + "/"
  {
    assert forall i | 0 <= i < |t| :: t[i] != ' ' && t[i] != EnDash;
  }

  /** A time token of the grammar holds neither separator. */
  lemma TimeTokenFree(hS: string, miS: string, c: char)
    requires AllDigits(hS) && AllDigits(miS) && (Lower(c) == 'a' || Lower(c) == 'p')
    ensures ' ' !in TimeToken(hS, miS, c) && EnDash !in TimeToken(hS, miS, c)
  {
    DigitsFree(hS);
    DigitsFree(miS);
    assert c != ' ' && c != EnDash;
  }

  // ---------------------------------------------------------------------
  // Lines of the grammar

  /**
   * `strptime` reads a stamp whose tokens follow the grammar: it captures
   * their values and then accepts exactly the dates of the calendar.
   */
  lemma StampReads(mS: string, dS: string, hS: string, miS: string, c: char, year: nat,
                    month: int, day: int, hour12: int, minute: int)
    requires NumberToken(mS, 1, 2, 1, 12) && NumberToken(dS, 1, 2, 1, 31)
    requires NumberToken(hS, 1, 2, 1, 12) && NumberToken(miS, 1, 2, 0, 59)
    requires month == DecimalValue(mS) && day == DecimalValue(dS)
    requires hour12 == DecimalValue(hS) && minute == DecimalValue(miS)
    requires (Lower(c) == 'a' || Lower(c) == 'p') && 1000 <= year <= 9999
    ensures var stamp := Stamp(mS + ("/" + dS), TimeToken(hS, miS, c), year);
      Parse(stamp) == if ValidDate(year, month, day)
        then Ok(DateTime(year, month, day, To24Hour(hour12, Lower(c) == 'p'), minute, 0))
        else Err(DateOutOfRange(stamp))
  {
    var m := if Lower(c) == 'p' then PM else AM;
    var f := StampFields(mS, dS, hS, miS, c, m, year);
    ParseMatched(Stamp(mS + ("/" + dS), TimeToken(hS, miS, c), year), f);
  }

  /** The fields the pattern captures from a stamp whose tokens follow the grammar. */
  lemma StampFields(mS: string, dS: string, hS: string, miS: string, c: char, m: Meridiem, year: nat)
    returns (f: Fields)
    requires NumberToken(mS, 1, 2, 1, 12) && NumberToken(dS, 1, 2, 1, 31)
    requires NumberToken(hS, 1, 2, 1, 12) && NumberToken(miS, 1, 2, 0, 59)
    requires m == (if Lower(c) == 'p' then PM else AM) && (Lower(c) == 'a' || Lower(c) == 'p')
    requires 1000 <= year <= 9999
    ensures f == Fields(DecimalValue(mS), DecimalValue(dS), DecimalValue(hS), DecimalValue(miS), m, year)
    ensures MatchFormat(Stamp(mS + ("/" + dS), TimeToken(hS, miS, c), year)) == Some(f)
  {
    var y := Decimal(year);
    DecimalLength(year);
    assert MeridiemText([c, 'm'], m);
    assert SpaceRun(" ");
    StampText(mS, dS, hS, miS, c, year);
    MatchNumeralDay(mS, dS, " ", hS, miS, [c, 'm'], m, " ", y);
    f := Fields(DecimalValue(mS), DecimalValue(dS), DecimalValue(hS), DecimalValue(miS), m, year);
  }

  /** A stamp spelled out token by token. */
  lemma StampText(mS: string, dS: string, hS: string, miS: string, c: char, year: nat)
    ensures Stamp(mS + ("/" + dS), TimeToken(hS, miS, c), year)
         == mS + ("/" + (dS + (" " + (hS + (":" + (miS + ([c, 'm'] + (" " + Decimal(year)))))))))
  {
  }

  /** A month numeral outside 1-12 leaves the stamp unmatched. */
  lemma MonthUnmatched(mS: string, dS: string, time: string, year: nat)
    requires AllDigits(mS) && !NumberToken(mS, 1, 2, 1, 12)
    ensures MatchFormat(Stamp(mS + ("/" + dS), time, year)) == None
  {
    var rest := "/" + (dS + (" " + (time + ("m " + Decimal(year)))));
    assert Stamp(mS + ("/" + dS), time, year) == mS + rest;
    MonthRejected(mS, rest);
  }

  /** An hour numeral outside 1-12 leaves the stamp unmatched. */
  lemma HourUnmatched(mS: string, dS: string, hS: string, rest: string, year: nat)
    requires NumberToken(mS, 1, 2, 1, 12) && NumberToken(dS, 1, 2, 1, 31)
    requires hS != [] && AllDigits(hS) && !NumberToken(hS, 1, 2, 1, 12) && (rest == [] || !IsDigit(rest[0]))
    ensures MatchFormat(Stamp(mS + ("/" + dS), hS + rest, year)) == None
  {
    var after := rest + ("m " + Decimal(year));
    AfterNumeral(rest, year);
    HourStampText(mS, dS, hS, rest, year);
    assert SpaceRun(" ");
    HourRejected(mS, dS, " ", hS, after);
  }

  /** What follows a numeral at the end of a time token does not start with a digit. */
  lemma AfterNumeral(rest: string, year: nat)
    requires rest == [] || !IsDigit(rest[0])
    ensures var after := rest + ("m " + Decimal(year)); after == [] || !IsDigit(after[0])
  {
    var after := rest + ("m " + Decimal(year));
    assert after[0] == if rest == [] then 'm' else rest[0];
  }

  /** A stamp whose time token starts with the numeral `hS`, spelled out. */
  lemma HourStampText(mS: string, dS: string, hS: string, rest: string, year: nat)
    ensures Stamp(mS + ("/" + dS), hS + rest, year) == mS + ("/" + (dS + (" " + (hS + (rest + ("m " + Decimal(year)))))))
  {
  }

  /** A minute numeral outside 0-59 leaves the stamp unmatched. */
  lemma MinuteUnmatched(mS: string, dS: string, hS: string, miS: string, rest: string, year: nat)
    requires NumberToken(mS, 1, 2, 1, 12) && NumberToken(dS, 1, 2, 1, 31) && NumberToken(hS, 1, 2, 1, 12)
    requires AllDigits(miS) && !NumberToken(miS, 1, 2, 0, 59) && (rest == [] || !IsDigit(rest[0]))
    ensures MatchFormat(Stamp(mS + ("/" + dS), hS + (":" + (miS + rest)), year)) == None
  {
    var after := rest + ("m " + Decimal(year));
    AfterNumeral(rest, year);
    MinuteStampText(mS, dS, hS, miS, rest, year);
    assert SpaceRun(" ");
    MinuteRejected(mS, dS, " ", hS, miS, after);
  }

  /** A stamp whose time token is `hS:miS` and then `rest`, spelled out. */
  lemma MinuteStampText(mS: string, dS: string, hS: string, miS: string, rest: string, year: nat)
    ensures Stamp(mS + ("/" + dS), hS + (":" + (miS + rest)), year)
         == mS + ("/" + (dS + (" " + (hS + (":" + (miS + (rest + ("m " + Decimal(year)))))))))
  {
  }

  /** The 12-hour token `strptime` reads back as `dt`'s time of day. */
  function ClockToken(dt: DateTime): string
    requires dt.Valid()
  {
    var (h, pm) := To12Hour(dt.hour);
    TimeToken(Pad2(h), Pad2(dt.minute), if pm then 'p' else 'a')
  }

  /** A line for a shift on `start`'s date, with zero-padded numerals. */
  function FormatLine(start: DateTime, end: DateTime): string
    requires start.Valid() && end.Valid()
  {
    ShiftLine(Pad2(start.month) + ("/" + Pad2(start.day)), ClockToken(start), ClockToken(end))
  }

  /** The pieces of a clock token and the values they stand for. */
  lemma ClockTokenShape(dt: DateTime) returns (h: int, c: char)
    requires dt.Valid()
    ensures 1 <= h <= 12 && ClockToken(dt) == TimeToken(Pad2(h), Pad2(dt.minute), c)
    ensures NumberToken(Pad2(h), 1, 2, 1, 12) && DecimalValue(Pad2(h)) == h
    ensures NumberToken(Pad2(dt.minute), 1, 2, 0, 59) && DecimalValue(Pad2(dt.minute)) == dt.minute
    ensures (c == 'a' || c == 'p') && Lower(c) == c && To24Hour(h, c == 'p') == dt.hour
    ensures ' ' !in ClockToken(dt) && EnDash !in ClockToken(dt)
  {
    var r := To12Hour(dt.hour);
    h, c := r.0, if r.1 then 'p' else 'a';
    var hS, miS := Pad2(h), Pad2(dt.minute);
    assert forall i | 0 <= i < 2 :: IsDigit(hS[i]) && IsDigit(miS[i]);
  }

  /** The pieces of a date token and the values they stand for. */
  lemma DateTokenShape(dt: DateTime)
    requires dt.Valid()
    ensures NumberToken(Pad2(dt.month), 1, 2, 1, 12) && DecimalValue(Pad2(dt.month)) == dt.month
    ensures NumberToken(Pad2(dt.day), 1, 2, 1, 31) && DecimalValue(Pad2(dt.day)) == dt.day
  {
  }

  /** A clock token reads back as the time of day it was made from. */
  lemma ClockTokenReads(dt: DateTime)
    requires dt.Valid() && dt.second == 0 && 1000 <= dt.year
    ensures ' ' !in ClockToken(dt) && EnDash !in ClockToken(dt)
    ensures Parse(Stamp(Pad2(dt.month) + ("/" + Pad2(dt.day)), ClockToken(dt), dt.year)) == Ok(dt)
  {
    var h, c := ClockTokenShape(dt);
    DateTokenShape(dt);
    StampReads(Pad2(dt.month), Pad2(dt.day), Pad2(h), Pad2(dt.minute), c, dt.year, dt.month, dt.day, h, dt.minute);
  }

  /**
   * Every shift whose start and end fall on one day of a four-digit year
   * has a line that reads back as exactly that shift; an end before the
   * start is accepted like any other.
   */
  lemma FormatLineParses(start: DateTime, end: DateTime)
    requires start.Valid() && end.Valid() && start.second == 0 && end.second == 0
    requires 1000 <= start.year && end.year == start.year
    requires end.month == start.month && end.day == start.day
    ensures ParseLine(FormatLine(start, end), start.year) == Ok(Shift(IsoFormat(start), IsoFormat(end)))
  {
    var date := Pad2(start.month) + ("/" + Pad2(start.day));
    assert forall i | 0 <= i < 2 :: date[i] == Pad2(start.month)[i] && date[3 + i] == Pad2(start.day)[i];
    assert ' ' !in date;
    ClockTokenReads(start);
    ClockTokenReads(end);
    ShiftTimesOf(date, ClockToken(start), ClockToken(end), start.year);
  }

  // ---------------------------------------------------------------------
  // Out-of-range dates and times

  /**
   * A month numeral outside 1-12 (such as `13`) does not match `%m`: the
   * line is refused with the no-match error for its start.
   */
  lemma MonthOutOfRangeRejected(mS: string, dS: string, time: string, end: string, year: nat)
    requires AllDigits(mS) && !NumberToken(mS, 1, 2, 1, 12) && ' ' !in dS
    requires ' ' !in time && EnDash !in time && ' ' !in end && EnDash !in end
    ensures var date := mS + ("/" + dS);
      ShiftTimes(ShiftLine(date, time, end), year) == Err(BadTime(NoMatch(Stamp(date, time, year))))
  {
    var date := mS + ("/" + dS);
    MonthUnmatched(mS, dS, time, year);
    ParseUnmatched(Stamp(date, time, year));
    DigitsFree(mS);
    assert ' ' !in date;
    ShiftTimesOf(date, time, end, year);
  }

  /**
   * A line whose date token names no day of the calendar in `year` (the
   * 30th of February, or the 29th outside leap years) is refused with the
   * out-of-range error for its start.
   */
  lemma InvalidDateRejected(mS: string, dS: string, hS: string, miS: string, c: char, end: string, year: nat,
                            month: int, day: int, hour12: int, minute: int)
    requires NumberToken(mS, 1, 2, 1, 12) && NumberToken(dS, 1, 2, 1, 31)
    requires NumberToken(hS, 1, 2, 1, 12) && NumberToken(miS, 1, 2, 0, 59)
    requires month == DecimalValue(mS) && day == DecimalValue(dS)
    requires hour12 == DecimalValue(hS) && minute == DecimalValue(miS)
    requires (Lower(c) == 'a' || Lower(c) == 'p') && 1000 <= year <= 9999
    requires ' ' !in end && EnDash !in end && !ValidDate(year, month, day)
    ensures var date := mS + ("/" + dS);
      ShiftTimes(ShiftLine(date, TimeToken(hS, miS, c), end), year)
        == Err(BadTime(DateOutOfRange(Stamp(date, TimeToken(hS, miS, c), year))))
  {
    StampReads(mS, dS, hS, miS, c, year, month, day, hour12, minute);
    DigitsFree(mS);
    DigitsFree(dS);
    TimeTokenFree(hS, miS, c);
    ShiftTimesOf(mS + ("/" + dS), TimeToken(hS, miS, c), end, year);
  }

  /**
   * An hour numeral outside 1-12 (such as `0` or `13`) does not match `%I`:
   * the line is refused with the no-match error for its start.
   */
  lemma HourOutOfRangeRejected(mS: string, dS: string, hS: string, rest: string, end: string, year: nat)
    requires NumberToken(mS, 1, 2, 1, 12) && NumberToken(dS, 1, 2, 1, 31)
    requires hS != [] && AllDigits(hS) && !NumberToken(hS, 1, 2, 1, 12) && (rest == [] || !IsDigit(rest[0]))
    requires ' ' !in rest && EnDash !in rest && ' ' !in end && EnDash !in end
    ensures var date := mS + ("/" + dS);
      ShiftTimes(ShiftLine(date, hS + rest, end), year) == Err(BadTime(NoMatch(Stamp(date, hS + rest, year))))
  {
    var date := mS + ("/" + dS);
    HourUnmatched(mS, dS, hS, rest, year);
    ParseUnmatched(Stamp(date, hS + rest, year));
    DigitsFree(mS);
    DigitsFree(dS);
    DigitsFree(hS);
    assert ' ' !in date && ' ' !in hS + rest && EnDash !in hS + rest;
    ShiftTimesOf(date, hS + rest, end, year);
  }

  /**
   * A minute numeral outside 0-59 (such as `60`) does not match `%M`: the
   * line is refused with the no-match error for its start.
   */
  lemma MinuteOutOfRangeRejected(mS: string, dS: string, hS: string, miS: string, rest: string, end: string, year: nat)
    requires NumberToken(mS, 1, 2, 1, 12) && NumberToken(dS, 1, 2, 1, 31) && NumberToken(hS, 1, 2, 1, 12)
    requires AllDigits(miS) && !NumberToken(miS, 1, 2, 0, 59) && (rest == [] || !IsDigit(rest[0]))
    requires ' ' !in rest && EnDash !in rest && ' ' !in end && EnDash !in end
    ensures var date := mS + ("/" + dS); var time := hS + (":" + (miS + rest));
      ShiftTimes(ShiftLine(date, time, end), year) == Err(BadTime(NoMatch(Stamp(date, time, year))))
  {
    var date := mS + ("/" + dS);
    var time := hS + (":" + (miS + rest));
    MinuteUnmatched(mS, dS, hS, miS, rest, year);
    ParseUnmatched(Stamp(date, time, year));
    DigitsFree(mS);
    DigitsFree(dS);
    DigitsFree(hS);
    DigitsFree(miS);
    assert ' ' !in date && ' ' !in time && EnDash !in time;
    ShiftTimesOf(date, time, end, year);
  }

  // ---------------------------------------------------------------------
  // The whole text

  /** The lines that `parse_input` does not skip, in their order. */
  function NonBlank(lines: seq<string>): (r: seq<string>)
    ensures |r| <= |lines|
    ensures forall k | 0 <= k < |r| :: !IsBlank(r[k])
  {
    if lines == [] then []
    else
      var kept, last := NonBlank(lines[..|lines| - 1]), lines[|lines| - 1];
      if IsBlank(last) then kept else kept + [last]
  }

  /** Filtering a concatenation filters each side. */
  lemma {:induction false} NonBlankAppend(a: seq<string>, b: seq<string>)
    ensures NonBlank(a + b) == NonBlank(a) + NonBlank(b)
    decreases |b|
  {
    if b == [] {
      assert a + b == a;
    } else {
      var c := b[..|b| - 1];
      assert (a + b)[..|a + b| - 1] == a + c;
      assert (a + b)[|a + b| - 1] == b[|b| - 1];
      NonBlankAppend(a, c);
    }
  }

  /** Every line that is not blank is kept. */
  lemma {:induction false} NonBlankKeeps(lines: seq<string>)
    ensures forall k | 0 <= k < |lines| && !IsBlank(lines[k]) :: lines[k] in NonBlank(lines)
  {
    if lines != [] {
      var init := lines[..|lines| - 1];
      NonBlankKeeps(init);
      forall k | 0 <= k < |lines| - 1 && !IsBlank(lines[k]) ensures lines[k] in NonBlank(lines) {
        assert lines[k] == init[k];
      }
    }
  }

  /** There are as many kept lines as there are lines that are not blank. */
  lemma {:induction false} NonBlankCount(lines: seq<string>)
    ensures |NonBlank(lines)| == |set k | 0 <= k < |lines| && !IsBlank(lines[k])|
  {
    if lines != [] {
      NonBlankCount(lines[..|lines| - 1]);
      NonBlankIndicesStep(lines);
    }
  }

  /** The indices of the lines that are not blank, one more line at a time. */
  lemma NonBlankIndicesStep(lines: seq<string>)
    requires lines != []
    ensures var init := lines[..|lines| - 1];
      var before := set k | 0 <= k < |init| && !IsBlank(init[k]);
      |set k | 0 <= k < |lines| && !IsBlank(lines[k])| == |before| + if IsBlank(lines[|init|]) then 0 else 1
  {
    var init := lines[..|lines| - 1];
    var kept := set k | 0 <= k < |lines| && !IsBlank(lines[k]);
    var before := set k | 0 <= k < |init| && !IsBlank(init[k]);
    assert |init| !in before;
    if IsBlank(lines[|init|]) {
      assert kept == before;
    } else {
      assert kept == before + {|init|};
    }
  }

  /** A blank line in the list is skipped as if it were not there. */
  lemma NonBlankSkips(before: seq<string>, blank: string, after: seq<string>)
    requires IsBlank(blank)
    ensures NonBlank(before + [blank] + after) == NonBlank(before + after)
  {
    NonBlankAppend(before + [blank], after);
    NonBlankAppend(before, [blank]);
    NonBlankAppend(before, after);
    assert NonBlank([blank]) == [] by {
      assert [blank][..0] == [];
    }
  }

  /** `ParseLine` for one year, as a value. */
  function LineParser(year: nat): string -> Result<Shift, ParseError> {
    line => ParseLine(line, year)
  }

  /** The outcome of every line of a list, in order. */
  function Outcomes(parse: string -> Result<Shift, ParseError>, lines: seq<string>): (rs: seq<Result<Shift, ParseError>>)
    ensures |rs| == |lines| && forall k | 0 <= k < |lines| :: rs[k] == parse(lines[k])
  {
    seq(|lines|, k requires 0 <= k < |lines| => parse(lines[k]))
  }

  /** The outcomes of two lists one after the other. */
  lemma OutcomesAppend(parse: string -> Result<Shift, ParseError>, a: seq<string>, b: seq<string>)
    ensures Outcomes(parse, a + b) == Outcomes(parse, a) + Outcomes(parse, b)
  {
    var lhs, rhs := Outcomes(parse, a + b), Outcomes(parse, a) + Outcomes(parse, b);
    forall k | 0 <= k < |a + b| ensures lhs[k] == rhs[k] {
      if k < |a| {
        assert (a + b)[k] == a[k];
      } else {
        assert (a + b)[k] == b[k - |a|];
      }
    }
  }

  /** All the values, or the first error, as the loop of `parse_input` collects them. */
  function Collect(rs: seq<Result<Shift, ParseError>>): (r: Result<seq<Shift>, ParseError>)
    ensures r.Ok? ==> |r.value| == |rs|
  {
    if rs == [] then Ok([])
    else
      match Collect(rs[..|rs| - 1])
      case Err(e) => Err(e)
      case Ok(shifts) =>
        match rs[|rs| - 1]
        case Err(e) => Err(e)
        case Ok(shift) => Ok(shifts + [shift])
  }

  /** Collecting succeeds exactly when every outcome does, and keeps their values in order. */
  lemma {:induction false} CollectOk(rs: seq<Result<Shift, ParseError>>)
    ensures Collect(rs).Ok? <==> forall k | 0 <= k < |rs| :: rs[k].Ok?
    ensures Collect(rs).Ok? ==> forall k | 0 <= k < |rs| :: Collect(rs).value[k] == rs[k].value
  {
    if rs != [] {
      var init := rs[..|rs| - 1];
      CollectOk(init);
      assert forall k | 0 <= k < |init| :: init[k] == rs[k];
    }
  }

  /** A failure is the error of the first failing outcome. */
  lemma {:induction false} CollectFirstError(rs: seq<Result<Shift, ParseError>>) returns (k: nat)
    requires Collect(rs).Err?
    ensures k < |rs| && rs[k] == Err(Collect(rs).error)
    ensures forall j | 0 <= j < k :: rs[j].Ok?
  {
    var init := rs[..|rs| - 1];
    if Collect(init).Err? {
      k := CollectFirstError(init);
      assert rs[k] == init[k];
      assert forall j | 0 <= j < k :: rs[j] == init[j];
    } else {
      k := |rs| - 1;
      CollectOk(init);
      assert forall j | 0 <= j < k :: rs[j] == init[j];
    }
  }

  /** Outcomes after a failure change nothing. */
  lemma {:induction false} CollectStops(a: seq<Result<Shift, ParseError>>, b: seq<Result<Shift, ParseError>>)
    requires Collect(a).Err?
    ensures Collect(a + b) == Collect(a)
    decreases |b|
  {
    if b == [] {
      assert a + b == a;
    } else {
      var c := b[..|b| - 1];
      assert (a + b)[..|a + b| - 1] == a + c;
      CollectStops(a, c);
    }
  }

  /** The result for a list of kept lines: every pair in order, or the error of the first line that fails. */
  function ParseAll(lines: seq<string>, year: nat): (r: Result<seq<Shift>, ParseError>)
    ensures r.Ok? ==> |r.value| == |lines|
  {
    Collect(Outcomes(LineParser(year), lines))
  }

  /** The whole list is accepted exactly when every line is, and then pair `k` is line `k`'s. */
  lemma ParseAllOk(lines: seq<string>, year: nat)
    ensures ParseAll(lines, year).Ok? <==> forall k | 0 <= k < |lines| :: ParseLine(lines[k], year).Ok?
    ensures ParseAll(lines, year).Ok? ==>
      forall k | 0 <= k < |lines| :: ParseAll(lines, year).value[k] == ParseLine(lines[k], year).value
  {
    CollectOk(Outcomes(LineParser(year), lines));
  }

  /** A failure is the error of the first line that fails. */
  lemma ParseAllFirstError(lines: seq<string>, year: nat) returns (k: nat)
    requires ParseAll(lines, year).Err?
    ensures k < |lines| && ParseLine(lines[k], year) == Err(ParseAll(lines, year).error)
    ensures forall j | 0 <= j < k :: ParseLine(lines[j], year).Ok?
  {
    k := CollectFirstError(Outcomes(LineParser(year), lines));
  }

  /** One more line: the values so far and that line's value, or that line's error. */
  lemma CollectNext(parse: string -> Result<Shift, ParseError>, kept: seq<string>, line: string, shifts: seq<Shift>)
    requires Collect(Outcomes(parse, kept)) == Ok(shifts)
    ensures Collect(Outcomes(parse, kept + [line])) == match parse(line)
      case Err(e) => Err(e)
      case Ok(shift) => Ok(shifts + [shift])
  {
    OutcomesAppend(parse, kept, [line]);
    var outcomes := Outcomes(parse, kept + [line]);
    assert outcomes[..|outcomes| - 1] == Outcomes(parse, kept);
  }

  /** Once a line has failed, no later line changes the result. */
  lemma CollectAfterError(parse: string -> Result<Shift, ParseError>, a: seq<string>, b: seq<string>)
    requires Collect(Outcomes(parse, a)).Err?
    ensures Collect(Outcomes(parse, a + b)) == Collect(Outcomes(parse, a))
  {
    OutcomesAppend(parse, a, b);
    CollectStops(Outcomes(parse, a), Outcomes(parse, b));
  }

  /** The kept lines of one more line. */
  lemma NonBlankNext(lines: seq<string>, i: nat)
    requires i < |lines|
    ensures NonBlank(lines[..i + 1]) == if IsBlank(lines[i]) then NonBlank(lines[..i]) else NonBlank(lines[..i]) + [lines[i]]
  {
    assert lines[..i + 1][..i] == lines[..i];
  }

  /**
   * The loop of `parse_input`, with the reading of one line given as
   * `parse`: blank lines are skipped, each other line's pair is appended,
   * and the first error ends the loop.
   */
  method ParseLines(lines: seq<string>, parse: string -> Result<Shift, ParseError>)
    returns (r: Result<seq<Shift>, ParseError>)
    ensures r == Collect(Outcomes(parse, NonBlank(lines)))
  {
    var shifts: seq<Shift> := [];
    for i := 0 to |lines|
      invariant Collect(Outcomes(parse, NonBlank(lines[..i]))) == Ok(shifts)
    {
      NonBlankNext(lines, i);
      if IsBlank(lines[i]) {
        continue;
      }
      CollectNext(parse, NonBlank(lines[..i]), lines[i], shifts);
      match parse(lines[i])
      case Err(e) =>
        assert lines == lines[..i + 1] + lines[i + 1..];
        NonBlankAppend(lines[..i + 1], lines[i + 1..]);
        CollectAfterError(parse, NonBlank(lines[..i + 1]), NonBlank(lines[i + 1..]));
        return Err(e);
      case Ok(shift) =>
        shifts := shifts + [shift];
    }
    assert lines[..|lines|] == lines;
    return Ok(shifts);
  }

  /**
   * `parse_input(text)` with the current year given as `year`: the pairs of
   * the non-blank lines in order, or the error of the first line that fails.
   */
  method ParseInput(text: string, year: nat) returns (r: Result<seq<Shift>, ParseError>)
    ensures r == ParseAll(NonBlank(Split(text, '\n')), year)
  {
    r := ParseLines(Split(text, '\n'), LineParser(year));
  }

  // ---------------------------------------------------------------------
  // Blank lines

  /** Splitting around a blank line that holds no line break. */
  lemma SplitBlankLine(before: string, blank: string, after: string)
    requires '\n' !in blank
    ensures Split(before + "\n" + blank + "\n" + after, '\n')
         == Split(before, '\n') + [blank] + Split(after, '\n')
    ensures Split(before + "\n" + after, '\n') == Split(before, '\n') + Split(after, '\n')
  {
    SplitLineBreak(before + "\n" + blank, after);
    SplitLineBreak(before, blank);
    SplitWithoutSeparator(blank, '\n');
    SplitLineBreak(before, after);
  }

  /** Splitting at one line break splits the two sides independently. */
  lemma SplitLineBreak(a: string, b: string)
    ensures Split(a + "\n" + b, '\n') == Split(a, '\n') + Split(b, '\n')
  {
    assert a + "\n" + b == a + ['\n'] + b;
    SplitAround(a, b, '\n');
  }

  /** A blank line between two parts of the text is skipped as if it were not there. */
  lemma BlankLineIgnored(before: string, blank: string, after: string)
    requires IsBlank(blank) && '\n' !in blank
    ensures NonBlank(Split(before + "\n" + blank + "\n" + after, '\n')) == NonBlank(Split(before + "\n" + after, '\n'))
  {
    SplitBlankLine(before, blank, after);
    NonBlankSkips(Split(before, '\n'), blank, Split(after, '\n'));
  }

  /** A text of blank lines only gives no pairs. */
  lemma {:induction false} BlankTextGivesNothing(lines: seq<string>, year: nat)
    requires forall k | 0 <= k < |lines| :: IsBlank(lines[k])
    ensures NonBlank(lines) == [] && ParseAll(NonBlank(lines), year) == Ok([])
  {
    if lines != [] {
      var init := lines[..|lines| - 1];
      assert forall k | 0 <= k < |init| :: init[k] == lines[k];
      BlankTextGivesNothing(init, year);
    }
  }
}
