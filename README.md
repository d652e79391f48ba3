# Shift-list parser of the work scheduler

The work scheduler reads a text file of work shifts and turns each line into a
Google Calendar event. This project models the part that turns the text into
data: `parse_input` in `schedule.py`. It also proves what that function
promises about its result.

A line of the shift list reads `<month>/<day> <start>–<end>`, for example
`3/14 9:00a–5:30p`. The two times are 12-hour clock readings whose `am`/`pm`
is cut down to `a`/`p`, and an EN DASH (U+2013) separates them.

`parse_input` handles the text as follows:
- It splits the text at line breaks and skips blank lines.
- It splits each remaining line at its single space, and the times at the single en dash.
- It builds `"<date> <time>m <current year>"` for both times and reads each one with
  `datetime.strptime(..., '%m/%d %I:%M%p %Y')`.
- It returns the list of `[start.isoformat(), end.isoformat()]` pairs.

The first line that cannot be unpacked or read ends the call with a `ValueError`.

The project has five modules:

- `Wrappers` (`wrappers.dfy`): the `Option` and `Result` types.
- `Text` (`text.dfy`): the Python string built-ins involved.
  - `str.split` with a one-character separator, `str.strip`, `str.isspace`.
  - `str(n)` and `int(s)` for decimal numerals.
- `DateTimes` (`datetimes.dfy`): the calendar behind a valid `datetime`, the 12-hour to
  24-hour conversion, `isoformat()`, and a reader of its output.
- `Strptime` (`strptime.dfy`): `strptime` for the one format used, in the C locale.
  - CPython compiles the format to a regular expression. The model reads numbers as that
    expression does: maximal digit runs with range checks, and `%d`'s extra ` [1-9]`
    alternative.
  - Whitespace in the format matches any non-empty run of whitespace.
  - Matching ignores case.
  - After the match, the date must exist in the calendar.
- `Schedule` (`schedule.dfy`): `parse_input` itself.
  - The loop over the lines is a method, `ParseLines`, proved against the specification
    function `ParseAll`.
  - The per-line work is made of functions.

## Model

| member | source | states |
|---|---|---|
| Schedule.ParseInput | schedule.py:47-60 | the result is the list of pairs of the non-blank lines of `text.split('\n')`, in order, or the error of the first of those lines that fails |
| Schedule.ParseLines | schedule.py:50-60 | the loop skips blank lines, appends each other line's pair and stops at the first error; its result equals collecting the outcomes of the kept lines |
| Schedule.NonBlank | schedule.py:50-52 | the kept lines are no more than the input lines and none of them is blank |
| Schedule.NonBlankAppend | schedule.py:50-52 | filtering keeps the order of the lines: the kept lines of two lists in a row are those of the first, then those of the second |
| Schedule.NonBlankKeeps | schedule.py:50-52 | every line that is not blank is kept |
| Schedule.NonBlankCount | schedule.py:50-52 | there are exactly as many kept lines as there are indices of lines that are not blank |
| Schedule.NonBlankSkips | schedule.py:51-52 | a blank line anywhere in the list changes nothing |
| Schedule.BlankLineIgnored | schedule.py:50-52 | inserting a blank line between two parts of the text leaves the kept lines unchanged |
| Schedule.BlankTextGivesNothing | schedule.py:48-52 | a text made only of blank lines gives the empty list |
| Text.StripEmptyIffBlank | schedule.py:51 | `line.strip() == ''` holds exactly when every character is whitespace |
| Text.StripShape | schedule.py:51 | `s.strip()` is a slice of `s`; everything cut before and after it is whitespace, and it neither starts nor ends with whitespace |
| Schedule.ParseAllOk | schedule.py:50-60 | the list is accepted exactly when every kept line is, and then pair `k` is line `k`'s pair |
| Schedule.ParseAllFirstError | schedule.py:50-60 | a refused list reports the error of the first failing line, and every earlier line is accepted |
| Schedule.Collect | schedule.py:50-60 | collecting outcomes that all succeed gives one value per outcome |
| Schedule.ParseAll | schedule.py:50-60 | an accepted list of kept lines gives one pair per line |
| Schedule.CollectOk | schedule.py:59-60 | collecting the outcomes succeeds exactly when all of them succeed, and keeps their values in order |
| Schedule.CollectFirstError | schedule.py:50-60 | a failed collection carries the first error, and every earlier outcome succeeded |
| Schedule.CollectStops | schedule.py:50-60 | once a line has failed, later lines do not change the result |
| Schedule.ShiftTimes | schedule.py:53-58 | a line without exactly one space fails with the unpacking error "expected 2, got n"; an accepted line yields two valid date-times with zero seconds |
| Schedule.ShiftTimesOf | schedule.py:53-58 | a line made of a date token, a start and an end reads those three tokens |
| Schedule.TimesNeedOneDash | schedule.py:54 | a times token with other than one en dash fails with the unpacking error for that count |
| Schedule.HyphenRejected | schedule.py:54 | a plain hyphen between the times is refused with "expected 2, got 1" |
| Schedule.ReadPairOutcome | schedule.py:57-58 | both date-times when both stamps are read; otherwise the error of the first refused stamp, the start's before the end's |
| Schedule.StampTail | schedule.py:55-58 | where `%p\s+%Y` matches the end of a stamp, `str(year)` has four digits and is the year read, the time token ends with `a` or `p` in either case, and that letter is the meridiem read |
| Schedule.ParseLine | schedule.py:53-59 | a line's pair exists exactly when both times are read; the ISO strings read back as exactly those date-times; an error is passed on unchanged |
| Schedule.StampParsed | schedule.py:49-58 | an accepted stamp carries the call's year, which has four digits; the time ends with `a` or `p` in either case, and that letter decides whether the hour is 12 or later |
| Schedule.EarlyYearRejected | schedule.py:49-58 | before the year 1000 no line is accepted, because `%Y` needs four digits |
| Schedule.MeridiemLetters | schedule.py:54-58 | both times of an accepted line end with `a` or `p`, which decides morning or afternoon |
| Schedule.StampDate | schedule.py:55-58 | every stamp of a date token without a trailing `/` reads the same month and day |
| Schedule.SameMonth | schedule.py:53-58 | the start and end of every accepted line are in the call's year and in the same month, because the month is always read from the date token |
| Schedule.SameDate | schedule.py:53-58 | the start and end of an accepted line are in the call's year and on the same day, provided the date token does not end with `/` |
| Schedule.TrailingSlashSplitsDate | schedule.py:53-58 | with a trailing `/`, the day comes from the first digit of each time token and the clock from the rest of it, so one line can give a start and an end on different days |
| Schedule.StampReads | schedule.py:55-58 | a stamp whose numerals follow the grammar is accepted exactly when its date exists, and then gives those fields with the 12-hour clock converted |
| Schedule.FormatLineParses | schedule.py:53-59 | every shift within one day of a four-digit year has a line that reads back as exactly that shift |
| Schedule.InvalidDateRejected | schedule.py:57 | a date that does not exist in the calendar, such as 30 February, refuses the line with the out-of-range error of its start |
| Schedule.MonthOutOfRangeRejected | schedule.py:57 | a month numeral outside 1-12 refuses the line with the no-match error of its start |
| Schedule.HourOutOfRangeRejected | schedule.py:57 | an hour numeral outside 1-12 refuses the line with the no-match error of its start |
| Schedule.MinuteOutOfRangeRejected | schedule.py:57 | a minute numeral outside 0-59 refuses the line with the no-match error of its start |
| Strptime.Parse | schedule.py:57-58 | the result is a valid date-time with zero seconds exactly when the pattern matches and the date exists; its fields are the captured ones, with the hour converted to the 24-hour clock |
| Strptime.MatchFormat | schedule.py:57-58 | the captured month, day, hour, minute and year lie within their directives' ranges, and the month and day are those `%m/%d` reads |
| Strptime.MatchSpelled | schedule.py:57-58 | everything the pattern matches is spelled by its grammar: month numeral, `/`, day numeral or space and digit, whitespace, hour numeral, `:`, minute numeral, `am`/`pm`, whitespace, four digits; the fields are the values those spell |
| Strptime.ParseSpelled | schedule.py:57-58 | data `strptime` accepts is of the grammar, and the date-time holds the values its numerals spell with the hour on the 24-hour clock |
| Strptime.MatchComplete | schedule.py:57-58 | the converse of `MatchSpelled`: data spelled out as the format's grammar, with the day written as a numeral 1-31 or as a space and a digit 1-9, matches with exactly the fields written |
| Strptime.DatePartSpaceDay | schedule.py:57-58 | after the `/`, a space followed by a digit 1-9 is read as the day |
| Strptime.MonthRejected | schedule.py:57-58 | a month numeral outside 1-12 leaves the data unmatched |
| Strptime.HourRejected | schedule.py:57-58 | an hour numeral outside 1-12 leaves the data unmatched |
| Strptime.MinuteRejected | schedule.py:57-58 | a minute numeral outside 0-59 leaves the data unmatched |
| Strptime.DatePartFrame | schedule.py:55-58 | for a date token without a trailing `/`, what follows the space does not change the month and day read |
| DateTimes.DaysInMonth | schedule.py:57-58 | every month has 28 to 31 days |
| DateTimes.MonthLengths | schedule.py:57-58 | every month of a year in range has a 28th; only February lacks the 30th; 29 February exists exactly in leap years; exactly seven months have a 31st |
| DateTimes.To24Hour | schedule.py:57-58 | the hour is in 0-23, it is 12 or later exactly when the meridiem is `pm`, and it agrees with the 12-hour reading modulo 12 |
| DateTimes.To24HourInjective | schedule.py:57-58 | different 12-hour readings give different hours |
| DateTimes.IsoFormat | schedule.py:59 | `isoformat()` is 19 characters with `-`, `-`, `T`, `:`, `:` at positions 4, 7, 10, 13 and 16 |
| DateTimes.IsoRoundTrip | schedule.py:59 | `isoformat()` of a valid date-time reads back as that date-time |
| DateTimes.IsoCanonical | schedule.py:59 | every string the reader accepts is the `isoformat()` of what it reads |
| DateTimes.IsoDatePrefix | schedule.py:59 | two ISO strings share their first ten characters exactly when their dates agree |
| Text.Split | schedule.py:50-54 | `s.split(sep)` has one piece more than `s` has separators, and no piece holds the separator |
| Text.JoinSplit | schedule.py:50-54 | joining the pieces with the separator gives back the string |
| Text.SplitJoin | schedule.py:50-54 | splitting a join of separator-free pieces gives back the pieces |
| Text.SplitTwo | schedule.py:53-54 | two separator-free pieces joined by one separator split back into those two |
| Text.Decimal | schedule.py:55-56 | `str(year)` is a numeral of ASCII digits without a leading zero whose value is the year |
| Text.DecimalLength | schedule.py:55-58 | `str(year)` has four digits exactly when the year is 1000-9999 |

## Left out

- `get_creds`, `create_event` and `main` are not part of this model. Neither are the
  command-line parsing and the Google Calendar calls. They are I/O against services
  outside the program.
- `datetime.now().year` (schedule.py:49) reads the clock. It becomes the parameter `year`
  of `ParseInput`, which may be any natural number.
- `Schedule.ParseLines` takes the per-line reader as a function parameter. `ParseInput`
  passes it `ParseLine` for the year.
- The model raises no exception. A `ValueError` becomes an `Err` result that names its
  cause:
  - the pieces an unpacking expected and got;
  - a failed match;
  - a date missing from the calendar.
  The message text is not modelled.
- `Strptime.Parse`: the "unconverted data remains" error becomes the no-match error.
  The model matches the pattern against the whole of the data at once.
- `Strptime.Parse`: digits are ASCII `0`-`9` only. Python's `\d` also matches other
  Unicode decimal digits. The model leaves those out.
- `Strptime.Parse`: `%p` is `am`/`pm` as in the C or English locale. Other locales are
  not modelled.
- `Strptime.Parse`: `strptime` also computes the weekday and day of the year. The result
  holds neither, because `isoformat()` does not show them.
- `Schedule.SameDate` holds only when the date token does not end with `/`.
  `Schedule.TrailingSlashSplitsDate` shows why this proviso is needed: for
  `03/ 5<TAB>9:00a–6<TAB>5:00p` the source gives a start and an end on different days.
- No example is proved on its literal text. Examples such as `13/01 ...`, `9:60a` and a
  hyphen in place of the en dash are covered by general lemmas:
  - `Schedule.MonthOutOfRangeRejected`
  - `Schedule.MinuteOutOfRangeRejected`
  - `Schedule.HourOutOfRangeRejected`
  - `Schedule.HyphenRejected`
