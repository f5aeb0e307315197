# SproutCore calendar: `SC.DateTime`, `SC.Scanner` and `SC.Time` in Dafny

This project models the date/time value type of the SproutCore calendar
framework and the string scanner its parser uses:

- `SC.Scanner` (module `Scanner`, file `scanner.dfy`) is a cursor over an
  immutable string. It has `scan`, `scanInt`, `skipString` and `scanArray`,
  and its four errors become a `Result`.
- `SC.DateTime` (module `DateTimes`, file `datetime.dfy`) wraps one host
  `Date`. It covers the generic getter and setter, `_rawChange`, the
  cascading `_change`, `change`, `_advance`, `advance`,
  `_beginning_of_week`, `beginning_of_week`, `copy`, freezing, `isLeapYear`,
  `daysInMonth`, `compare`, `compareDate`, `compareTime` and `isToday`.
- The formatter `pad`, `_toFormattedString` and `toFormattedString`, shared
  by both classes, is in module `Format` (file `format.dfy`).
- The parser `createFromString` is in module `Parse` (file `parse.dfy`).
- `SC.Time` (module `Times`, file `time.dfy`) is the older variant. Its
  `_change` has no cascade, it has no freeze guard, and its `_advance`
  overwrites the caller's options object.

The host `Date` is modelled by its arithmetic (module `Calendar`, file
`calendar.dfy`), following section 15.9.1 of ECMA-262, 5.1 edition:

- An instant is an integer count of milliseconds since 1970-01-01 00:00:00.000.
- The local time-zone offset is zero and there is no daylight saving time.
- Fields come from the proleptic Gregorian calendar: Day, YearFromTime,
  MonthFromTime, DateFromTime, WeekDay (section 15.9.1.6), HourFromTime and
  the rest.
- Every setter recomposes the instant with MakeTime, MakeDay and MakeDate
  (sections 15.9.1.11 to 15.9.1.13), with one field replaced. An
  out-of-range value therefore carries into the coarser fields: month 13
  is January of the next year, and day 0 is the last day of the previous
  month.

JavaScript option bags become `map<Field, int>`. A key that is absent plays
the role of `SC.none(options.key)`. The localized name tables are a
`NameTables` record passed in by the caller; `Format.English` holds the
English tables. The current time ("now") is a parameter wherever the source
reads the clock.

Modelling choices:

- Writes in the fixed order. `_rawChange` and the older `_change` write
  year, month, day, hours, minutes, seconds and milliseconds in that order,
  and each write carries before the next is made (`Calendar.ApplyWrites`).
  So creating a date reads back the supplied fields if the starting day
  of month fits the months that the year and month writes pass through.
  A target month of 31 days always qualifies, whatever the starting date
  (`DateTimes.CreateInLongMonth`). The other read-back lemmas carry the
  condition as a precondition, and `DateTimes.CreateFromTheThirtyFirst`
  proves what happens when it fails.
- Unimplemented directives. `%j`, `%U`, `%W` and `%Z` return `undefined`,
  which `String.replace` inserts as the text "undefined". `%c`, `%x` and
  `%X` print host strings, which are a `HostText` parameter.
- Directives the parser skips. The parser ignores `c`, `I`, `j`, `U`, `W`,
  `w`, `x`, `X` and `Z`: they consume no input.
- Line terminators. The parser's pattern `/(?:\%([…])|(.))/g` does not match
  line terminators, so it steps over them in the format (`Parse.Tokenize`).
- Impossible dates are not rejected. The parser does not reject "31/02/1985"
  read with "%d/%m/%Y". It writes the year 1985, then February, then the day
  31, over the current date, and each write carries
  (`Parse.ImpossibleDateExample`). The result depends on the current date:
  - from the 1st to the 28th of any month, or from the 29th of February,
    the result is 1985-03-03;
  - from the 29th to the 31st of any other month, February 1985 itself
    carries into March before the day is written, and the result is
    1985-03-31.

  The time of day is the current one.

## Model

| member | source | states |
|---|---|---|
| `Scanner.ScanAt` | frameworks/calendar/datetime.js:58-63 | `scan(len)` succeeds exactly when `len` characters remain, returns exactly `len` characters, and fails only with the out-of-bounds error |
| `Scanner.ScanIntAt` | frameworks/calendar/datetime.js:72-77 | `scanInt(len)` succeeds exactly when the `len` characters at the cursor exist and are all decimal digits; the value is below 10^len |
| `Scanner.SkipAt` | frameworks/calendar/datetime.js:86-89 | `skipString(s)` succeeds exactly when `s` occurs at the cursor |
| `Scanner.ScanArrayFromSpec` | frameworks/calendar/datetime.js:98-106 | with the documented bounds test of `scan`: `scanArray` returns the first candidate that occurs at the cursor, and every earlier candidate fitted and missed. It fails with `NoArrayMatch` exactly when every candidate fitted and missed. It fails with out-of-bounds exactly when a candidate longer than the rest of the input comes up before any match, so later candidates are not tried |
| `Scanner.Scanner.Scan` | frameworks/calendar/datetime.js:58-63 | on failure the cursor does not move; on success the cursor advances by exactly `len`, and the cursor stays within the string |
| `Scanner.Scanner.ScanInt` | frameworks/calendar/datetime.js:72-77 | result as `ScanIntAt`; the cursor moves by `len` even when the digits check fails, and does not move on out-of-bounds |
| `Scanner.Scanner.SkipString` | frameworks/calendar/datetime.js:86-89 | result as `SkipAt`; the cursor moves by `|s|` even on a mismatch |
| `Scanner.Scanner.ScanArray` | frameworks/calendar/datetime.js:98-106 | result as `ScanArrayAt`; on success the cursor is past the matched candidate; on failure it is back at its starting position |
| `Scanner.ScanAsWrittenOverruns` | frameworks/calendar/datetime.js:59 | the bounds test as written never fires: on "ab", `scan(3)` returns "ab" and leaves the cursor at 3, past the end |
| `Calendar.DaysInMonth` | frameworks/calendar/datetime.js:240-252 | 28 to 31 days; for months 1 to 12, the gap between the month's first day and the next month's; February has 29 days exactly in leap years |
| `Calendar.DaysInMonthSpan` | frameworks/calendar/datetime.js:240-252 | `daysInMonth` equals the number of days from the first of the month to the first of the next month in the calendar (MakeDay) |
| `Calendar.LeapYearLength` | frameworks/calendar/datetime.js:229-232 | the 4/100/400 rule holds exactly for the years of 366 days |
| `Calendar.ReadField` | frameworks/calendar/datetime.js:284-296 | the getter gives month 1-12, day 1-31, dayOfWeek 0-6 (0 is Sunday), hours 0-23, minutes and seconds 0-59, ms 0-999 |
| `Calendar.WriteFieldCompose` | frameworks/calendar/datetime.js:190-196 | every host setter recomposes the instant from its fields with one field replaced, and does not range-check the value |
| `Calendar.ComposeDecompose` | frameworks/calendar/datetime.js:284-296 | the fields read from any instant compose back to that instant |
| `Calendar.DecomposeCompose` | frameworks/calendar/datetime.js:190-196 | valid fields composed into an instant read back unchanged |
| `Calendar.ReadWriteBack` | frameworks/calendar/datetime.js:276-296 | setting a field to the value the getter reads leaves the instant unchanged |
| `Calendar.ApplyWritesUnchanged` | frameworks/calendar/datetime.js:190-196 | a bag whose every value is the current value of its field leaves the instant unchanged |
| `Calendar.WriteCarry` | frameworks/calendar/datetime.js:190-192 | a year, month or day write that leaves the day past its month's end, but within the next month, lands in the next month |
| `Calendar.YearWrite` | frameworks/calendar/datetime.js:190 | writing the year keeps the month and day, except that February 29 becomes March 1 in a common year |
| `Calendar.WriteFieldReadBack` | frameworks/calendar/datetime.js:276-282 | a single-field write whose value keeps the fields valid reads back as written, and the other fields are unchanged |
| `Calendar.ApplyWritesSingle` | frameworks/calendar/datetime.js:278-281 | the one-field bag built by the setter makes exactly that field's write |
| `Calendar.ApplyWritesReadBack` | frameworks/calendar/datetime.js:185-199 | when no write in the fixed order carries, `_rawChange` reads back every supplied value, and every field not supplied is unchanged |
| `Calendar.MonthThirteenIsNextJanuary` | frameworks/calendar/datetime.js:191 | writing month 13 gives January of the next year, with the same day and time |
| `Calendar.DayZeroIsLastOfPreviousMonth` | frameworks/calendar/datetime.js:192 | writing day 0 gives the last day of the previous month, with the same time |
| `Calendar.MonthWriteOverflow` | frameworks/calendar/datetime.js:191 | writing month `m` while the day of month is one past `m`'s last day lands on the first of month `m + 1` |
| `DateTimes.Cascade` | frameworks/calendar/datetime.js:201-209 | supplied fields are kept; minutes are added iff hours are supplied without them; seconds iff hours or minutes are supplied without them; ms iff any of hours, minutes or seconds is supplied without them; every added value is 0; year, month and day are never added |
| `DateTimes.DateTime.constructor` | frameworks/calendar/datetime.js:150-172 | `create(opts)` is the cascading change of `opts` applied to the baseline date, unfrozen |
| `DateTimes.DateTime.Copy` | frameworks/calendar/datetime.js:179-183 | a fresh, unfrozen object on the same instant |
| `DateTimes.DateTime.Freeze` | frameworks/calendar/datetime.js:121 | the object is frozen and its instant is unchanged |
| `DateTimes.DateTime.RawChange` | frameworks/calendar/datetime.js:185-199 | a frozen object throws `FrozenError` before touching the date; otherwise the supplied fields are written in the fixed order |
| `DateTimes.DateTime.ChangeInPlace` | frameworks/calendar/datetime.js:201-209 | `_change` is `_rawChange` of the cascaded bag, with the same frozen guard |
| `DateTimes.DateTime.Change` | frameworks/calendar/datetime.js:220-222 | a fresh, unfrozen object holding the cascading change; the receiver is untouched, even when frozen |
| `DateTimes.DateTime.Set` | frameworks/calendar/datetime.js:276-282 | the setter writes exactly one field without cascade, or throws on a frozen object |
| `DateTimes.DateTime.Get` | frameworks/calendar/datetime.js:284-296 | the day read is within its month's length |
| `DateTimes.DateTime.ToFormattedString` | frameworks/calendar/datetime.js:407-410 | formats the receiver's instant; a format without '%' comes back unchanged |
| `DateTimes.DateTime.IsLeapYear` | frameworks/calendar/datetime.js:229-232 | true exactly when February of the current year has 29 days (a year of 366 days, by `Calendar.LeapYearLength`) |
| `DateTimes.DateTime.DaysInMonth` | frameworks/calendar/datetime.js:240-252 | the number of days from the first of the current month to the first of the next |
| `DateTimes.DateTime.AdvanceInPlace` | frameworks/calendar/datetime.js:321-325 | every target is the current field value plus the delta, all read before any write, then the cascading change is applied; a frozen object throws and is unchanged |
| `DateTimes.DateTime.Advance` | frameworks/calendar/datetime.js:334-336 | `_advance` applied to a fresh, unfrozen copy; the receiver is untouched |
| `DateTimes.DateTime.BeginningOfWeekInPlace` | frameworks/calendar/datetime.js:301-309 | back `DaysToMonday` days, then the clock cleared; a frozen object throws |
| `DateTimes.DateTime.BeginningOfWeek` | frameworks/calendar/datetime.js:317-319 | the same on a fresh copy |
| `DateTimes.DateTime.Compare` | frameworks/calendar/datetime.js:422-426 | -1, 0 or 1 exactly as the receiver's instant is before, at or after the other's |
| `DateTimes.DateTime.CompareDate` | frameworks/calendar/datetime.js:436-440 | comparing (year, month, day) lexicographically orders the two dates as their day numbers |
| `DateTimes.DateTime.CompareTime` | frameworks/calendar/datetime.js:450-454 | comparing (hours, minutes, seconds, ms) lexicographically orders the two times of day, whatever the dates |
| `DateTimes.DateTime.IsToday` | frameworks/calendar/datetime.js:462-464 | true exactly when the receiver falls on the same day as `now` |
| `DateTimes.CompareSeqSpec` | frameworks/calendar/datetime.js:439 | the array comparison gives 0 exactly on equal arrays, and swapping its arguments negates it |
| `DateTimes.CompareDateOrder` | frameworks/calendar/datetime.js:436-440 | the field-wise date comparison equals the comparison of day numbers |
| `DateTimes.CompareTimeOrder` | frameworks/calendar/datetime.js:450-454 | the field-wise time comparison equals the comparison of times within the day |
| `DateTimes.ChangeReadBack` | frameworks/calendar/datetime.js:201-209 | when the writes do not carry, `_change` leaves the supplied fields, the finer time fields reset to 0, and everything else kept |
| `DateTimes.CreateReadBack` | frameworks/calendar/datetime.js:150-172 | `create` or `change` with all seven fields reads them back, provided the baseline day of month fits the intermediate months |
| `DateTimes.SetEachReadBack` | frameworks/calendar/datetime.js:276-282 | the seven `set` calls, year first, read back the values under the same baseline condition |
| `DateTimes.SetEachIsCreate` | frameworks/calendar/datetime.js:276-282 | the seven `set` calls make the same writes as one `create` with all the fields |
| `DateTimes.CreateInLongMonth` | frameworks/calendar/datetime.js:150-172 | creating a date in a month of 31 days with all seven fields reads them back, whatever the baseline |
| `DateTimes.ThirtyFirstOfFebruary` | frameworks/calendar/datetime.js:185-199 | writing the 31st of February of a common year gives March 3, or March 31 when the baseline is on the 29th to 31st of a month other than February; the time is the baseline's |
| `DateTimes.CreateFromTheThirtyFirst` | frameworks/calendar/datetime.js:185-199 | from a baseline on the 31st, creating a date in a 30-day month lands in the following month: the month is written while the old day is in place |
| `DateTimes.ChangeExamples` | frameworks/calendar/tests/datetime.js:44-49 | on 1985-05-08 01:00:22.925, `change({hours: 3})`, `change({minutes: 1})` and `change({seconds: 30})` give 03:00:00.000, 01:01:00.000 and 01:00:30.000 |
| `DateTimes.AdvanceReadBack` | frameworks/calendar/datetime.js:321-325 | advancing by every field reads back the field-wise sum when the sum is valid and the baseline day fits |
| `DateTimes.AdvanceExample` | frameworks/calendar/tests/datetime.js:51-55 | 1985-05-08 01:00:22.925 plus 1 in every field is 1986-06-09 02:01:23.926 |
| `DateTimes.AdvanceDays` | frameworks/calendar/datetime.js:321-325 | advancing by `n` days moves the instant by exactly `n` days, for any `n`, across month and year ends |
| `DateTimes.AdvanceMilliseconds` | frameworks/calendar/datetime.js:321-325 | advancing by `n` ms moves the instant by exactly `n` |
| `DateTimes.AdvanceHoursResetsClock` | frameworks/calendar/datetime.js:321-325 | advancing by hours goes through the cascade, so minutes, seconds and ms become 0 |
| `DateTimes.BeginningOfWeekSpec` | frameworks/calendar/datetime.js:301-309 | the result is a Monday at 00:00:00.000, at most 7 days before the instant and not after it |
| `DateTimes.BeginningOfWeekUnique` | frameworks/calendar/datetime.js:301-309 | that Monday is unique, so every instant of one week has the same beginning of week |
| `DateTimes.BeginningOfWeekIdempotent` | frameworks/calendar/datetime.js:317-319 | the beginning of week of a beginning of week is itself |
| `DateTimes.BeginningOfWeekExample` | frameworks/calendar/tests/datetime.js:57-61 | Wednesday 1985-05-08 01:00:22.925 goes back to Monday 1985-05-06 00:00:00.000 |
| `Format.JsRem` | frameworks/calendar/datetime.js:365 | JavaScript's `%`: the remainder takes the sign of the dividend |
| `Format.PadLeadingZero` | frameworks/calendar/datetime.js:342 | `pad` puts a '0' in front of exactly the numbers 0 to 9 |
| `Format.PadTwoDigits` | frameworks/calendar/datetime.js:342 | `pad` of 0 to 99 is two decimal digits that read back as the number |
| `Format.ExpandTwoDigits` | frameworks/calendar/datetime.js:344-370 | for valid fields, `%d`, `%H`, `%I`, `%m`, `%M` and `%S` print exactly two digits, and so does `%y` for a year that is not negative |
| `Format.FormatInstant` | frameworks/calendar/datetime.js:407-410 | a format without '%' is its own formatted text |
| `Format.Hour12Spec` | frameworks/calendar/datetime.js:354 | `%I` gives 12 for hours 0 and 12, and hours mod 12 otherwise |
| `Format.FormatCopiesText` | frameworks/calendar/datetime.js:407-410 | text without '%' is copied verbatim |
| `Format.FormatDirective` | frameworks/calendar/datetime.js:344-370 | a '%' and a directive letter are replaced by the directive's text |
| `Format.FormatPercent` | frameworks/calendar/datetime.js:368 | for any following text, `%%` prints a single '%' and formatting resumes after the pair, so `%%a` prints `%a` |
| `Format.FormatExample` | frameworks/calendar/tests/datetime.js:63-68 | the format test prints "Wed Wednesday May May 08 01 01 05 00 AM 22 3 85 1985 %a" |
| `Parse.Tokenize` | frameworks/calendar/datetime.js:513-516 | every token is a directive letter or a single character that is not a line terminator |
| `Parse.TokenizeSpell` | frameworks/calendar/datetime.js:513-516 | the format's tokens spell the whole format except its line terminators |
| `Parse.Step` | frameworks/calendar/datetime.js:518-542 | reading one token never moves the cursor back, and never past the end of the text |
| `Parse.Run` | frameworks/calendar/datetime.js:516-542 | reading the tokens in turn never moves the cursor back, and never past the end of the text |
| `Parse.Finish` | frameworks/calendar/datetime.js:548-559 | a date comes back whenever no weekday was read, and a date that comes back has the weekday read, if any |
| `Parse.CreateFromStringAt` | frameworks/calendar/datetime.js:512-560 | a format with nothing to read gives the current date back, whatever the text |
| `Parse.ReadAll` | frameworks/calendar/datetime.js:516-542 | the loop over the tokens, driving one scanner, stops at the first scanner error and gathers what `Run` gathers |
| `Parse.Build` | frameworks/calendar/datetime.js:548-559 | PM adds 12 hours mod 24 only when hours were read; null exactly when a weekday was read and differs from the created date's |
| `Parse.CreateFromString` | frameworks/calendar/datetime.js:512-560 | null exactly on a scanner error or a weekday mismatch; otherwise a fresh, unfrozen date created from the gathered bag over `now` |
| `Parse.IgnoresTrailingText` | frameworks/calendar/datetime.js:512-560 | text after what the format reads is ignored: the input need not be used up |
| `Parse.FormatReadsBack` | frameworks/calendar/datetime.js:512-560 | for a format of fixed-width numeric directives, reading the formatter's output consumes it exactly and gathers the printed fields |
| `Parse.ParseFormatted` | frameworks/calendar/datetime.js:512-560 | parsing the formatter's output gives a date whose read fields are the printed ones and whose finer time fields are reset |
| `Parse.ParseFormattedFully` | frameworks/calendar/datetime.js:512-560 | a format naming year down to seconds reads back the printed instant with its ms cleared, given the baseline day condition |
| `Parse.ShortYearReadsBack` | frameworks/calendar/datetime.js:536 | `%y` reads two digits and adds 1900 above 70, else 2000; the year read is the printed one exactly for 1971 to 2070 |
| `Parse.HourWithMeridian` | frameworks/calendar/datetime.js:529-551 | "%H%p" on "hhAM"/"hhPM" sets the hours to h, or to (h + 12) mod 24 for PM, over `now`, with minutes, seconds and ms reset |
| `Parse.LoneWeekday` | frameworks/calendar/datetime.js:518-557 | with the documented bounds test of `scan`: "%A" accepts "Sunday" exactly when `now` is a Sunday; "Friday" always fails, because "Tuesday" runs past the end of the input first |
| `Parse.CreateFromStringExample` | frameworks/calendar/tests/datetime.js:82-87 | "08/05/1985 01:00:22" with "%d/%m/%Y %H:%M:%S" gives 1985-05-08 01:00:22.000 whatever the current date |
| `Parse.ParseFormattedLongMonth` | frameworks/calendar/datetime.js:512-560 | a format naming the year down to the seconds reads back any printed instant of a 31-day month with its ms cleared, whatever the current date |
| `Parse.ImpossibleDateExample` | frameworks/calendar/datetime.js:512-560 | "31/02/1985" with "%d/%m/%Y" gives 1985-03-03, or 1985-03-31 when the current date is the 29th to 31st of a month other than February, at the current time of day |
| `Times.Time.constructor` | frameworks/calendar/time.js:17-32 | `create(opts)` writes the supplied fields over the baseline without cascade |
| `Times.Time.Clone` | frameworks/calendar/time.js:34-38 | a fresh object on the same instant |
| `Times.Time.ChangeInPlace` | frameworks/calendar/time.js:40-52 | the supplied fields are written in the fixed order: nothing is reset and nothing is guarded |
| `Times.Time.Change` | frameworks/calendar/time.js:54-56 | `_change` on a fresh clone; the receiver is untouched |
| `Times.Time.Set` | frameworks/calendar/time.js:77-84 | the setter writes exactly one field |
| `Times.Time.Get` | frameworks/calendar/time.js:86-97 | the day read is within its month's length |
| `Times.Time.IsLeapYear` | frameworks/calendar/time.js:58-61 | true exactly when February of the current year has 29 days (a year of 366 days, by `Calendar.LeapYearLength`) |
| `Times.Time.DaysInMonth` | frameworks/calendar/time.js:63-75 | the number of days from the first of the current month to the first of the next |
| `Times.Time.AdvanceInPlace` | frameworks/calendar/time.js:120-123 | the caller's options object is left holding delta plus current value for each key, and those values are written without cascade |
| `Times.Time.Advance` | frameworks/calendar/time.js:125-127 | the same on a fresh clone; the caller's options object is still overwritten |
| `Times.Time.BeginningOfWeekInPlace` | frameworks/calendar/time.js:103-111 | reaches the same Monday 00:00:00.000 as `SC.DateTime`, so `BeginningOfWeekSpec` applies |
| `Times.Time.BeginningOfWeek` | frameworks/calendar/time.js:113-115 | the same on a fresh clone |
| `Times.Time.ToFormattedString` | frameworks/calendar/time.js:168-199 | formats with the instance's name tables; a format without '%' comes back unchanged |
| `Times.Transform` | frameworks/calendar/time.js:211-213 | null exactly for a missing value, otherwise the value's formatted text |
| `Times.ChangeKeepsOthers` | frameworks/calendar/time.js:40-52 | when the writes fit, every field not supplied is unchanged |
| `Times.HoursChangeDiffers` | frameworks/calendar/time.js:40-52 | changing the hours alone keeps the minutes, seconds and ms, so the result differs from `SC.DateTime`'s whenever the minutes are not 0 |
| `Times.CreateReadBack` | frameworks/calendar/tests/time.js:23-42 | create, change and the seven `set` calls with all fields read them back under the baseline day condition |
| `Times.AdvanceExample` | frameworks/calendar/tests/time.js:44-48 | the options object {1, 1, 1, 1, 1, 1, 1} on 1985-05-08 01:00:22.925 ends up holding, and writing, 1986-06-09 02:01:23.926 |
| `Times.ReusedOptionsGrow` | frameworks/calendar/time.js:120-123 | advancing again with the same options object adds the current day again to the entry the first call left |

## Left out

- Time zones and daylight saving time. The local offset is zero, so local
  time is UTC.
- TimeClip and NaN dates. Instants are unbounded integers, and every year is
  allowed, including years up to 0. The host's limit of ±8.64e15 ms is not
  modelled.
- `toString`, `toDateString` and `toTimeString` (`%c`, `%x`, `%X`). Their
  texts are an opaque `HostText` parameter.
- Reading the clock. `new Date()` in `init` and in `isToday` becomes the
  `baseline`/`now` parameter.
- Fractional deltas and non-number values in option bags. Bags map fields to
  integers, so a key that is not a calendar field (`hour`) cannot be
  written.
- `SC.DateTime.transform`. It is binding glue that dispatches on
  `kindOf`/`typeOf`.
- Key-value observing and `unknownProperty` dispatch. These become the
  enum-keyed `Get`/`Set`.
- The `console.log` in the parse failure path.
- The localization lookup `.loc().w()`. The tables are a parameter.
- Per-instance name tables set through `SC.Time.create({dayNames: …})` and
  then lost by `clone`. The model's `Clone` keeps the receiver's tables.
- `Scanner.Scanner.ScanInt`: requires `len > 0`. With `len` 0 the source
  returns `parseInt("")`, which is NaN, and the model has no NaN.
- `Scanner.Scanner.Scan`: the bounds test is the documented one, failing when
  `scanLocation + len > length`. The written test reads an undefined
  property and never fires (see Findings). As written, `scanArray`
  therefore tries every candidate, so a day or month name at the end of the
  input can parse in the program and fails in the model. "08 May" with
  "%d %B" parses in the program, which skips "January" to "April" and
  matches "May", while the model stops out of bounds at "January".
  "Friday" with "%A" parses in the program when the current date is a
  Friday (on other days its weekday check fails there too), while the
  model stops out of bounds at "Tuesday".
- Strings are sequences of Unicode scalar values. JavaScript's `substr`,
  `scanLocation` and the format pattern's `.` count UTF-16 code units, so
  a character outside the Basic Multilingual Plane, such as "😀", is one
  position in the model and two in the program.
- The `date` option is wrapped, not copied (frameworks/calendar/datetime.js:143-146
  and 153, frameworks/calendar/time.js:20). Later changes to the object
  therefore show through in the caller's `Date`. The model's `baseline`
  is an integer, so that sharing is not modelled.

## Findings

| source | as written | input that shows it | evidently intended | confidence | as-written member | corrected member |
|---|---|---|---|---|---|---|
| frameworks/calendar/datetime.js:59 | compares against `this.length`, which a scanner never defines, so the out-of-bounds error is never thrown; `substr` returns a short string and the cursor moves past the end; `scanArray` then tries every candidate | `scan(3)` on "ab" returns "ab" with the cursor at 3 | throw the out-of-bounds error when fewer than `len` characters remain, as the doc comment at line 55 says; the model's `scanArray` and the parser follow this bounds test | high, not executed | `Scanner.ScanAsWrittenOverruns` | `Scanner.Scanner.Scan` |
