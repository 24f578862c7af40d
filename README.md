# ReminderDiscordBot reminder logic in Dafny

The bot posts two weekly reminders to a Discord channel: one about the Wednesday
activity (at 19:00) and one about the Sunday lesson (at 12:00). Each reminder is a
role mention, a fixed phrase, and the rows of a Google spreadsheet whose first cell
holds the date in `M/D/YYYY` form. This project models the deterministic part of
`main.go` and proves properties of it:

- `GoTime` (`go_time.dfy`) models what the bot uses from Go's `time` package. A day is
  a number, with day 0 being 1 January 1970. `DateOfDay` converts it to a proleptic
  Gregorian date, as `Time.Date()` does. `DaysSinceEpoch` converts back. `WeekdayOf`
  gives `int(Time.Weekday())`, with Sunday = 0. `AtClock` and `ClockAt` model
  `time.Date(y, m, d, h, 0, 0, 0, loc)`. `AddDays` models `Time.AddDate(0, 0, n)`. The
  lemmas prove that the two conversions are inverse bijections and that adding days
  rolls over month and year ends (`NextDate`).
- `Strconv` (`strconv.dfy`) models `strconv.Itoa`. `ParseInt` reads its output back,
  which proves that no two integers share a rendering.
- `Schedule` (`schedule.dfy`) models `findNextActivity` and `findNextLesson`. The current
  instant is a parameter rather than a read of the local clock.
- `Spreadsheet` (`spreadsheet.dfy`) models `parseSpreadsheet`. The key is the date
  rendered as an unpadded `M/D/YYYY`. The method loops over the rows and builds the
  result with repeated appends, as the Go code does. It is proved equal to
  `MatchedText`, a recursive function that specifies it. The spreadsheet request is a
  function parameter, `fetch(id, range)`, that returns the grid of cell values.
- `Reminders` (`reminders.dfy`) models `getDateInfo`, which picks the cell range by
  weekday, and `sendSunReminder` and `sendWedReminder`. The two reminder methods
  return the message they would hand to `ChannelMessageSend`.

What the code does, as modelled:

- A row of three or more cells is rendered with a separator after its third cell
  too, so a full row ends in ` | ` (`FullRowScenario`).
- On a Wednesday, `findNextActivity` returns today at 19:00 even after 19:00, so the
  result can be earlier than the current instant (`ActivityCanBeInThePast`).
- On a Sunday, `findNextLesson` returns the Sunday a week later, even before 12:00
  (`LessonOnSundayIsNextWeek`).
- `parseSpreadsheet` concatenates the text of every matching row, in grid order
  (`MatchedTextAppend`, `TwoMatchesScenario`).
- A failed spreadsheet request makes the code dereference a nil response, which
  panics. That path is under "Left out".

## Model

The separator is a space, a pipe and a space.

| member | source | states |
|---|---|---|
| `GoTime.WeekdayOf` | main.go:323 | The weekday number of a day is in 0..6. |
| `GoTime.EpochIsThursday` | main.go:323 | Day 0 is 1 January 1970, which is weekday 4 (Thursday). |
| `GoTime.MarchFifth2024IsTuesday` | main.go:323 | 5 March 2024 is a valid date, day 19787, and a Tuesday. |
| `GoTime.LeapDay2000` | main.go:120 | 29 February 2000 is a valid date (2000 is divisible by 400) and is day 11016. |
| `GoTime.NoLeapDay1900` | main.go:120 | 29 February 1900 is not a valid date (1900 is divisible by 100 but not by 400). 1 March 1900 is day -25508. 1 January 1900 is day -25567, a Monday. |
| `GoTime.WeekdayShift` | main.go:323 | Moving n days ahead moves the weekday n places ahead, modulo 7. |
| `GoTime.DateOfDay` | main.go:120 | `Time.Date()` returns a valid calendar date (month 1..12, day within the month) that converts back to the same day number. |
| `GoTime.DaysSinceEpochInjective` | main.go:120 | Distinct valid dates have distinct day numbers. |
| `GoTime.DateOfDaysSinceEpoch` | main.go:120 | Converting a valid date to its day number and back gives the same date. With `DateOfDay`, this makes the two conversions inverse bijections. |
| `GoTime.ClockAt` | main.go:321 | `time.Date(y, m, d, h, 0, 0, 0, loc)` gives an instant on that date at h:00:00. |
| `GoTime.AtClock` | main.go:321 | Models the rebuild at 19:00 here and at 12:00 on line 341. The rebuilt instant is on `t`'s own day. It is a valid instant exactly when the hour is in 0..23. For a valid `t`, `t` is before it exactly when `t`'s hour is earlier than the given hour. |
| `GoTime.AtClockRebuildsDate` | main.go:321 | Rebuilding `now` from its own year, month and day at a given hour gives the same day at that hour, 0 minutes and 0 seconds. |
| `GoTime.AddDays` | main.go:328 | `AddDate(0, 0, n)` keeps the time of day, moves the day by exactly n and the weekday by n modulo 7. |
| `GoTime.NextDate` | main.go:328 | The next date is valid and is exactly one day later. It rolls over to the next month or year at the end of a month or year. |
| `GoTime.DateOfNextDay` | main.go:328-330 | The calendar date of day z + 1 is the next date after the date of day z. This is the normalisation across month and year ends. |
| `GoTime.NextDates` | main.go:348 | Stepping a valid date forward n times, one day at a time, gives a valid date exactly n days later. With `DateOfDaysSinceEpoch`, it is the calendar date of day z + n. |
| `GoTime.Before` | main.go:220 | Defines `Time.Before` on instants as the lexicographic order on day, hour, minute and second. Its properties are stated by `BeforeIsEarlierSecond` and `BeforeIsStrictTotalOrder`. |
| `GoTime.BeforeIsEarlierSecond` | main.go:220 | On valid instants, `a` is before `b` exactly when `a` stands for an earlier second since the epoch. |
| `GoTime.BeforeIsStrictTotalOrder` | main.go:220 | `Before` is irreflexive, asymmetric and transitive, and any two distinct instants are ordered one way or the other. |
| `Strconv.NatToDecimal` | main.go:121 | A natural number is rendered as a non-empty string of decimal digits with no leading zero. |
| `Strconv.Itoa` | main.go:121 | `strconv.Itoa` gives a non-empty string with no '/'. It starts with '-' exactly when the number is negative. |
| `Strconv.DecimalRoundTrip` | main.go:121 | Reading back the digits of n gives n. |
| `Strconv.ItoaRoundTrip` | main.go:121 | `ParseInt` reads back every integer from its `Itoa` rendering. |
| `Strconv.ItoaInjective` | main.go:121 | Distinct integers have distinct `Itoa` renderings. |
| `Schedule.FindNextActivity` | main.go:317-334 | The result is at 19:00:00 on a Wednesday, between 0 and 6 days after `now`'s day. |
| `Schedule.NextActivityIsFirstWednesday` | main.go:321-333 | The result's day is the first Wednesday on or after today. Today counts. |
| `Schedule.ActivityOnWednesdayIsToday` | main.go:325-331 | On a Wednesday the result is today at 19:00, whatever the current hour. |
| `Schedule.ActivityCanBeInThePast` | main.go:325-333 | On a Wednesday after 19:00:00, the result is earlier than `now`. |
| `Schedule.FindNextLesson` | main.go:337-351 | The result is at 12:00:00 on a Sunday, between 1 and 7 days after `now`'s day. |
| `Schedule.NextLessonIsFirstSundayAfter` | main.go:341-350 | The result's day is the first Sunday strictly after today. |
| `Schedule.LessonOnSundayIsNextWeek` | main.go:347-349 | On a Sunday the result is exactly 7 days later, never today. |
| `Schedule.MondayMorningScenario` | main.go:317-351 | From Monday 4 March 2024 (day 19786) at 10:00, the activity is Wednesday 6 March at 19:00 (day 19788) and the lesson is Sunday 10 March at 12:00 (day 19792). |
| `Spreadsheet.ParseSpreadsheet` | main.go:111-149 | The loop's result is the text of all rows whose first cell equals the key of `dateToFind`'s date, in grid order. That text is `MatchedText`. |
| `Spreadsheet.DateKey` | main.go:121 | Defines the key of a date: month, day and year in decimal with no padding, separated by '/'. `DateKeyInjective` and `KeyOfMarchFifth` state its properties. |
| `Spreadsheet.LookupKey` | main.go:120-121 | Defines the key `parseSpreadsheet` looks up for an instant: the key of the instant's calendar date. `LookupKeySameDay`, `LookupKeyOfDate` and `LookupMarchFifth` state its properties. |
| `Spreadsheet.RowText` | main.go:129-145 | Defines the text of one matching row. `RowTextOneCell`, `RowTextTwoCells`, `RowTextThreeCells` and `RowTextStartsWithKey` state its properties. |
| `Spreadsheet.MatchedText` | main.go:124-147 | Defines the text of all matching rows in grid order, which `ParseSpreadsheet` is proved to compute. `MatchedTextAppend`, `MatchedTextEmptyIff`, `MatchedTextAround` and `SingleMatch` state its properties. |
| `Spreadsheet.DateKeyInjective` | main.go:120-121 | Two dates with the same unpadded `M/D/YYYY` key are the same date. |
| `Spreadsheet.LookupKeySameDay` | main.go:120-121 | Two instants have the same key exactly when they fall on the same day. The time of day plays no part. |
| `Spreadsheet.LookupKeyOfDate` | main.go:120-121 | An instant on a valid date looks up that date's key. |
| `Spreadsheet.KeyOfMarchFifth` | main.go:121 | 5 March 2024 has the key `3/5/2024`, with no zero padding. |
| `Spreadsheet.LookupMarchFifth` | main.go:120-121 | Every instant on day 19787 (5 March 2024), whatever its time of day, looks up `3/5/2024`. |
| `Spreadsheet.RowTextOneCell` | main.go:129-145 | A one-cell row renders as the cell, a separator, `TBD`, a separator and `TBD`. |
| `Spreadsheet.RowTextTwoCells` | main.go:135-145 | A two-cell row renders as both cells, each followed by a separator, then `TBD` with no trailing separator. |
| `Spreadsheet.RowTextThreeCells` | main.go:141-142 | A row of three or more cells renders as its first three cells, each followed by a separator. Cells beyond the third are ignored. |
| `Spreadsheet.RowTextStartsWithKey` | main.go:126-130 | A row that has a first cell renders starting with that cell, and its text is longer than the cell. Every row reaching the rendering has one, since line 126 reads it first, so the column-0 placeholder is never used. |
| `Spreadsheet.MatchedTextAppend` | main.go:124-147 | The result for a grid is the result for its first part followed by the result for the rest. Matches are appended in grid order with no separator between them. |
| `Spreadsheet.MatchedTextEmptyIff` | main.go:124-126 | The result is the empty string exactly when no row's first cell equals the key. |
| `Spreadsheet.MatchedTextAround` | main.go:124-147 | A row contributes its text when its first cell equals the key and nothing otherwise. Its contribution sits between those of the rows before and after it. |
| `Spreadsheet.SingleMatch` | main.go:124-147 | When exactly one row carries the key, the result is that row's text alone. |
| `Spreadsheet.FullRowScenario` | main.go:126-145 | The row `3/5/2024`, `Game Night`, `Alice` renders with a separator after `Alice` too. |
| `Spreadsheet.MissingOwnerScenario` | main.go:126-145 | The row `3/5/2024`, `Game Night` renders with `TBD` for the owner and no trailing separator. |
| `Spreadsheet.TwoMatchesScenario` | main.go:124-147 | Two rows carrying the key, around one that does not, are both rendered in grid order with nothing between them. The first has no owner cell and ends in `TBD`. The second ends in a separator. |
| `Reminders.CellRangeFor` | main.go:306-311 | The range is `Priests!J5:L56` exactly when the date is a Sunday, and `Priests!C5:E56` exactly otherwise. |
| `Reminders.GetDateInfo` | main.go:301-314 | The text for a date comes from the range its weekday selects and is `MatchedText` of that range's grid for the date's key. |
| `Reminders.SendSunReminder` | main.go:267-281 | The message goes to the given channel. Its text is the mention, the lesson phrase, then the lookup in the Sunday range, with nothing after it. |
| `Reminders.SendWedReminder` | main.go:284-299 | The message goes to the given channel. Its text is the mention, the activity phrase, then the lookup in the Wednesday range, with nothing after it. |
| `Reminders.ReminderText` | main.go:275 | Defines a reminder's text: the mention, then the phrase, then the spreadsheet text. `ReminderTextParts` and `ReminderWithoutMatch` state its properties. |
| `Reminders.NextLessonReadsSundayRange` | main.go:307-308 | The next lesson's date always selects the Sunday range, the range `sendSunReminder` hard-codes. |
| `Reminders.NextActivityReadsWednesdayRange` | main.go:309-311 | The next activity's date always selects the Wednesday range, the range `sendWedReminder` hard-codes. |
| `Reminders.ReminderTextParts` | main.go:275 | A reminder splits back into the mention, the phrase and the lookup text, in that order. The lookup text ends the reminder. |
| `Reminders.ReminderWithoutMatch` | main.go:292 | When no row matches, the reminder is exactly the mention followed by the phrase. |

## Left out

- The Google Sheets request (`main.go:113`) is a network call. It is a parameter here. When the request fails, the code dereferences a nil response and panics. That path is not modelled.
- Rows with no cells: `s[0]` at `main.go:126` panics on them. `ParseSpreadsheet` requires every row to have a first cell.
- Cells that are not strings: the type assertion `.(string)` panics on them. Cells are modelled as strings.
- `initReminders` (`main.go:195-264`) is left out. It is a goroutine that sleeps for computed durations, possibly negative ones, and then sends. It is about timing, not verifiable logic.
- `messageCreate` (`main.go:153-193`) is left out. It is Discord callback glue: an exact string comparison on the command before an I/O send.
- `getJoke` (`main.go:353-373`) is left out. It is an HTTP request plus JSON decoding.
- `main` and `init` are left out. They parse flags, set up the session and websocket, and handle signals.
- Sending a message is not modelled. Send errors are only printed, so the methods return the message instead. `sendWedReminder` always returns a nil error, which is not modelled.
- Time zones and daylight saving time are left out. An instant is a local day number plus hour, minute and second. Nanoseconds and Go's finite range of representable times are left out too.
- `GoTime.DateOfDay` computes the calendar date by stepping through years from 1970. Go uses 400-year cycles instead. Both give the same proleptic Gregorian dates.
