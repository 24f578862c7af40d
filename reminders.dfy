/*
 * `getDateInfo`, `sendSunReminder` and `sendWedReminder`: which range of the bot's
 * spreadsheet is read for a date, and the text of the two weekly reminders. Sending a
 * message to Discord is not modelled: the reminder methods return the message
 * (channel and text) that the bot hands to `ChannelMessageSend`.
 */
module Reminders {
  import opened GoTime
  import opened Spreadsheet
  import opened Schedule

  const SpreadsheetId := "10vomq2rhxO-pS664uD9lhLol1nJpfmbxYu8hpfOLJi8"

  /** The cells of the Sunday lessons. */
  const SundayRange := "Priests!J5:L56"

  /** The cells of the Wednesday activities. */
  const WednesdayRange := "Priests!C5:E56"

  const LessonPhrase := " Please send a reminder about the lesson for tomorrow if there is one:   "
  const ActivityPhrase := " Please send a reminder about the activity if there is one:   "

  /** A message handed to the Discord session. */
  datatype Message = Message(channelId: string, text: string)

  /** The range `getDateInfo` reads for a date: the Sunday range on Sundays, the Wednesday range otherwise. */
  function CellRangeFor(date: Instant): (r: string)
    ensures r == SundayRange <==> WeekdayOf(date.day) == Sunday
    ensures r == WednesdayRange <==> WeekdayOf(date.day) != Sunday
  {
    assert SundayRange[8] != WednesdayRange[8];
    if WeekdayOf(date.day) == Sunday then SundayRange else WednesdayRange
  }

  /** A reminder: the role mention, the fixed phrase, then the spreadsheet text. */
  function ReminderText(mention: string, phrase: string, parsedText: string): string {
    mention + phrase + parsedText
  }

  /** `getDateInfo(date, service)`: the spreadsheet text for `date` from the range its weekday selects. */
  method GetDateInfo(date: Instant, fetch: Fetch) returns (info: string)
    requires WellFormedGrid(fetch(SpreadsheetId, CellRangeFor(date)))
    ensures info == MatchedText(fetch(SpreadsheetId, CellRangeFor(date)), LookupKey(date))
  {
    var cellRange := "";
    if WeekdayOf(date.day) == Sunday {
      cellRange := SundayRange;
    } else {
      cellRange := WednesdayRange;
    }
    info := ParseSpreadsheet(date, fetch, SpreadsheetId, cellRange);
  }

  /** `sendSunReminder`: the lesson reminder, always read from the Sunday range. */
  method SendSunReminder(chanId: string, secRoleId: string, dateToFind: Instant, fetch: Fetch)
    returns (sent: Message)
    requires WellFormedGrid(fetch(SpreadsheetId, SundayRange))
    ensures sent.channelId == chanId
    ensures sent.text
      == ReminderText(secRoleId, LessonPhrase, MatchedText(fetch(SpreadsheetId, SundayRange), LookupKey(dateToFind)))
  {
    var parsedText := ParseSpreadsheet(dateToFind, fetch, SpreadsheetId, SundayRange);
    var sundayReminderText := secRoleId + LessonPhrase + parsedText;
    sent := Message(chanId, sundayReminderText);
  }

  /** `sendWedReminder`: the activity reminder, always read from the Wednesday range. */
  method SendWedReminder(chanId: string, secRoleId: string, dateToFind: Instant, fetch: Fetch)
    returns (sent: Message)
    requires WellFormedGrid(fetch(SpreadsheetId, WednesdayRange))
    ensures sent.channelId == chanId
    ensures sent.text
      == ReminderText(secRoleId, ActivityPhrase, MatchedText(fetch(SpreadsheetId, WednesdayRange), LookupKey(dateToFind)))
  {
    var parsedText := ParseSpreadsheet(dateToFind, fetch, SpreadsheetId, WednesdayRange);
    var wednesdayReminderText := secRoleId + ActivityPhrase + parsedText;
    sent := Message(chanId, wednesdayReminderText);
  }

  /** The lesson the bot finds is always read from the Sunday range, as the Sunday reminder does. */
  lemma NextLessonReadsSundayRange(now: Instant)
    ensures CellRangeFor(FindNextLesson(now)) == SundayRange
  {
  }

  /** The activity the bot finds is always read from the Wednesday range, as the Wednesday reminder does. */
  lemma NextActivityReadsWednesdayRange(now: Instant)
    ensures CellRangeFor(FindNextActivity(now)) == WednesdayRange
  {
  }

  /** A reminder splits back into its mention, its phrase and the spreadsheet text, which ends it. */
  lemma ReminderTextParts(mention: string, phrase: string, parsedText: string)
    ensures var r := ReminderText(mention, phrase, parsedText);
      && |r| == |mention| + |phrase| + |parsedText|
      && r[..|mention|] == mention
      && r[|mention|..|mention| + |phrase|] == phrase
      && r[|mention| + |phrase|..] == parsedText
  {
  }

  /** With no matching row a reminder is just the mention and the phrase. */
  lemma ReminderWithoutMatch(mention: string, phrase: string, rows: Grid, key: string)
    requires WellFormedGrid(rows)
    requires forall i :: 0 <= i < |rows| ==> rows[i][0] != key
    ensures ReminderText(mention, phrase, MatchedText(rows, key)) == mention + phrase
  {
    MatchedTextEmptyIff(rows, key);
  }
}
