/*
 * `parseSpreadsheet`: renders a date as the key `M/D/YYYY` and collects, in grid order,
 * every row whose first cell is that key, each as pipe-separated text with `TBD`
 * standing for a missing second or third cell.
 *
 * The Google Sheets request is not modelled: `Fetch` stands for it and returns the
 * cell values of a range of a spreadsheet.
 */
module Spreadsheet {
  import opened GoTime
  import opened Strconv

  type Row = seq<string>
  type Grid = seq<Row>

  /** The values of range `cellRange` of spreadsheet `id`, as the Sheets service returns them. */
  type Fetch = (string, string) -> Grid

  /** `parseSpreadsheet` reads the first cell of every row, so every row must have one. */
  predicate WellFormedGrid(rows: Grid) {
    forall i :: 0 <= i < |rows| ==> |rows[i]| >= 1
  }

  /** The key of a date: month, day and year in decimal, without padding, separated by '/'. */
  function DateKey(d: Date): string {
    Itoa(d.month) + "/" + Itoa(d.day) + "/" + Itoa(d.year)
  }

  /** The key `parseSpreadsheet` looks for when asked about instant `t`. */
  function LookupKey(t: Instant): string {
    DateKey(DateOfDay(t.day))
  }

  /** The text one matching row contributes. */
  function RowText(s: Row): string {
    (if |s| >= 1 then s[0] + " | " else "TBD | ")
    + (if |s| >= 2 then s[1] + " | " else "TBD | ")
    + (if |s| >= 3 then s[2] + " | " else "TBD")
  }

  /** The text of all rows whose first cell is `key`, in grid order. */
  function MatchedText(rows: Grid, key: string): string
    requires WellFormedGrid(rows)
    decreases |rows|
  {
    if rows == [] then ""
    else
      var last := rows[|rows| - 1];
      MatchedText(rows[..|rows| - 1], key) + (if last[0] == key then RowText(last) else "")
  }

  /** `parseSpreadsheet(dateToFind, service, id, cellRange)`. */
  method ParseSpreadsheet(dateToFind: Instant, fetch: Fetch, id: string, cellRange: string)
    returns (foundEntry: string)
    requires WellFormedGrid(fetch(id, cellRange))
    ensures foundEntry == MatchedText(fetch(id, cellRange), LookupKey(dateToFind))
  {
    foundEntry := "";
    var values := fetch(id, cellRange);
    var date := DateOfDay(dateToFind.day);
    var convertedDate := Itoa(date.month) + "/" + Itoa(date.day) + "/" + Itoa(date.year);
    for i := 0 to |values|
      invariant foundEntry == MatchedText(values[..i], convertedDate)
    {
      var s := values[i];
      if s[0] == convertedDate {
        ghost var before := foundEntry;
        if |s| >= 1 {
          foundEntry := foundEntry + s[0] + " | ";
        } else {
          foundEntry := foundEntry + "TBD | ";
        }
        ghost var first := foundEntry;
        if |s| >= 2 {
          foundEntry := foundEntry + s[1] + " | ";
        } else {
          foundEntry := foundEntry + "TBD | ";
        }
        ghost var second := foundEntry;
        if |s| >= 3 {
          foundEntry := foundEntry + s[2] + " | ";
        } else {
          foundEntry := foundEntry + "TBD";
        }
        RowTextSteps(before, first, second, foundEntry, s);
      }
      assert values[..i + 1][..i] == values[..i];
    }
    assert values[..|values|] == values;
  }

  /** Appending a row's three parts one after the other appends the row's text. */
  lemma RowTextSteps(before: string, first: string, second: string, after: string, s: Row)
    requires first == before + (if |s| >= 1 then s[0] + " | " else "TBD | ")
    requires second == first + (if |s| >= 2 then s[1] + " | " else "TBD | ")
    requires after == second + (if |s| >= 3 then s[2] + " | " else "TBD")
    ensures after == before + RowText(s)
  {
  }

  /** A row of one cell: the cell, then two placeholders. */
  lemma RowTextOneCell(a: string)
    ensures RowText([a]) == a + " | TBD | TBD"
  {
  }

  /** A row of two cells: both cells, then a placeholder without a trailing separator. */
  lemma RowTextTwoCells(a: string, b: string)
    ensures RowText([a, b]) == a + " | " + b + " | TBD"
  {
  }

  /** A row of three or more cells: the first three cells, each followed by a separator. */
  lemma RowTextThreeCells(s: Row)
    requires |s| >= 3
    ensures RowText(s) == s[0] + " | " + s[1] + " | " + s[2] + " | "
    ensures RowText(s) == RowText(s[..3])
  {
  }

  /** Every row's text starts with its first cell and a separator, so it is never empty. */
  lemma RowTextStartsWithKey(s: Row)
    requires |s| >= 1
    ensures |RowText(s)| > |s[0]|
    ensures RowText(s)[..|s[0]|] == s[0]
  {
  }

  /** The text of a grid is the text of its first part followed by that of the rest. */
  lemma {:induction false} MatchedTextAppend(a: Grid, b: Grid, key: string)
    requires WellFormedGrid(a) && WellFormedGrid(b)
    ensures WellFormedGrid(a + b)
    ensures MatchedText(a + b, key) == MatchedText(a, key) + MatchedText(b, key)
    decreases |b|
  {
    if b != [] {
      var ab := a + b;
      var b' := b[..|b| - 1];
      assert ab[..|ab| - 1] == a + b';
      assert ab[|ab| - 1] == b[|b| - 1];
      MatchedTextAppend(a, b', key);
    } else {
      assert a + b == a;
    }
  }

  /** The result is empty exactly when no row's first cell is the key. */
  lemma {:induction false} MatchedTextEmptyIff(rows: Grid, key: string)
    requires WellFormedGrid(rows)
    ensures MatchedText(rows, key) == "" <==> forall i :: 0 <= i < |rows| ==> rows[i][0] != key
    decreases |rows|
  {
    if rows != [] {
      var init := rows[..|rows| - 1];
      var last := rows[|rows| - 1];
      MatchedTextEmptyIff(init, key);
      RowTextStartsWithKey(last);
      if forall i :: 0 <= i < |init| ==> init[i][0] != key {
        assert MatchedText(init, key) == "";
      }
      assert (forall i :: 0 <= i < |rows| ==> rows[i][0] != key)
        <==> (forall i :: 0 <= i < |init| ==> init[i][0] != key) && last[0] != key;
    }
  }

  /** A grid with no row carrying the key contributes nothing. */
  lemma NoMatchIsEmpty(rows: Grid, key: string)
    requires WellFormedGrid(rows)
    requires forall i :: 0 <= i < |rows| ==> rows[i][0] != key
    ensures MatchedText(rows, key) == ""
  {
    MatchedTextEmptyIff(rows, key);
  }

  /** A row in the middle of a grid contributes its text between those of the rows around it. */
  lemma MatchedTextAround(before: Grid, row: Row, after: Grid, key: string)
    requires WellFormedGrid(before) && |row| >= 1 && WellFormedGrid(after)
    ensures WellFormedGrid(before + [row] + after)
    ensures MatchedText(before + [row] + after, key)
      == MatchedText(before, key) + (if row[0] == key then RowText(row) else "") + MatchedText(after, key)
  {
    assert [row][..0] == [];
    MatchedTextAppend(before, [row], key);
    MatchedTextAppend(before + [row], after, key);
  }

  /** When exactly one row carries the key, the result is that row's text alone. */
  lemma SingleMatch(rows: Grid, key: string, j: int)
    requires WellFormedGrid(rows)
    requires 0 <= j < |rows| && rows[j][0] == key
    requires forall i :: 0 <= i < |rows| && i != j ==> rows[i][0] != key
    ensures MatchedText(rows, key) == RowText(rows[j])
  {
    var before, after := rows[..j], rows[j + 1..];
    assert rows == before + [rows[j]] + after;
    forall i | 0 <= i < |before|
      ensures before[i][0] != key
    {
      assert before[i] == rows[i];
    }
    forall i | 0 <= i < |after|
      ensures after[i][0] != key
    {
      assert after[i] == rows[j + 1 + i];
    }
    NoMatchIsEmpty(before, key);
    NoMatchIsEmpty(after, key);
    MatchedTextAround(before, rows[j], after, key);
  }

  /** Splitting a string at its first '/' is unambiguous. */
  lemma SplitAtSlash(a: string, r: string, a': string, r': string)
    requires '/' !in a && '/' !in a'
    requires a + "/" + r == a' + "/" + r'
    ensures a == a' && r == r'
  {
    var s, s' := a + "/" + r, a' + "/" + r';
    assert |a| == |a'| by {
      assert s[|a|] == '/' && s'[|a'|] == '/';
    }
    assert a == s[..|a|] && a' == s'[..|a'|];
    assert r == s[|a| + 1..] && r' == s'[|a'| + 1..];
  }

  /** A key is the month, a '/', and then the day and the year joined by a '/'. */
  lemma DateKeyShape(d: Date)
    ensures DateKey(d) == Itoa(d.month) + "/" + (Itoa(d.day) + "/" + Itoa(d.year))
  {
  }

  /** No two dates share a key, so the unpadded format is unambiguous. */
  lemma DateKeyInjective(d: Date, d': Date)
    requires DateKey(d) == DateKey(d')
    ensures d == d'
  {
    var day, day' := Itoa(d.day), Itoa(d'.day);
    var year, year' := Itoa(d.year), Itoa(d'.year);
    DateKeyShape(d);
    DateKeyShape(d');
    SplitAtSlash(Itoa(d.month), day + "/" + year, Itoa(d'.month), day' + "/" + year');
    SplitAtSlash(day, year, day', year');
    ItoaInjective(d.month, d'.month);
    ItoaInjective(d.day, d'.day);
    ItoaInjective(d.year, d'.year);
  }

  /** Two instants have the same key exactly when they fall on the same day: the time of day plays no part. */
  lemma LookupKeySameDay(a: Instant, b: Instant)
    ensures LookupKey(a) == LookupKey(b) <==> a.day == b.day
  {
    if LookupKey(a) == LookupKey(b) {
      DateKeyInjective(DateOfDay(a.day), DateOfDay(b.day));
    }
  }

  /** An instant looks up the key of its own calendar date. */
  lemma LookupKeyOfDate(t: Instant, d: Date)
    requires ValidDate(d) && t.day == DaysSinceEpoch(d)
    ensures LookupKey(t) == DateKey(d)
  {
    DateOfDaysSinceEpoch(d);
  }

  /** 5 March 2024 has the key "3/5/2024": no zero padding. */
  lemma KeyOfMarchFifth()
    ensures DateKey(Date(2024, 3, 5)) == "3/5/2024"
  {
    assert Itoa(2024) == "2024";
  }

  /** A full row is rendered with a separator after its third cell too. */
  lemma FullRowScenario()
    ensures MatchedText([["3/5/2024", "Game Night", "Alice"]], "3/5/2024") == "3/5/2024 | Game Night | Alice | "
  {
    var rows: Grid := [["3/5/2024", "Game Night", "Alice"]];
    assert rows[..0] == [];
  }

  /** A row without its owner cell ends in the placeholder. */
  lemma MissingOwnerScenario()
    ensures MatchedText([["3/5/2024", "Game Night"]], "3/5/2024") == "3/5/2024 | Game Night | TBD"
  {
    var rows: Grid := [["3/5/2024", "Game Night"]];
    assert rows[..0] == [];
  }

  /** Every instant of day 19787, whatever its time, looks up "3/5/2024". */
  lemma LookupMarchFifth(hour: int, minute: int, second: int)
    ensures LookupKey(Instant(19787, hour, minute, second)) == "3/5/2024"
  {
    MarchFifth2024IsTuesday();
    LookupKeyOfDate(Instant(19787, hour, minute, second), Date(2024, 3, 5));
    KeyOfMarchFifth();
  }

  /** Two matching rows around a non-matching one are both rendered, in grid order, with nothing between them. */
  lemma TwoMatchesScenario(key: string, event: string, event': string, owner': string, skipped: Row)
    requires |skipped| >= 1 && skipped[0] != key
    ensures MatchedText([[key, event], skipped, [key, event', owner']], key)
      == key + " | " + event + " | TBD" + key + " | " + event' + " | " + owner' + " | "
  {
    var r0: Row, r2: Row := [key, event], [key, event', owner'];
    assert [r0, skipped, r2] == [r0] + [skipped] + [r2];
    var g0: Grid, g2: Grid := [r0], [r2];
    assert g0[..0] == [] && g2[..0] == [];
    MatchedTextAround([r0], skipped, [r2], key);
  }
}
