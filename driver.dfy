/** The row loop of the poem cleaner's `clean()` (data/poems/clean.py:101-169):
    choose the poem and title columns, then clean every row, counting the
    rows that were empty in the source and those that became empty. */
module CleanDriver {
  import opened Wrappers
  import opened Strings
  import opened PoemCleaner

  /** The column names the loop reads. */
  datatype Columns = Columns(poem: string, title: Option<string>)

  /** The column choice of clean.py:113-129: "Poem" before "poem" (and no
      poem column is an error), "Title" before "title" (and no title column
      means every poem is "Untitled"). */
  function ResolveColumns(headers: set<string>): (r: Result<Columns, string>)
    ensures r.Failure? <==> "Poem" !in headers && "poem" !in headers
    ensures r.Success? ==>
      r.value.poem in headers && r.value.poem == (if "Poem" in headers then "Poem" else "poem")
    ensures r.Success? ==> (r.value.title.None? <==> "Title" !in headers && "title" !in headers)
    ensures r.Success? && r.value.title.Some? ==>
      r.value.title.value in headers && r.value.title.value == (if "Title" in headers then "Title" else "title")
  {
    if "Poem" !in headers && "poem" !in headers then Failure("'Poem' column not found")
    else
      var poem := if "Poem" in headers then "Poem" else "poem";
      var title := if "Title" in headers then Some("Title") else if "title" in headers then Some("title") else None;
      Success(Columns(poem, title))
  }

  /** A spreadsheet row: column name to cell. */
  type Row = map<string, Cell>

  predicate HasColumns(cols: Columns, row: Row) {
    cols.poem in row && (cols.title.Some? ==> cols.title.value in row)
  }

  /** What happens to one row. */
  datatype Outcome = Skipped | EmptyAfterClean | Accepted(entry: string)

  /** The title a row is filed under. */
  function RowTitle(u: UnicodeData, cols: Columns, row: Row): (r: string)
    requires HasColumns(cols, row)
    ensures r != []
  {
    if cols.title.Some? then CleanTitle(u, row[cols.title.value]) else Untitled
  }

  /** One pass of the loop body, clean.py:143-169, including the final
      `else` of clean.py:168-169. */
  function ProcessRow(u: UnicodeData, cols: Columns, row: Row): (o: Outcome)
    requires HasColumns(cols, row)
    ensures o.Accepted? ==> o.entry != []
  {
    var poem := row[cols.poem];
    if IsNa(poem) || Strip(CoerceText(poem)) == [] then Skipped
    else
      var cleaned := CleanPoem(u, CoerceText(poem));
      if Strip(cleaned) == [] then EmptyAfterClean
      else
        var formatted := FormatPoemEntry(RowTitle(u, cols, row), cleaned);
        if formatted != [] then Accepted(formatted) else EmptyAfterClean
  }

  /** A row is skipped exactly when its poem cell is missing or blank, and
      it counts as empty after cleaning exactly when the cleaned poem is
      blank: the `else` of clean.py:168-169 is never taken. */
  lemma ProcessRowOutcome(u: UnicodeData, cols: Columns, row: Row)
    requires HasColumns(cols, row)
    ensures var poem := row[cols.poem];
      (ProcessRow(u, cols, row).Skipped? <==> IsNa(poem) || Strip(CoerceText(poem)) == [])
      && (ProcessRow(u, cols, row).EmptyAfterClean? <==>
            !IsNa(poem) && Strip(CoerceText(poem)) != [] && Strip(CleanPoem(u, CoerceText(poem))) == [])
  {
  }

  /** A row's title is one line. */
  lemma RowTitleOneLine(u: UnicodeData, cols: Columns, row: Row)
    requires HasColumns(cols, row)
    ensures '\n' !in RowTitle(u, cols, row)
  {
    if cols.title.Some? {
      CleanTitleOneLine(u, row[cols.title.value]);
    }
  }

  /** An accepted row's entry is not empty and reads back as the row's
      cleaned title and its cleaned, trimmed poem. */
  lemma ProcessRowAccepted(u: UnicodeData, cols: Columns, row: Row)
    requires HasColumns(cols, row)
    requires ProcessRow(u, cols, row).Accepted?
    ensures var e := ProcessRow(u, cols, row).entry;
      e != [] && ParseEntry(e) == Some(Entry(RowTitle(u, cols, row), Strip(CleanPoem(u, CoerceText(row[cols.poem])))))
  {
    var title := RowTitle(u, cols, row);
    var cleaned := CleanPoem(u, CoerceText(row[cols.poem]));
    assert Strip(cleaned) != [] && ProcessRow(u, cols, row).entry == FormatPoemEntry(title, cleaned);
    RowTitleOneLine(u, cols, row);
    FormatParseRoundTrip(title, cleaned);
  }

  /** The accepted entries and the two counters. */
  datatype Report = Report(entries: seq<string>, skipped: nat, emptyAfterClean: nat)

  predicate AllHaveColumns(cols: Columns, rows: seq<Row>) {
    forall i :: 0 <= i < |rows| ==> HasColumns(cols, rows[i])
  }

  /** The outcome of every row, in order. */
  function Outcomes(u: UnicodeData, cols: Columns, rows: seq<Row>): (os: seq<Outcome>)
    requires AllHaveColumns(cols, rows)
    ensures |os| == |rows|
  {
    if rows == [] then []
    else Outcomes(u, cols, rows[..|rows| - 1]) + [ProcessRow(u, cols, rows[|rows| - 1])]
  }

  /** What the loop does with one row's outcome: count it as skipped, count
      it as empty after cleaning, or append its entry. */
  function Record(before: Report, o: Outcome): (after: Report)
    ensures |after.entries| + after.skipped + after.emptyAfterClean
            == |before.entries| + before.skipped + before.emptyAfterClean + 1
    ensures before.entries <= after.entries
  {
    match o
    case Skipped => before.(skipped := before.skipped + 1)
    case EmptyAfterClean => before.(emptyAfterClean := before.emptyAfterClean + 1)
    case Accepted(e) => before.(entries := before.entries + [e])
  }

  /** The entries and counters the loop has built after the given outcomes:
      every outcome is counted exactly once. */
  function Tally(os: seq<Outcome>): (r: Report)
    ensures |r.entries| + r.skipped + r.emptyAfterClean == |os|
  {
    if os == [] then Report([], 0, 0)
    else Record(Tally(os[..|os| - 1]), os[|os| - 1])
  }

  /** No accepted outcome has an empty entry. */
  predicate AcceptedNonEmpty(os: seq<Outcome>) {
    forall i :: 0 <= i < |os| && os[i].Accepted? ==> os[i].entry != []
  }

  predicate NoneEmpty(entries: seq<string>) {
    forall j :: 0 <= j < |entries| ==> entries[j] != []
  }

  /** An entry is empty only if some accepted outcome had an empty entry. */
  lemma {:induction false} TallyEntries(os: seq<Outcome>)
    requires AcceptedNonEmpty(os)
    ensures NoneEmpty(Tally(os).entries)
  {
    if os != [] {
      var init := os[..|os| - 1];
      assert AcceptedNonEmpty(init) by {
        forall i | 0 <= i < |init| && init[i].Accepted? ensures init[i].entry != [] {
          assert init[i] == os[i];
        }
      }
      TallyEntries(init);
    }
  }

  /** Entries keep the order of their rows: the result for a concatenation
      is the results for the parts, one after the other. */
  lemma {:induction false} TallyAppend(a: seq<Outcome>, b: seq<Outcome>)
    ensures Tally(a + b).entries == Tally(a).entries + Tally(b).entries
    ensures Tally(a + b).skipped == Tally(a).skipped + Tally(b).skipped
    ensures Tally(a + b).emptyAfterClean == Tally(a).emptyAfterClean + Tally(b).emptyAfterClean
    decreases |b|
  {
    if b == [] {
      assert a + b == a;
    } else {
      var b' := b[..|b| - 1];
      assert (a + b)[..|a + b| - 1] == a + b';
      assert (a + b)[|a + b| - 1] == b[|b| - 1];
      TallyAppend(a, b');
    }
  }

  /** The outcomes of a table are the outcomes of its first rows followed by
      that of the next row. */
  lemma {:induction false} OutcomesStep(u: UnicodeData, cols: Columns, rows: seq<Row>, i: nat)
    requires AllHaveColumns(cols, rows) && i < |rows|
    ensures AllHaveColumns(cols, rows[..i]) && AllHaveColumns(cols, rows[..i + 1])
    ensures Outcomes(u, cols, rows[..i + 1]) == Outcomes(u, cols, rows[..i]) + [ProcessRow(u, cols, rows[i])]
  {
    var prefix := rows[..i + 1];
    assert prefix[..i] == rows[..i];
    assert prefix[i] == rows[i];
  }

  /** The outcome of row `i` is the `i`-th outcome. */
  lemma {:induction false} OutcomesAt(u: UnicodeData, cols: Columns, rows: seq<Row>, i: nat)
    requires AllHaveColumns(cols, rows) && i < |rows|
    ensures Outcomes(u, cols, rows)[i] == ProcessRow(u, cols, rows[i])
    decreases |rows|
  {
    if i < |rows| - 1 {
      var init := rows[..|rows| - 1];
      OutcomesAt(u, cols, init, i);
      assert init[i] == rows[i];
    }
  }

  /** No outcome of a table is an empty entry. */
  lemma {:induction false} OutcomesEntries(u: UnicodeData, cols: Columns, rows: seq<Row>)
    requires AllHaveColumns(cols, rows)
    ensures AcceptedNonEmpty(Outcomes(u, cols, rows))
  {
    var os := Outcomes(u, cols, rows);
    forall i | 0 <= i < |os| && os[i].Accepted? ensures os[i].entry != [] {
      OutcomesAt(u, cols, rows, i);
      ProcessRowAccepted(u, cols, rows[i]);
    }
  }

  /** Every row of a table is accounted for exactly once, and no entry is
      empty. */
  lemma {:induction false} TallyOfTable(u: UnicodeData, cols: Columns, rows: seq<Row>)
    requires AllHaveColumns(cols, rows)
    ensures |Tally(Outcomes(u, cols, rows)).entries| + Tally(Outcomes(u, cols, rows)).skipped
            + Tally(Outcomes(u, cols, rows)).emptyAfterClean == |rows|
    ensures NoneEmpty(Tally(Outcomes(u, cols, rows)).entries)
  {
    var os := Outcomes(u, cols, rows);
    OutcomesEntries(u, cols, rows);
    TallyEntries(os);
  }

  /** The decisions of the row loop's body, clean.py:141-169, for one row:
      skip it, count it as empty after cleaning, or accept its entry. */
  method HandleRow(u: UnicodeData, cols: Columns, row: Row) returns (outcome: Outcome)
    requires HasColumns(cols, row)
    ensures outcome == ProcessRow(u, cols, row)
  {
    var poem := row[cols.poem];

    if IsNa(poem) || Strip(CoerceText(poem)) == [] {
      return Skipped;
    }

    var text := CoerceText(poem);
    var cleaned := CleanPoemText(u, Text(text));

    if Strip(cleaned) == [] {
      return EmptyAfterClean;
    }

    var title := if cols.title.Some? then CleanTitle(u, row[cols.title.value]) else Untitled;

    var formatted := FormatPoemEntry(title, cleaned);
    if formatted != [] {
      outcome := Accepted(formatted);
    } else {
      outcome := EmptyAfterClean;
    }
  }

  /** The bookkeeping of the row loop's body, clean.py:145, 156, 167 and
      169: bump the matching counter or append the entry. */
  method Count(outcome: Outcome, poemEntries: seq<string>, skipped: nat, emptyAfterClean: nat)
    returns (poemEntries': seq<string>, skipped': nat, emptyAfterClean': nat)
    ensures Report(poemEntries', skipped', emptyAfterClean')
         == Record(Report(poemEntries, skipped, emptyAfterClean), outcome)
  {
    poemEntries', skipped', emptyAfterClean' := poemEntries, skipped, emptyAfterClean;
    match outcome
    case Skipped => skipped' := skipped + 1;
    case EmptyAfterClean => emptyAfterClean' := emptyAfterClean + 1;
    case Accepted(formatted) => poemEntries' := poemEntries + [formatted];
  }

  /** The row loop of `clean()`, clean.py:136-169: the rows are taken in
      order, and each one is skipped, counted as empty after cleaning, or
      turned into an entry. */
  method ProcessRows(u: UnicodeData, cols: Columns, rows: seq<Row>) returns (report: Report)
    requires AllHaveColumns(cols, rows)
    ensures report == Tally(Outcomes(u, cols, rows))
  {
    var poemEntries: seq<string> := [];
    var skipped: nat := 0;
    var emptyAfterClean: nat := 0;
    ghost var done: seq<Outcome> := [];
    for i := 0 to |rows|
      invariant AllHaveColumns(cols, rows[..i])
      invariant done == Outcomes(u, cols, rows[..i])
      invariant Report(poemEntries, skipped, emptyAfterClean) == Tally(done)
    {
      OutcomesStep(u, cols, rows, i);
      var outcome := HandleRow(u, cols, rows[i]);
      poemEntries, skipped, emptyAfterClean := Count(outcome, poemEntries, skipped, emptyAfterClean);
      assert (done + [outcome])[..|done|] == done;
      done := done + [outcome];
    }
    assert rows[..|rows|] == rows;
    report := Report(poemEntries, skipped, emptyAfterClean);
  }

  /** `clean()` from the column choice to the end of the row loop: it fails
      without a poem column, and otherwise reports the rows' outcomes. */
  method Clean(u: UnicodeData, headers: set<string>, rows: seq<Row>) returns (r: Result<Report, string>)
    requires forall i :: 0 <= i < |rows| ==> headers <= rows[i].Keys
    ensures r.Failure? <==> "Poem" !in headers && "poem" !in headers
    ensures r.Success? ==> r.value == Tally(Outcomes(u, ResolveColumns(headers).value, rows))
    ensures r.Success? ==> |r.value.entries| + r.value.skipped + r.value.emptyAfterClean == |rows|
    ensures r.Success? ==> forall i :: 0 <= i < |r.value.entries| ==> r.value.entries[i] != []
  {
    var columns := ResolveColumns(headers);
    if columns.Failure? {
      return Failure(columns.error);
    }
    var cols := columns.value;
    assert AllHaveColumns(cols, rows);
    var report := ProcessRows(u, cols, rows);
    TallyOfTable(u, cols, rows);
    r := Success(report);
  }
}
