/** The per-poem operations of the poem cleaner (data/poems/clean.py):
    `_strip_edge_blank_lines`, `clean_poem_text`, `clean_title` and
    `format_poem_entry`. */
module PoemCleaner {
  import opened Wrappers
  import opened Strings
  import opened Rewrites

  /** The two pieces of Unicode data the cleaner consults and this model does
      not tabulate: NFKC normalisation (`unicodedata.normalize("NFKC", _)`)
      and membership in general category C (`unicodedata.category(ch)[0] ==
      'C'`). Every property below holds whatever these functions are. */
  datatype UnicodeData = UnicodeData(nfkc: string -> string, isControl: char -> bool)

  /** A spreadsheet cell as pandas hands it over: a missing value (`None`), a
      float NaN, or a value whose `str()` is `text`. */
  datatype Cell = Missing | NaN | Text(text: string)

  /** `pd.isna(cell)`. */
  predicate IsNa(c: Cell) {
    c.Missing? || c.NaN?
  }

  /** The coercion at the head of `clean_poem_text`: `""` for `None`,
      `str(value)` otherwise (a NaN prints as "nan"). */
  function CoerceText(c: Cell): (r: string)
    ensures c.Text? ==> r == c.text
    ensures c.Missing? ==> r == []
  {
    match c
    case Missing => ""
    case NaN => "nan"
    case Text(t) => t
  }

  // ---------------------------------------------------------------------
  // _strip_edge_blank_lines (clean.py:14-26)
  // ---------------------------------------------------------------------

  predicate IsBlank(line: string) { line == [] }

  /** The slice of `lines` between its leading and its trailing empty
      strings. */
  method StripEdgeBlankLines(lines: seq<string>) returns (r: seq<string>)
    ensures var start := LeadingRun(lines, IsBlank);
      start + |r| <= |lines| && r == lines[start..start + |r|]
      && (forall i :: start + |r| <= i < |lines| ==> lines[i] == [])
    ensures r == [] <==> Every(lines, IsBlank)
    ensures r != [] ==> r[0] != [] && r[|r| - 1] != []
  {
    var start, end := 0, |lines|;
    while start < end && lines[start] == []
      invariant 0 <= start <= end == |lines|
      invariant forall i :: 0 <= i < start ==> lines[i] == []
    {
      start := start + 1;
    }
    assert start < |lines| ==> !IsBlank(lines[start]);
    assert start == LeadingRun(lines, IsBlank);
    while end > start && lines[end - 1] == []
      invariant start <= end <= |lines|
      invariant forall i :: end <= i < |lines| ==> lines[i] == []
    {
      end := end - 1;
    }
    assert start < end ==> lines[start] != [] && lines[end - 1] != [];
    assert start == end ==> Every(lines, IsBlank);
    r := lines[start..end];
  }

  // ---------------------------------------------------------------------
  // clean_poem_text (clean.py:28-74)
  // ---------------------------------------------------------------------

  /** The test of clean.py:53-54: the line, left-trimmed, starts with "//". */
  predicate IsCommentLine(line: string) {
    StartsWith(LStrip(line), "//")
  }

  /** The lines kept by the loop of clean.py:50-57, right-trimmed, in order. */
  function KeptLines(rawLines: seq<string>): (r: seq<string>)
    ensures |r| <= |rawLines|
  {
    if rawLines == [] then []
    else
      var rest := KeptLines(rawLines[..|rawLines| - 1]);
      var line := RStrip(rawLines[|rawLines| - 1]);
      if IsCommentLine(line) then rest else rest + [line]
  }

  /** Filtering works line by line: the lines of a concatenation are the kept
      lines of each part, in order. */
  lemma {:induction false} KeptLinesAppend(a: seq<string>, b: seq<string>)
    ensures KeptLines(a + b) == KeptLines(a) + KeptLines(b)
    decreases |b|
  {
    if b == [] {
      assert a + b == a;
    } else {
      var b' := b[..|b| - 1];
      assert (a + b)[..|a + b| - 1] == a + b';
      KeptLinesAppend(a, b');
    }
  }

  /** A single line is dropped when it is a comment line and kept,
      right-trimmed, otherwise. */
  lemma KeptLinesSingle(line: string)
    ensures KeptLines([line]) == if IsCommentLine(RStrip(line)) then [] else [RStrip(line)]
  {
    assert [line][..0] == [];
  }

  /** A line the filter lets through: not a comment line, and right-trimmed. */
  predicate IsCleanLine(line: string) {
    !IsCommentLine(line) && RStrip(line) == line
  }

  predicate AllClean(lines: seq<string>) {
    forall i :: 0 <= i < |lines| ==> IsCleanLine(lines[i])
  }

  /** No kept line is a comment line or ends in whitespace. */
  lemma {:induction false} KeptLinesClean(rawLines: seq<string>)
    ensures AllClean(KeptLines(rawLines))
  {
    if rawLines != [] {
      var rest := KeptLines(rawLines[..|rawLines| - 1]);
      KeptLinesClean(rawLines[..|rawLines| - 1]);
      var line := RStrip(rawLines[|rawLines| - 1]);
      if !IsCommentLine(line) {
        RStripIdempotent(rawLines[|rawLines| - 1]);
        var r := rest + [line];
        forall i | 0 <= i < |r| ensures IsCleanLine(r[i]) {
          if i < |rest| { assert r[i] == rest[i]; }
        }
      }
    }
  }

  lemma RStripIdempotent(s: string)
    ensures RStrip(RStrip(s)) == RStrip(s)
  {
    var r := RStrip(s);
    if r != [] {
      assert !IsSpace(r[|r| - 1]);
    }
  }

  /** The steps of clean.py:34-46: line endings, NFKC, block comments, quote
      artefacts, trimming. */
  function Prepare(u: UnicodeData, text: string): (r: string)
    ensures r == [] || (!IsSpace(r[0]) && !IsSpace(r[|r| - 1]))
  {
    var normalized := u.nfkc(NormalizeNewlines(text));
    var uncommented := StripBlockComments(normalized);
    Strip(StripTrailingQuotes(StripLeadingQuotes(uncommented)))
  }

  /** The steps of clean.py:49-69: comment lines, blank lines, control
      characters. */
  function Visible(u: UnicodeData, text: string): (r: string)
    ensures forall i :: 0 <= i < |r| ==> KeptChar(u.isControl, r[i])
  {
    var filtered := Join(KeptLines(Split(Prepare(u, text))));
    RemoveControl(u.isControl, CollapseBlankLines(filtered))
  }

  /** All steps of `clean_poem_text`, in their order; the last is the per-line
      right trim of clean.py:72, so no line of the result ends in
      whitespace. */
  function CleanPoem(u: UnicodeData, text: string): (r: string)
    ensures LinesTrimmed(r)
  {
    RStripLinesTrimmed(Visible(u, text));
    RStripLines(Visible(u, text))
  }

  /** The loop of clean.py:49-57: every line is right-trimmed and appended
      unless its left-trimmed form starts with "//". */
  method DropCommentLines(rawLines: seq<string>) returns (cleanedLines: seq<string>)
    ensures cleanedLines == KeptLines(rawLines)
  {
    cleanedLines := [];
    for i := 0 to |rawLines|
      invariant cleanedLines == KeptLines(rawLines[..i])
    {
      var line := RStrip(rawLines[i]);
      var sentinel := LStrip(line);
      assert KeptLines(rawLines[..i + 1]) == if IsCommentLine(line) then cleanedLines else cleanedLines + [line] by {
        assert rawLines[..i + 1][..i] == rawLines[..i];
        assert rawLines[..i + 1][i] == rawLines[i];
      }
      if StartsWith(sentinel, "//") {
        continue;
      }
      cleanedLines := cleanedLines + [line];
    }
    assert rawLines[..|rawLines|] == rawLines;
  }

  /** `clean_poem_text`: the text is rewritten step by step. */
  method CleanPoemText(u: UnicodeData, poemText: Cell) returns (r: string)
    ensures r == CleanPoem(u, CoerceText(poemText))
  {
    var text := CoerceText(poemText);
    text := NormalizeNewlines(text);
    text := u.nfkc(text);
    text := StripBlockComments(text);
    text := StripLeadingQuotes(text);
    text := StripTrailingQuotes(text);
    text := Strip(text);

    var cleanedLines := DropCommentLines(Split(text));
    text := Join(cleanedLines);

    text := CollapseBlankLines(text);
    text := RemoveControl(u.isControl, text);
    r := RStripLines(text);
  }

  /** The cleaned text holds no character of category C other than newline
      and tab. */
  lemma CleanPoemNoControl(u: UnicodeData, text: string)
    ensures var r := CleanPoem(u, text);
      forall i :: 0 <= i < |r| ==> r[i] == '\n' || r[i] == '\t' || !u.isControl(r[i])
  {
    RStripLinesShape(Visible(u, text), c => KeptChar(u.isControl, c));
  }

  /** A carriage return, which is in category C, never survives. */
  lemma CleanPoemNoCarriageReturn(u: UnicodeData, text: string)
    requires u.isControl('\r')
    ensures '\r' !in CleanPoem(u, text)
  {
    CleanPoemNoControl(u, text);
  }

  // ---------------------------------------------------------------------
  // clean_title (clean.py:76-89)
  // ---------------------------------------------------------------------

  const Untitled: string := "Untitled"

  /** `clean_title`: NFKC, trim, every whitespace run to one space, and
      "Untitled" when nothing is left or the cell is missing. */
  function CleanTitle(u: UnicodeData, title: Cell): (r: string)
    ensures r != []
    ensures IsNa(title) ==> r == Untitled
    ensures title.Text? && Strip(u.nfkc(title.text)) == [] ==> r == Untitled
    ensures title.Text? && Strip(u.nfkc(title.text)) != [] ==>
      !IsSpace(r[0]) && !IsSpace(r[|r| - 1]) && SingleSpaced(r) && NonSpace(r) == NonSpace(u.nfkc(title.text))
  {
    match title
    case Missing => Untitled
    case NaN => Untitled
    case Text(t) =>
      var normalized := u.nfkc(t);
      var trimmed := Strip(normalized);
      var collapsed := CollapseSpaces(trimmed);
      CollapseSpacesEnds(trimmed);
      CollapseSpacesSingle(trimmed);
      CollapseSpacesNonSpace(trimmed);
      StripKeepsNonSpace(normalized);
      if collapsed == [] then Untitled else collapsed
  }

  /** Trimming the padded title of the example below. */
  lemma StripPaddedTitle(t: string, x: string, w: string, y: string)
    requires t == "  The\t\tRaven  " && x == "The" && w == "\t\t" && y == "Raven"
    ensures Strip(t) == x + w + y
  {
    var k := TrailingRun(t, IsSpace);
    assert !IsSpace(t[|t| - 3]);
    assert k == 2;
    var r := t[..|t| - 2];
    assert RStrip(t) == r;
    var j := LeadingRun(r, IsSpace);
    assert !IsSpace(r[2]);
    assert j == 2;
    assert r[2..] == x + w + y;
  }

  /** The words and the gap of the example below. */
  lemma TitleWords(x: string, w: string, y: string)
    requires x == "The" && w == "\t\t" && y == "Raven"
    ensures x != [] && Spaceless(x) && y != [] && Spaceless(y) && w != [] && Every(w, IsSpace)
    ensures x + " " + y == "The Raven"
  {
    assert x[0] == 'T' && x[1] == 'h' && x[2] == 'e';
    assert y[0] == 'R' && y[1] == 'a' && y[2] == 'v' && y[3] == 'e' && y[4] == 'n';
    assert w[0] == '\t' && w[1] == '\t';
  }

  /** Padding is trimmed and the tab run inside becomes one space, for any
      normalisation that leaves the title as it is. */
  lemma CleanTitleExample(u: UnicodeData, title: string)
    requires title == "  The\t\tRaven  " && u.nfkc(title) == title
    ensures CleanTitle(u, Text(title)) == "The Raven"
  {
    var x, w, y := "The", "\t\t", "Raven";
    StripPaddedTitle(title, x, w, y);
    TitleWords(x, w, y);
    CollapseTwoWords(x, w, y);
  }

  /** A cleaned title is one line. */
  lemma CleanTitleOneLine(u: UnicodeData, title: Cell)
    ensures '\n' !in CleanTitle(u, title)
  {
    var r := CleanTitle(u, title);
    if title.Text? && Strip(u.nfkc(title.text)) != [] {
      forall i | 0 <= i < |r| ensures r[i] != '\n' {
        if IsSpace(r[i]) { assert r[i] == ' '; }
      }
    }
  }

  // ---------------------------------------------------------------------
  // format_poem_entry (clean.py:91-98)
  // ---------------------------------------------------------------------

  /** `format_poem_entry`: the empty string when the trimmed poem is empty,
      otherwise a "title: " line, a "poem: " line and two blank lines. */
  function FormatPoemEntry(title: string, poem: string): (r: string)
    ensures r == [] <==> Strip(poem) == []
  {
    var formatted := Strip(poem);
    if formatted == [] then "" else "title: " + title + "\npoem: " + formatted + "\n\n\n"
  }

  datatype Entry = Entry(title: string, poem: string)

  /** Reads an entry back: the first line after "title: " is the title, the
      rest after "\npoem: " and before the final three newlines the poem. */
  function ParseEntry(e: string): (r: Option<Entry>)
  {
    if !StartsWith(e, "title: ") then None
    else
      var rest := e[7..];
      var title := Split(rest)[0];
      SplitFirstPrefix(rest);
      var body := rest[|title|..];
      if |body| >= 10 && StartsWith(body, "\npoem: ") && body[|body| - 3..] == "\n\n\n"
      then Some(Entry(title, body[7..|body| - 3]))
      else None
  }

  /** The part of an entry after its title line reads back as the poem. */
  lemma ParseBody(poem: string)
    ensures var body := "\npoem: " + poem + "\n\n\n";
      |body| >= 10 && StartsWith(body, "\npoem: ") && body[|body| - 3..] == "\n\n\n" && body[7..|body| - 3] == poem
  {
    var body := "\npoem: " + poem + "\n\n\n";
    assert body[..7] == "\npoem: ";
    assert body[|body| - 3..] == "\n\n\n";
    assert body[7..|body| - 3] == poem;
  }

  /** A title line and a poem read back as themselves. */
  lemma ParseFormatted(title: string, p: string)
    requires '\n' !in title
    ensures ParseEntry("title: " + title + "\npoem: " + p + "\n\n\n") == Some(Entry(title, p))
  {
    var body := "\npoem: " + p + "\n\n\n";
    var rest := title + body;
    var e := "title: " + title + "\npoem: " + p + "\n\n\n";
    assert e == "title: " + rest;
    assert StartsWith(e, "title: ") && e[7..] == rest;
    var tail := body[1..];
    assert rest == title + "\n" + tail;
    SplitAfterLine(title, tail);
    assert rest[|title|..] == body;
    ParseBody(p);
  }

  /** An entry with a one-line title reads back as that title and the trimmed
      poem. */
  lemma FormatParseRoundTrip(title: string, poem: string)
    requires '\n' !in title
    requires Strip(poem) != []
    ensures ParseEntry(FormatPoemEntry(title, poem)) == Some(Entry(title, Strip(poem)))
  {
    ParseFormatted(title, Strip(poem));
  }
}
