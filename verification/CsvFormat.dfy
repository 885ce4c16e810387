/** The text format of the export: ", "-joined fields, no quoting, every row ended by `<END>`; and the
    spreadsheet script's parser of it. */
module CsvFormat {
  import opened Options
  import opened Text

  const ROW_TERMINATOR := "<END>"

  /** A row as the exporter writes it: each field followed by ", ", then the terminator. */
  function PrintFields(cells: seq<string>): string {
    if cells == [] then ROW_TERMINATOR else cells[0] + ", " + PrintFields(cells[1..])
  }

  /** The header line, then a line per row. */
  function PrintTable(rows: seq<seq<string>>): string
    requires rows != []
  {
    if |rows| == 1 then PrintFields(rows[0]) else PrintFields(rows[0]) + "\n" + PrintTable(rows[1..])
  }

  // ---------------------------------------------------------------- the parser

  /** `line.replace(/\r$/, '')` */
  function WithoutReturn(line: string): string {
    if line != "" && line[|line| - 1] == '\r' then line[..|line| - 1] else line
  }

  function TrimAll(cells: seq<string>): (t: seq<string>)
    ensures |t| == |cells| && forall i :: 0 <= i < |t| ==> t[i] == Trim(cells[i])
  {
    seq(|cells|, i requires 0 <= i < |cells| => Trim(cells[i]))
  }

  function WithoutTerminator(cells: seq<string>): seq<string> {
    if cells != [] && cells[|cells| - 1] == ROW_TERMINATOR then cells[..|cells| - 1] else cells
  }

  /** The cells of one line, or None for a blank one. */
  function ParseLine(line: string): Option<seq<string>> {
    var l := WithoutReturn(line);
    if Trim(l) == "" then None else Some(WithoutTerminator(TrimAll(Split(l, ','))))
  }

  function ParseLines(lines: seq<string>): seq<seq<string>> {
    if lines == [] then []
    else
      var cells := ParseLine(lines[0]);
      (if cells.Some? then [cells.value] else []) + ParseLines(lines[1..])
  }

  function Parse(text: string): seq<seq<string>> {
    ParseLines(Split(text, '\n'))
  }

  method TrimEach(pieces: seq<string>) returns (cells: seq<string>)
    ensures cells == TrimAll(pieces)
  {
    cells := pieces;
    for j := 0 to |cells|
      invariant |cells| == |pieces|
      invariant forall k :: 0 <= k < j ==> cells[k] == Trim(pieces[k])
      invariant forall k :: j <= k < |cells| ==> cells[k] == pieces[k]
    {
      cells := cells[j := Trim(cells[j])];
    }
  }

  lemma {:induction false} ParseLinesOfSum(a: seq<string>, b: seq<string>)
    ensures ParseLines(a + b) == ParseLines(a) + ParseLines(b)
  {
    hide ParseLine;
    if a == [] {
      assert a + b == b;
    } else {
      assert (a + b)[1..] == a[1..] + b && (a + b)[0] == a[0];
      ParseLinesOfSum(a[1..], b);
      var first := if ParseLine(a[0]).Some? then [ParseLine(a[0]).value] else [];
      assert ParseLines(a + b) == first + (ParseLines(a[1..]) + ParseLines(b));
      assert ParseLines(a) == first + ParseLines(a[1..]);
    }
  }

  lemma ParseLinesSnoc(lines: seq<string>, line: string)
    ensures ParseLines(lines + [line]) ==
            ParseLines(lines) + (if ParseLine(line).Some? then [ParseLine(line).value] else [])
  {
    hide ParseLine;
    ParseLinesOfSum(lines, [line]);
    assert [line][1..] == [];
  }

  /** Parsing a table is parsing its lines one printed row after the other. */
  lemma ParseFirstRow(rows: seq<seq<string>>)
    requires |rows| > 1
    ensures Parse(PrintTable(rows)) == Parse(PrintFields(rows[0])) + Parse(PrintTable(rows[1..]))
  {
    hide ParseLines, PrintFields;
    var first, rest := PrintFields(rows[0]), PrintTable(rows[1..]);
    SplitJoin(first, '\n', rest);
    ParseLinesOfSum(Split(first, '\n'), Split(rest, '\n'));
  }

  /** `parseCsv_`. */
  method ParseCsv(text: string) returns (rows: seq<seq<string>>)
    ensures rows == Parse(text)
  {
    var lines := Split(text, '\n');
    rows := [];
    for i := 0 to |lines|
      invariant rows == ParseLines(lines[..i])
    {
      hide ParseLines, Split, Trim, TrimAll;
      assert lines[..i + 1] == lines[..i] + [lines[i]];
      ParseLinesSnoc(lines[..i], lines[i]);
      var line := WithoutReturn(lines[i]);
      if Trim(line) == "" {
        continue;
      }
      var cells := TrimEach(Split(line, ','));
      if |cells| > 0 && cells[|cells| - 1] == ROW_TERMINATOR {
        cells := cells[..|cells| - 1];
      }
      rows := rows + [cells];
    }
    assert lines[..|lines|] == lines;
  }

  /** A line without the terminator keeps all its cells. */
  lemma UnterminatedKeepsCells(line: string)
    requires line != "" && Without(line, '\n') && Trim(line) != "" && line[|line| - 1] != '\r'
    requires var cells := TrimAll(Split(line, ',')); cells[|cells| - 1] != ROW_TERMINATOR
    ensures Parse(line) == [TrimAll(Split(line, ','))]
  {
    hide Trim, TrimAll, ParseLine;
    SplitWhole(line, '\n');
    assert ParseLine(line) == Some(TrimAll(Split(line, ','))) by {
      UnterminatedLine(line);
    }
    assert ParseLines([line][1..]) == [];
  }

  lemma UnterminatedLine(line: string)
    requires line != "" && Trim(line) != "" && line[|line| - 1] != '\r'
    requires var cells := TrimAll(Split(line, ',')); cells[|cells| - 1] != ROW_TERMINATOR
    ensures ParseLine(line) == Some(TrimAll(Split(line, ',')))
  {
  }

  /** A line of nothing but space contributes no row. */
  lemma BlankLinesDisappear(before: string, blank: string, after: string)
    requires AllSpace(blank) && Without(blank, '\n')
    ensures Parse(before + "\n" + blank + "\n" + after) == Parse(before) + Parse(after)
  {
    hide ParseLines, ParseLine;
    var a, b := Split(before, '\n'), Split(blank + "\n" + after, '\n');
    assert before + "\n" + blank + "\n" + after == before + "\n" + (blank + "\n" + after);
    SplitJoin(before, '\n', blank + "\n" + after);
    SplitFirst(blank, '\n', after);
    ParseLinesOfSum(a, b);
    ParseLinesOfSum([blank], Split(after, '\n'));
    NoRowFromSpace(blank);
    assert ParseLines(b) == ParseLines([blank]) + Parse(after);
  }

  lemma NoRowFromSpace(blank: string)
    requires AllSpace(blank)
    ensures ParseLines([blank]) == []
  {
    SpaceIsNothing(WithoutReturn(blank));
    assert ParseLines([blank][1..]) == [];
  }

  // ---------------------------------------------------------------- round trip

  /** A field the format can carry. */
  predicate Plain(cell: string) {
    Without(cell, ',') && Without(cell, '\n')
  }

  predicate PlainRow(cells: seq<string>) {
    forall i :: 0 <= i < |cells| ==> Plain(cells[i])
  }

  predicate TrimmedRow(cells: seq<string>) {
    forall i :: 0 <= i < |cells| ==> Trimmed(cells[i])
  }

  /** Splitting a printed row gives its fields, the later ones after a space, and the terminator. */
  function Spaced(cells: seq<string>): (s: seq<string>)
    ensures |s| == |cells| && forall i :: 0 <= i < |s| ==> s[i] == " " + cells[i]
  {
    seq(|cells|, i requires 0 <= i < |cells| => " " + cells[i])
  }

  lemma {:induction false} SplitPrinted(prefix: string, cells: seq<string>)
    requires PlainRow(cells) && Without(prefix, ',')
    ensures Split(prefix + PrintFields(cells), ',') ==
            if cells == [] then [prefix + ROW_TERMINATOR]
            else [prefix + cells[0]] + Spaced(cells[1..]) + [" " + ROW_TERMINATOR]
    decreases |cells|
  {
    if cells == [] {
      SplitWhole(prefix + ROW_TERMINATOR, ',');
    } else {
      var rest := PrintFields(cells[1..]);
      assert prefix + PrintFields(cells) == (prefix + cells[0]) + [','] + (" " + rest);
      SplitFirst(prefix + cells[0], ',', " " + rest);
      SplitPrinted(" ", cells[1..]);
      if cells[1..] != [] {
        assert Spaced(cells[1..]) == [" " + cells[1]] + Spaced(cells[1..][1..]);
      } else {
        assert Spaced(cells[1..]) == [];
      }
    }
  }

  lemma {:induction false} PrintedHasNoNewline(cells: seq<string>)
    requires PlainRow(cells)
    ensures Without(PrintFields(cells), '\n')
    ensures var p := PrintFields(cells); p != "" && p[|p| - 1] == '>'
  {
    if cells != [] {
      PrintedHasNoNewline(cells[1..]);
      assert Without(cells[0], '\n');
    }
  }

  lemma {:induction false} TrimKeepsLast(s: string)
    requires s != "" && !IsSpace(s[|s| - 1])
    ensures Trim(s) != ""
  {
    if IsSpace(s[0]) {
      assert s[1..][|s| - 2] == s[|s| - 1];
      TrimKeepsLast(s[1..]);
    }
  }

  lemma TrimSpaced(s: string)
    ensures Trim(" " + s) == Trim(s)
  {
    assert (" " + s)[1..] == s;
  }

  lemma TrimPieces(cells: seq<string>)
    requires PlainRow(cells)
    ensures TrimAll(Split(PrintFields(cells), ',')) == TrimAll(cells) + [ROW_TERMINATOR]
  {
    hide Trim, Split, PrintFields, Plain;
    SplitPrinted("", cells);
    assert "" + PrintFields(cells) == PrintFields(cells);
    TrimTerminator();
    var pieces := Split(PrintFields(cells), ',');
    if cells != [] {
      assert "" + cells[0] == cells[0];
      assert |pieces| == |cells| + 1 && pieces[0] == cells[0] && pieces[|cells|] == " " + ROW_TERMINATOR;
      forall i | 0 <= i < |cells| ensures Trim(pieces[i]) == Trim(cells[i]) {
        if i > 0 {
          assert pieces[i] == Spaced(cells[1..])[i - 1] == " " + cells[i];
          TrimSpaced(cells[i]);
        }
      }
    } else {
      assert "" + ROW_TERMINATOR == ROW_TERMINATOR;
    }
  }

  lemma TrimTerminator()
    ensures Trim(ROW_TERMINATOR) == Trim(" " + ROW_TERMINATOR) == ROW_TERMINATOR
  {
    TrimOfTrimmed(ROW_TERMINATOR);
  }

  /** One printed row parses to its trimmed fields. */
  lemma ParsePrintedRow(cells: seq<string>)
    requires PlainRow(cells)
    ensures ParseLine(PrintFields(cells)) == Some(TrimAll(cells))
  {
    var line := PrintFields(cells);
    PrintedHasNoNewline(cells);
    TrimKeepsLast(line);
    hide Trim, Split, PrintFields, Plain, TrimAll;
    TrimPieces(cells);
    assert WithoutReturn(line) == line;
  }

  /** The fields of every row, trimmed. */
  function TrimRows(rows: seq<seq<string>>): (t: seq<seq<string>>)
    ensures |t| == |rows| && forall i :: 0 <= i < |t| ==> t[i] == TrimAll(rows[i])
  {
    seq(|rows|, i requires 0 <= i < |rows| => TrimAll(rows[i]))
  }

  /** Parsing a printed table gives back its rows, each field trimmed, for any fields without commas and
      line breaks. */
  lemma {:induction false} ParsePrintedTable(rows: seq<seq<string>>)
    requires rows != [] && forall i :: 0 <= i < |rows| ==> PlainRow(rows[i])
    ensures Parse(PrintTable(rows)) == TrimRows(rows)
  {
    hide PrintFields, ParseLine, Plain, TrimAll, Split;
    var first := PrintFields(rows[0]);
    PrintedHasNoNewline(rows[0]);
    ParsePrintedRow(rows[0]);
    if |rows| == 1 {
      SplitWhole(first, '\n');
      assert ParseLines([first]) == [TrimAll(rows[0])] + ParseLines([]);
    } else {
      var rest := PrintTable(rows[1..]);
      SplitFirst(first, '\n', rest);
      ParsePrintedTable(rows[1..]);
      assert ([first] + Split(rest, '\n'))[1..] == Split(rest, '\n');
      assert TrimRows(rows) == [TrimAll(rows[0])] + TrimRows(rows[1..]);
    }
  }

  /** When the fields are also trimmed, parsing is the exact inverse of printing. */
  lemma RoundTrip(rows: seq<seq<string>>)
    requires rows != [] && forall i :: 0 <= i < |rows| ==> PlainRow(rows[i]) && TrimmedRow(rows[i])
    ensures Parse(PrintTable(rows)) == rows
  {
    ParsePrintedTable(rows);
    forall i | 0 <= i < |rows| ensures TrimAll(rows[i]) == rows[i] {
      forall j | 0 <= j < |rows[i]| ensures Trim(rows[i][j]) == rows[i][j] {
        TrimOfTrimmed(rows[i][j]);
      }
    }
  }
}
