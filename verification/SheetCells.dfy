/** What a spreadsheet cell receives, told by the text it is made from: dates are month, day and year, numbers
    are numbers, and everything else stays text. */
module SheetCells {
  import opened Decimals
  import opened Text
  import opened FinalizedStore
  import opened CsvExport
  import opened PageMerge
  import opened PageSplit
  import opened ManualPolls
  import opened ManualEndToEnd

  // ---------------------------------------------------------------- dates

  predicate IsDate(m: string, d: string, y: string) {
    AllDigits(m) && 1 <= |m| <= 2 && AllDigits(d) && 1 <= |d| <= 2 && AllDigits(y) && |y| == 4
  }

  lemma DateIsTrimmed(m: string, d: string, y: string)
    requires IsDate(m, d, y)
    ensures Trimmed(m + "/" + d + "/" + y)
  {
  }

  lemma SplitDate(m: string, d: string, y: string)
    requires Without(m, '/') && Without(d, '/') && Without(y, '/')
    ensures Split(m + "/" + d + "/" + y, '/') == [m, d, y]
  {
    assert m + "/" + d + "/" + y == m + "/" + (d + "/" + y);
    SplitFirst(m, '/', d + "/" + y);
    SplitFirst(d, '/', y);
    SplitWhole(y, '/');
  }

  /** month/day/year, with any space around it, is that date. */
  lemma DateReads(before: string, m: string, d: string, y: string, after: string)
    requires IsDate(m, d, y) && AllSpace(before) && AllSpace(after)
    ensures ParseDate(before + (m + "/" + d + "/" + y) + after) == DateCell(Value(m), Value(d), Value(y))
  {
    hide Trim, Split, Value;
    DateIsTrimmed(m, d, y);
    TrimStrips(before, m + "/" + d + "/" + y, after);
    SplitDate(m, d, y);
  }

  ghost predicate LooksLikeDate(text: string) {
    exists m, d, y :: IsDate(m, d, y) && Trim(text) == m + "/" + d + "/" + y
  }

  /** Every other text stays what it is. */
  lemma OtherTextIsNoDate(text: string)
    ensures !LooksLikeDate(text) <==> ParseDate(text) == TextCell(text)
  {
    hide Trim, Split, Value;
    if ParseDate(text) != TextCell(text) {
      var parts := Split(Trim(text), '/');
      JoinOfSplit(Trim(text), '/');
      assert parts == [parts[0], parts[1], parts[2]];
      JoinThree(parts, '/');
      assert IsDate(parts[0], parts[1], parts[2]);
    } else if LooksLikeDate(text) {
      var m, d, y :| IsDate(m, d, y) && Trim(text) == m + "/" + d + "/" + y;
      SplitDate(m, d, y);
    }
  }

  lemma JoinThree(parts: seq<string>, sep: char)
    requires |parts| == 3
    ensures Join(parts, sep) == parts[0] + [sep] + parts[1] + [sep] + parts[2]
  {
    assert parts[1..][1..] == [parts[2]];
    assert Join(parts[1..], sep) == parts[1] + [sep] + parts[2];
  }

  // ---------------------------------------------------------------- numbers

  predicate IsNumeral(s: string) {
    s != "" && AllDigits(s)
  }

  /** A sign, an integer part, and a fraction if there is one. */
  ghost predicate LooksLikeNumber(text: string) {
    exists sign, whole, fraction ::
      && (sign == "" || sign == "-") && IsNumeral(whole)
      && (fraction == "" || (fraction[0] == '.' && IsNumeral(fraction[1..])))
      && text == sign + whole + fraction
  }

  lemma SplitNumber(whole: string, fraction: string)
    requires IsNumeral(whole) && (fraction == "" || (fraction[0] == '.' && IsNumeral(fraction[1..])))
    ensures Split(whole + fraction, '.') == if fraction == "" then [whole] else [whole, fraction[1..]]
  {
    if fraction == "" {
      assert whole + fraction == whole;
      SplitWhole(whole, '.');
    } else {
      assert whole + fraction == whole + "." + fraction[1..];
      SplitFirst(whole, '.', fraction[1..]);
      SplitWhole(fraction[1..], '.');
    }
  }

  /** A cell is a number exactly when its text, trimmed, looks like one; otherwise it is the text. */
  lemma NumberReadsIff(text: string)
    ensures ToNumberOrText(text) == if LooksLikeNumber(Trim(text)) then NumberCell(Trim(text)) else TextCell(text)
  {
    hide Trim, Split;
    var t := Trim(text);
    var body := if t != "" && t[0] == '-' then t[1..] else t;
    if IsNumber(t) {
      JoinOfSplit(body, '.');
      var parts := Split(body, '.');
      var sign := if body == t then "" else "-";
      var fraction := if |parts| == 1 then "" else "." + parts[1];
      JoinOneOrTwo(parts, '.');
      assert body == parts[0] + fraction;
      assert t == sign + parts[0] + fraction;
      assert fraction != "" ==> fraction[1..] == parts[1];
    } else if LooksLikeNumber(t) {
      var sign, whole, fraction :|
        && (sign == "" || sign == "-") && IsNumeral(whole)
        && (fraction == "" || (fraction[0] == '.' && IsNumeral(fraction[1..])))
        && t == sign + whole + fraction;
      assert body == whole + fraction;
      SplitNumber(whole, fraction);
    }
  }

  lemma JoinOneOrTwo(parts: seq<string>, sep: char)
    requires 1 <= |parts| <= 2
    ensures Join(parts, sep) == if |parts| == 1 then parts[0] else parts[0] + [sep] + parts[1]
  {
    if |parts| == 2 {
      assert parts[1..] == [parts[1]];
    }
  }

  // ---------------------------------------------------------------- the cells of a row

  /** A calendar day in some time zone. */
  datatype Day = Day(month: nat, day: nat, year: nat)

  function Padded(n: nat, width: nat): (s: string)
    ensures AllDigits(s) && Value(s) == n
    ensures |s| == if |Decimal(n)| >= width then |Decimal(n)| else width
    decreases width - |Decimal(n)|
  {
    Zeros(if |Decimal(n)| >= width then 0 else width - |Decimal(n)|, Decimal(n))
  }

  function Zeros(k: nat, digits: string): (s: string)
    requires AllDigits(digits)
    ensures AllDigits(s) && Value(s) == Value(digits) && |s| == k + |digits|
  {
    if k == 0 then digits
    else
      ZeroInFront(Zeros(k - 1, digits));
      "0" + Zeros(k - 1, digits)
  }

  lemma {:induction false} ZeroInFront(s: string)
    requires AllDigits(s)
    ensures AllDigits("0" + s) && Value("0" + s) == Value(s)
  {
    if s == "" {
      assert ("0" + s)[..0] == "";
      assert Value("0" + s) == 10 * Value("") + 0;
    } else {
      var n := |s| - 1;
      assert ("0" + s)[..|s|] == "0" + s[..n];
      ZeroInFront(s[..n]);
    }
  }

  /** "01/02/2006" in Go's notation. */
  function PrintDay(d: Day): string {
    Padded(d.month, 2) + "/" + Padded(d.day, 2) + "/" + Padded(d.year, 4)
  }

  predicate IsDay(d: Day) {
    1 <= d.month <= 12 && 1 <= d.day <= 31 && d.year < 10000
  }

  /** The environment prints the days of a calendar. */
  ghost predicate PrintsDays(env: Env, calendar: nat -> Day) {
    forall t :: IsDay(calendar(t)) && env.dateOf(t) == PrintDay(calendar(t))
  }

  lemma {:induction false} ShortNumeral(n: nat, k: nat)
    requires k >= 1 && n < Power10(k)
    ensures |Decimal(n)| <= k
  {
    assert Power10(1) == 10 * Power10(0) == 10;
    if n >= 10 && k > 1 {
      ShortNumeral(n / 10, k - 1);
    }
  }

  lemma DayReads(d: Day)
    requires IsDay(d)
    ensures ParseDate(Trim(PrintDay(d))) == DateCell(d.month, d.day, d.year)
  {
    hide ParseDate, Trim, Value, Decimal;
    assert Power10(2) == 100 && Power10(4) == 10000;
    ShortNumeral(d.month, 2);
    ShortNumeral(d.day, 2);
    ShortNumeral(d.year, 4);
    var m, dd, y := Padded(d.month, 2), Padded(d.day, 2), Padded(d.year, 4);
    DateIsTrimmed(m, dd, y);
    TrimOfTrimmed(PrintDay(d));
    DateReads("", m, dd, y, "");
    assert "" + (m + "/" + dd + "/" + y) + "" == PrintDay(d);
  }

  /** The first three columns are Date, Topic and Total, and a row holds the poll's own day, topic and total under
      them. */
  lemma FirstCells(env: Env, calendar: nat -> Day, pages: seq<seq<FinalRecord>>, rec: FinalRecord, votes: seq<Cell>)
    requires PrintsDays(env, calendar) && HasTime(rec)
    ensures PagedTable(env, pages).header[..3] == ["Date", "Topic", "Total"]
    ensures var row, day := RowWith(env, rec, votes), calendar(Seconds(ParseUint(rec.id).value));
            && row[0] == DateCell(day.month, day.day, day.year)
            && row[1] == TextCell(Trim(Filtered(rec.title)))
            && row[2] == NumberCell(Decimal(Count(rec.answers).total))
  {
    hide ParseDate, Trim, Count, Decimal, Filtered, ParseUint, PrintDay, ToNumberOrText, PagedRows;
    var t := Seconds(ParseUint(rec.id).value);
    assert env.dateOf(t) == PrintDay(calendar(t));
    DayReads(calendar(t));
    DigitsAreNumber(Decimal(Count(rec.answers).total));
    assert PagedTable(env, pages).header == KEPT_COLUMNS + Sorted(ColumnSet(env, Voters(Flatten(pages))));
  }

  /** So the line of a hand-entered poll begins with the day its id was made for. */
  lemma LineBeginsWithDay(env: Env, calendar: nat -> Day, p: NewPollWeb, names: seq<string>, voters: set<Snowflake>, row: seq<Cell>)
    requires PrintsDays(env, calendar) && AreColumns(env, names, voters) && Line(env, p, names, voters, row)
    ensures var day := calendar(Seconds(Key(p))); row[0] == DateCell(day.month, day.day, day.year)
  {
    hide ParseDate, Trim, PrintDay, Seconds, Key;
    var t := Seconds(Key(p));
    assert env.dateOf(t) == PrintDay(calendar(t));
    DayReads(calendar(t));
  }

  /** The columns a merged row keeps are those of the export but for ID and Active, each cell made from the cell
      of its own column. */
  lemma KeptColumns(rec: Record, names: seq<string>)
    requires |rec.meta| == 5
    ensures FIXED_COLUMNS == ["ID", "Date", "Active", "Topic", "Total"] && KEPT_COLUMNS == ["Date", "Topic", "Total"]
    ensures forall i, j :: 0 <= i < 3 && 0 <= j < 5 && KEPT_COLUMNS[i] == FIXED_COLUMNS[j] ==>
              OutRow(rec, names)[i] == (if KEPT_COLUMNS[i] == "Date" then ParseDate(rec.meta[j])
                                        else if KEPT_COLUMNS[i] == "Total" then ToNumberOrText(rec.meta[j])
                                        else TextCell(rec.meta[j]))
  {
    hide ParseDate, ToNumberOrText;
    var c := FIXED_COLUMNS;
    assert |c[0]| == 2 && |c[1]| == 4 && |c[2]| == 6 && |c[3]| == 5 && |c[4]| == 5 && c[3][1] == 'o' && c[4][1] == 'o' && c[3][2] == 'p' && c[4][2] == 't';
  }
}
