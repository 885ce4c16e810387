/** Where the export's side conditions come from: what happens to polls that share a stripped title, to a
    column named like a property every JavaScript object inherits, and to titles of several lines. */
module ExportLimits {
  import opened Options
  import opened Decimals
  import opened Text
  import opened FinalizedStore
  import opened CsvFormat
  import opened CsvExport
  import opened PageMerge
  import opened PageSplit
  import opened PageInvariance

  predicate LastOfTitle(recs: seq<FinalRecord>, j: nat)
    requires j < |recs|
  {
    forall k :: j < k < |recs| ==> Filtered(recs[k].title) != Filtered(recs[j].title)
  }

  /** The votes kept under the title of its last poll: none for one that is no rating, an empty set for one
      whose id is no snowflake. */
  function KeptFor(rec: FinalRecord): Option<CsvExport.Votes> {
    if !HasTime(rec) then Some(map[])
    else if Count(rec.answers).rating then Some(Count(rec.answers).votes)
    else None
  }

  /** Polls that share a stripped title share one entry, which the last of them decides. */
  lemma {:induction false} LastDecides(recs: seq<FinalRecord>, j: nat)
    requires j < |recs| && LastOfTitle(recs, j)
    ensures var title := Filtered(recs[j].title);
            KeptFor(recs[j]) == if title in Mapped(recs) then Some(Mapped(recs)[title]) else None
  {
    hide Count, HasTime, Filtered;
    var n := |recs| - 1;
    if j < n {
      LastDecides(recs[..n], j);
    }
  }

  /** So a rating poll's row holds its own votes if and only if those are the votes kept for the last poll of
      its title; otherwise the row is missing or shows other votes. Pairwise distinct titles make every poll
      the last of its title. */
  lemma RowIsOwnIff(recs: seq<FinalRecord>, i: nat, j: nat)
    requires i <= j < |recs| && Exported(recs[i])
    requires Filtered(recs[i].title) == Filtered(recs[j].title) && LastOfTitle(recs, j)
    ensures var title := Filtered(recs[i].title);
            (title in Mapped(recs) && Mapped(recs)[title] == Count(recs[i].answers).votes)
            <==> KeptFor(recs[j]) == Some(Count(recs[i].answers).votes)
  {
    hide Count, HasTime, Filtered;
    LastDecides(recs, j);
  }

  // ---------------------------------------------------------------- inherited names

  const TWO_PAGES_ENV := Env(map["7" := "constructor"], (_: nat) => "01/01/2015")
  const FIRST := FinalRecord([RecordAnswer([STAR], 1, ["5"])], [[STAR]], "1", "", "a", true)
  const SECOND := FinalRecord([RecordAnswer([STAR], 1, ["7"])], [[STAR]], "2", "", "b", true)

  lemma OneStar(rec: FinalRecord, v: Snowflake)
    requires rec.answers == [RecordAnswer([STAR], 1, [v])]
    ensures Count(rec.answers) == Ballot(map[v := "1"], 1, {v}, true)
  {
    assert LeadingStars([STAR]) == 1 && [STAR][1..] == "";
    assert Classify([STAR]) == Choice("1");
    assert rec.answers[..0] == [] && [v][..0] == [];
    var b := Ballot(map[], 0, {}, true);
    assert CastAll(b, [], "1") == b;
    assert CastAll(b, [v], "1") == CastOne(b, v, "1");
  }

  lemma TwoRecords()
    ensures ProperRecords(TWO_PAGES_ENV, [FIRST, SECOND]) && Voters([FIRST, SECOND]) == {"5", "7"} && Voters([FIRST]) == {"5"}
    ensures Exported(FIRST)
  {
    hide Count;
    OneStar(FIRST, "5");
    OneStar(SECOND, "7");
    assert "1"[..0] == "" && "2"[..0] == "";
    assert Value("1") == 1 && Value("2") == 2;
    assert "a"[1..] == "" && "b"[1..] == "";
    assert Filtered("a") == "a" && Filtered("b") == "b";
    assert [FIRST, SECOND][..1] == [FIRST] && [FIRST][..0] == [];
    assert Voters([]) == {};
    assert Voters([FIRST]) == {"5"};
  }

  lemma ShortNames()
    ensures Column(TWO_PAGES_ENV, "5") == "5" && Plain(Name(TWO_PAGES_ENV, "5"))
  {
    TrimOfTrimmed("5");
  }

  lemma LongName()
    ensures Column(TWO_PAGES_ENV, "7") == "constructor" && Plain(Name(TWO_PAGES_ENV, "7"))
  {
    assert Name(TWO_PAGES_ENV, "7") == "constructor";
    var c := "constructor";
    assert |c| == 11 && c[0] == 'c' && c[10] == 'r';
    TrimOfTrimmed(c);
  }

  lemma TwoNames()
    ensures Column(TWO_PAGES_ENV, "5") == "5" && Column(TWO_PAGES_ENV, "7") == "constructor"
    ensures ProperNames(TWO_PAGES_ENV, {"5", "7"}) && Treacherous(TWO_PAGES_ENV, "7")
  {
    ShortNames();
    LongName();
    hide Column, Plain;
    assert "5" != "constructor" by { assert |"5"| == 1 && |"constructor"| == 11; }
  }

  /** Two polls with one vote each, the second by a voter whose alias is `constructor`. On one page they merge
      to the reference table; on two pages, whatever the exports, they do not. */
  lemma InheritedNameShowsPaging() returns (texts: seq<string>, whole: string)
    ensures |texts| == 2 && IsExport([FIRST], TWO_PAGES_ENV, texts[0]) && IsExport([SECOND], TWO_PAGES_ENV, texts[1])
    ensures IsExport([FIRST, SECOND], TWO_PAGES_ENV, whole)
    ensures Merge(ParseAll(texts)) != Merge(ParseAll([whole]))
  {
    hide IsExport, Merge, ProperRecords, ProperNames, Voters, Treacherous, Exported;
    var first := ExportExists([FIRST], TWO_PAGES_ENV);
    var second := ExportExists([SECOND], TWO_PAGES_ENV);
    whole := ExportExists([FIRST, SECOND], TWO_PAGES_ENV);
    texts := [first, second];
    var pages := [[FIRST], [SECOND]];
    assert Flatten(pages) == [FIRST, SECOND] by {
      assert pages[..1] == [[FIRST]] && [[FIRST]][..0] == [];
      assert Flatten([[FIRST]]) == [FIRST];
    }
    TwoRecords();
    TwoNames();
    PagingIsInvisibleIff(TWO_PAGES_ENV, pages, texts, whole);
    assert HasExported(pages[0]) by {
      assert Exported(pages[0][0]);
    }
  }

  // ---------------------------------------------------------------- titles of several lines

  /** Records like proper ones, whose titles may have several lines. */
  ghost predicate LooseRecords(env: Env, recs: seq<FinalRecord>) {
    && (forall i :: 0 <= i < |recs| ==>
          && (HasTime(recs[i]) ==> Canonical(recs[i].id))
          && (Exported(recs[i]) ==> Plain(env.dateOf(Seconds(Value(recs[i].id))))))
    && IdsIncrease(recs) && DistinctTitles(recs)
  }

  predicate OneLine(rec: FinalRecord) {
    Exported(rec) ==> Without(Filtered(rec.title), '\n')
  }

  lemma LooseIsProper(env: Env, recs: seq<FinalRecord>)
    requires LooseRecords(env, recs)
    ensures ProperRecords(env, recs) <==> forall rec :: rec in recs ==> OneLine(rec)
  {
    hide DistinctTitles, IdsIncrease, HasTime, Count, Value, Canonical;
    forall i | 0 <= i < |recs| ensures ProperRecord(env, recs[i]) <==> OneLine(recs[i]) {
    }
    if ProperRecords(env, recs) {
      forall rec | rec in recs ensures OneLine(rec) {
        var i :| 0 <= i < |recs| && recs[i] == rec;
        assert ProperRecord(env, recs[i]);
      }
    }
  }

  lemma {:induction false} FirstBreak(s: string, c: char) returns (i: nat)
    requires !Without(s, c)
    ensures i < |s| && s[i] == c && Without(s[..i], c)
  {
    if s[0] == c {
      i := 0;
    } else {
      assert !Without(s[1..], c);
      i := FirstBreak(s[1..], c);
      assert s[..i + 1] == [s[0]] + s[1..][..i];
      i := i + 1;
    }
  }

  /** A line with three separators has at most four cells. */
  lemma FourCells(a: string, b: string, c: string, d: string)
    requires a != "" && IsDigit(a[0]) && AllDigits(a) && Without(b, ',') && Without(c, ',') && Without(d, ',')
    ensures var cells := ParseLine(a + ", " + b + ", " + c + ", " + d); cells.Some? && |cells.value| < 5
  {
    hide Trim, Split;
    var line := a + ", " + b + ", " + c + ", " + d;
    var e := WithoutReturn(" " + d);
    assert line == a + "," + (" " + b) + "," + (" " + c) + "," + (" " + d);
    assert WithoutReturn(line) == a + "," + ((" " + b) + "," + ((" " + c) + "," + e));
    NotBlank(WithoutReturn(line));
    SplitFirst(a, ',', (" " + b) + "," + ((" " + c) + "," + e));
    SplitFirst(" " + b, ',', (" " + c) + "," + e);
    SplitFirst(" " + c, ',', e);
    SplitWhole(e, ',');
  }

  lemma {:induction false} ShortRowRefuses(m: Merged, page: nat, names: seq<string>, rows: seq<seq<string>>, row: seq<string>)
    requires row in rows && |row| != 5 + |names|
    ensures AddRows(m, page, names, rows).Bad?
  {
    hide AddRow;
    var n := |rows| - 1;
    if rows[n] != row {
      assert rows == rows[..n] + [rows[n]];
      ShortRowRefuses(m, page, names, rows[..n], row);
    }
  }

  lemma BreakLine(line: string, more: string)
    requires Without(line, '\n') && ParseLine(line).Some?
    ensures var parsed := Parse(line + "\n" + more); parsed != [] && parsed[0] == ParseLine(line).value
  {
    hide ParseLine;
    SplitFirst(line, '\n', more);
    assert ([line] + Split(more, '\n'))[0] == line;
  }

  lemma JoinPieces(a: string, b: string, c: string, d: string, e: string, rest: string)
    ensures a + ", " + b + ", " + c + ", " + (d + "\n" + e) + ", " + rest
            == (a + ", " + b + ", " + c + ", " + d) + "\n" + (e + ", " + rest)
  {
  }

  /** A printed row whose title has a line break parses to a first row that is too short. */
  lemma BrokenRow(env: Env, p: Pair, votes: CsvExport.Votes, voters: seq<Snowflake>)
    requires AllDigits(p.id) && p.id != "" && Plain(env.dateOf(p.time)) && Without(p.title, ',') && !Without(p.title, '\n')
    ensures var parsed := Parse(PrintFields(RowCells(env, p, votes, voters))); parsed != [] && |parsed[0]| < 5
  {
    hide Trim, ParseLine, PrintFields, Parse;
    var i := FirstBreak(p.title, '\n');
    var active := if p.active then "1" else "0";
    var line := p.id + ", " + env.dateOf(p.time) + ", " + active + ", " + p.title[..i];
    var cells := RowCells(env, p, votes, voters);
    var rest := FourFields(cells);
    assert p.title == p.title[..i] + "\n" + p.title[i + 1..];
    JoinPieces(p.id, env.dateOf(p.time), active, p.title[..i], p.title[i + 1..], rest);
    FourCells(p.id, env.dateOf(p.time), active, p.title[..i]);
    BreakLine(line, p.title[i + 1..] + ", " + rest);
  }

  lemma FourFields(cells: seq<string>) returns (rest: string)
    requires |cells| >= 4
    ensures PrintFields(cells) == cells[0] + ", " + cells[1] + ", " + cells[2] + ", " + cells[3] + ", " + rest
  {
    rest := PrintFields(cells[4..]);
    assert cells[1..][1..] == cells[2..] && cells[2..][1..] == cells[3..] && cells[3..][1..] == cells[4..];
    assert PrintFields(cells[3..]) == cells[3] + ", " + rest;
    assert PrintFields(cells[2..]) == cells[2] + ", " + PrintFields(cells[3..]);
    assert PrintFields(cells[1..]) == cells[1] + ", " + PrintFields(cells[2..]);
  }

  lemma {:induction false} BrokenTable(rows: seq<seq<string>>, k: nat)
    requires k < |rows| && Parse(PrintFields(rows[k])) != []
    ensures Parse(PrintFields(rows[k]))[0] in Parse(PrintTable(rows))
  {
    hide PrintFields, Parse;
    if |rows| > 1 {
      ParseFirstRow(rows);
      if k > 0 {
        BrokenTable(rows[1..], k - 1);
      }
    }
  }

  /** Where the row of an exported poll is. */
  lemma {:induction false} RowIndex(env: Env, order: seq<Pair>, mapped: map<string, CsvExport.Votes>, voters: seq<Snowflake>, p: Pair)
    requires p in order && p.title in mapped
    ensures RowCells(env, p, mapped[p.title], voters) in RowsFor(env, order, mapped, voters)
  {
    hide RowCells;
    var n := |order| - 1;
    if order[n] != p {
      assert order == order[..n] + [order[n]];
      RowIndex(env, order[..n], mapped, voters, p);
    }
  }

  lemma PlainHeader(env: Env, voters: set<Snowflake>)
    requires ProperNames(env, voters)
    ensures var head := Header(env, Sorted(voters));
            |head| == 5 + |Sorted(voters)| && Parse(PrintFields(head)) == [TrimAll(head)]
  {
    var head := Header(env, Sorted(voters));
    HeaderIsPlain(env, voters);
    hide PrintFields, TrimAll, Plain, ProperNames;
    ParsePrintedTable([head]);
  }

  /** A page with an exported title of several lines is refused. */
  lemma LineBreakRefuses(env: Env, recs: seq<FinalRecord>, text: string, m: Merged, page: nat)
    requires IsExport(recs, env, text) && LooseRecords(env, recs) && ProperNames(env, Voters(recs))
    requires exists rec :: rec in recs && !OneLine(rec)
    ensures AddPage(m, page, Parse(text)).Bad?
  {
    hide Parse, PrintFields, PrintTable, RowCells, Count, ProperNames, Voters, Mapped, RowsFor, Header, AddRows, Filtered, DistinctTitles;
    var order :| IsExportIn(recs, env, order, text);
    var rec :| rec in recs && !OneLine(rec);
    var i :| 0 <= i < |recs| && recs[i] == rec;
    var voters := Sorted(Voters(recs));
    var p := PairOf(rec);
    PairsHave(recs);
    assert p in multiset(Pairs(recs));
    assert p in order;
    MappedIsOwn(recs, i);
    var rows := RowsFor(env, order, Mapped(recs), voters);
    RowIndex(env, order, Mapped(recs), voters, p);
    var row := RowCells(env, p, Mapped(recs)[p.title], voters);
    var k :| 0 <= k < |rows| && rows[k] == row;
    BrokenRow(env, p, Mapped(recs)[p.title], voters);
    var short := Parse(PrintFields(row))[0];
    var head := Header(env, voters);
    PlainHeader(env, Voters(recs));
    assert ([head] + rows)[1..] == rows;
    ParseFirstRow([head] + rows);
    BrokenTable(rows, k);
    var names := TrimAll(head)[5..];
    var parsed := Parse(text);
    assert parsed[0] == TrimAll(head) && parsed[1..] == Parse(PrintTable(rows));
    ShortRowRefuses(m.(voters := AddVoters(m.voters, names)), page, names, parsed[1..], short);
  }

  lemma LooseParts(env: Env, a: seq<FinalRecord>, b: seq<FinalRecord>)
    requires LooseRecords(env, a + b)
    ensures LooseRecords(env, a) && LooseRecords(env, b)
  {
    hide HasTime, Exported, Filtered, Value, Canonical, Plain, IdsIncrease;
    IncreaseParts(a, b);
    var s := a + b;
    forall i | 0 <= i < |a| ensures a[i] == s[i] {
    }
    forall i | 0 <= i < |b| ensures b[i] == s[|a| + i] {
    }
  }

  lemma {:induction false} BrokenPages(env: Env, pages: seq<seq<FinalRecord>>, texts: seq<string>)
    requires |texts| == |pages| && forall i :: 0 <= i < |pages| ==> IsExport(pages[i], env, texts[i])
    requires LooseRecords(env, Flatten(pages)) && ProperNames(env, Voters(Flatten(pages)))
    requires exists rec :: rec in Flatten(pages) && !OneLine(rec)
    ensures AddPages(ParseAll(texts)).Bad?
  {
    hide LooseRecords, ProperNames, OneLine, IsExport, Voters, Parse, AddPage;
    var n := |pages| - 1;
    var recs, page := Flatten(pages[..n]), pages[n];
    LooseParts(env, recs, page);
    VotersOfSum(recs, page);
    ProperSubset(env, Voters(recs), Voters(recs + page));
    ProperSubset(env, Voters(page), Voters(recs + page));
    assert ParseAll(texts)[..n] == ParseAll(texts[..n]);
    var rec :| rec in recs + page && !OneLine(rec);
    if rec in recs {
      BrokenPages(env, pages[..n], texts[..n]);
    } else if AddPages(ParseAll(texts[..n])).Good? {
      LineBreakRefuses(env, page, texts[n], AddPages(ParseAll(texts[..n])).m, n);
    }
  }

  /** The pages of an answer merge to a table if and only if no exported title has several lines; then it is
      the table of the pages. */
  lemma TableIffOneLine(env: Env, pages: seq<seq<FinalRecord>>, texts: seq<string>)
    requires |texts| == |pages| && forall i :: 0 <= i < |pages| ==> IsExport(pages[i], env, texts[i])
    requires LooseRecords(env, Flatten(pages)) && ProperNames(env, Voters(Flatten(pages)))
    ensures Merge(ParseAll(texts)).Table? <==> forall rec :: rec in Flatten(pages) ==> OneLine(rec)
    ensures Merge(ParseAll(texts)).Table? ==> Merge(ParseAll(texts)) == PagedTable(env, pages)
  {
    hide LooseRecords, ProperRecords, ProperNames, OneLine, IsExport, Voters, Parse, AddPages, PagedRows, Flatten, Output;
    LooseIsProper(env, Flatten(pages));
    if forall rec :: rec in Flatten(pages) ==> OneLine(rec) {
      MergeOfPages(env, pages, texts);
    } else {
      BrokenPages(env, pages, texts);
    }
  }
}
