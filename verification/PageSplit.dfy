/** What the pages of an export parse and merge to. Each page lists only its own voters; the tables below say,
    without CSV and without dictionaries, what a list of records or of pages comes to. */
module PageSplit {
  import opened Decimals
  import opened Text
  import opened FinalizedStore
  import opened CsvFormat
  import opened CsvExport
  import opened PageMerge

  // ---------------------------------------------------------------- side conditions

  /** A cell that survives printing, splitting and trimming. */
  predicate Clean(s: string) {
    Plain(s) && Trimmed(s)
  }

  /** Only rating polls are exported. */
  predicate Exported(rec: FinalRecord) {
    HasTime(rec) && Count(rec.answers).rating
  }

  /** A record whose id, if it is a snowflake, is one the tables could have printed and whose title and date,
      if it is exported, fit on one line. */
  predicate ProperRecord(env: Env, rec: FinalRecord) {
    && (HasTime(rec) ==> Canonical(rec.id))
    && (Exported(rec) ==> Plain(Filtered(rec.title)) && Plain(env.dateOf(Seconds(Value(rec.id)))))
  }

  /** Snowflakes by increasing number; records with other ids have no row and may stand anywhere. */
  predicate IdsIncrease(recs: seq<FinalRecord>) {
    forall i, j :: 0 <= i < j < |recs| && HasTime(recs[i]) && HasTime(recs[j]) ==> Value(recs[i].id) < Value(recs[j].id)
  }

  /** Records as a page query returns them - by increasing numeric id - with pairwise distinct titles once
      their commas are stripped. */
  ghost predicate ProperRecords(env: Env, recs: seq<FinalRecord>) {
    && (forall i :: 0 <= i < |recs| ==> ProperRecord(env, recs[i]))
    && IdsIncrease(recs) && DistinctTitles(recs)
  }

  /** The column the parser gives a voter. */
  function Column(env: Env, voter: Snowflake): string {
    Trim(Name(env, voter))
  }

  /** Names without commas and line breaks that stay pairwise distinct when trimmed. */
  ghost predicate ProperNames(env: Env, voters: set<Snowflake>) {
    && (forall v :: v in voters ==> Plain(Name(env, v)))
    && (forall v, w :: v in voters && w in voters && Column(env, v) == Column(env, w) ==> v == w)
  }

  // ---------------------------------------------------------------- the reference table

  /** How a voter voted in a poll. */
  function CellOf(rec: FinalRecord, voter: Snowflake): string {
    if voter in Count(rec.answers).votes then Count(rec.answers).votes[voter] else NO_VOTE
  }

  /** The columns of a table; a name that cannot be a key has none. */
  function ColumnSet(env: Env, voters: set<Snowflake>): set<string> {
    set v | v in voters && Column(env, v) != PROTO :: Column(env, v)
  }

  predicate AreColumns(env: Env, names: seq<string>, voters: set<Snowflake>) {
    forall n :: n in names ==> n in ColumnSet(env, voters)
  }

  /** The voter behind a column. */
  ghost function Who(env: Env, voters: set<Snowflake>, name: string): (v: Snowflake)
    requires name in ColumnSet(env, voters)
    ensures v in voters && Column(env, v) == name
  {
    var v :| v in voters && Column(env, v) == name;
    v
  }

  ghost function ReferenceVotes(env: Env, rec: FinalRecord, names: seq<string>, voters: set<Snowflake>): (r: seq<Cell>)
    requires AreColumns(env, names, voters)
    ensures |r| == |names| && forall i :: 0 <= i < |r| ==> r[i] == ToNumberOrText(CellOf(rec, Who(env, voters, names[i])))
  {
    if names == [] then []
    else [ToNumberOrText(CellOf(rec, Who(env, voters, names[0])))] + ReferenceVotes(env, rec, names[1..], voters)
  }

  /** One row: the poll's own date, topic and total, then votes. */
  function RowWith(env: Env, rec: FinalRecord, votes: seq<Cell>): seq<Cell>
    requires HasTime(rec)
  {
    var p := PairOf(rec);
    [ParseDate(Trim(env.dateOf(p.time))), TextCell(Trim(p.title)), ToNumberOrText(Decimal(p.total))] + votes
  }

  ghost function ReferenceRows(env: Env, recs: seq<FinalRecord>, names: seq<string>, voters: set<Snowflake>): seq<seq<Cell>>
    requires AreColumns(env, names, voters)
  {
    if recs == [] then []
    else
      var last := recs[|recs| - 1];
      ReferenceRows(env, recs[..|recs| - 1], names, voters)
      + (if Exported(last) then [RowWith(env, last, ReferenceVotes(env, last, names, voters))] else [])
  }

  /** The table a record list determines, without pages: a column per voter met, a row per rating poll, each
      voter's own vote in each cell. */
  ghost function Reference(env: Env, recs: seq<FinalRecord>): Result {
    var voters := Voters(recs);
    var names := Sorted(ColumnSet(env, voters));
    Table(KEPT_COLUMNS + names, ReferenceRows(env, recs, names, voters))
  }

  // ---------------------------------------------------------------- the table of a list of pages

  function Flatten(pages: seq<seq<FinalRecord>>): seq<FinalRecord> {
    if pages == [] then [] else Flatten(pages[..|pages| - 1]) + pages[|pages| - 1]
  }

  /** A voter's cell in a row of a page that lists the voters `own`: a column the page does not have is
      looked up in an object without it. */
  function ShownCell(env: Env, rec: FinalRecord, voter: Snowflake, own: set<Snowflake>): Cell {
    if voter !in own && Column(env, voter) in INHERITED then InheritedCell(Column(env, voter))
    else ToNumberOrText(CellOf(rec, voter))
  }

  ghost function PagedVotes(env: Env, rec: FinalRecord, names: seq<string>, voters: set<Snowflake>, own: set<Snowflake>): (r: seq<Cell>)
    requires AreColumns(env, names, voters)
    ensures |r| == |names| && forall i :: 0 <= i < |r| ==> r[i] == ShownCell(env, rec, Who(env, voters, names[i]), own)
  {
    if names == [] then []
    else [ShownCell(env, rec, Who(env, voters, names[0]), own)] + PagedVotes(env, rec, names[1..], voters, own)
  }

  ghost function PageRows(env: Env, page: seq<FinalRecord>, names: seq<string>, voters: set<Snowflake>, own: set<Snowflake>): seq<seq<Cell>>
    requires AreColumns(env, names, voters)
  {
    if page == [] then []
    else
      var last := page[|page| - 1];
      PageRows(env, page[..|page| - 1], names, voters, own)
      + (if Exported(last) then [RowWith(env, last, PagedVotes(env, last, names, voters, own))] else [])
  }

  ghost function PagedRows(env: Env, pages: seq<seq<FinalRecord>>, names: seq<string>, voters: set<Snowflake>): seq<seq<Cell>>
    requires AreColumns(env, names, voters)
  {
    if pages == [] then []
    else
      var n := |pages| - 1;
      PagedRows(env, pages[..n], names, voters) + PageRows(env, pages[n], names, voters, Voters(pages[n]))
  }

  ghost function PagedTable(env: Env, pages: seq<seq<FinalRecord>>): Result {
    var voters := Voters(Flatten(pages));
    var names := Sorted(ColumnSet(env, voters));
    Table(KEPT_COLUMNS + names, PagedRows(env, pages, names, voters))
  }

  // ---------------------------------------------------------------- facts about one poll

  lemma {:induction false} CastVotes(b: Ballot, voters: seq<Snowflake>, c: string)
    requires c in {"N/A", "1", "2", "3", "4", "5"}
    requires b.votes.Keys <= b.seen && forall v :: v in b.votes ==> b.votes[v] in {"N/A", "1", "2", "3", "4", "5"}
    ensures var d := CastAll(b, voters, c);
            d.votes.Keys <= d.seen && forall v :: v in d.votes ==> d.votes[v] in {"N/A", "1", "2", "3", "4", "5"}
  {
    if voters != [] {
      CastVotes(b, voters[..|voters| - 1], c);
    }
  }

  /** Every recorded vote is a choice of the scale by a voter who has a column. */
  lemma {:induction false} VotesAreChoices(answers: seq<RecordAnswer>)
    ensures var b := Count(answers);
            b.votes.Keys <= b.seen && forall v :: v in b.votes ==> b.votes[v] in {"N/A", "1", "2", "3", "4", "5"}
  {
    if answers != [] {
      var before, a := Count(answers[..|answers| - 1]), answers[|answers| - 1];
      VotesAreChoices(answers[..|answers| - 1]);
      if before.rating && Classify(a.title).Choice? {
        CastVotes(before, a.voters, Classify(a.title).c);
      }
    }
  }

  lemma {:induction false} SeenHasColumn(recs: seq<FinalRecord>, rec: FinalRecord)
    requires rec in recs && HasTime(rec)
    ensures Count(rec.answers).seen <= Voters(recs)
  {
    var n := |recs| - 1;
    if recs[n] != rec {
      assert recs == recs[..n] + [recs[n]];
      SeenHasColumn(recs[..n], rec);
    }
  }

  lemma {:induction false} PairsHave(recs: seq<FinalRecord>)
    ensures forall rec :: rec in recs && HasTime(rec) ==> PairOf(rec) in Pairs(recs)
    ensures forall p :: p in Pairs(recs) ==> exists i :: 0 <= i < |recs| && HasTime(recs[i]) && PairOf(recs[i]) == p
  {
    hide PairOf, HasTime;
    if recs != [] {
      var n := |recs| - 1;
      PairsHave(recs[..n]);
      assert recs == recs[..n] + [recs[n]];
      forall p | p in Pairs(recs) ensures exists i :: 0 <= i < |recs| && HasTime(recs[i]) && PairOf(recs[i]) == p {
        if p in Pairs(recs[..n]) {
          var i :| 0 <= i < n && HasTime(recs[..n][i]) && PairOf(recs[..n][i]) == p;
          assert recs[i] == recs[..n][i];
        } else {
          assert HasTime(recs[n]) && PairOf(recs[n]) == p;
        }
      }
    }
  }

  ghost predicate DistinctTitles(recs: seq<FinalRecord>) {
    forall i, j :: 0 <= i < j < |recs| ==> Filtered(recs[i].title) != Filtered(recs[j].title)
  }

  /** With distinct titles, each title maps to its own poll's votes, if that poll is a rating. */
  lemma {:induction false} MappedIsOwn(recs: seq<FinalRecord>, i: nat)
    requires DistinctTitles(recs) && i < |recs| && HasTime(recs[i])
    ensures Filtered(recs[i].title) in Mapped(recs) <==> Exported(recs[i])
    ensures Exported(recs[i]) ==> Mapped(recs)[Filtered(recs[i].title)] == Count(recs[i].answers).votes
  {
    hide Count, HasTime, Filtered;
    var n := |recs| - 1;
    if i < n {
      MappedIsOwn(recs[..n], i);
    }
  }

  // ---------------------------------------------------------------- a page parses to its table

  lemma {:induction false} DigitsAreClean(s: string)
    requires AllDigits(s)
    ensures Clean(s)
  {
  }

  lemma ChoicesAreClean(c: string)
    requires c in {"N/A", "1", "2", "3", "4", "5"}
    ensures Clean(c)
  {
  }

  lemma FixedColumnsAreClean()
    ensures forall i :: 0 <= i < 5 ==> Clean(FIXED_COLUMNS[i])
  {
  }

  lemma HeaderIsPlain(env: Env, voters: set<Snowflake>)
    requires ProperNames(env, voters)
    ensures PlainRow(Header(env, Sorted(voters)))
  {
    FixedColumnsAreClean();
    var k := Sorted(voters);
    forall i | 0 <= i < |k| ensures Plain(Name(env, k[i])) {
      assert k[i] in k;
    }
  }

  predicate AreChoices(votes: CsvExport.Votes) {
    forall v :: v in votes ==> votes[v] in {"N/A", "1", "2", "3", "4", "5"}
  }

  lemma VoteCellsAreClean(votes: CsvExport.Votes, voters: seq<Snowflake>)
    requires AreChoices(votes)
    ensures PlainRow(VoteCells(votes, voters)) && TrimAll(VoteCells(votes, voters)) == VoteCells(votes, voters)
  {
    var cells := VoteCells(votes, voters);
    forall i | 0 <= i < |cells| ensures Plain(cells[i]) && Trim(cells[i]) == cells[i] {
      ChoicesAreClean(cells[i]);
      TrimOfTrimmed(cells[i]);
    }
  }

  lemma RowIsPlain(env: Env, rec: FinalRecord, voters: seq<Snowflake>)
    requires ProperRecord(env, rec) && Exported(rec)
    ensures PlainRow(RowCells(env, PairOf(rec), Count(rec.answers).votes, voters))
  {
    hide Plain, Count, Filtered;
    var p := PairOf(rec);
    VotesAreChoices(rec.answers);
    VoteCellsAreClean(Count(rec.answers).votes, voters);
    DigitsAreClean(p.id);
    DigitsAreClean("0");
    DigitsAreClean("1");
    DigitsAreClean(Decimal(p.total));
  }

  /** A pair of the sorted list stands for a record of the page. */
  lemma PairHasRecord(env: Env, recs: seq<FinalRecord>, order: seq<Pair>, p: Pair) returns (i: nat)
    requires ProperRecords(env, recs) && multiset(order) == multiset(Pairs(recs)) && p in order
    ensures i < |recs| && HasTime(recs[i]) && p == PairOf(recs[i])
  {
    assert p in multiset(order);
    assert p in Pairs(recs);
    PairsHave(recs);
    i :| 0 <= i < |recs| && HasTime(recs[i]) && PairOf(recs[i]) == p;
  }

  lemma {:induction false} RowsArePlain(env: Env, recs: seq<FinalRecord>, order: seq<Pair>, k: nat, voters: seq<Snowflake>)
    requires ProperRecords(env, recs) && multiset(order) == multiset(Pairs(recs)) && k <= |order|
    ensures forall row :: row in RowsFor(env, order[..k], Mapped(recs), voters) ==> PlainRow(row)
  {
    if k > 0 {
      hide PlainRow, RowCells, Count, Mapped;
      assert order[..k][..k - 1] == order[..k - 1];
      RowsArePlain(env, recs, order, k - 1, voters);
      var p := order[k - 1];
      var i := PairHasRecord(env, recs, order, p);
      MappedIsOwn(recs, i);
      if p.title in Mapped(recs) {
        RowIsPlain(env, recs[i], voters);
      }
    }
  }

  lemma ExportIsPlain(env: Env, recs: seq<FinalRecord>, order: seq<Pair>, i: nat)
    requires ProperRecords(env, recs) && ProperNames(env, Voters(recs)) && multiset(order) == multiset(Pairs(recs))
    requires var voters := Sorted(Voters(recs)); i <= |RowsFor(env, order, Mapped(recs), voters)|
    ensures var voters := Sorted(Voters(recs));
            PlainRow(([Header(env, voters)] + RowsFor(env, order, Mapped(recs), voters))[i])
  {
    hide Header, RowsFor, ProperRecords, ProperNames, PlainRow;
    var voters := Sorted(Voters(recs));
    HeaderIsPlain(env, Voters(recs));
    assert order[..|order|] == order;
    RowsArePlain(env, recs, order, |order|, voters);
    if i > 0 {
      assert RowsFor(env, order, Mapped(recs), voters)[i - 1] in RowsFor(env, order, Mapped(recs), voters);
    }
  }

  /** A page parses to its header and rows, each field trimmed. */
  lemma PageParses(env: Env, recs: seq<FinalRecord>, order: seq<Pair>, text: string)
    requires ProperRecords(env, recs) && ProperNames(env, Voters(recs)) && IsExportIn(recs, env, order, text)
    ensures var voters := Sorted(Voters(recs));
            Parse(text) == [TrimAll(Header(env, voters))] + TrimRows(RowsFor(env, order, Mapped(recs), voters))
  {
    hide Header, RowsFor, PrintTable, Parse, ProperRecords, ProperNames, PlainRow, TrimAll;
    var voters := Sorted(Voters(recs));
    var rows := [Header(env, voters)] + RowsFor(env, order, Mapped(recs), voters);
    forall i | 0 <= i < |rows| ensures PlainRow(rows[i]) {
      ExportIsPlain(env, recs, order, i);
    }
    ParsePrintedTable(rows);
    TrimFirst(Header(env, voters), RowsFor(env, order, Mapped(recs), voters));
  }

  lemma TrimFirst(head: seq<string>, rows: seq<seq<string>>)
    ensures TrimRows([head] + rows) == [TrimAll(head)] + TrimRows(rows)
  {
    hide TrimAll;
  }

  lemma TrimChangesNothing(cells: seq<string>)
    requires TrimmedRow(cells)
    ensures TrimAll(cells) == cells
  {
    forall i | 0 <= i < |cells| ensures Trim(cells[i]) == cells[i] {
      TrimOfTrimmed(cells[i]);
    }
  }

  /** Parsing an export gives the header - the fixed columns and the page's voters - and one equally long
      row per exported poll, holding the original fields, when those have no surrounding space. */
  lemma ParseExport(env: Env, recs: seq<FinalRecord>, order: seq<Pair>, text: string)
    requires ProperRecords(env, recs) && ProperNames(env, Voters(recs)) && IsExportIn(recs, env, order, text)
    requires var voters := Sorted(Voters(recs));
             forall row :: row in [Header(env, voters)] + RowsFor(env, order, Mapped(recs), voters) ==> TrimmedRow(row)
    ensures var voters := Sorted(Voters(recs));
            && Parse(text) == [Header(env, voters)] + RowsFor(env, order, Mapped(recs), voters)
            && forall row :: row in Parse(text) ==> |row| == 5 + |voters|
  {
    hide Header, RowsFor, PrintTable, Parse, ProperRecords, ProperNames, TrimmedRow;
    var voters := Sorted(Voters(recs));
    PageParses(env, recs, order, text);
    var rows := RowsFor(env, order, Mapped(recs), voters);
    assert Header(env, voters) in [Header(env, voters)] + rows;
    TrimChangesNothing(Header(env, voters));
    forall i | 0 <= i < |rows| ensures TrimAll(rows[i]) == rows[i] {
      assert rows[i] in [Header(env, voters)] + rows;
      TrimChangesNothing(rows[i]);
    }
    assert TrimRows(rows) == rows;
    RowsAreLong(env, order, Mapped(recs), voters);
  }

  lemma {:induction false} RowsAreLong(env: Env, order: seq<Pair>, mapped: map<string, CsvExport.Votes>, voters: seq<Snowflake>)
    ensures |Header(env, voters)| == 5 + |voters|
    ensures forall row :: row in RowsFor(env, order, mapped, voters) ==> |row| == 5 + |voters|
  {
    if order != [] {
      RowsAreLong(env, order[..|order| - 1], mapped, voters);
    }
  }

  // ---------------------------------------------------------------- merging one page

  predicate DistinctNames(names: seq<string>) {
    forall i, j :: 0 <= i < j < |names| ==> names[i] != names[j]
  }

  lemma {:induction false} VotesOfAre(names: seq<string>, cells: seq<string>)
    requires |names| == |cells| && DistinctNames(names)
    ensures forall n :: n in VotesOf(names, cells) <==> n in names && n != PROTO
    ensures forall i :: 0 <= i < |names| && names[i] != PROTO ==>
              names[i] in VotesOf(names, cells) && VotesOf(names, cells)[names[i]] == cells[i]
  {
    if names != [] {
      var n := |names| - 1;
      VotesOfAre(names[..n], cells[..n]);
      LastName(names);
    }
  }

  lemma LastName(names: seq<string>)
    requires names != []
    ensures forall n :: n in names <==> n in names[..|names| - 1] || n == names[|names| - 1]
    ensures DistinctNames(names) ==> DistinctNames(names[..|names| - 1]) && names[|names| - 1] !in names[..|names| - 1]
  {
    var k := |names| - 1;
    assert names == names[..k] + [names[k]];
  }

  function ColumnNames(env: Env, voters: seq<Snowflake>): (c: seq<string>)
    ensures |c| == |voters| && forall i :: 0 <= i < |c| ==> c[i] == Column(env, voters[i])
  {
    seq(|voters|, i requires 0 <= i < |voters| => Column(env, voters[i]))
  }

  /** The ids of the polls of `order` that have a row. */
  function KeptIds(order: seq<Pair>, mapped: map<string, CsvExport.Votes>): seq<string> {
    if order == [] then []
    else KeptIds(order[..|order| - 1], mapped)
         + (if order[|order| - 1].title in mapped then [order[|order| - 1].id] else [])
  }

  predicate DistinctIds(order: seq<Pair>) {
    forall i, j :: 0 <= i < j < |order| ==> order[i].id != order[j].id
  }

  /** What is stored for a poll of a page with the columns of `voters`. */
  function Stored(env: Env, p: Pair, votes: CsvExport.Votes, voters: seq<Snowflake>): Record {
    Record(TrimAll(FixedCells(env, p)), VotesOf(ColumnNames(env, voters), TrimAll(VoteCells(votes, voters))))
  }

  /** What reading a page's rows leaves in the dictionaries. */
  ghost predicate RowsRead(env: Env, m: Merged, order: seq<Pair>, mapped: map<string, CsvExport.Votes>,
                           voters: seq<Snowflake>, out: Merged) {
    && out.voters == m.voters
    && out.order == m.order + KeptIds(order, mapped)
    && (forall id :: id in out.byId <==> id in m.byId || id in KeptIds(order, mapped))
    && (forall id :: id in m.byId ==> out.byId[id] == m.byId[id])
    && (forall p :: p in order && p.title in mapped ==>
          p.id in out.byId && out.byId[p.id] == Stored(env, p, mapped[p.title], voters))
  }

  lemma {:induction false} KeptIdsAre(order: seq<Pair>, mapped: map<string, CsvExport.Votes>)
    ensures forall id :: id in KeptIds(order, mapped) <==> exists p :: p in order && p.title in mapped && p.id == id
  {
    if order != [] {
      var n := |order| - 1;
      KeptIdsAre(order[..n], mapped);
      assert order == order[..n] + [order[n]];
      forall id ensures id in KeptIds(order, mapped) <==> exists p :: p in order && p.title in mapped && p.id == id {
        if exists p :: p in order && p.title in mapped && p.id == id {
          var p :| p in order && p.title in mapped && p.id == id;
          assert p in order[..n] || p == order[n];
        }
        if id in KeptIds(order[..n], mapped) {
          var p :| p in order[..n] && p.title in mapped && p.id == id;
          assert p in order;
        }
      }
    }
  }

  lemma OneParsedRow(env: Env, m: Merged, p: Pair, votes: CsvExport.Votes, voters: seq<Snowflake>)
    requires Trim(p.id) == p.id && p.id !in m.byId && p.id !in INHERITED
    ensures var row := TrimAll(RowCells(env, p, votes, voters));
            && |row| == 5 + |voters|
            && AddRow(m, ColumnNames(env, voters), row)
               == Merged(m.voters, m.byId[p.id := Stored(env, p, votes, voters)], m.order + [p.id])
  {
    hide Trim;
    var row := TrimAll(RowCells(env, p, votes, voters));
    assert row[..5] == TrimAll(FixedCells(env, p));
    assert row[5..] == TrimAll(VoteCells(votes, voters));
    assert row[0] == p.id && p.id != PROTO;
  }

  lemma RowsForOneMore(env: Env, order: seq<Pair>, mapped: map<string, CsvExport.Votes>, voters: seq<Snowflake>)
    requires order != []
    ensures var p, fewer := order[|order| - 1], RowsFor(env, order[..|order| - 1], mapped, voters);
            TrimRows(RowsFor(env, order, mapped, voters)) ==
            TrimRows(fewer) + (if p.title in mapped then [TrimAll(RowCells(env, p, mapped[p.title], voters))] else [])
  {
    hide TrimAll, RowCells;
  }

  lemma AddOneMore(m: Merged, page: nat, names: seq<string>, rows: seq<seq<string>>, row: seq<string>)
    requires AddRows(m, page, names, rows).Good? && |row| == 5 + |names|
    ensures AddRows(m, page, names, rows + [row]) == Good(AddRow(AddRows(m, page, names, rows).m, names, row))
  {
    hide AddRow;
    assert (rows + [row])[..|rows|] == rows;
  }

  lemma FreshLast(m: Merged, env: Env, order: seq<Pair>, mapped: map<string, CsvExport.Votes>, voters: seq<Snowflake>, before: Merged)
    requires order != [] && DistinctIds(order) && order[|order| - 1].id !in m.byId
    requires RowsRead(env, m, order[..|order| - 1], mapped, voters, before)
    ensures order[|order| - 1].id !in before.byId
    ensures forall q :: q in order[..|order| - 1] ==> q.id != order[|order| - 1].id
  {
    KeptIdsAre(order[..|order| - 1], mapped);
  }

  lemma {:induction false} ReadRows(env: Env, m: Merged, page: nat, order: seq<Pair>, mapped: map<string, CsvExport.Votes>,
                                    voters: seq<Snowflake>)
    requires DistinctIds(order) && forall p :: p in order ==> p.id !in m.byId && p.id !in INHERITED && Trim(p.id) == p.id
    ensures var s := AddRows(m, page, ColumnNames(env, voters), TrimRows(RowsFor(env, order, mapped, voters)));
            s.Good? && RowsRead(env, m, order, mapped, voters, s.m)
  {
    hide Trim, Stored, AddRow, AddRows, RowCells, TrimAll, RowsFor, RowsRead;
    if order == [] {
      ReadNothing(env, m, page, mapped, voters);
    } else {
      var n := |order| - 1;
      var p := order[n];
      assert p in order;
      ReadRows(env, m, page, order[..n], mapped, voters);
      RowsForOneMore(env, order, mapped, voters);
      var fewer := TrimRows(RowsFor(env, order[..n], mapped, voters));
      var before := AddRows(m, page, ColumnNames(env, voters), fewer).m;
      FreshLast(m, env, order, mapped, voters, before);
      if p.title in mapped {
        OneParsedRow(env, before, p, mapped[p.title], voters);
        AddOneMore(m, page, ColumnNames(env, voters), fewer, TrimAll(RowCells(env, p, mapped[p.title], voters)));
        ReadOneMore(env, m, order, mapped, voters, before);
      } else {
        assert fewer + [] == fewer;
        ReadNoMore(env, m, order, mapped, voters, before);
      }
    }
  }

  lemma ReadNothing(env: Env, m: Merged, page: nat, mapped: map<string, CsvExport.Votes>, voters: seq<Snowflake>)
    ensures AddRows(m, page, ColumnNames(env, voters), TrimRows(RowsFor(env, [], mapped, voters))) == Good(m)
    ensures RowsRead(env, m, [], mapped, voters, m)
  {
    assert TrimRows(RowsFor(env, [], mapped, voters)) == [];
  }

  lemma ReadNoMore(env: Env, m: Merged, order: seq<Pair>, mapped: map<string, CsvExport.Votes>, voters: seq<Snowflake>, out: Merged)
    requires order != [] && RowsRead(env, m, order[..|order| - 1], mapped, voters, out)
    requires order[|order| - 1].title !in mapped
    ensures RowsRead(env, m, order, mapped, voters, out)
  {
    assert order == order[..|order| - 1] + [order[|order| - 1]];
  }

  lemma ReadOneMore(env: Env, m: Merged, order: seq<Pair>, mapped: map<string, CsvExport.Votes>, voters: seq<Snowflake>, before: Merged)
    requires order != [] && RowsRead(env, m, order[..|order| - 1], mapped, voters, before)
    requires var p := order[|order| - 1];
             p.title in mapped && p.id !in before.byId && forall q :: q in order[..|order| - 1] ==> q.id != p.id
    ensures var p := order[|order| - 1];
            RowsRead(env, m, order, mapped, voters,
                     Merged(before.voters, before.byId[p.id := Stored(env, p, mapped[p.title], voters)], before.order + [p.id]))
  {
    hide Stored;
    var n := |order| - 1;
    assert order == order[..n] + [order[n]];
  }
}
