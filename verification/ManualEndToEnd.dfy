/** A hand-entered poll from the request to the spreadsheet. */
module ManualEndToEnd {
  import opened Decimals
  import opened Text
  import opened FinalizedStore
  import opened CsvExport
  import opened PageMerge
  import opened PageSplit
  import opened PageInvariance
  import opened ManualPolls
  import opened Fetch

  // ---------------------------------------------------------------- the view

  /** How the view shows an accepted poll. */
  function ShownPoll(p: NewPollWeb): FinalRecord {
    FinalRecord(AnswersOf(p.votes), CHOICES, ShownId(Key(p)), "", p.title, true)
  }

  /** The active view of the two tables. */
  function View(results: Table, manual: Table): seq<FinalRecord> {
    Selected(Sources(results, manual), true, [])
  }

  /** Whether a poll's id fits the 64 signed bits of its column. */
  predicate Fits(p: NewPollWeb) {
    AllDigits(p.id) && Value(p.id) < INT64_LIMIT
  }

  /** Once written, the last poll of a key is in the active view under its own title, whatever Discord poll
      had that id before. A canonical id is shown as submitted if and only if it is below 2^63; a greater one
      is shown under a text that is no snowflake. */
  lemma AcceptedIsShown(results: Table, before: Table, manual: Table, data: seq<NewPollWeb>, i: nat)
    requires Written(before, data, manual) && i < |data| && LastOfKey(data, i)
    ensures ShownPoll(data[i]) in View(results, manual)
    ensures Canonical(data[i].id) && ParseUint(data[i].id).Some? ==>
              && (ShownPoll(data[i]).id == data[i].id <==> Fits(data[i]))
              && (ParseUint(ShownPoll(data[i]).id).Some? <==> Fits(data[i]))
  {
    hide AnswersOf, Selected, Written, ParseUint, Decimal, Key, ShownId;
    WrittenAt(before, manual, data, i);
    ManualShadows(results, manual, Key(data[i]));
    SelectedIsOrdered(Sources(results, manual), true);
    if Canonical(data[i].id) && ParseUint(data[i].id).Some? {
      KeyOfCanonical(data[i]);
    }
  }

  lemma WrittenAt(before: Table, manual: Table, data: seq<NewPollWeb>, i: nat)
    requires Written(before, data, manual) && i < |data| && LastOfKey(data, i)
    ensures Key(data[i]) in manual
    ensures var r := manual[Key(data[i])]; r.active != 0 && Shown(Key(data[i]), r) == ShownPoll(data[i])
  {
    hide AnswersOf, ShownId, Key;
  }

  lemma KeyOfCanonical(p: NewPollWeb)
    requires Canonical(p.id) && ParseUint(p.id).Some?
    ensures Key(p) < INT64_LIMIT <==> Fits(p)
    ensures Fits(p) ==> Key(p) == Value(p.id)
    ensures ShownId(Key(p)) == p.id <==> Fits(p)
    ensures ParseUint(ShownId(Key(p))).Some? <==> Fits(p)
  {
    PrintParsed(p.id);
  }

  // ---------------------------------------------------------------- the table

  function ChoiceCell(choice: int): Cell
    requires 0 <= choice < |CHOICES|
  {
    if choice == 0 then TextCell(NO_VOTE) else NumberCell(Decimal(choice))
  }

  lemma DigitsAreNumber(s: string)
    requires s != "" && AllDigits(s)
    ensures ToNumberOrText(s) == NumberCell(s)
  {
    TrimOfTrimmed(s);
    SplitWhole(s, '.');
  }

  lemma CellOfChoice(choice: int)
    requires 0 <= choice < |CHOICES|
    ensures ToNumberOrText(ChoiceText(choice)) == ChoiceCell(choice)
  {
    if choice == 0 {
      NoVoteCell();
    } else {
      DigitsAreNumber(Decimal(choice));
    }
  }

  /** What a voter's column must show for a hand-entered poll: the choice; for one who did not vote, "N/A", or
      an inherited property when the column is named like one. */
  ghost predicate CellTells(env: Env, votes: seq<VoterWeb>, voter: Snowflake, cell: Cell) {
    && (forall i :: 0 <= i < |votes| && votes[i].id == voter && 0 <= votes[i].choice < |CHOICES| ==> cell == ChoiceCell(votes[i].choice))
    && (voter !in VoterIds(votes) ==>
          cell == TextCell(NO_VOTE) || (Column(env, voter) in INHERITED && cell == InheritedCell(Column(env, voter))))
  }

  lemma ManualCell(env: Env, rec: FinalRecord, votes: seq<VoterWeb>, voter: Snowflake, own: set<Snowflake>)
    requires rec.answers == AnswersOf(votes) && ValidVotes(votes) && VoterIds(votes) <= own
    ensures CellTells(env, votes, voter, ShownCell(env, rec, voter, own))
  {
    hide Count, ChoiceText, ChoiceCell, ToNumberOrText, AnswersOf, Column;
    ManualBallot(votes);
    NoVoteCell();
    forall i | 0 <= i < |votes| && votes[i].id == voter ensures ShownCell(env, rec, voter, own) == ChoiceCell(votes[i].choice) {
      assert votes[i] in votes;
      CellOfChoice(votes[i].choice);
    }
  }

  /** The line of a hand-entered poll: its date and title, the number of non-zero choices as total, and in each
      column what `CellTells` says. */
  ghost predicate Line(env: Env, p: NewPollWeb, names: seq<string>, voters: set<Snowflake>, row: seq<Cell>)
    requires AreColumns(env, names, voters)
  {
    && |row| == 3 + |names|
    && row[0] == ParseDate(Trim(env.dateOf(Seconds(Key(p)))))
    && row[1] == TextCell(Trim(Filtered(p.title)))
    && row[2] == NumberCell(Decimal(NonZero(p.votes)))
    && (forall c :: 0 <= c < |names| ==> CellTells(env, p.votes, Who(env, voters, names[c]), row[3 + c]))
  }

  lemma ManualIsExported(p: NewPollWeb)
    requires ValidVotes(p.votes) && Key(p) < INT64_LIMIT
    ensures Exported(ShownPoll(p)) && Count(ShownPoll(p).answers).seen == VoterIds(p.votes)
    ensures PairOf(ShownPoll(p)) == Pair(Decimal(Key(p)), Seconds(Key(p)), Filtered(p.title), NonZero(p.votes), true)
  {
    hide Count, AnswersOf, Decimal, Filtered;
    ManualBallot(p.votes);
    ParsePrinted(Key(p));
  }

  lemma ManualLine(env: Env, p: NewPollWeb, names: seq<string>, voters: set<Snowflake>, own: set<Snowflake>)
    requires ValidVotes(p.votes) && Key(p) < INT64_LIMIT && VoterIds(p.votes) <= own
    requires AreColumns(env, names, voters)
    ensures Exported(ShownPoll(p))
    ensures Line(env, p, names, voters, RowWith(env, ShownPoll(p), PagedVotes(env, ShownPoll(p), names, voters, own)))
  {
    hide Count, AnswersOf, ToNumberOrText, ShownCell, CellTells, ColumnSet, ValidVotes, Filtered, Decimal, ParseDate, Trim, VoterIds;
    var rec := ShownPoll(p);
    ManualIsExported(p);
    DigitsAreNumber(Decimal(NonZero(p.votes)));
    var row := RowWith(env, rec, PagedVotes(env, rec, names, voters, own));
    forall c | 0 <= c < |names| ensures CellTells(env, p.votes, Who(env, voters, names[c]), row[3 + c]) {
      assert names[c] in names;
      ManualCell(env, rec, p.votes, Who(env, voters, names[c]), own);
    }
  }

  lemma {:induction false} RowsAligned(env: Env, page: seq<FinalRecord>, names: seq<string>, voters: set<Snowflake>, own: set<Snowflake>)
    requires AreColumns(env, names, voters)
    ensures |PageRows(env, page, names, voters, own)| == |ExportedIds(page)|
  {
    hide AreColumns, RowWith, PagedVotes, Exported;
    if page != [] {
      ExportedHasTime(page[|page| - 1]);
      RowsAligned(env, page[..|page| - 1], names, voters, own);
    }
  }

  /** The row of a poll stands where its id stands among the exported ids. */
  lemma {:induction false} RowOnPage(env: Env, page: seq<FinalRecord>, rec: FinalRecord, names: seq<string>, voters: set<Snowflake>, own: set<Snowflake>)
    returns (k: nat)
    requires rec in page && Exported(rec) && AreColumns(env, names, voters)
    ensures k < |ExportedIds(page)| == |PageRows(env, page, names, voters, own)| && ExportedIds(page)[k] == rec.id
    ensures PageRows(env, page, names, voters, own)[k] == RowWith(env, rec, PagedVotes(env, rec, names, voters, own))
  {
    hide AreColumns, RowWith, PagedVotes, Count;
    var n := |page| - 1;
    RowsAligned(env, page, names, voters, own);
    RowsAligned(env, page[..n], names, voters, own);
    if page[n] != rec {
      assert page == page[..n] + [page[n]];
      k := RowOnPage(env, page[..n], rec, names, voters, own);
    } else {
      k := |ExportedIds(page[..n])|;
    }
  }

  lemma {:induction false} PagesAligned(env: Env, pages: seq<seq<FinalRecord>>, names: seq<string>, voters: set<Snowflake>)
    requires AreColumns(env, names, voters)
    ensures |PagedRows(env, pages, names, voters)| == |ExportedIds(Flatten(pages))|
  {
    hide AreColumns, PageRows, Voters;
    if pages != [] {
      var n := |pages| - 1;
      PagesAligned(env, pages[..n], names, voters);
      RowsAligned(env, pages[n], names, voters, Voters(pages[n]));
      IdsOfSum(Flatten(pages[..n]), pages[n]);
    }
  }

  /** A row of some page is a row of the pages. */
  lemma {:induction false} RowIsThere(env: Env, pages: seq<seq<FinalRecord>>, rec: FinalRecord, names: seq<string>, voters: set<Snowflake>)
    returns (page: seq<FinalRecord>, k: nat)
    requires rec in Flatten(pages) && Exported(rec) && AreColumns(env, names, voters)
    ensures rec in page
    ensures k < |ExportedIds(Flatten(pages))| == |PagedRows(env, pages, names, voters)| && ExportedIds(Flatten(pages))[k] == rec.id
    ensures PagedRows(env, pages, names, voters)[k] == RowWith(env, rec, PagedVotes(env, rec, names, voters, Voters(page)))
  {
    hide AreColumns, RowWith, PagedVotes, PageRows, Voters, Count, ExportedIds;
    var n := |pages| - 1;
    PagesAligned(env, pages, names, voters);
    PagesAligned(env, pages[..n], names, voters);
    IdsOfSum(Flatten(pages[..n]), pages[n]);
    if rec in pages[n] {
      page := pages[n];
      k := RowOnPage(env, page, rec, names, voters, Voters(page));
      k := |ExportedIds(Flatten(pages[..n]))| + k;
    } else {
      page, k := RowIsThere(env, pages[..n], rec, names, voters);
    }
  }

  lemma ManualVotersListed(page: seq<FinalRecord>, p: NewPollWeb)
    requires ShownPoll(p) in page && ValidVotes(p.votes) && Key(p) < INT64_LIMIT
    ensures VoterIds(p.votes) <= Voters(page)
  {
    hide Count, AnswersOf, Voters, VoterIds;
    ManualIsExported(p);
    SeenHasColumn(page, ShownPoll(p));
  }

  lemma AcceptedVotes(data: seq<NewPollWeb>, i: nat)
    requires FirstError(data).None? && i < |data|
    ensures ValidVotes(data[i].votes)
  {
    AcceptedIff(data);
  }

  lemma ManualRow(env: Env, pages: seq<seq<FinalRecord>>, p: NewPollWeb, names: seq<string>, voters: set<Snowflake>) returns (k: nat)
    requires ShownPoll(p) in Flatten(pages) && ValidVotes(p.votes) && Key(p) < INT64_LIMIT && AreColumns(env, names, voters)
    ensures k < |ExportedIds(Flatten(pages))| == |PagedRows(env, pages, names, voters)|
    ensures ExportedIds(Flatten(pages))[k] == ShownPoll(p).id && Line(env, p, names, voters, PagedRows(env, pages, names, voters)[k])
  {
    hide Voters, RowWith, PagedVotes, PagedRows, Line, ValidVotes, Key, ShownPoll, Count, Flatten, AreColumns, VoterIds, PairOf, ExportedIds;
    ManualIsExported(p);
    var page;
    page, k := RowIsThere(env, pages, ShownPoll(p), names, voters);
    ManualVotersListed(page, p);
    ManualLine(env, p, names, voters, Voters(page));
  }

  /** The table has a line for the poll: the row of its id, with what its request describes. */
  ghost predicate HasLine(env: Env, all: seq<FinalRecord>, rows: seq<seq<Cell>>, p: NewPollWeb) {
    var voters := Voters(all);
    var names := Sorted(ColumnSet(env, voters));
    && AreColumns(env, names, voters) && |rows| == |ExportedIds(all)|
    && exists k :: 0 <= k < |rows| && ExportedIds(all)[k] == p.id && Line(env, p, names, voters, rows[k])
  }

  /** What the pages show of a hand-entered poll in the active view: its line, and a column for each voter. */
  lemma ManualPollInTable(env: Env, pages: seq<seq<FinalRecord>>, p: NewPollWeb)
    requires ShownPoll(p) in Flatten(pages) && ValidVotes(p.votes) && Key(p) < INT64_LIMIT && ShownPoll(p).id == p.id
    ensures HasLine(env, Flatten(pages), PagedTable(env, pages).rows, p)
    ensures var names := Sorted(ColumnSet(env, Voters(Flatten(pages))));
            forall v :: v in VoterIds(p.votes) && Column(env, v) != PROTO ==> Column(env, v) in names
  {
    hide Voters, PagedRows, Line, ValidVotes, Key, ShownPoll, Count, Flatten, ColumnSet, AreColumns, VoterIds, Column, ExportedIds;
    var voters := Voters(Flatten(pages));
    var names := Sorted(ColumnSet(env, voters));
    NamesAreColumns(env, names, voters);
    var k := ManualRow(env, pages, p, names, voters);
    assert PagedTable(env, pages).rows == PagedRows(env, pages, names, voters);
    ManualVotersListed(Flatten(pages), p);
    forall v | v in VoterIds(p.votes) && Column(env, v) != PROTO ensures Column(env, v) in names {
      ColumnOf(env, voters, v);
    }
  }

  lemma NamesAreColumns(env: Env, names: seq<string>, voters: set<Snowflake>)
    requires forall n :: n in names ==> n in ColumnSet(env, voters)
    ensures AreColumns(env, names, voters)
  {
  }

  lemma ColumnOf(env: Env, voters: set<Snowflake>, v: Snowflake)
    requires v in voters && Column(env, v) != PROTO
    ensures Column(env, v) in ColumnSet(env, voters)
  {
  }

  // ---------------------------------------------------------------- end to end

  predicate AllCanonical(data: seq<NewPollWeb>) {
    forall k :: 0 <= k < |data| ==> Canonical(data[k].id)
  }

  lemma AcceptedIds(data: seq<NewPollWeb>)
    requires FirstError(data).None?
    ensures forall i :: 0 <= i < |data| ==> ParseUint(data[i].id).Some?
    ensures forall i, j :: 0 <= i < j < |data| ==> data[i].id != data[j].id
  {
    hide ParseUint, ValidVotes;
    AcceptedIff(data);
  }

  lemma KeysDiffer(p: NewPollWeb, q: NewPollWeb)
    requires Canonical(p.id) && ParseUint(p.id).Some? && Canonical(q.id) && ParseUint(q.id).Some? && p.id != q.id && Fits(p)
    ensures Key(p) != Key(q)
  {
    KeyOfCanonical(p);
    KeyOfCanonical(q);
    if Fits(q) {
      CompareIsNumeric(p.id, q.id);
    }
  }

  /** Among canonical ids, one below 2^63 shares its key with no other: its poll is the last of its key. */
  lemma CanonicalIsLast(data: seq<NewPollWeb>, i: nat)
    requires FirstError(data).None? && AllCanonical(data) && i < |data| && Fits(data[i])
    ensures LastOfKey(data, i)
  {
    hide Canonical, ParseUint, Fits, Key, FirstError;
    AcceptedIds(data);
    forall j | i < j < |data| ensures Key(data[j]) != Key(data[i]) {
      KeysDiffer(data[i], data[j]);
    }
  }

  /** Only ids below 2^63 read back as snowflakes, so only they are exported. */
  lemma ExportedIdsAreInts(t: Table)
    ensures forall id :: id in ExportedIds(Selected(t, true, [])) ==> AllDigits(id) && Value(id) < INT64_LIMIT
  {
    hide Selected, Count, Decimal, ShownId, Value;
    var all := Selected(t, true, []);
    SelectedIsOrdered(t, true);
    ExportedIdsAre(all);
    forall id | id in ExportedIds(all) ensures AllDigits(id) && Value(id) < INT64_LIMIT {
      var k :| 0 <= k < |all| && Exported(all[k]) && all[k].id == id;
      assert IsShown(t, true, all[k]);
      var n :| n in t && t[n].active != 0 && all[k] == Shown(n, t[n]);
      IntIsShown(n);
    }
  }

  lemma IntIsShown(n: nat)
    ensures ParseUint(ShownId(n)).Some? ==> AllDigits(ShownId(n)) && Value(ShownId(n)) < INT64_LIMIT
  {
  }

  /** The table a fetch merges for an answer whose titles are distinct and of one line and whose names are plain
      and distinct. */
  ghost predicate Merges(env: Env, all: seq<FinalRecord>, texts: seq<string>, table: Result) {
    ProperRecords(env, all) && ProperNames(env, Voters(all)) && IsMergeOf(env, all, texts, table)
  }

  lemma MergedPages(env: Env, all: seq<FinalRecord>, texts: seq<string>, table: Result)
    requires Merges(env, all, texts, table)
    ensures table.Table? && table == PagedTable(env, Pages(all)) && Flatten(Pages(all)) == all
  {
    hide ProperRecords, ProperNames, Voters, PagedTable, Merge, IsExport, Flatten;
    PagesCoverOnce(all);
    MergeOfPages(env, Pages(all), texts);
    PagedTableIsTable(env, Pages(all));
  }

  lemma PagedTableIsTable(env: Env, pages: seq<seq<FinalRecord>>)
    ensures PagedTable(env, pages).Table?
  {
  }

  lemma PagedHeader(env: Env, pages: seq<seq<FinalRecord>>)
    ensures PagedTable(env, pages).header == KEPT_COLUMNS + Sorted(ColumnSet(env, Voters(Flatten(pages))))
  {
  }

  /** From the request to the spreadsheet: after a batch with canonical ids was accepted and written, the table a
      fetch merges has, for every poll whose id is below 2^63, the line its request describes, and a column for
      each of its voters. */
  lemma AcceptedIsFetched(env: Env, results: Table, before: Table, manual: Table, data: seq<NewPollWeb>, i: nat,
                          texts: seq<string>, table: Result)
    requires FirstError(data).None? && AllCanonical(data) && Written(before, data, manual) && i < |data| && Fits(data[i])
    requires Merges(env, View(results, manual), texts, table)
    ensures table.Table? && HasLine(env, View(results, manual), table.rows, data[i])
    ensures var names := Sorted(ColumnSet(env, Voters(View(results, manual))));
            && table.header == KEPT_COLUMNS + names
            && forall v :: v in VoterIds(data[i].votes) && Column(env, v) != PROTO ==> Column(env, v) in names
  {
    hide Written, View, Voters, HasLine, FirstError, ValidVotes, LastOfKey, ShownPoll, Merges, PagedTable, ColumnSet, Flatten,
         Canonical, VoterIds, Key, Fits, ParseUint, ShownId, Column, AllCanonical, Pages;
    var all, p := View(results, manual), data[i];
    CanonicalIsLast(data, i);
    AcceptedIsShown(results, before, manual, data, i);
    AcceptedIds(data);
    AcceptedVotes(data, i);
    CanonicalAt(data, i);
    KeyOfCanonical(p);
    MergedPages(env, all, texts, table);
    PagedHeader(env, Pages(all));
    ManualPollInTable(env, Pages(all), p);
  }

  lemma CanonicalAt(data: seq<NewPollWeb>, i: nat)
    requires AllCanonical(data) && i < |data|
    ensures Canonical(data[i].id)
  {
  }

  lemma NoLineWithoutId(env: Env, all: seq<FinalRecord>, rows: seq<seq<Cell>>, p: NewPollWeb)
    requires p.id !in ExportedIds(all)
    ensures !HasLine(env, all, rows, p)
  {
  }

  lemma BigIdHasNoLine(env: Env, results: Table, manual: Table, rows: seq<seq<Cell>>, p: NewPollWeb)
    requires !Fits(p)
    ensures !HasLine(env, View(results, manual), rows, p)
  {
    hide HasLine, ExportedIds, Selected, Sources, Value;
    ExportedIdsAreInts(Sources(results, manual));
    NoLineWithoutId(env, View(results, manual), rows, p);
  }

  /** Exactly: the line is there if and only if the id is below 2^63. The handler accepts ids up to 2^64 - 1. */
  lemma AcceptedIsFetchedIff(env: Env, results: Table, before: Table, manual: Table, data: seq<NewPollWeb>, i: nat,
                             texts: seq<string>, table: Result)
    requires FirstError(data).None? && AllCanonical(data) && Written(before, data, manual) && i < |data|
    requires Merges(env, View(results, manual), texts, table)
    ensures table.Table? && (HasLine(env, View(results, manual), table.rows, data[i]) <==> Fits(data[i]))
  {
    hide Written, View, HasLine, FirstError, Merges, AllCanonical, Fits, Voters, PagedTable, Flatten, Pages;
    MergedPages(env, View(results, manual), texts, table);
    if Fits(data[i]) {
      AcceptedIsFetched(env, results, before, manual, data, i, texts, table);
    } else {
      BigIdHasNoLine(env, results, manual, table.rows, data[i]);
    }
  }

  /** So every poll of the batch has its line if and only if every id is below 2^63. */
  lemma BatchIsFetchedIff(env: Env, results: Table, before: Table, manual: Table, data: seq<NewPollWeb>,
                          texts: seq<string>, table: Result)
    requires FirstError(data).None? && AllCanonical(data) && Written(before, data, manual)
    requires Merges(env, View(results, manual), texts, table)
    ensures table.Table?
    ensures (forall i :: 0 <= i < |data| ==> HasLine(env, View(results, manual), table.rows, data[i]))
            <==> (forall i :: 0 <= i < |data| ==> Fits(data[i]))
  {
    hide Written, View, HasLine, FirstError, Merges, AllCanonical, Fits, Voters, PagedTable, Flatten, Pages;
    MergedPages(env, View(results, manual), texts, table);
    forall i | 0 <= i < |data| ensures HasLine(env, View(results, manual), table.rows, data[i]) <==> Fits(data[i]) {
      AcceptedIsFetchedIff(env, results, before, manual, data, i, texts, table);
    }
  }

  /** 9223372036854775808 is accepted, its poll is in the active view, and no fetch has a line for it. */
  lemma BigIdIsNotFetched(env: Env, results: Table, before: Table, manual: Table, title: string, rows: seq<seq<Cell>>)
    requires Written(before, [NewPollWeb(FIRST_BIG, title, [])], manual)
    ensures var p := NewPollWeb(FIRST_BIG, title, []);
            FirstError([p]).None? && ShownPoll(p) in View(results, manual) && !HasLine(env, View(results, manual), rows, p)
  {
    hide Written, View, HasLine, ShownPoll, Value;
    var p := NewPollWeb(FIRST_BIG, title, []);
    ValueOfBig();
    AcceptedIff([p]);
    AcceptedIsShown(results, before, manual, [p], 0);
    BigIdHasNoLine(env, results, manual, rows, p);
  }
}
