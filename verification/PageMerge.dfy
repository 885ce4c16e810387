/** `mergePages_`: the parsed pages of an export, each with its own voter columns, as one table. JavaScript
    objects used as dictionaries are maps, except that a property every object inherits is found although
    nobody stored it. */
module PageMerge {
  import opened Decimals
  import opened Text

  /** What a spreadsheet cell receives. A number is kept as its text. */
  datatype Cell =
    | TextCell(text: string)
    | NumberCell(text: string)
    | DateCell(month: nat, day: nat, year: nat)
    | InheritedCell(property: string)

  /** The properties of `Object.prototype`. */
  const INHERITED := {
    "constructor", "__defineGetter__", "__defineSetter__", "hasOwnProperty", "__lookupGetter__",
    "__lookupSetter__", "isPrototypeOf", "propertyIsEnumerable", "toString", "valueOf", "__proto__",
    "toLocaleString"}

  const PROTO := "__proto__"

  /** `dict[key] = value`: storing a string under `__proto__` has no effect. */
  function Assign<V>(dict: map<string, V>, key: string, value: V): map<string, V> {
    if key == PROTO then dict else dict[key := value]
  }

  /** `key in dict` */
  predicate Has<V>(dict: map<string, V>, key: string) {
    key in dict || key in INHERITED
  }

  predicate Numeral(s: string) {
    s != "" && AllDigits(s)
  }

  /** `/^-?\d+(\.\d+)?$/` */
  predicate IsNumber(text: string) {
    var t := if text != "" && text[0] == '-' then text[1..] else text;
    var parts := Split(t, '.');
    (|parts| == 1 && Numeral(parts[0])) || (|parts| == 2 && Numeral(parts[0]) && Numeral(parts[1]))
  }

  function ToNumberOrText(value: string): Cell {
    if IsNumber(Trim(value)) then NumberCell(Trim(value)) else TextCell(value)
  }

  /** `/^(\d{1,2})\/(\d{1,2})\/(\d{4})$/` */
  function ParseDate(value: string): Cell {
    var parts := Split(Trim(value), '/');
    if && |parts| == 3 && Numeral(parts[0]) && |parts[0]| <= 2 && Numeral(parts[1]) && |parts[1]| <= 2
       && Numeral(parts[2]) && |parts[2]| == 4
    then DateCell(Value(parts[0]), Value(parts[1]), Value(parts[2]))
    else TextCell(value)
  }

  type Votes = map<string, string>

  datatype Record = Record(meta: seq<string>, votes: Votes)

  /** The dictionaries `mergePages_` fills. */
  datatype Merged = Merged(voters: set<string>, byId: map<string, Record>, order: seq<string>)

  const EMPTY := Merged({}, map[], [])

  datatype MergeError = BadHeader(page: nat) | MalformedRow(page: nat)

  datatype Result = Table(header: seq<string>, rows: seq<seq<Cell>>) | Refused(error: MergeError)

  datatype Step = Good(m: Merged) | Bad(error: MergeError)

  function VotesOf(names: seq<string>, cells: seq<string>): Votes
    requires |names| == |cells|
  {
    if names == [] then map[]
    else
      var n := |names| - 1;
      Assign(VotesOf(names[..n], cells[..n]), names[n], cells[n])
  }

  function AddVoters(voters: set<string>, names: seq<string>): set<string> {
    voters + (set n | n in names && n != PROTO)
  }

  function AddRow(m: Merged, names: seq<string>, cells: seq<string>): Merged
    requires |cells| == 5 + |names|
  {
    var id := cells[0];
    Merged(m.voters, Assign(m.byId, id, Record(cells[..5], VotesOf(names, cells[5..]))),
           if Has(m.byId, id) then m.order else m.order + [id])
  }

  function AddRows(m: Merged, page: nat, names: seq<string>, rows: seq<seq<string>>): Step {
    if rows == [] then Good(m)
    else
      var n := |rows| - 1;
      var before := AddRows(m, page, names, rows[..n]);
      if before.Bad? then before
      else if |rows[n]| != 5 + |names| then Bad(MalformedRow(page))
      else Good(AddRow(before.m, names, rows[n]))
  }

  function AddPage(m: Merged, page: nat, rows: seq<seq<string>>): Step {
    if rows == [] then Good(m)
    else if |rows[0]| < 5 then Bad(BadHeader(page))
    else AddRows(m.(voters := AddVoters(m.voters, rows[0][5..])), page, rows[0][5..], rows[1..])
  }

  function AddPages(pages: seq<seq<seq<string>>>): Step {
    if pages == [] then Good(EMPTY)
    else
      var n := |pages| - 1;
      var before := AddPages(pages[..n]);
      if before.Bad? then before else AddPage(before.m, n, pages[n])
  }

  // ---------------------------------------------------------------- the merged table

  function InsertId(id: string, ids: seq<string>): (r: seq<string>)
    ensures multiset(r) == multiset(ids) + multiset{id}
  {
    if ids == [] || CompareSnowflake(id, ids[0]) < 0 then [id] + ids
    else
      assert ids == [ids[0]] + ids[1..];
      [ids[0]] + InsertId(id, ids[1..])
  }

  /** `order.sort(compareSnowflake_)` */
  function SortIds(ids: seq<string>): (r: seq<string>)
    ensures multiset(r) == multiset(ids)
  {
    if ids == [] then []
    else
      assert ids == ids[..|ids| - 1] + [ids[|ids| - 1]];
      InsertId(ids[|ids| - 1], SortIds(ids[..|ids| - 1]))
  }

  lemma SortKeepsIds(ids: seq<string>)
    ensures forall id :: id in SortIds(ids) <==> id in ids
  {
    forall id ensures id in SortIds(ids) <==> id in ids {
      assert id in multiset(SortIds(ids)) <==> id in multiset(ids);
    }
  }

  /** One voter's cell of a row: own property, inherited one, or absent. */
  function VoteCell(votes: Votes, name: string): Cell {
    if name in votes then ToNumberOrText(votes[name])
    else if name in INHERITED then InheritedCell(name)
    else TextCell("N/A")
  }

  function VoteRow(votes: Votes, names: seq<string>): (r: seq<Cell>)
    ensures |r| == |names| && forall i :: 0 <= i < |r| ==> r[i] == VoteCell(votes, names[i])
  {
    seq(|names|, i requires 0 <= i < |names| => VoteCell(votes, names[i]))
  }

  /** The kept columns - Date, Topic, Total - then the votes. */
  function OutRow(rec: Record, names: seq<string>): seq<Cell>
    requires |rec.meta| == 5
  {
    [ParseDate(rec.meta[1]), TextCell(rec.meta[3]), ToNumberOrText(rec.meta[4])] + VoteRow(rec.votes, names)
  }

  predicate WellShaped(m: Merged) {
    && (forall id :: id in m.byId ==> |m.byId[id].meta| == 5)
    && (forall id :: id in m.order ==> id in m.byId)
  }

  function OutRows(m: Merged, ids: seq<string>, names: seq<string>): seq<seq<Cell>>
    requires WellShaped(m) && forall id :: id in ids ==> id in m.byId
  {
    if ids == [] then []
    else
      var n := |ids| - 1;
      OutRows(m, ids[..n], names) + [OutRow(m.byId[ids[n]], names)]
  }

  const KEPT_COLUMNS := ["Date", "Topic", "Total"]

  function Output(m: Merged): Result
    requires WellShaped(m)
  {
    var names := Sorted(m.voters);
    SortKeepsIds(m.order);
    Table(KEPT_COLUMNS + names, OutRows(m, SortIds(m.order), names))
  }

  lemma {:induction false} RowsKeepShape(m: Merged, page: nat, names: seq<string>, rows: seq<seq<string>>)
    requires WellShaped(m)
    ensures AddRows(m, page, names, rows).Good? ==> WellShaped(AddRows(m, page, names, rows).m)
  {
    if rows != [] {
      RowsKeepShape(m, page, names, rows[..|rows| - 1]);
    }
  }

  lemma {:induction false} PagesKeepShape(pages: seq<seq<seq<string>>>)
    ensures AddPages(pages).Good? ==> WellShaped(AddPages(pages).m)
  {
    if pages != [] {
      var n := |pages| - 1;
      PagesKeepShape(pages[..n]);
      var before := AddPages(pages[..n]);
      if before.Good? && pages[n] != [] && |pages[n][0]| >= 5 {
        var names := pages[n][0][5..];
        RowsKeepShape(before.m.(voters := AddVoters(before.m.voters, names)), n, names, pages[n][1..]);
      }
    }
  }

  function Merge(pages: seq<seq<seq<string>>>): Result {
    PagesKeepShape(pages);
    var s := AddPages(pages);
    if s.Bad? then Refused(s.error) else Output(s.m)
  }

  /** Of several columns under one name the last is kept. */
  lemma {:induction false} LastColumnWins(names: seq<string>, cells: seq<string>, k: nat)
    requires |names| == |cells| && k < |names| && names[k] != PROTO
    requires forall j :: k < j < |names| ==> names[j] != names[k]
    ensures names[k] in VotesOf(names, cells) && VotesOf(names, cells)[names[k]] == cells[k]
  {
    var n := |names| - 1;
    if k < n {
      LastColumnWins(names[..n], cells[..n], k);
    }
  }

  // ---------------------------------------------------------------- what is refused

  predicate ShortHeader(page: seq<seq<string>>) {
    page != [] && |page[0]| < 5
  }

  /** Some row is not as long as the header. */
  predicate Ragged(page: seq<seq<string>>) {
    page != [] && |page[0]| >= 5 && exists r :: 1 <= r < |page| && |page[r]| != |page[0]|
  }

  predicate Misread(page: seq<seq<string>>) {
    ShortHeader(page) || Ragged(page)
  }

  lemma {:induction false} RowsRefusedIff(m: Merged, page: nat, names: seq<string>, rows: seq<seq<string>>)
    ensures AddRows(m, page, names, rows).Bad? <==> exists r :: 0 <= r < |rows| && |rows[r]| != 5 + |names|
    ensures AddRows(m, page, names, rows).Bad? ==> AddRows(m, page, names, rows).error == MalformedRow(page)
  {
    if rows != [] {
      var n := |rows| - 1;
      RowsRefusedIff(m, page, names, rows[..n]);
      assert forall r :: 0 <= r < n ==> rows[..n][r] == rows[r];
    }
  }

  lemma PageRefusedIff(m: Merged, page: nat, rows: seq<seq<string>>)
    ensures var s := AddPage(m, page, rows);
            && (s.Bad? <==> Misread(rows))
            && (s.Bad? ==> s.error == if ShortHeader(rows) then BadHeader(page) else MalformedRow(page))
  {
    hide AddRows;
    if rows != [] && |rows[0]| >= 5 {
      var names := rows[0][5..];
      RowsRefusedIff(m.(voters := AddVoters(m.voters, names)), page, names, rows[1..]);
      assert forall r :: 1 <= r < |rows| ==> rows[r] == rows[1..][r - 1];
    }
  }

  lemma {:induction false} FirstBadPage(pages: seq<seq<seq<string>>>)
    ensures var s := AddPages(pages);
            && (s.Good? <==> forall p :: 0 <= p < |pages| ==> !Misread(pages[p]))
            && (s.Bad? ==>
                  && s.error.page < |pages| && Misread(pages[s.error.page])
                  && (forall p :: 0 <= p < s.error.page ==> !Misread(pages[p]))
                  && (s.error.BadHeader? <==> ShortHeader(pages[s.error.page])))
  {
    hide AddPage, Misread;
    if pages != [] {
      var n := |pages| - 1;
      FirstBadPage(pages[..n]);
      assert forall p :: 0 <= p < n ==> pages[..n][p] == pages[p];
      var before := AddPages(pages[..n]);
      if before.Good? {
        PageRefusedIff(before.m, n, pages[n]);
        ShortIsMisread(pages[n]);
      }
    }
  }

  lemma ShortIsMisread(page: seq<seq<string>>)
    ensures ShortHeader(page) ==> Misread(page)
  {
  }

  /** A merge is refused if and only if some page has a short header or a row of another length than its header,
      and the error is that of the first such page. */
  lemma RefusedIff(pages: seq<seq<seq<string>>>)
    ensures var r := Merge(pages);
            && (r.Refused? <==> exists p :: 0 <= p < |pages| && Misread(pages[p]))
            && (r.Refused? ==>
                  && r.error.page < |pages| && Misread(pages[r.error.page])
                  && (forall p :: 0 <= p < r.error.page ==> !Misread(pages[p]))
                  && (r.error.BadHeader? <==> ShortHeader(pages[r.error.page])))
  {
    hide AddPages, Misread, ShortHeader, Output;
    FirstBadPage(pages);
    PagesKeepShape(pages);
    var s := AddPages(pages);
    assert s.Bad? ==> Misread(pages[s.error.page]) && Merge(pages) == Refused(s.error);
    assert s.Good? ==> Merge(pages) == Output(s.m);
    OutputIsTable(s);
  }

  lemma OutputIsTable(s: Step)
    ensures s.Good? && WellShaped(s.m) ==> Output(s.m).Table?
  {
  }

  // ---------------------------------------------------------------- the loops

  lemma {:induction false} RowsStayBad(m: Merged, page: nat, names: seq<string>, rows: seq<seq<string>>, k: nat)
    requires k <= |rows| && AddRows(m, page, names, rows[..k]).Bad?
    ensures AddRows(m, page, names, rows) == AddRows(m, page, names, rows[..k])
    decreases |rows| - k
  {
    if k == |rows| {
      assert rows[..k] == rows;
    } else {
      assert rows[..k + 1][..k] == rows[..k];
      RowsStayBad(m, page, names, rows, k + 1);
    }
  }

  lemma {:induction false} PagesStayBad(pages: seq<seq<seq<string>>>, k: nat)
    requires k <= |pages| && AddPages(pages[..k]).Bad?
    ensures AddPages(pages) == AddPages(pages[..k])
    decreases |pages| - k
  {
    if k == |pages| {
      assert pages[..k] == pages;
    } else {
      assert pages[..k + 1][..k] == pages[..k];
      PagesStayBad(pages, k + 1);
    }
  }

  /** The votes of one row, column by column. */
  method ReadVotes(names: seq<string>, cells: seq<string>) returns (votes: Votes)
    requires |names| == |cells|
    ensures votes == VotesOf(names, cells)
  {
    votes := map[];
    for k := 0 to |names|
      invariant votes == VotesOf(names[..k], cells[..k])
    {
      assert names[..k + 1][..k] == names[..k] && cells[..k + 1][..k] == cells[..k];
      votes := Assign(votes, names[k], cells[k]);
    }
    assert names[..|names|] == names && cells[..|names|] == cells;
  }

  method MergePage(m: Merged, page: nat, rows: seq<seq<string>>) returns (s: Step)
    ensures s == AddPage(m, page, rows)
  {
    if |rows| == 0 {
      return Good(m);
    }
    var head := rows[0];
    if |head| < 5 {
      return Bad(BadHeader(page));
    }
    var voters := head[5..];
    var voterSet := m.voters;
    for v := 0 to |voters|
      invariant voterSet == AddVoters(m.voters, voters[..v])
    {
      assert voters[..v + 1] == voters[..v] + [voters[v]];
      voterSet := if voters[v] == PROTO then voterSet else voterSet + {voters[v]};
    }
    assert voters[..|voters|] == voters;
    s := MergeRows(m.(voters := voterSet), page, voters, rows[1..]);
  }

  method MergeRows(m: Merged, page: nat, voters: seq<string>, rows: seq<seq<string>>) returns (s: Step)
    ensures s == AddRows(m, page, voters, rows)
  {
    var out := m;
    for r := 0 to |rows|
      invariant Good(out) == AddRows(m, page, voters, rows[..r])
    {
      hide VotesOf, Assign, Has;
      assert rows[..r + 1][..r] == rows[..r];
      var cells := rows[r];
      if |cells| != 5 + |voters| {
        RowsStayBad(m, page, voters, rows, r + 1);
        return Bad(MalformedRow(page));
      }
      var votes := ReadVotes(voters, cells[5..]);
      var id := cells[0];
      var order := out.order;
      if !Has(out.byId, id) {
        order := order + [id];
      }
      out := Merged(out.voters, Assign(out.byId, id, Record(cells[..5], votes)), order);
    }
    assert rows[..|rows|] == rows;
    return Good(out);
  }

  /** `mergePages_`. */
  method MergePages(pages: seq<seq<seq<string>>>) returns (result: Result)
    ensures result == Merge(pages)
  {
    var m := EMPTY;
    for p := 0 to |pages|
      invariant AddPages(pages[..p]) == Good(m)
    {
      assert pages[..p + 1][..p] == pages[..p];
      var s := MergePage(m, p, pages[p]);
      if s.Bad? {
        PagesStayBad(pages, p + 1);
        return Refused(s.error);
      }
      m := s.m;
    }
    assert pages[..|pages|] == pages;
    PagesKeepShape(pages);
    result := WriteMerged(m);
  }

  method WriteMerged(m: Merged) returns (result: Result)
    requires WellShaped(m)
    ensures result == Output(m)
  {
    hide OutRow, SortIds, WellShaped;
    var names := Sorted(m.voters);
    var ids := SortIds(m.order);
    SortKeepsIds(m.order);
    KnownIds(m);
    var rows: seq<seq<Cell>> := [];
    for i := 0 to |ids|
      invariant rows == OutRows(m, ids[..i], names)
    {
      assert ids[..i + 1][..i] == ids[..i] && ids[i] in ids;
      rows := rows + [OutRow(m.byId[ids[i]], names)];
    }
    assert ids[..|ids|] == ids;
    return Table(KEPT_COLUMNS + names, rows);
  }

  lemma KnownIds(m: Merged)
    requires WellShaped(m)
    ensures (forall id :: id in m.order ==> id in m.byId) && forall id :: id in m.byId ==> |m.byId[id].meta| == 5
  {
  }
}
