/** `ToCSV`: finalized polls as a table of votes, one row per rating poll and one column per voter. */
module CsvExport {
  import opened Sorting
  import opened FinalizedStore
  import opened Decimals
  import opened Text
  import opened CsvFormat

  const STAR: char := '\U{2B50}'
  const NO_VOTE := "N/A"
  const EPOCH_MS: nat := 1420070400000
  const FIXED_COLUMNS := ["ID", "Date", "Active", "Topic", "Total"]

  /** The alias table, and how a date prints in the server's time zone. */
  datatype Env = Env(aliases: map<Snowflake, string>, dateOf: nat -> string)

  /** The column name of a voter: the alias, unless there is none or it is "?". */
  function Name(env: Env, voter: Snowflake): string {
    if voter in env.aliases && env.aliases[voter] != "?" then env.aliases[voter] else voter
  }

  // ---------------------------------------------------------------- ratings

  /** What an answer's title means: not a rating scale at all, a rating the export has no number for, or a
      choice. It is matched against `^(⭐+|N/A)(?: \(.*\))?$`. */
  datatype Rating = NotRating | Unmapped | Choice(c: string)

  predicate IsComment(s: string) {
    |s| >= 3 && s[0] == ' ' && s[1] == '(' && s[|s| - 1] == ')' && Without(s[2..|s| - 1], '\n')
  }

  function LeadingStars(title: string): (k: nat)
    ensures k <= |title|
    ensures forall i :: 0 <= i < k ==> title[i] == STAR
    ensures k < |title| ==> title[k] != STAR
  {
    if title != "" && title[0] == STAR then 1 + LeadingStars(title[1..]) else 0
  }

  function Classify(title: string): (r: Rating)
    ensures r.Choice? ==> r.c in {"N/A", "1", "2", "3", "4", "5"}
  {
    var k := LeadingStars(title);
    if k > 0 then
      if title[k..] == "" || IsComment(title[k..]) then (if k <= 5 then Choice(Stars(k)) else Unmapped) else NotRating
    else if |title| >= 3 && title[..3] == "N/A" && (title[3..] == "" || IsComment(title[3..])) then Choice(NO_VOTE)
    else NotRating
  }

  /** `answerMap`: one to five stars. */
  function Stars(k: nat): string
    requires 1 <= k <= 5
  {
    ["1", "2", "3", "4", "5"][k - 1]
  }

  /** Commas are stripped from titles. */
  function Filtered(title: string): (t: string)
    ensures Without(t, ',')
  {
    if title == "" then ""
    else (if title[0] == ',' then "" else [title[0]]) + Filtered(title[1..])
  }

  // ---------------------------------------------------------------- one poll

  type Votes = map<Snowflake, string>

  /** The votes of one poll while its answers are read: who chose what, the running total, every voter met,
      and whether the answers have all been ratings so far. */
  datatype Ballot = Ballot(votes: Votes, total: nat, seen: set<Snowflake>, rating: bool)

  function CastOne(b: Ballot, voter: Snowflake, choice: string): Ballot {
    b.(votes := b.votes[voter := choice], seen := b.seen + {voter}, total := if choice != NO_VOTE then b.total + 1 else b.total)
  }

  function CastAll(b: Ballot, voters: seq<Snowflake>, choice: string): Ballot {
    if voters == [] then b else CastOne(CastAll(b, voters[..|voters| - 1], choice), voters[|voters| - 1], choice)
  }

  function Count(answers: seq<RecordAnswer>): Ballot {
    if answers == [] then Ballot(map[], 0, {}, true)
    else
      var before := Count(answers[..|answers| - 1]);
      var a := answers[|answers| - 1];
      if !before.rating then before
      else match Classify(a.title)
        case NotRating => before.(rating := false, total := 0)
        case Unmapped => before
        case Choice(c) => CastAll(before, a.voters, c)
  }

  /** Seconds since the Unix epoch of a snowflake. */
  function Seconds(id: nat): nat {
    (id / 0x40_0000 + EPOCH_MS) / 1000
  }

  datatype Pair = Pair(id: string, time: nat, title: string, total: nat, active: bool)

  predicate HasTime(rec: FinalRecord) {
    ParseUint(rec.id).Some?
  }

  function PairOf(rec: FinalRecord): Pair
    requires HasTime(rec)
  {
    Pair(rec.id, Seconds(ParseUint(rec.id).value), Filtered(rec.title), Count(rec.answers).total, rec.active)
  }

  // ---------------------------------------------------------------- all polls

  function Pairs(recs: seq<FinalRecord>): seq<Pair> {
    if recs == [] then []
    else
      var last := recs[|recs| - 1];
      Pairs(recs[..|recs| - 1]) + (if HasTime(last) then [PairOf(last)] else [])
  }

  /** Every voter met, also in polls that turn out not to be ratings. */
  function Voters(recs: seq<FinalRecord>): set<Snowflake> {
    if recs == [] then {}
    else
      var last := recs[|recs| - 1];
      Voters(recs[..|recs| - 1]) + (if HasTime(last) then Count(last.answers).seen else {})
  }

  /** The votes kept per title: the last poll of a title decides. */
  function Mapped(recs: seq<FinalRecord>): map<string, Votes> {
    if recs == [] then map[]
    else
      var last := recs[|recs| - 1];
      var before := Mapped(recs[..|recs| - 1]);
      var title := Filtered(last.title);
      if !HasTime(last) then before[title := map[]]
      else if Count(last.answers).rating then before[title := Count(last.answers).votes]
      else before - {title}
  }

  function Names(env: Env, voters: seq<Snowflake>): (n: seq<string>)
    ensures |n| == |voters| && forall i :: 0 <= i < |n| ==> n[i] == Name(env, voters[i])
  {
    seq(|voters|, i requires 0 <= i < |voters| => Name(env, voters[i]))
  }

  function VoteCells(votes: Votes, voters: seq<Snowflake>): (c: seq<string>)
    ensures |c| == |voters|
    ensures forall i :: 0 <= i < |c| ==> c[i] == if voters[i] in votes then votes[voters[i]] else NO_VOTE
  {
    seq(|voters|, i requires 0 <= i < |voters| => if voters[i] in votes then votes[voters[i]] else NO_VOTE)
  }

  function Header(env: Env, voters: seq<Snowflake>): seq<string> {
    FIXED_COLUMNS + Names(env, voters)
  }

  function FixedCells(env: Env, p: Pair): (c: seq<string>)
    ensures |c| == 5
  {
    [p.id, env.dateOf(p.time), if p.active then "1" else "0", p.title, Decimal(p.total)]
  }

  function RowCells(env: Env, p: Pair, votes: Votes, voters: seq<Snowflake>): seq<string> {
    FixedCells(env, p) + VoteCells(votes, voters)
  }

  /** The rows for the polls in a given order; a title no longer mapped has none. */
  function RowsFor(env: Env, order: seq<Pair>, mapped: map<string, Votes>, voters: seq<Snowflake>): seq<seq<string>> {
    if order == [] then []
    else
      var last := order[|order| - 1];
      RowsFor(env, order[..|order| - 1], mapped, voters)
      + (if last.title in mapped then [RowCells(env, last, mapped[last.title], voters)] else [])
  }

  function TimeOf(p: Pair): int {
    p.time
  }

  predicate ByTime(order: seq<Pair>) {
    SortedBy(order, TimeOf)
  }

  /** A text `ToCSV` may produce: voters in id order, polls by the second they were made - polls of the same
      second in any order, because the sort is not stable. */
  ghost predicate IsExport(recs: seq<FinalRecord>, env: Env, text: string) {
    exists order :: IsExportIn(recs, env, order, text)
  }

  predicate IsExportIn(recs: seq<FinalRecord>, env: Env, order: seq<Pair>, text: string) {
    var voters := Sorted(Voters(recs));
    && multiset(order) == multiset(Pairs(recs)) && ByTime(order)
    && text == PrintTable([Header(env, voters)] + RowsFor(env, order, Mapped(recs), voters))
  }

  // ---------------------------------------------------------------- the exporter

  lemma {:induction false} PrintTableSnoc(rows: seq<seq<string>>, row: seq<string>)
    requires rows != []
    ensures PrintTable(rows + [row]) == PrintTable(rows) + "\n" + PrintFields(row)
  {
    if |rows| == 1 {
      assert (rows + [row])[1..] == [row];
    } else {
      assert (rows + [row])[1..] == rows[1..] + [row];
      PrintTableSnoc(rows[1..], row);
      var a, b, c := PrintFields(rows[0]) + "\n", PrintTable(rows[1..]), "\n" + PrintFields(row);
      assert a + (b + c) == (a + b) + c;
    }
  }

  /** Writes fields one by one, each followed by ", ", then the terminator. */
  method WriteFields(before: string, cells: seq<string>) returns (out: string)
    ensures out == before + PrintFields(cells)
  {
    out := before;
    for i := 0 to |cells|
      invariant out + PrintFields(cells[i..]) == before + PrintFields(cells)
    {
      assert cells[i..][1..] == cells[i + 1..];
      var rest := PrintFields(cells[i + 1..]);
      assert out + (cells[i] + ", " + rest) == (out + cells[i] + ", ") + rest;
      out := out + cells[i] + ", ";
    }
    out := out + ROW_TERMINATOR;
  }

  /** Every list of records has an export. */
  lemma ExportExists(recs: seq<FinalRecord>, env: Env) returns (text: string)
    ensures IsExport(recs, env, text)
  {
    var order := SortedPairs(Pairs(recs));
    var voters := Sorted(Voters(recs));
    text := PrintTable([Header(env, voters)] + RowsFor(env, order, Mapped(recs), voters));
    assert IsExportIn(recs, env, order, text);
  }

  lemma {:induction false} SortedPairs(pairs: seq<Pair>) returns (order: seq<Pair>)
    ensures multiset(order) == multiset(pairs) && ByTime(order)
  {
    if pairs == [] {
      order := [];
    } else {
      var n := |pairs| - 1;
      assert pairs == pairs[..n] + [pairs[n]];
      order := SortedPairs(pairs[..n]);
      InsertSorts(pairs[n], order, TimeOf);
      order := InsertBy(pairs[n], order, TimeOf);
    }
  }

  /** `slices.SortFunc` on the poll times. */
  method SortByTime(pairs: seq<Pair>) returns (order: seq<Pair>)
    ensures multiset(order) == multiset(pairs) && ByTime(order)
  {
    order := [];
    for i := 0 to |pairs|
      invariant multiset(order) == multiset(pairs[..i]) && ByTime(order)
    {
      assert pairs[..i + 1] == pairs[..i] + [pairs[i]];
      InsertSorts(pairs[i], order, TimeOf);
      order := InsertBy(pairs[i], order, TimeOf);
    }
    assert pairs[..|pairs|] == pairs;
  }

  /** The columns so far, in the order the voters were met, with their names. */
  ghost predicate Columns(env: Env, names: map<Snowflake, string>, columns: seq<Snowflake>, voters: set<Snowflake>) {
    && (forall v :: v in columns <==> v in voters)
    && names.Keys == voters
    && (forall v :: v in names ==> names[v] == Name(env, v))
  }

  /** Counts the voters of one answer. */
  method CastVotes(env: Env, before: Ballot, voters: seq<Snowflake>, choice: string,
                   names: map<Snowflake, string>, columns: seq<Snowflake>, ghost known: set<Snowflake>)
    returns (b: Ballot, names': map<Snowflake, string>, columns': seq<Snowflake>)
    requires Columns(env, names, columns, known + before.seen)
    ensures b == CastAll(before, voters, choice) && Columns(env, names', columns', known + b.seen)
  {
    b, names', columns' := before, names, columns;
    for j := 0 to |voters|
      invariant b == CastAll(before, voters[..j], choice) && Columns(env, names', columns', known + b.seen)
    {
      var voter := voters[j];
      assert voters[..j + 1][..j] == voters[..j];
      if voter !in names' {
        names' := names'[voter := Name(env, voter)];
        columns' := columns' + [voter];
      }
      b := CastOne(b, voter, choice);
    }
    assert voters[..|voters|] == voters;
  }

  lemma {:induction false} CastKeepsRating(b: Ballot, voters: seq<Snowflake>, choice: string)
    ensures CastAll(b, voters, choice).rating == b.rating
  {
    if voters != [] {
      CastKeepsRating(b, voters[..|voters| - 1], choice);
    }
  }

  /** Reads the answers of one poll, adding the voters it meets to the columns. */
  method ReadBallot(env: Env, answers: seq<RecordAnswer>, names: map<Snowflake, string>, columns: seq<Snowflake>,
                    ghost known: set<Snowflake>)
    returns (b: Ballot, names': map<Snowflake, string>, columns': seq<Snowflake>)
    requires Columns(env, names, columns, known)
    ensures b == Count(answers) && Columns(env, names', columns', known + b.seen)
  {
    b, names', columns' := Ballot(map[], 0, {}, true), names, columns;
    for i := 0 to |answers|
      invariant b == Count(answers[..i]) && b.rating && Columns(env, names', columns', known + b.seen)
    {
      assert answers[..i + 1][..i] == answers[..i];
      match Classify(answers[i].title) {
        case NotRating =>
          b := b.(rating := false, total := 0);
          CountStops(answers, i + 1);
          return;
        case Unmapped =>
        case Choice(c) =>
          CastKeepsRating(b, answers[i].voters, c);
          b, names', columns' := CastVotes(env, b, answers[i].voters, c, names', columns', known);
      }
    }
    assert answers[..|answers|] == answers;
  }

  lemma {:induction false} CountStops(answers: seq<RecordAnswer>, k: nat)
    requires k <= |answers| && !Count(answers[..k]).rating
    ensures Count(answers) == Count(answers[..k])
    decreases |answers| - k
  {
    if k == |answers| {
      assert answers[..k] == answers;
    } else {
      assert answers[..k + 1][..k] == answers[..k];
      CountStops(answers, k + 1);
    }
  }

  /** What one more record adds. */
  lemma OneMoreRecord(recs: seq<FinalRecord>, i: nat)
    requires i < |recs|
    ensures var rec, title := recs[i], Filtered(recs[i].title);
            && Pairs(recs[..i + 1]) == (if HasTime(rec) then Pairs(recs[..i]) + [PairOf(rec)] else Pairs(recs[..i]))
            && Voters(recs[..i + 1]) == (if HasTime(rec) then Voters(recs[..i]) + Count(rec.answers).seen else Voters(recs[..i]))
            && Mapped(recs[..i + 1]) ==
                 (if !HasTime(rec) then Mapped(recs[..i])[title := map[]]
                  else if Count(rec.answers).rating then Mapped(recs[..i])[title := Count(rec.answers).votes]
                  else Mapped(recs[..i]) - {title})
  {
    hide Count, Filtered, HasTime, PairOf;
    assert recs[..i + 1][..i] == recs[..i];
  }

  /** First pass: the polls, the votes per title and the columns. */
  method Collect(recs: seq<FinalRecord>, env: Env)
    returns (pollOrder: seq<Pair>, mapped: map<string, Votes>, names: map<Snowflake, string>, columns: seq<Snowflake>)
    ensures pollOrder == Pairs(recs) && mapped == Mapped(recs) && Columns(env, names, columns, Voters(recs))
  {
    pollOrder, mapped, names, columns := [], map[], map[], [];
    for i := 0 to |recs|
      invariant pollOrder == Pairs(recs[..i]) && mapped == Mapped(recs[..i])
      invariant Columns(env, names, columns, Voters(recs[..i]))
    {
      hide Columns, Count, Pairs, Voters, Mapped, Filtered;
      var rec := recs[i];
      OneMoreRecord(recs, i);
      var title := Filtered(rec.title);
      var id := ParseUint(rec.id);
      if id.None? {
        mapped := mapped[title := map[]];
        continue;
      }
      var b;
      b, names, columns := ReadBallot(env, rec.answers, names, columns, Voters(recs[..i]));
      pollOrder := pollOrder + [Pair(rec.id, Seconds(id.value), title, b.total, rec.active)];
      mapped := if b.rating then mapped[title := b.votes] else mapped - {title};
    }
    assert recs[..|recs|] == recs;
  }

  /** Second pass: the rows, under a header already written. */
  method WriteRows(env: Env, header: string, ghost table: seq<seq<string>>, order: seq<Pair>, mapped: map<string, Votes>,
                   voterOrder: seq<Snowflake>) returns (text: string)
    requires table != [] && header == PrintTable(table)
    ensures text == PrintTable(table + RowsFor(env, order, mapped, voterOrder))
  {
    text := header;
    assert table + RowsFor(env, order[..0], mapped, voterOrder) == table;
    for i := 0 to |order|
      invariant text == PrintTable(table + RowsFor(env, order[..i], mapped, voterOrder))
    {
      hide PrintTable, PrintFields, RowCells;
      var pair := order[i];
      assert order[..i + 1][..i] == order[..i];
      ghost var soFar := table + RowsFor(env, order[..i], mapped, voterOrder);
      if pair.title !in mapped {
        assert soFar == table + RowsFor(env, order[..i + 1], mapped, voterOrder);
        continue;
      }
      var row := RowCells(env, pair, mapped[pair.title], voterOrder);
      PrintTableSnoc(soFar, row);
      assert soFar + [row] == table + RowsFor(env, order[..i + 1], mapped, voterOrder);
      text := WriteFields(text + "\n", row);
    }
    assert order[..|order|] == order;
  }

  method ToCSV(recs: seq<FinalRecord>, env: Env) returns (text: string)
    ensures IsExport(recs, env, text)
  {
    hide Pairs, Mapped, Voters, PrintFields, RowsFor;
    var pollOrder, mapped, names, columns := Collect(recs, env);
    var voterOrder := Sorted(set v | v in columns);
    assert (set v | v in columns) == Voters(recs);
    var order := SortByTime(pollOrder);
    text := WriteFields("", Header(env, voterOrder));
    ghost var table := [Header(env, voterOrder)];
    assert text == PrintTable(table);
    text := WriteRows(env, text, table, order, mapped, voterOrder);
    assert IsExportIn(recs, env, order, text);
  }
}
