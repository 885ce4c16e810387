/** The two tables of finalized polls - `results`, written from Discord, and `manual`, hand-entered - and the
    single view read from them. Both are keyed by the number a BIGINT column makes of the id it is given: the
    integer, if it fits 64 signed bits, and a floating-point number if it does not. JSON blobs are the values
    they encode. */
module FinalizedStore {
  import opened Options
  import opened Decimals
  import opened Sorting

  datatype RecordAnswer = RecordAnswer(title: string, id: int, voters: seq<Snowflake>)

  datatype FinalRecord = FinalRecord(
    answers: seq<RecordAnswer>, options: seq<string>, id: Snowflake, channel: Snowflake, title: string, active: bool)

  /** A row of either table; manual rows have no channel. */
  datatype Row = Row(
    channel: Snowflake, title: string, titleOverride: Option<string>, active: int,
    options: seq<string>, answers: seq<RecordAnswer>)

  type Table = map<nat, Row>

  // ---------------------------------------------------------------- keys

  const INT64_LIMIT: nat := 0x8000_0000_0000_0000

  /** The double nearest to a number of 64 bits that needs all of them: of the 64 bits, 53 stay. */
  function Rounded(n: nat): nat {
    var q, r := n / 0x800, n % 0x800;
    if r < 0x400 || (r == 0x400 && q % 2 == 0) then q * 0x800 else (q + 1) * 0x800
  }

  /** It is a multiple of 2^11, none is nearer, and of two that are equally near the even one. */
  lemma RoundedIsNearest(n: nat, k: nat)
    ensures var r := Rounded(n);
            && r % 0x800 == 0
            && (if r >= n then r - n else n - r) <= (if k * 0x800 >= n then k * 0x800 - n else n - k * 0x800)
            && (k * 0x800 != r && r - n == n - k * 0x800 ==> (r / 0x800) % 2 == 0)
  {
  }

  /** What the column holds for a number. */
  function Held(n: nat): (k: nat)
    ensures n < INT64_LIMIT ==> k == n
    ensures n >= INT64_LIMIT ==> k >= INT64_LIMIT
  {
    if n < INT64_LIMIT then n else Rounded(n)
  }

  /** The key of an id, if it is a number. */
  function KeyOf(id: Snowflake): (k: Option<nat>)
    ensures k.Some? <==> ParseUint(id).Some?
    ensures k.Some? ==> k.value == Held(Value(id))
  {
    if ParseUint(id).Some? then Some(Held(ParseUint(id).value)) else None
  }

  const FLOAT_SUFFIX := "e+0"

  /** How a key reads back as text: an integer in digits; a float with an exponent, which is no snowflake. Only
      that matters here, so the mantissa is not shortened as Go does it. */
  function ShownId(k: nat): (s: Snowflake)
    ensures k < INT64_LIMIT ==> s == Decimal(k) && ParseUint(s) == Some(k)
    ensures k >= INT64_LIMIT ==> !AllDigits(s) && ParseUint(s).None?
  {
    if k < INT64_LIMIT then Decimal(k)
    else
      var s := Decimal(k) + FLOAT_SUFFIX;
      assert !IsDigit(s[|Decimal(k)|]);
      s
  }

  lemma ShownIdInjective(j: nat, k: nat)
    ensures ShownId(j) == ShownId(k) <==> j == k
  {
    assert Value(Decimal(j)) == j && Value(Decimal(k)) == k;
    if j >= INT64_LIMIT && k >= INT64_LIMIT && ShownId(j) == ShownId(k) {
      var a, b := ShownId(j), ShownId(k);
      assert a[..|a| - 3] == Decimal(j) && b[..|b| - 3] == Decimal(k);
    }
  }

  // ---------------------------------------------------------------- the view

  /** COALESCE(title_override, title). */
  function ShownTitle(r: Row): string {
    r.titleOverride.GetOr(r.title)
  }

  function Shown(id: nat, r: Row): FinalRecord {
    FinalRecord(r.answers, r.options, ShownId(id), r.channel, ShownTitle(r), r.active != 0)
  }

  /** Manual rows shadow results rows of the same id. */
  function Sources(results: Table, manual: Table): Table {
    results + manual
  }

  predicate IsLeast(m: nat, s: set<nat>) {
    m in s && forall x :: x in s ==> m <= x
  }

  lemma LeastExists(s: set<nat>)
    requires s != {}
    ensures exists m :: IsLeast(m, s)
  {
    var x :| x in s;
    if s == {x} {
      assert IsLeast(x, s);
    } else {
      LeastExists(s - {x});
      var m :| IsLeast(m, s - {x});
      var least := if x < m then x else m;
      forall y | y in s ensures least <= y {
        assert y == x || y in s - {x};
      }
      assert IsLeast(least, s);
    }
  }

  function Least(s: set<nat>): (m: nat)
    requires s != {}
    ensures IsLeast(m, s)
  {
    LeastExists(s);
    var m :| IsLeast(m, s);
    m
  }

  /** ORDER BY id. */
  function Ordered(s: set<nat>): (k: seq<nat>)
    ensures forall x :: x in k <==> x in s
  {
    if s == {} then []
    else
      var m := Least(s);
      [m] + Ordered(s - {m})
  }

  lemma PrependIncreases(m: nat, rest: seq<nat>)
    requires Increasing(rest) && forall x :: x in rest ==> m < x
    ensures Increasing([m] + rest)
  {
    forall j | 0 <= j < |rest| ensures m < rest[j] {
      assert rest[j] in rest;
    }
  }

  lemma {:induction false} OrderedIncreases(s: set<nat>)
    ensures Increasing(Ordered(s))
    ensures |Ordered(s)| == |s|
  {
    if s != {} {
      var m := Least(s);
      var rest := Ordered(s - {m});
      OrderedIncreases(s - {m});
      hide Increasing;
      PrependIncreases(m, rest);
      assert Ordered(s) == [m] + rest;
    }
  }

  lemma SomeElement(b: seq<nat>)
    requires b != []
    ensures exists x :: x in b
  {
    assert b[0] in b;
  }

  /** Strictly increasing sequences with the same elements are equal. */
  lemma {:induction false} OrderedUnique(a: seq<nat>, b: seq<nat>)
    requires Increasing(a) && Increasing(b)
    requires forall x :: x in a <==> x in b
    ensures a == b
  {
    if a == [] {
      if b != [] {
        SomeElement(b);
      }
    } else {
      SomeElement(a);
      assert a[0] in a && a[0] in b && b[0] in b && b[0] in a;
      assert a[0] == b[0];
      forall x ensures x in a[1..] <==> x in b[1..] {
        assert x in a[1..] <==> x in a && x != a[0];
        assert x in b[1..] <==> x in b && x != b[0];
      }
      OrderedUnique(a[1..], b[1..]);
    }
  }

  /** WHERE: the ids the query keeps. No ids means all of them. */
  function Matching(t: Table, omitInactive: bool, ids: set<nat>, all: bool): set<nat> {
    set n | n in t && (!omitInactive || t[n].active != 0) && (all || n in ids)
  }

  /** LIMIT and OFFSET; a non-positive limit is none, and so is a non-positive offset. */
  function Paged<X>(xs: seq<X>, offset: int, limit: int): (p: seq<X>) {
    var from := if offset <= 0 then 0 else if offset > |xs| then |xs| else offset;
    var rest := xs[from..];
    if limit > 0 && limit < |rest| then rest[..limit] else rest
  }

  function Shows(t: Table, ids: seq<nat>): (r: seq<FinalRecord>)
    requires forall n :: n in ids ==> n in t
    ensures |r| == |ids|
    ensures forall i :: 0 <= i < |r| ==> r[i] == Shown(ids[i], t[ids[i]])
  {
    if ids == [] then [] else [Shown(ids[0], t[ids[0]])] + Shows(t, ids[1..])
  }

  /** The ids a list of snowflakes names, those that are numbers at all. */
  function Keys(ids: seq<Snowflake>): set<nat> {
    set s | s in ids && KeyOf(s).Some? :: KeyOf(s).value
  }

  /** The records the query ranges over, in order. */
  function Selected(t: Table, omitInactive: bool, ids: seq<Snowflake>): (r: seq<FinalRecord>) {
    Shows(t, Ordered(Matching(t, omitInactive, Keys(ids), ids == [])))
  }

  /** The answer of `GetFinalized`. */
  function Select(results: Table, manual: Table, offset: int, limit: int, omitInactive: bool, ids: seq<Snowflake>): (r: seq<FinalRecord>) {
    Paged(Selected(Sources(results, manual), omitInactive, ids), offset, limit)
  }

  // ---------------------------------------------------------------- the store

  /** The rows `InsertManual` writes for its records, or None when one of them has no id. */
  function ManualRow(rec: FinalRecord): Row {
    Row("", rec.title, Some(rec.title), 1, rec.options, rec.answers)
  }

  function WithManual(manual: Table, records: seq<Option<FinalRecord>>): Option<Table> {
    if records == [] then Some(manual)
    else
      var n := |records| - 1;
      var before := WithManual(manual, records[..n]);
      if before.None? || records[n].None? then before
      else if KeyOf(records[n].value.id).None? then None
      else Some(before.value[KeyOf(records[n].value.id).value := ManualRow(records[n].value)])
  }

  function WithActive(t: Table, active: bool, ids: set<nat>): Table {
    map n | n in t :: if n in ids then t[n].(active := if active then 1 else 0) else t[n]
  }

  /** An id with a new title override; the empty title clears it. */
  function WithTitle(r: Row, title: string): Row {
    r.(titleOverride := if title == "" then None else Some(title))
  }

  function WithTitles(t: Table, titles: map<nat, string>): Table {
    map n | n in t :: if n in titles then WithTitle(t[n], titles[n]) else t[n]
  }

  /** A sequence in which the keys of a map may be visited. */
  ghost predicate IsOrder(order: seq<Snowflake>, m: map<Snowflake, string>) {
    && (forall s :: s in order <==> s in m)
    && (forall i, j :: 0 <= i < j < |order| ==> order[i] != order[j])
  }

  lemma OrderOfSome(order: seq<Snowflake>, m: map<Snowflake, string>)
    requires IsOrder(order, m)
    ensures order != [] ==> m != map[]
  {
    if order != [] {
      assert order[0] in m;
    }
  }

  /** The title each key is given: of the WHENs that match it, the first. */
  function Chosen(order: seq<Snowflake>, overrides: map<Snowflake, string>): map<nat, string> {
    if order == [] then map[]
    else
      var rest := Chosen(order[1..], overrides);
      if KeyOf(order[0]).Some? && order[0] in overrides then rest[KeyOf(order[0]).value := overrides[order[0]]] else rest
  }

  class Store {
    var results: Table
    var manual: Table

    constructor ()
      ensures results == map[] && manual == map[]
    {
      results, manual := map[], map[];
    }

    /** Decodes the query's rows one by one. `failAt` is the number of rows that can be read before the query
        or a row fails, if one does; the rows read so far are returned with the error. */
    method GetFinalized(offset: int, limit: int, omitInactive: bool, ids: seq<Snowflake>, failAt: Option<nat>)
      returns (out: seq<FinalRecord>, ok: bool)
      ensures var all := Select(results, manual, offset, limit, omitInactive, ids);
              && (ok <==> failAt.None? || failAt.value > |all|)
              && out == if ok then all else all[..failAt.value]
    {
      var t := Sources(results, manual);
      var keys := Ordered(Matching(t, omitInactive, Keys(ids), ids == []));
      var page := Paged(keys, offset, limit);
      SelectByKeys(results, manual, offset, limit, omitInactive, ids);
      hide Shown, Paged, Shows, Ordered, Matching, Sources, Select, Keys;
      ghost var all := Shows(t, page);
      out := [];
      for i := 0 to |page|
        invariant out == all[..i] && (failAt.Some? ==> i <= failAt.value)
      {
        if failAt == Some(i) {
          return out, false;
        }
        out := out + [Shown(page[i], t[page[i]])];
      }
      ok := failAt != Some(|page|);
    }

    /** Whether an id was finalized from Discord before; manual rows do not count, and a failing query finds
        nothing. */
    method HasFinalized(id: Snowflake, dbOk: bool) returns (found: bool)
      ensures found <==> dbOk && KeyOf(id).Some? && KeyOf(id).value in results
    {
      found := dbOk && KeyOf(id).Some? && KeyOf(id).value in results;
    }

    /** One REPLACE for the whole batch; nil records are skipped, and a record the table cannot key
        refuses the batch before anything is written. */
    method InsertManual(records: seq<Option<FinalRecord>>, dbOk: bool) returns (ok: bool)
      modifies this`manual
      ensures ok ==> WithManual(old(manual), records) == Some(manual)
      ensures !ok ==> manual == old(manual)
      ensures WithManual(old(manual), records).None? ==> !ok
      ensures dbOk && WithManual(old(manual), records).Some? ==> ok
      ensures (forall i :: 0 <= i < |records| ==> records[i].None?) ==> ok
    {
      var rows := manual;
      var rowCount := 0;
      for i := 0 to |records|
        invariant WithManual(old(manual), records[..i]) == Some(rows)
        invariant manual == old(manual) && 0 <= rowCount
        invariant rowCount == 0 ==> rows == manual
        invariant rowCount > 0 ==> exists k :: 0 <= k < i && records[k].Some?
      {
        assert records[..i + 1][..i] == records[..i];
        if records[i].Some? {
          var key := KeyOf(records[i].value.id);
          if key.None? {
            NoneStays(old(manual), records, i + 1);
            return false;
          }
          rows := rows[key.value := ManualRow(records[i].value)];
          rowCount := rowCount + 1;
        }
      }
      assert records[..|records|] == records;
      if rowCount == 0 {
        return true;
      }
      if !dbOk {
        return false;
      }
      manual := rows;
      return true;
    }

    /** Two statements, `results` first. */
    method Drop(ids: seq<Snowflake>, resultsOk: bool, manualOk: bool) returns (ok: bool)
      modifies this
      ensures ok == (resultsOk && manualOk)
      ensures results == if resultsOk then old(results) - Keys(ids) else old(results)
      ensures manual == if ok then old(manual) - Keys(ids) else old(manual)
    {
      if !resultsOk {
        return false;
      }
      results := results - Keys(ids);
      if !manualOk {
        return false;
      }
      manual := manual - Keys(ids);
      return true;
    }

    /** One UPDATE per table, `manual` first: a failing second one leaves the first done. */
    method SetActive(active: bool, ids: seq<Snowflake>, manualOk: bool, resultsOk: bool) returns (ok: bool)
      modifies this
      ensures ok == (ids == [] || (manualOk && resultsOk))
      ensures manual == if manualOk then WithActive(old(manual), active, Keys(ids)) else old(manual)
      ensures results == if manualOk && resultsOk then WithActive(old(results), active, Keys(ids)) else old(results)
    {
      if |ids| == 0 {
        assert WithActive(manual, active, {}) == manual && WithActive(results, active, {}) == results;
        return true;
      }
      if !manualOk {
        return false;
      }
      manual := WithActive(manual, active, Keys(ids));
      if !resultsOk {
        return false;
      }
      results := WithActive(results, active, Keys(ids));
      return true;
    }

    /** One UPDATE per table; `order` is the order in which the map was gone through. */
    method SetTitleOverride(overrides: map<Snowflake, string>, order: seq<Snowflake>, manualOk: bool, resultsOk: bool) returns (ok: bool)
      requires IsOrder(order, overrides)
      modifies this
      ensures ok == (overrides == map[] || (manualOk && resultsOk))
      ensures manual == if manualOk then WithTitles(old(manual), Chosen(order, overrides)) else old(manual)
      ensures results == if manualOk && resultsOk then WithTitles(old(results), Chosen(order, overrides)) else old(results)
    {
      if |overrides| == 0 {
        OrderOfSome(order, overrides);
        assert WithTitles(manual, map[]) == manual && WithTitles(results, map[]) == results;
        return true;
      }
      if !manualOk {
        return false;
      }
      manual := WithTitles(manual, Chosen(order, overrides));
      if !resultsOk {
        return false;
      }
      results := WithTitles(results, Chosen(order, overrides));
      return true;
    }
  }

  function From(n: nat, offset: int): (from: nat)
    ensures from <= n
  {
    if offset <= 0 then 0 else if offset > n then n else offset
  }

  lemma PagedAt<X>(xs: seq<X>, offset: int, limit: int)
    ensures var p, from := Paged(xs, offset, limit), From(|xs|, offset);
            && |p| == (if 0 < limit < |xs| - from then limit else |xs| - from)
            && forall i :: 0 <= i < |p| ==> p[i] == xs[from + i]
  {
  }

  lemma PagedShows(t: Table, keys: seq<nat>, offset: int, limit: int)
    requires forall n :: n in keys ==> n in t
    ensures forall n :: n in Paged(keys, offset, limit) ==> n in t
    ensures Paged(Shows(t, keys), offset, limit) == Shows(t, Paged(keys, offset, limit))
  {
    hide Shown, Paged, From, Shows;
    var page := Paged(keys, offset, limit);
    PagedAt(keys, offset, limit);
    PagedAt(Shows(t, keys), offset, limit);
    forall i | 0 <= i < |page| ensures page[i] in t {
      assert keys[From(|keys|, offset) + i] in keys;
    }
    var shown := Paged(Shows(t, keys), offset, limit);
    assert |shown| == |page|;
    forall i | 0 <= i < |page| ensures shown[i] == Shows(t, page)[i] {
      assert shown[i] == Shows(t, keys)[From(|keys|, offset) + i];
    }
  }

  lemma SelectByKeys(results: Table, manual: Table, offset: int, limit: int, omitInactive: bool, ids: seq<Snowflake>)
    ensures var t := Sources(results, manual);
            var page := Paged(Ordered(Matching(t, omitInactive, Keys(ids), ids == [])), offset, limit);
            (forall n :: n in page ==> n in t) && Select(results, manual, offset, limit, omitInactive, ids) == Shows(t, page)
  {
    hide Shown, Paged, Shows, Sources;
    var t := Sources(results, manual);
    PagedShows(t, Ordered(Matching(t, omitInactive, Keys(ids), ids == [])), offset, limit);
  }

  lemma {:induction false} NoneStays(manual: Table, records: seq<Option<FinalRecord>>, k: nat)
    requires k <= |records| && WithManual(manual, records[..k]).None?
    ensures WithManual(manual, records).None?
    decreases |records| - k
  {
    if k == |records| {
      assert records[..k] == records;
    } else {
      assert records[..k + 1][..k] == records[..k];
      NoneStays(manual, records, k + 1);
    }
  }

  // ---------------------------------------------------------------- what the view promises

  /** An id held by both tables resolves to the manual row. */
  lemma ManualShadows(results: Table, manual: Table, n: nat)
    ensures n in Sources(results, manual) <==> n in results || n in manual
    ensures n in manual ==> Sources(results, manual)[n] == manual[n]
    ensures n in results && n !in manual ==> Sources(results, manual)[n] == results[n]
  {
  }

  /** Keys that read back as snowflakes come first, and in the script's own order. */
  ghost predicate InIdOrder(all: seq<FinalRecord>) {
    forall i, j :: 0 <= i < j < |all| ==>
      && (ParseUint(all[j].id).Some? ==> ParseUint(all[i].id).Some? && CompareSnowflake(all[i].id, all[j].id) < 0)
      && all[i].id != all[j].id
  }

  lemma ShowsOrdered(t: Table, keys: seq<nat>)
    requires Increasing(keys) && forall n :: n in keys ==> n in t
    ensures InIdOrder(Shows(t, keys))
  {
    hide Decimal, ParseUint, ShownTitle;
    var all := Shows(t, keys);
    forall i, j | 0 <= i < j < |all|
      ensures ParseUint(all[j].id).Some? ==> ParseUint(all[i].id).Some? && CompareSnowflake(all[i].id, all[j].id) < 0
      ensures all[i].id != all[j].id
    {
      assert all[i].id == ShownId(keys[i]) && all[j].id == ShownId(keys[j]);
      ShownIdInjective(keys[i], keys[j]);
      if ParseUint(all[j].id).Some? {
        CompareIsNumeric(Decimal(keys[i]), Decimal(keys[j]));
      }
    }
  }

  predicate IsShown(t: Table, omitInactive: bool, rec: FinalRecord) {
    exists n :: n in t && (!omitInactive || t[n].active != 0) && rec == Shown(n, t[n])
  }

  lemma ShowsEach(t: Table, keys: seq<nat>)
    requires forall n :: n in keys ==> n in t
    ensures forall n :: n in keys ==> Shown(n, t[n]) in Shows(t, keys)
    ensures forall rec :: rec in Shows(t, keys) ==> exists n :: n in keys && rec == Shown(n, t[n])
  {
    hide Shown;
    var all := Shows(t, keys);
    forall n | n in keys ensures Shown(n, t[n]) in all {
      var i :| 0 <= i < |keys| && keys[i] == n;
      assert all[i] == Shown(n, t[n]);
    }
    forall rec | rec in all ensures exists n :: n in keys && rec == Shown(n, t[n]) {
      var i :| 0 <= i < |all| && all[i] == rec;
      assert keys[i] in keys;
    }
  }

  /** A query for some ids: exactly the matching rows whose key is that of one of them, each once, by increasing
      key. */
  lemma SelectedByIds(t: Table, omitInactive: bool, ids: seq<Snowflake>)
    requires ids != []
    ensures var all := Selected(t, omitInactive, ids);
            && InIdOrder(all)
            && (forall n :: n in t && (!omitInactive || t[n].active != 0) && (exists s :: s in ids && KeyOf(s) == Some(n)) ==> Shown(n, t[n]) in all)
            && (forall rec :: rec in all ==>
                  exists n :: n in t && (!omitInactive || t[n].active != 0) && (exists s :: s in ids && KeyOf(s) == Some(n)) && rec == Shown(n, t[n]))
  {
    hide Shows, Ordered, Shown, InIdOrder, KeyOf;
    var keys := Ordered(Matching(t, omitInactive, Keys(ids), false));
    OrderedIncreases(Matching(t, omitInactive, Keys(ids), false));
    ShowsOrdered(t, keys);
    ShowsEach(t, keys);
    forall n | n in t && (!omitInactive || t[n].active != 0) && (exists s :: s in ids && KeyOf(s) == Some(n)) ensures Shown(n, t[n]) in Shows(t, keys) {
      assert n in Keys(ids);
      assert n in keys;
    }
    forall rec | rec in Shows(t, keys)
      ensures exists n :: n in t && (!omitInactive || t[n].active != 0) && (exists s :: s in ids && KeyOf(s) == Some(n)) && rec == Shown(n, t[n])
    {
      var n :| n in keys && rec == Shown(n, t[n]);
      assert n in Matching(t, omitInactive, Keys(ids), false);
    }
  }

  /** Canonical ids below 2^63 name exactly the rows shown under them. */
  lemma KeysOfCanonical(ids: seq<Snowflake>, n: nat)
    requires n < INT64_LIMIT && forall s :: s in ids ==> Canonical(s) && Value(s) < INT64_LIMIT
    ensures n in Keys(ids) <==> Decimal(n) in ids
  {
    hide Value, Decimal;
    if n in Keys(ids) {
      var s :| s in ids && KeyOf(s) == Some(n);
      PrintParsed(s);
    }
    if Decimal(n) in ids {
      ParsePrinted(n);
      assert KeyOf(Decimal(n)) == Some(n);
    }
  }

  /** A batch for the manual table is refused exactly when some record's id is no number; nil records change
      nothing. */
  lemma {:induction false} ManualRefusedIff(manual: Table, records: seq<Option<FinalRecord>>)
    ensures WithManual(manual, records).None? <==>
            exists i :: 0 <= i < |records| && records[i].Some? && KeyOf(records[i].value.id).None?
  {
    hide KeyOf, ManualRow;
    if records != [] {
      var n := |records| - 1;
      ManualRefusedIff(manual, records[..n]);
      assert forall i :: 0 <= i < n ==> records[..n][i] == records[i];
    }
  }

  lemma {:induction false} NilRecordsAreSkipped(manual: Table, before: seq<Option<FinalRecord>>, after: seq<Option<FinalRecord>>)
    ensures WithManual(manual, before + [None] + after) == WithManual(manual, before + after)
  {
    hide KeyOf, ManualRow;
    var with, without := before + [None] + after, before + after;
    if after == [] {
      assert with[..|with| - 1] == before && without == before;
    } else {
      var n := |after| - 1;
      NilRecordsAreSkipped(manual, before, after[..n]);
      assert with[..|with| - 1] == before + [None] + after[..n];
      assert without[..|without| - 1] == before + after[..n];
    }
  }

  /** The unpaged answer: exactly the matching polls of the view, each once, by increasing key - in increasing
      numeric id as far as ids read back as snowflakes, which come first. */
  lemma SelectedIsOrdered(t: Table, omitInactive: bool)
    ensures var all := Selected(t, omitInactive, []);
            && InIdOrder(all)
            && (forall n :: n in t && (!omitInactive || t[n].active != 0) ==> Shown(n, t[n]) in all)
            && (forall rec :: rec in all ==> IsShown(t, omitInactive, rec))
  {
    hide Shows, Ordered, Shown, InIdOrder;
    assert Keys([]) == {};
    var keys := Ordered(Matching(t, omitInactive, {}, true));
    OrderedIncreases(Matching(t, omitInactive, {}, true));
    assert Selected(t, omitInactive, []) == Shows(t, keys);
    ShowsOrdered(t, keys);
    ShowsEach(t, keys);
    forall n | n in t && (!omitInactive || t[n].active != 0) ensures Shown(n, t[n]) in Shows(t, keys) {
      assert n in keys;
    }
    forall rec | rec in Shows(t, keys) ensures IsShown(t, omitInactive, rec) {
      var n :| n in keys && rec == Shown(n, t[n]);
      assert n in Matching(t, omitInactive, {}, true);
    }
  }

  /** An override shows instead of the title whatever table the row is in, and clearing it - the empty
      title - brings the row's own title back: for a results row, the one Discord gave it. */
  lemma TitleOverrideRoundTrip(results: Table, manual: Table, n: nat, title: string)
    requires n in Sources(results, manual) && title != ""
    ensures var once := Sources(WithTitles(results, map[n := title]), WithTitles(manual, map[n := title]));
            ShownTitle(once[n]) == title
    ensures var twice := Sources(WithTitles(WithTitles(results, map[n := title]), map[n := ""]),
                                 WithTitles(WithTitles(manual, map[n := title]), map[n := ""]));
            ShownTitle(twice[n]) == Sources(results, manual)[n].title
    ensures forall m :: m in Sources(results, manual) && m != n ==>
              Sources(WithTitles(results, map[n := title]), WithTitles(manual, map[n := title]))[m] == Sources(results, manual)[m]
  {
  }

  /** Deactivating hides exactly the named polls from the active view, and reactivating restores it,
      provided they were all shown as active with the flag Insert and InsertManual write. */
  lemma DeactivateReactivate(results: Table, manual: Table, ids: set<nat>)
    requires forall n :: n in ids && n in results ==> results[n].active == 1
    requires forall n :: n in ids && n in manual ==> manual[n].active == 1
    ensures var r, m := WithActive(results, false, ids), WithActive(manual, false, ids);
            && Matching(Sources(r, m), true, {}, true) == Matching(Sources(results, manual), true, {}, true) - ids
            && WithActive(r, true, ids) == results && WithActive(m, true, ids) == manual
  {
    var r, m := WithActive(results, false, ids), WithActive(manual, false, ids);
    assert forall n :: n in Sources(r, m) <==> n in Sources(results, manual);
  }
}
