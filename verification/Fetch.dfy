/** The fetch: the server's offset paging over the view, and the spreadsheet script's walk over the pages. */
module Fetch {
  import opened Options
  import opened Decimals
  import opened Text
  import opened Sorting
  import opened FinalizedStore
  import opened CsvFormat
  import opened CsvExport
  import opened PageMerge
  import opened PageSplit
  import opened PageInvariance
  import opened ExportLimits

  const PAGE_SIZE := 50
  const MAX_PAGES := 500

  // ---------------------------------------------------------------- the server

  datatype Response = BadPage | ServerError | NoContent | Page(text: string, nextPage: nat)

  /** The rows a page request queries: one more than a page, to see whether another page exists. */
  function Queried(all: seq<FinalRecord>, page: nat): seq<FinalRecord>
    requires page >= 1
  {
    Paged(all, PAGE_SIZE * (page - 1), PAGE_SIZE + 1)
  }

  function Min(a: int, b: int): int {
    if a <= b then a else b
  }

  /** Whether the query for a page fails before its last row. */
  predicate Fails(all: seq<FinalRecord>, page: nat, failAt: Option<nat>)
    requires page >= 1
  {
    failAt.Some? && failAt.value <= |Queried(all, page)|
  }

  /** What a request for a page of the whole answer `all` gets. */
  ghost predicate Answers(env: Env, all: seq<FinalRecord>, page: int, failAt: Option<nat>, r: Response) {
    if page < 0 then r == BadPage
    else
      var at := if page == 0 then 1 else page;
      var rows := Chunk(all, at);
      if Fails(all, at, failAt) then r == ServerError
      else if rows == [] then r == NoContent
      else r.Page? && IsExport(rows, env, r.text) && r.nextPage == if PAGE_SIZE * at < |all| then at + 1 else 0
  }

  /** The rows of a page. */
  function Chunk(all: seq<FinalRecord>, page: nat): seq<FinalRecord>
    requires page >= 1
  {
    all[Min(PAGE_SIZE * (page - 1), |all|)..Min(PAGE_SIZE * page, |all|)]
  }

  lemma QueriedRows(all: seq<FinalRecord>, page: nat)
    requires page >= 1
    ensures var records := Queried(all, page);
            && records[..Min(PAGE_SIZE, |records|)] == Chunk(all, page)
            && (|records| > PAGE_SIZE <==> PAGE_SIZE * page < |all|)
            && (records == [] <==> Chunk(all, page) == [])
  {
    var at := PAGE_SIZE * (page - 1);
    var records := Queried(all, page);
    if at < |all| {
      assert records == all[at..Min(at + PAGE_SIZE + 1, |all|)];
      assert |records| == Min(PAGE_SIZE + 1, |all| - at);
      assert records[..Min(PAGE_SIZE, |records|)] == all[at..Min(at + PAGE_SIZE, |all|)];
    } else {
      assert records == [];
    }
  }

  /** `getPageContent`, with `GetPage`'s 204 for an answer without text. */
  method GetPageContent(store: Store, env: Env, requested: int, omitInactive: bool, failAt: Option<nat>) returns (r: Response)
    ensures Answers(env, Selected(Sources(store.results, store.manual), omitInactive, []), requested, failAt, r)
  {
    hide IsExport, Chunk, Paged, Selected;
    var page := requested;
    if page < 0 {
      return BadPage;
    } else if page == 0 {
      page := 1;
    }
    var records, ok := store.GetFinalized(PAGE_SIZE * (page - 1), PAGE_SIZE + 1, omitInactive, [], failAt);
    if !ok {
      return ServerError;
    }
    QueriedRows(Selected(Sources(store.results, store.manual), omitInactive, []), page);
    if |records| == 0 {
      return NoContent;
    }
    var text := ToCSV(records[..Min(PAGE_SIZE, |records|)], env);
    var nextPage := 0;
    if |records| > PAGE_SIZE {
      nextPage := page + 1;
    }
    return Page(text, nextPage);
  }

  // ---------------------------------------------------------------- the pages of an answer

  function PageCount(n: nat): nat {
    (n + PAGE_SIZE - 1) / PAGE_SIZE
  }

  /** The first `k` pages. */
  function Chunks(all: seq<FinalRecord>, k: nat): (c: seq<seq<FinalRecord>>)
    ensures |c| == k && forall i :: 0 <= i < k ==> c[i] == Chunk(all, i + 1)
  {
    seq(k, i requires 0 <= i < k => Chunk(all, i + 1))
  }

  lemma {:induction false} ChunksCover(all: seq<FinalRecord>, k: nat)
    ensures Flatten(Chunks(all, k)) == all[..Min(PAGE_SIZE * k, |all|)]
  {
    if k > 0 {
      ChunksCover(all, k - 1);
      assert Chunks(all, k)[..k - 1] == Chunks(all, k - 1);
    }
  }

  /** The pages of an answer visit each of its rows once, in order; none is empty and all but the last are
      full. */
  lemma PagesCoverOnce(all: seq<FinalRecord>)
    ensures var pages := Chunks(all, PageCount(|all|));
            && Flatten(pages) == all
            && (forall i :: 0 <= i < |pages| ==> 0 < |pages[i]| <= PAGE_SIZE)
            && (forall i :: 0 <= i < |pages| - 1 ==> |pages[i]| == PAGE_SIZE)
  {
    var k := PageCount(|all|);
    ChunksCover(all, k);
    assert all[..|all|] == all;
  }

  // ---------------------------------------------------------------- the script

  datatype FetchResult = Fetched(table: Result) | TooManyPages | Aborted

  /** An export starts with its header, so it is never mistaken for a blank page. */
  lemma ExportIsNotBlank(recs: seq<FinalRecord>, env: Env, text: string)
    requires IsExport(recs, env, text)
    ensures Trim(text) != ""
  {
    var order :| IsExportIn(recs, env, order, text);
    var header := Header(env, Sorted(Voters(recs)));
    assert header[0] == "ID";
    assert text[0] == 'I' by {
      assert PrintFields(header)[0] == 'I';
    }
    NotBlank(text);
  }

  ghost predicate ArePages(env: Env, all: seq<FinalRecord>, texts: seq<string>) {
    forall i :: 0 <= i < |texts| ==> IsExport(Chunk(all, i + 1), env, texts[i])
  }

  /** The table is the merge of the texts of exactly the pages of an answer. */
  ghost predicate IsMergeOf(env: Env, all: seq<FinalRecord>, texts: seq<string>, table: Result) {
    |texts| == PageCount(|all|) && ArePages(env, all, texts) && table == Merge(ParseAll(texts))
  }

  lemma OneMorePage(env: Env, all: seq<FinalRecord>, texts: seq<string>, text: string)
    requires ArePages(env, all, texts) && IsExport(Chunk(all, |texts| + 1), env, text)
    ensures ArePages(env, all, texts + [text]) && ParseAll(texts + [text]) == ParseAll(texts) + [Parse(text)]
    ensures Trim(text) != ""
  {
    hide IsExport, Parse, Chunk, Trim;
    ExportIsNotBlank(Chunk(all, |texts| + 1), env, text);
  }

  lemma LastPage(all: seq<FinalRecord>, page: nat)
    requires page >= 1 && (page == 1 || PAGE_SIZE * (page - 1) < |all|)
    ensures Chunk(all, page) == [] ==> PageCount(|all|) == page - 1 && all == []
    ensures Chunk(all, page) != [] && PAGE_SIZE * page >= |all| ==> PageCount(|all|) == page
  {
  }

  /** How many pages a fetch asks for. */
  function Requests(rows: nat): nat {
    if rows == 0 then 1 else Min(PageCount(rows), MAX_PAGES)
  }

  lemma PageIsRequested(rows: nat, page: nat)
    requires 1 <= page <= MAX_PAGES && (page == 1 || PAGE_SIZE * (page - 1) < rows)
    ensures page <= Requests(rows)
    ensures PAGE_SIZE * page >= rows || page == MAX_PAGES ==> page == Requests(rows)
  {
  }

  ghost predicate SomeFails(all: seq<FinalRecord>, failAt: nat -> Option<nat>, n: nat) {
    exists p :: 1 <= p <= n && Fails(all, p, failAt(p))
  }

  /** `runFetch_`: pages from 1 until the server signals the end, then one merged table. For an unchanging
      store it aborts exactly when a page it asks for fails; otherwise it gives up exactly when there are more
      rows than MAX_PAGES pages hold, and else merges exactly the pages of the answer. */
  method RunFetch(store: Store, env: Env, failAt: nat -> Option<nat>) returns (r: FetchResult)
    ensures var all := Selected(Sources(store.results, store.manual), true, []);
            && (r.Aborted? <==> SomeFails(all, failAt, Requests(|all|)))
            && (!r.Aborted? ==> (r.TooManyPages? <==> |all| > MAX_PAGES * PAGE_SIZE))
    ensures var all := Selected(Sources(store.results, store.manual), true, []);
            r.Fetched? ==> exists texts :: IsMergeOf(env, all, texts, r.table)
    ensures var all := Selected(Sources(store.results, store.manual), true, []);
            r.Fetched? && LooseRecords(env, all) && ProperNames(env, Voters(all)) ==> ShowsAll(env, all, r.table)
  {
    hide LooseRecords, ProperNames, Voters, ShowsAll, IsExport, Parse, Selected, Chunk, ArePages, ParseAll, Merge, PageCount,
         Sources, Trim, Requests, Fails;
    ghost var all := Selected(Sources(store.results, store.manual), true, []);
    var pages: seq<seq<seq<string>>> := [];
    ghost var texts: seq<string> := [];
    NoPages(env, all);
    var page := 1;
    while page <= MAX_PAGES
      invariant 1 <= page <= MAX_PAGES
      invariant |texts| == page - 1 && ArePages(env, all, texts) && pages == ParseAll(texts)
      invariant page == 1 || PAGE_SIZE * (page - 1) < |all|
      invariant forall p :: 1 <= p < page ==> !Fails(all, p, failAt(p))
      decreases MAX_PAGES - page
    {
      LastPage(all, page);
      PageIsRequested(|all|, page);
      var response := GetPageContent(store, env, page, true, failAt(page));
      if response.ServerError? {
        return Aborted;
      }
      if response.NoContent? {
        break;
      }
      OneMorePage(env, all, texts, response.text);
      texts := texts + [response.text];
      if Trim(response.text) != "" {
        var rows := ParseCsv(response.text);
        pages := pages + [rows];
      }
      if response.nextPage == 0 {
        break;
      }
      if page == MAX_PAGES {
        return TooManyPages;
      }
      page := page + 1;
    }
    FewPages(|all|, |texts|);
    var table := MergePages(pages);
    assert IsMergeOf(env, all, texts, table);
    if LooseRecords(env, all) && ProperNames(env, Voters(all)) {
      FetchedTable(env, all, texts, table);
    }
    return Fetched(table);
  }

  lemma NoPages(env: Env, all: seq<FinalRecord>)
    ensures ArePages(env, all, []) && ParseAll([]) == []
  {
  }

  lemma FewPages(rows: nat, pages: nat)
    requires pages == PageCount(rows) && pages <= MAX_PAGES
    ensures rows <= MAX_PAGES * PAGE_SIZE
  {
  }

  // ---------------------------------------------------------------- end to end

  /** The pages of an answer. */
  function Pages(all: seq<FinalRecord>): seq<seq<FinalRecord>> {
    Chunks(all, PageCount(|all|))
  }

  /** The table shows an answer: it is refused exactly when an exported title has several lines, and otherwise
      it is the table of the answer's pages; that is the reference table exactly when every page with an
      exported poll lists every voter whose name is an inherited property. */
  ghost predicate ShowsAll(env: Env, all: seq<FinalRecord>, table: Result) {
    && (table.Table? <==> forall rec :: rec in all ==> OneLine(rec))
    && (table.Table? ==>
          && table == PagedTable(env, Pages(all))
          && (table == Reference(env, all) <==> ColumnsCovered(env, Pages(all), Voters(all))))
  }

  /** What fetching gives, for any answer with pairwise distinct stripped titles whose voters have plain,
      pairwise distinct names. */
  lemma FetchedTable(env: Env, all: seq<FinalRecord>, texts: seq<string>, table: Result)
    requires IsMergeOf(env, all, texts, table)
    requires LooseRecords(env, all) && ProperNames(env, Voters(all))
    ensures ShowsAll(env, all, table)
  {
    hide Merge, Reference, PagedTable, LooseRecords, ProperNames, IsExport, Parse, Voters, ColumnsCovered, Flatten, OneLine;
    PagesCoverOnce(all);
    TableIffOneLine(env, Pages(all), texts);
    PagedIsReferenceIff(env, Pages(all));
  }

  /** A row that prints on one line, if it is exported. */
  ghost predicate ProperRow(env: Env, n: nat, r: Row) {
    n < INT64_LIMIT && Count(r.answers).rating ==> Plain(Filtered(ShownTitle(r))) && Plain(env.dateOf(Seconds(n)))
  }

  predicate Kept(t: Table, n: nat, omitInactive: bool) {
    n in t && (!omitInactive || t[n].active != 0)
  }

  lemma ShownIsProper(env: Env, n: nat, r: Row)
    requires ProperRow(env, n, r)
    ensures ProperRecord(env, Shown(n, r))
    ensures HasTime(Shown(n, r)) <==> n < INT64_LIMIT
    ensures HasTime(Shown(n, r)) ==> Value(Shown(n, r).id) == n
  {
    hide Count, Decimal;
    if n < INT64_LIMIT {
      ParsePrinted(n);
    }
  }

  /** The order and the ids `ProperRecords` asks for are what every query returns; only texts of one
      line and distinct titles remain as conditions. */
  lemma QueryIsProper(env: Env, t: Table, omitInactive: bool)
    requires forall n :: Kept(t, n, omitInactive) ==> ProperRow(env, n, t[n])
    requires forall m, n :: Kept(t, m, omitInactive) && Kept(t, n, omitInactive) && m != n ==>
               Filtered(ShownTitle(t[m])) != Filtered(ShownTitle(t[n]))
    ensures ProperRecords(env, Selected(t, omitInactive, []))
  {
    hide ProperRecord, ProperRow, Filtered, ShownTitle, Value, Decimal, Kept, Matching, Shows;
    var keys := Ordered(Matching(t, omitInactive, {}, true));
    OrderedIncreases(Matching(t, omitInactive, {}, true));
    MatchingIsKept(t, omitInactive);
    forall i | 0 <= i < |keys| ensures Kept(t, keys[i], omitInactive) {
      assert keys[i] in keys;
    }
    ShowsProper(env, t, keys);
    assert Keys([]) == {};
  }

  lemma MatchingIsKept(t: Table, omitInactive: bool)
    ensures forall n :: n in Matching(t, omitInactive, {}, true) <==> Kept(t, n, omitInactive)
    ensures forall n :: Kept(t, n, omitInactive) ==> n in t
  {
  }

  lemma ShowsProper(env: Env, t: Table, keys: seq<nat>)
    requires Increasing(keys)
    requires forall n :: n in keys ==> n in t && ProperRow(env, n, t[n])
    requires forall i, j :: 0 <= i < j < |keys| ==>
               Filtered(ShownTitle(t[keys[i]])) != Filtered(ShownTitle(t[keys[j]]))
    ensures ProperRecords(env, Shows(t, keys))
  {
    hide ProperRecord, ProperRow, Filtered, ShownTitle, Value, Decimal, Shows, DistinctTitles, HasTime, Shown;
    var all := Shows(t, keys);
    forall i | 0 <= i < |all|
      ensures ProperRecord(env, all[i]) && (HasTime(all[i]) ==> AllDigits(all[i].id) && Value(all[i].id) == keys[i])
    {
      assert keys[i] in keys;
      ShownIsProper(env, keys[i], t[keys[i]]);
      if HasTime(all[i]) {
        TimedHasDigits(all[i]);
      }
    }
    ShowsDistinct(t, keys);
  }

  lemma TimedHasDigits(rec: FinalRecord)
    requires HasTime(rec)
    ensures AllDigits(rec.id)
  {
  }

  lemma ShowsDistinct(t: Table, keys: seq<nat>)
    requires forall n :: n in keys ==> n in t
    requires forall i, j :: 0 <= i < j < |keys| ==>
               Filtered(ShownTitle(t[keys[i]])) != Filtered(ShownTitle(t[keys[j]]))
    ensures DistinctTitles(Shows(t, keys))
  {
    hide Filtered, ShownTitle, Decimal, Shows;
    var all := Shows(t, keys);
    forall i | 0 <= i < |all| ensures all[i].title == ShownTitle(t[keys[i]]) {
    }
  }
}
