/** The dictionaries after any number of pages represent the pages read so far, so the merged table is the
    table of those pages; and that table does not depend on where the page boundaries are, exactly unless a
    column is named like an inherited property. */
module PageInvariance {
  import opened Decimals
  import opened Text
  import opened FinalizedStore
  import opened CsvFormat
  import opened CsvExport
  import opened PageMerge
  import opened PageSplit

  function ExportedIds(recs: seq<FinalRecord>): seq<string> {
    if recs == [] then []
    else ExportedIds(recs[..|recs| - 1]) + (if Exported(recs[|recs| - 1]) then [recs[|recs| - 1].id] else [])
  }

  /** One stored poll holds its own fields and, for each column of its page, its own vote. */
  ghost predicate Entry(env: Env, r: Record, rec: FinalRecord, own: set<Snowflake>) {
    && HasTime(rec) && r.meta == TrimAll(FixedCells(env, PairOf(rec)))
    && (forall n :: n in r.votes <==> n in ColumnSet(env, own))
    && (forall v :: v in own && Column(env, v) != PROTO ==> r.votes[Column(env, v)] == CellOf(rec, v))
  }

  /** Every exported poll of the page is stored. */
  ghost predicate Holds(env: Env, m: Merged, page: seq<FinalRecord>) {
    forall rec :: rec in page && Exported(rec) ==> rec.id in m.byId && Entry(env, m.byId[rec.id], rec, Voters(page))
  }

  ghost predicate Represents(env: Env, m: Merged, pages: seq<seq<FinalRecord>>) {
    && m.voters == ColumnSet(env, Voters(Flatten(pages)))
    && (forall id :: id in m.byId <==> id in ExportedIds(Flatten(pages)))
    && multiset(m.order) == multiset(ExportedIds(Flatten(pages)))
    && (forall i :: 0 <= i < |pages| ==> Holds(env, m, pages[i]))
  }

  // ---------------------------------------------------------------- lists of records

  lemma {:induction false} VotersOfSum(a: seq<FinalRecord>, b: seq<FinalRecord>)
    ensures Voters(a + b) == Voters(a) + Voters(b)
  {
    if b == [] {
      assert a + b == a;
    } else {
      VotersOfSum(a, b[..|b| - 1]);
      assert (a + b)[..|a + b| - 1] == a + b[..|b| - 1];
    }
  }

  lemma {:induction false} IdsOfSum(a: seq<FinalRecord>, b: seq<FinalRecord>)
    ensures ExportedIds(a + b) == ExportedIds(a) + ExportedIds(b)
  {
    if b == [] {
      assert a + b == a;
    } else {
      IdsOfSum(a, b[..|b| - 1]);
      assert (a + b)[..|a + b| - 1] == a + b[..|b| - 1];
    }
  }

  lemma {:induction false} ExportedIdsAre(recs: seq<FinalRecord>)
    ensures forall id :: id in ExportedIds(recs) <==> exists i :: 0 <= i < |recs| && Exported(recs[i]) && recs[i].id == id
  {
    hide Exported;
    if recs != [] {
      var n := |recs| - 1;
      ExportedIdsAre(recs[..n]);
      forall id ensures id in ExportedIds(recs) <==> exists i :: 0 <= i < |recs| && Exported(recs[i]) && recs[i].id == id {
        if id in ExportedIds(recs[..n]) {
          var i :| 0 <= i < n && Exported(recs[..n][i]) && recs[..n][i].id == id;
          assert recs[i].id == id;
        }
        if i :| 0 <= i < n && Exported(recs[i]) && recs[i].id == id {
          assert recs[..n][i].id == id;
        }
      }
    }
  }

  lemma ProperParts(env: Env, a: seq<FinalRecord>, b: seq<FinalRecord>)
    requires ProperRecords(env, a + b)
    ensures ProperRecords(env, a) && ProperRecords(env, b)
    ensures forall i, j :: 0 <= i < |a| && 0 <= j < |b| && HasTime(a[i]) && HasTime(b[j]) ==> a[i].id != b[j].id
  {
    hide ProperRecord, Filtered, IdsIncrease;
    var s := a + b;
    forall i | 0 <= i < |a| ensures ProperRecord(env, a[i]) && a[i] == s[i] {
      assert ProperRecord(env, s[i]);
    }
    forall i | 0 <= i < |b| ensures ProperRecord(env, b[i]) && b[i] == s[|a| + i] {
      assert ProperRecord(env, s[|a| + i]);
    }
    IncreaseParts(a, b);
    forall i, j | 0 <= i < j < |b| ensures Filtered(b[i].title) != Filtered(b[j].title) {
      assert b[i] == s[|a| + i] && b[j] == s[|a| + j];
    }
  }

  lemma IncreaseParts(a: seq<FinalRecord>, b: seq<FinalRecord>)
    requires IdsIncrease(a + b)
    ensures IdsIncrease(a) && IdsIncrease(b)
    ensures forall i, j :: 0 <= i < |a| && 0 <= j < |b| && HasTime(a[i]) && HasTime(b[j]) ==> a[i].id != b[j].id
  {
    hide Value;
    var s := a + b;
    forall i | 0 <= i < |a| ensures a[i] == s[i] {
    }
    forall i | 0 <= i < |b| ensures b[i] == s[|a| + i] {
    }
    forall i, j | 0 <= i < |a| && 0 <= j < |b| && HasTime(a[i]) && HasTime(b[j]) ensures a[i].id != b[j].id {
      assert Value(s[i].id) < Value(s[|a| + j].id);
    }
  }

  lemma NotInherited(id: string)
    requires Canonical(id)
    ensures id !in INHERITED && Trim(id) == id
  {
    assert IsDigit(id[0]);
    TrimOfTrimmed(id);
  }

  /** The pairs of a page, in any order, have distinct ids that no earlier page used. */
  lemma OrderIsFresh(env: Env, m: Merged, recs: seq<FinalRecord>, page: seq<FinalRecord>, order: seq<Pair>)
    requires ProperRecords(env, recs + page) && multiset(order) == multiset(Pairs(page))
    requires forall id :: id in m.byId <==> id in ExportedIds(recs)
    ensures DistinctIds(order)
    ensures forall p :: p in order ==> p.id !in m.byId && p.id !in INHERITED && Trim(p.id) == p.id
  {
    ProperParts(env, recs, page);
    forall p | p in order ensures p.id !in m.byId && p.id !in INHERITED && Trim(p.id) == p.id {
      var i := PairHasRecord(env, page, order, p);
      NotInherited(p.id);
      ExportedIdsAre(recs);
    }
    PairsDistinct(env, page);
    PermutedDistinct(Pairs(page), order);
  }

  lemma {:induction false} PairsDistinct(env: Env, page: seq<FinalRecord>)
    requires ProperRecords(env, page)
    ensures DistinctIds(Pairs(page))
  {
    hide PairOf, HasTime, ProperRecords;
    if page != [] {
      var n := |page| - 1;
      assert page == page[..n] + [page[n]];
      ProperParts(env, page[..n], [page[n]]);
      PairsDistinct(env, page[..n]);
      PairsHave(page[..n]);
      if HasTime(page[n]) {
        PairIs(page[n]);
        forall i | 0 <= i < |Pairs(page[..n])| ensures Pairs(page[..n])[i].id != page[n].id {
          assert Pairs(page[..n])[i] in Pairs(page[..n]);
          var k :| 0 <= k < n && HasTime(page[..n][k]) && PairOf(page[..n][k]) == Pairs(page[..n])[i];
          PairIs(page[..n][k]);
          assert [page[n]][0] == page[n];
        }
      }
    }
  }

  lemma PermutedDistinct(a: seq<Pair>, b: seq<Pair>)
    requires multiset(a) == multiset(b) && DistinctIds(a)
    ensures DistinctIds(b)
  {
    forall i, j | 0 <= i < j < |b| ensures b[i].id != b[j].id {
      assert b[i] in multiset(b) && b[j] in multiset(b);
      assert b[i] in a && b[j] in a;
      if b[i] == b[j] {
        TwiceIn(b, i, j);
        var k :| 0 <= k < |a| && a[k] == b[i];
        OnceIn(a, k);
      }
    }
  }

  lemma TwiceIn(b: seq<Pair>, i: nat, j: nat)
    requires i < j < |b| && b[i] == b[j]
    ensures multiset(b)[b[i]] >= 2
  {
    assert b == b[..j] + [b[j]] + b[j + 1..];
    assert b[..j][i] in multiset(b[..j]);
  }

  lemma OnceIn(a: seq<Pair>, k: nat)
    requires k < |a| && DistinctIds(a)
    ensures multiset(a)[a[k]] == 1
  {
    assert a == a[..k] + [a[k]] + a[k + 1..];
    assert a[k] !in multiset(a[..k]);
    assert a[k] !in multiset(a[k + 1..]);
  }

  lemma RemoveOne(s: seq<Pair>, k: nat)
    requires k < |s|
    ensures multiset(s[..k] + s[k + 1..]) == multiset(s) - multiset{s[k]}
  {
    assert s == s[..k] + [s[k]] + s[k + 1..];
  }

  lemma KeptRemove(s: seq<Pair>, k: nat, mapped: map<string, CsvExport.Votes>)
    requires k < |s|
    ensures multiset(KeptIds(s, mapped)) == multiset(KeptIds(s[..k] + s[k + 1..], mapped)) + multiset(KeptIds([s[k]], mapped))
  {
    assert s == s[..k] + [s[k]] + s[k + 1..];
    KeptOfSum(s[..k], [s[k]], mapped);
    KeptOfSum(s[..k] + [s[k]], s[k + 1..], mapped);
    KeptOfSum(s[..k], s[k + 1..], mapped);
  }

  /** The ids kept, in page order, are the exported ids of the page. */
  lemma {:induction false} KeptArePermuted(order: seq<Pair>, pairs: seq<Pair>, mapped: map<string, CsvExport.Votes>)
    requires multiset(order) == multiset(pairs)
    ensures multiset(KeptIds(order, mapped)) == multiset(KeptIds(pairs, mapped))
    decreases |order|
  {
    hide KeptIds;
    if order == [] {
      assert |multiset(order)| == |multiset(pairs)|;
      assert pairs == [];
    } else {
      var n := |order| - 1;
      assert order[n] in multiset(order);
      assert order[n] in pairs;
      var k :| 0 <= k < |pairs| && pairs[k] == order[n];
      RemoveOne(pairs, k);
      RemoveOne(order, n);
      assert order[..n] + order[n + 1..] == order[..n];
      KeptArePermuted(order[..n], pairs[..k] + pairs[k + 1..], mapped);
      KeptRemove(order, n, mapped);
      KeptRemove(pairs, k, mapped);
    }
  }

  lemma {:induction false} KeptOfSum(a: seq<Pair>, b: seq<Pair>, mapped: map<string, CsvExport.Votes>)
    ensures KeptIds(a + b, mapped) == KeptIds(a, mapped) + KeptIds(b, mapped)
  {
    if b == [] {
      assert a + b == a;
    } else {
      var n := |b| - 1;
      KeptOfSum(a, b[..n], mapped);
      assert (a + b)[..|a + b| - 1] == a + b[..n] && (a + b)[|a + b| - 1] == b[n];
      var last := if b[n].title in mapped then [b[n].id] else [];
      assert KeptIds(a + b, mapped) == (KeptIds(a, mapped) + KeptIds(b[..n], mapped)) + last;
      assert KeptIds(b, mapped) == KeptIds(b[..n], mapped) + last;
    }
  }

  lemma KeptOneMore(pairs: seq<Pair>, p: Pair, mapped: map<string, CsvExport.Votes>)
    ensures KeptIds(pairs + [p], mapped) == KeptIds(pairs, mapped) + (if p.title in mapped then [p.id] else [])
  {
    assert (pairs + [p])[..|pairs|] == pairs;
  }

  lemma PairIs(rec: FinalRecord)
    requires HasTime(rec)
    ensures PairOf(rec).id == rec.id && PairOf(rec).title == Filtered(rec.title)
  {
  }

  lemma {:induction false} KeptOfPairs(page: seq<FinalRecord>, mapped: map<string, CsvExport.Votes>)
    requires forall i :: 0 <= i < |page| && HasTime(page[i]) ==> (Filtered(page[i].title) in mapped <==> Exported(page[i]))
    ensures KeptIds(Pairs(page), mapped) == ExportedIds(page)
  {
    if page != [] {
      hide Count, HasTime, Filtered, PairOf, KeptIds;
      var n := |page| - 1;
      KeptOfPairs(page[..n], mapped);
      if HasTime(page[n]) {
        PairIs(page[n]);
        KeptOneMore(Pairs(page[..n]), PairOf(page[n]), mapped);
      } else {
        assert Pairs(page) == Pairs(page[..n]);
        assert ExportedIds(page) == ExportedIds(page[..n]);
      }
    }
  }

  // ---------------------------------------------------------------- one page

  lemma NoVoteCell()
    ensures ToNumberOrText(NO_VOTE) == TextCell("N/A")
  {
    assert Trim(NO_VOTE) == NO_VOTE by {
      TrimOfTrimmed(NO_VOTE);
    }
    SplitWhole(NO_VOTE, '.');
  }

  lemma SortedColumns(env: Env, voters: set<Snowflake>)
    requires ProperNames(env, voters)
    ensures DistinctNames(ColumnNames(env, Sorted(voters)))
    ensures (set n | n in ColumnNames(env, Sorted(voters)) && n != PROTO) == ColumnSet(env, voters)
  {
    hide Column, Plain;
    var k := Sorted(voters);
    var names := ColumnNames(env, k);
    SortedIncreases(voters);
    forall i, j | 0 <= i < j < |k| ensures names[i] != names[j] {
      assert k[i] in k && k[j] in k;
    }
    forall n ensures n in names && n != PROTO <==> n in ColumnSet(env, voters) {
      ColumnIsListed(env, voters, n);
    }
  }

  lemma ColumnIsListed(env: Env, voters: set<Snowflake>, n: string)
    ensures n in ColumnNames(env, Sorted(voters)) && n != PROTO <==> n in ColumnSet(env, voters)
  {
    hide Column;
    var k := Sorted(voters);
    var names := ColumnNames(env, k);
    if n in names {
      var i :| 0 <= i < |k| && names[i] == n;
      assert k[i] in k;
    }
    if n in ColumnSet(env, voters) {
      var v := Who(env, voters, n);
      assert v in k;
      var i :| 0 <= i < |k| && k[i] == v;
      assert names[i] == n;
    }
  }

  /** What a page stores for one of its polls. */
  lemma NewEntry(env: Env, rec: FinalRecord, own: set<Snowflake>)
    requires Exported(rec) && ProperNames(env, own)
    ensures Entry(env, Stored(env, PairOf(rec), Count(rec.answers).votes, Sorted(own)), rec, own)
  {
    hide Count, FixedCells, PairOf, VotesOf, ProperNames, Column, DistinctNames, AreChoices, TrimAll, ColumnSet, VoteCells, ColumnNames;
    var votes := Count(rec.answers).votes;
    VotesAreChoices(rec.answers);
    ChoicesOf(votes);
    VoteCellsAreClean(votes, Sorted(own));
    StoredVotes(env, votes, own);
  }

  /** The votes of a row by column. */
  lemma StoredVotes(env: Env, votes: CsvExport.Votes, own: set<Snowflake>)
    requires ProperNames(env, own)
    ensures var stored := VotesOf(ColumnNames(env, Sorted(own)), VoteCells(votes, Sorted(own)));
            && (forall n :: n in stored <==> n in ColumnSet(env, own))
            && (forall v :: v in own && Column(env, v) != PROTO ==>
                  stored[Column(env, v)] == if v in votes then votes[v] else NO_VOTE)
  {
    hide VotesOf, ProperNames, Column, DistinctNames;
    var k := Sorted(own);
    SortedColumns(env, own);
    VotesOfAre(ColumnNames(env, k), VoteCells(votes, k));
    var stored := VotesOf(ColumnNames(env, k), VoteCells(votes, k));
    forall n ensures n in stored <==> n in ColumnSet(env, own) {
      ColumnIsListed(env, own, n);
    }
    forall v | v in own && Column(env, v) != PROTO
      ensures stored[Column(env, v)] == if v in votes then votes[v] else NO_VOTE
    {
      assert v in k;
      var i :| 0 <= i < |k| && k[i] == v;
      assert ColumnNames(env, k)[i] == Column(env, v);
    }
  }

  lemma ChoicesOf(votes: CsvExport.Votes)
    requires forall v :: v in votes ==> votes[v] in {"N/A", "1", "2", "3", "4", "5"}
    ensures AreChoices(votes)
  {
  }

  lemma ColumnSetOfSum(env: Env, a: set<Snowflake>, b: set<Snowflake>)
    ensures ColumnSet(env, a + b) == ColumnSet(env, a) + ColumnSet(env, b)
  {
    hide Column;
  }

  lemma ProperSubset(env: Env, a: set<Snowflake>, b: set<Snowflake>)
    requires ProperNames(env, b) && a <= b
    ensures ProperNames(env, a)
  {
    hide Column, Plain;
  }

  /** Polls of the new page are stored. */
  lemma NewEntries(env: Env, m: Merged, page: seq<FinalRecord>, order: seq<Pair>, out: Merged)
    requires ProperRecords(env, page) && ProperNames(env, Voters(page)) && multiset(order) == multiset(Pairs(page))
    requires RowsRead(env, m, order, Mapped(page), Sorted(Voters(page)), out)
    ensures Holds(env, out, page)
  {
    hide Entry, ProperNames, Voters, Count, Mapped, Stored, Sorted, Filtered;
    PairsHave(page);
    forall rec | rec in page && Exported(rec) ensures rec.id in out.byId && Entry(env, out.byId[rec.id], rec, Voters(page)) {
      var i :| 0 <= i < |page| && page[i] == rec;
      MappedIsOwn(page, i);
      var p := PairOf(rec);
      assert p in multiset(Pairs(page));
      assert p in order;
      NewEntry(env, rec, Voters(page));
    }
  }

  lemma KeptAreExported(env: Env, page: seq<FinalRecord>, order: seq<Pair>)
    requires ProperRecords(env, page) && multiset(order) == multiset(Pairs(page))
    ensures multiset(KeptIds(order, Mapped(page))) == multiset(ExportedIds(page))
    ensures forall id :: id in KeptIds(order, Mapped(page)) <==> id in ExportedIds(page)
  {
    forall i | 0 <= i < |page| && HasTime(page[i]) ensures Filtered(page[i].title) in Mapped(page) <==> Exported(page[i]) {
      MappedIsOwn(page, i);
    }
    KeptArePermuted(order, Pairs(page), Mapped(page));
    KeptOfPairs(page, Mapped(page));
    forall id ensures id in KeptIds(order, Mapped(page)) <==> id in ExportedIds(page) {
      assert id in multiset(KeptIds(order, Mapped(page))) <==> id in multiset(ExportedIds(page));
    }
  }

  lemma OrderExtends(a: seq<string>, b: seq<string>, c: seq<string>, d: seq<string>, out: seq<string>)
    requires multiset(a) == multiset(c) && multiset(b) == multiset(d) && out == a + b
    ensures multiset(out) == multiset(c + d)
  {
  }

  lemma FlattenOneMore(pages: seq<seq<FinalRecord>>, page: seq<FinalRecord>)
    ensures Flatten(pages + [page]) == Flatten(pages) + page
  {
    assert (pages + [page])[..|pages|] == pages;
  }

  lemma StillHolds(env: Env, m: Merged, out: Merged, pages: seq<seq<FinalRecord>>)
    requires forall i :: 0 <= i < |pages| ==> Holds(env, m, pages[i])
    requires forall id :: id in m.byId ==> id in out.byId && out.byId[id] == m.byId[id]
    ensures forall i :: 0 <= i < |pages| ==> Holds(env, out, pages[i])
  {
    hide Entry, Voters, Exported;
  }

  /** The dictionaries after a page's rows represent all pages so far. */
  lemma RowsRepresent(env: Env, m: Merged, pages: seq<seq<FinalRecord>>, page: seq<FinalRecord>, order: seq<Pair>, out: Merged)
    requires Represents(env, m, pages)
    requires ProperRecords(env, page) && ProperNames(env, Voters(page)) && multiset(order) == multiset(Pairs(page))
    requires RowsRead(env, m.(voters := m.voters + ColumnSet(env, Voters(page))), order, Mapped(page), Sorted(Voters(page)), out)
    ensures Represents(env, out, pages + [page])
  {
    hide Holds, ProperNames, Voters, Count, Mapped, Stored, Sorted, ProperRecords, ColumnSet, KeptIds, ExportedIds, Pairs, Flatten;
    var recs := Flatten(pages);
    FlattenOneMore(pages, page);
    VotersOfSum(recs, page);
    ColumnSetOfSum(env, Voters(recs), Voters(page));
    IdsOfSum(recs, page);
    KeptAreExported(env, page, order);
    StillHolds(env, m, out, pages);
    NewEntries(env, m.(voters := m.voters + ColumnSet(env, Voters(page))), page, order, out);
    OrderExtends(m.order, KeptIds(order, Mapped(page)), ExportedIds(recs), ExportedIds(page), out.order);
  }

  lemma ParsedHeader(env: Env, voters: set<Snowflake>, known: set<string>)
    requires ProperNames(env, voters)
    ensures var head := TrimAll(Header(env, Sorted(voters)));
            |head| == 5 + |Sorted(voters)| && head[5..] == ColumnNames(env, Sorted(voters))
    ensures AddVoters(known, ColumnNames(env, Sorted(voters))) == known + ColumnSet(env, voters)
  {
    hide Trim, ProperNames, ColumnSet, DistinctNames;
    SortedColumns(env, voters);
    TrimmedHeader(env, Sorted(voters));
  }

  lemma TrimmedHeader(env: Env, voters: seq<Snowflake>)
    ensures var head := TrimAll(Header(env, voters)); |head| == 5 + |voters| && head[5..] == ColumnNames(env, voters)
  {
    hide Trim, Name;
  }

  lemma PageRepresents(env: Env, m: Merged, pages: seq<seq<FinalRecord>>, page: seq<FinalRecord>, order: seq<Pair>, text: string, p: nat)
    requires Represents(env, m, pages)
    requires ProperRecords(env, Flatten(pages) + page) && ProperNames(env, Voters(page)) && IsExportIn(page, env, order, text)
    ensures var s := AddPage(m, p, Parse(text)); s.Good? && Represents(env, s.m, pages + [page])
  {
    hide ProperNames, Voters, Mapped, Sorted, ProperRecords, RowsFor, RowsRead, Parse, PrintTable, Header, ColumnSet, TrimAll,
         Holds, AddVoters, AddRows, TrimRows, ByTime, ExportedIds, Flatten;
    var recs := Flatten(pages);
    ProperParts(env, recs, page);
    PageParses(env, page, order, text);
    var k := Sorted(Voters(page));
    ParsedHeader(env, Voters(page), m.voters);
    var m1 := m.(voters := m.voters + ColumnSet(env, Voters(page)));
    OrderIsFresh(env, m1, recs, page, order);
    ReadRows(env, m1, p, order, Mapped(page), k);
    var head, rows := TrimAll(Header(env, k)), TrimRows(RowsFor(env, order, Mapped(page), k));
    assert ([head] + rows)[1..] == rows;
    RowsRepresent(env, m, pages, page, order, AddRows(m1, p, ColumnNames(env, k), rows).m);
  }

  // ---------------------------------------------------------------- all pages

  function ParseAll(texts: seq<string>): (p: seq<seq<seq<string>>>)
    ensures |p| == |texts| && forall i :: 0 <= i < |p| ==> p[i] == Parse(texts[i])
  {
    seq(|texts|, i requires 0 <= i < |texts| => Parse(texts[i]))
  }

  lemma {:induction false} PagesRepresent(env: Env, pages: seq<seq<FinalRecord>>, texts: seq<string>)
    requires |texts| == |pages| && forall i :: 0 <= i < |pages| ==> IsExport(pages[i], env, texts[i])
    requires ProperRecords(env, Flatten(pages)) && ProperNames(env, Voters(Flatten(pages)))
    ensures var s := AddPages(ParseAll(texts)); s.Good? && Represents(env, s.m, pages)
  {
    hide ProperNames, Voters, Represents, ProperRecords, IsExportIn, Parse, AddPage;
    if pages == [] {
      EmptyRepresents(env);
    } else {
      var n := |pages| - 1;
      var recs, page := Flatten(pages[..n]), pages[n];
      ProperParts(env, recs, page);
      VotersOfSum(recs, page);
      ProperSubset(env, Voters(recs), Voters(recs + page));
      ProperSubset(env, Voters(page), Voters(recs + page));
      PagesRepresent(env, pages[..n], texts[..n]);
      var order :| IsExportIn(page, env, order, texts[n]);
      PageRepresents(env, AddPages(ParseAll(texts[..n])).m, pages[..n], page, order, texts[n], n);
      assert ParseAll(texts)[..n] == ParseAll(texts[..n]);
      assert pages == pages[..n] + [page];
    }
  }

  lemma EmptyRepresents(env: Env)
    ensures Represents(env, EMPTY, [])
  {
  }

  // ---------------------------------------------------------------- the order of the rows

  function Rank(id: string): nat {
    if AllDigits(id) then Value(id) else 0
  }

  predicate Ascending(ids: seq<string>) {
    && (forall i :: 0 <= i < |ids| ==> Canonical(ids[i]))
    && (forall i, j :: 0 <= i < j < |ids| ==> Rank(ids[i]) < Rank(ids[j]))
  }

  predicate NotDescending(ids: seq<string>) {
    && (forall i :: 0 <= i < |ids| ==> Canonical(ids[i]))
    && (forall i, j :: 0 <= i < j < |ids| ==> Rank(ids[i]) <= Rank(ids[j]))
  }

  lemma RanksDecide(a: string, b: string)
    requires Canonical(a) && Canonical(b)
    ensures CompareSnowflake(a, b) < 0 <==> Rank(a) < Rank(b)
    ensures Rank(a) == Rank(b) ==> a == b
  {
    CompareIsNumeric(a, b);
  }

  lemma {:induction false} InsertIdSorts(id: string, ids: seq<string>)
    requires Canonical(id) && NotDescending(ids)
    ensures NotDescending(InsertId(id, ids))
  {
    hide Rank, Canonical, CompareSnowflake;
    if ids != [] {
      RanksDecide(id, ids[0]);
      if CompareSnowflake(id, ids[0]) >= 0 {
        InsertIdSorts(id, ids[1..]);
        PutFirst(ids[0], InsertId(id, ids[1..]), ids, id);
      }
    }
  }

  lemma PutFirst(first: string, rest: seq<string>, ids: seq<string>, id: string)
    requires NotDescending(rest) && NotDescending(ids) && ids != [] && ids[0] == first
    requires multiset(rest) == multiset(ids[1..]) + multiset{id} && Rank(first) <= Rank(id)
    ensures NotDescending([first] + rest)
  {
    hide Rank, Canonical;
    forall j | 0 <= j < |rest| ensures Rank(first) <= Rank(rest[j]) {
      assert rest[j] in multiset(rest);
      assert rest[j] == id || rest[j] in ids[1..];
    }
  }

  lemma {:induction false} SortIdsSorts(ids: seq<string>)
    requires forall i :: 0 <= i < |ids| ==> Canonical(ids[i])
    ensures NotDescending(SortIds(ids))
  {
    hide Rank, Canonical;
    if ids != [] {
      SortIdsSorts(ids[..|ids| - 1]);
      InsertIdSorts(ids[|ids| - 1], SortIds(ids[..|ids| - 1]));
    }
  }

  lemma FirstIsLeast(ids: seq<string>, x: string)
    requires NotDescending(ids) && x in multiset(ids)
    ensures |ids| > 0 && Rank(ids[0]) <= Rank(x) && Canonical(x) && Canonical(ids[0])
  {
    hide Rank, Canonical;
    assert x in ids;
  }

  lemma TailsMatch(a: seq<string>, b: seq<string>)
    requires |a| > 0 && |b| > 0 && a[0] == b[0] && multiset(a) == multiset(b)
    ensures multiset(a[1..]) == multiset(b[1..])
  {
    assert a == [a[0]] + a[1..] && b == [b[0]] + b[1..];
    assert multiset(a[1..]) == multiset(a) - multiset{a[0]};
    assert multiset(b[1..]) == multiset(b) - multiset{b[0]};
  }

  lemma SameFirst(a: seq<string>, b: seq<string>)
    requires NotDescending(a) && NotDescending(b) && multiset(a) == multiset(b) && |a| > 0 && |b| > 0
    ensures a[0] == b[0]
  {
    hide Rank, Canonical, NotDescending;
    assert a[0] in multiset(a) && b[0] in multiset(b);
    FirstIsLeast(a, b[0]);
    FirstIsLeast(b, a[0]);
    RanksDecide(a[0], b[0]);
  }

  /** Sorted lists with the same elements are the same list. */
  lemma {:induction false} SortedIsUnique(a: seq<string>, b: seq<string>)
    requires NotDescending(a) && NotDescending(b) && multiset(a) == multiset(b)
    ensures a == b
  {
    hide Rank, Canonical;
    assert |multiset(a)| == |multiset(b)|;
    if a != [] {
      SameFirst(a, b);
      TailsMatch(a, b);
      SortedIsUnique(a[1..], b[1..]);
      assert a == [a[0]] + a[1..] && b == [b[0]] + b[1..];
    }
  }

  lemma {:induction false} ExportedAscend(env: Env, recs: seq<FinalRecord>)
    requires ProperRecords(env, recs)
    ensures Ascending(ExportedIds(recs))
  {
    hide Rank, Canonical, ProperRecords, HasTime, Count;
    if recs != [] {
      var n := |recs| - 1;
      assert recs == recs[..n] + [recs[n]];
      ProperParts(env, recs[..n], [recs[n]]);
      ExportedAscend(env, recs[..n]);
      if Exported(recs[n]) {
        CanonicalId(env, recs, n);
        EarlierIdsAreLess(env, recs);
      }
    }
  }

  lemma EarlierIdsAreLess(env: Env, recs: seq<FinalRecord>)
    requires ProperRecords(env, recs) && |recs| > 0 && HasTime(recs[|recs| - 1])
    ensures forall id :: id in ExportedIds(recs[..|recs| - 1]) ==> Rank(id) < Rank(recs[|recs| - 1].id)
  {
    hide Rank, Canonical, ProperRecords, ExportedIds, HasTime, Count;
    var n := |recs| - 1;
    ExportedIdsAre(recs[..n]);
    forall id | id in ExportedIds(recs[..n]) ensures Rank(id) < Rank(recs[n].id) {
      var k :| 0 <= k < n && Exported(recs[..n][k]) && recs[..n][k].id == id;
      assert recs[k] == recs[..n][k];
      IdsAscend(env, recs, k, n);
    }
  }

  lemma IdsAscend(env: Env, recs: seq<FinalRecord>, i: nat, j: nat)
    requires ProperRecords(env, recs) && i < j < |recs| && HasTime(recs[i]) && HasTime(recs[j])
    ensures Rank(recs[i].id) < Rank(recs[j].id)
  {
  }

  lemma CanonicalId(env: Env, recs: seq<FinalRecord>, i: nat)
    requires ProperRecords(env, recs) && i < |recs| && HasTime(recs[i])
    ensures Canonical(recs[i].id)
  {
  }

  lemma SortGivesRecordOrder(env: Env, m: Merged, recs: seq<FinalRecord>)
    requires multiset(m.order) == multiset(ExportedIds(recs)) && ProperRecords(env, recs)
    ensures SortIds(m.order) == ExportedIds(recs)
  {
    hide Rank, Canonical, ExportedIds, ProperRecords;
    ExportedAscend(env, recs);
    forall i | 0 <= i < |m.order| ensures Canonical(m.order[i]) {
      assert m.order[i] in multiset(m.order);
      assert m.order[i] in ExportedIds(recs);
    }
    SortIdsSorts(m.order);
    SortedIsUnique(SortIds(m.order), ExportedIds(recs));
  }

  // ---------------------------------------------------------------- the output

  lemma CellAgrees(env: Env, r: Record, rec: FinalRecord, own: set<Snowflake>, voters: set<Snowflake>, v: Snowflake)
    requires Entry(env, r, rec, own) && ProperNames(env, voters) && own <= voters && v in voters
    requires Count(rec.answers).votes.Keys <= own && Column(env, v) != PROTO
    ensures VoteCell(r.votes, Column(env, v)) == ShownCell(env, rec, v, own)
  {
    hide Count, ToNumberOrText, Column, FixedCells;
    if v !in own {
      NoVoteCell();
      assert CellOf(rec, v) == NO_VOTE;
      assert Column(env, v) !in ColumnSet(env, own);
    } else {
      assert Column(env, v) in ColumnSet(env, own);
    }
  }

  lemma VotesAgree(env: Env, r: Record, rec: FinalRecord, names: seq<string>, voters: set<Snowflake>, own: set<Snowflake>)
    requires Entry(env, r, rec, own) && ProperNames(env, voters) && own <= voters && AreColumns(env, names, voters)
    requires Count(rec.answers).votes.Keys <= own
    ensures VoteRow(r.votes, names) == PagedVotes(env, rec, names, voters, own)
  {
    hide Entry, ProperNames, Count, VoteCell, ShownCell, Column;
    forall i | 0 <= i < |names| ensures VoteRow(r.votes, names)[i] == PagedVotes(env, rec, names, voters, own)[i] {
      assert names[i] in names;
      ColumnIsNotProto(env, voters, names[i]);
      CellAgrees(env, r, rec, own, voters, Who(env, voters, names[i]));
    }
  }

  lemma ColumnIsNotProto(env: Env, voters: set<Snowflake>, name: string)
    requires name in ColumnSet(env, voters)
    ensures name != PROTO
  {
  }

  lemma RowAgrees(env: Env, r: Record, rec: FinalRecord, names: seq<string>, voters: set<Snowflake>, own: set<Snowflake>)
    requires Entry(env, r, rec, own) && ProperNames(env, voters) && own <= voters && AreColumns(env, names, voters)
    requires Count(rec.answers).votes.Keys <= own
    ensures |r.meta| == 5 && OutRow(r, names) == RowWith(env, rec, PagedVotes(env, rec, names, voters, own))
  {
    hide ProperNames, Count, ToNumberOrText, ColumnSet, VoteRow, PagedVotes, AreColumns, Trim, ParseDate;
    VotesAgree(env, r, rec, names, voters, own);
    var p := PairOf(rec);
    TotalIsTrimmed(p.total);
  }

  lemma TotalIsTrimmed(total: nat)
    ensures Trim(Decimal(total)) == Decimal(total)
  {
    DigitsAreClean(Decimal(total));
    TrimOfTrimmed(Decimal(total));
  }

  lemma {:induction false} OutRowsOfSum(m: Merged, a: seq<string>, b: seq<string>, names: seq<string>)
    requires WellShaped(m) && (forall x :: x in a ==> x in m.byId) && (forall x :: x in b ==> x in m.byId)
    ensures OutRows(m, a + b, names) == OutRows(m, a, names) + OutRows(m, b, names)
  {
    hide OutRow, WellShaped;
    if b == [] {
      assert a + b == a;
    } else {
      var n := |b| - 1;
      OutRowsOfSum(m, a, b[..n], names);
      assert (a + b)[..|a + b| - 1] == a + b[..n] && (a + b)[|a + b| - 1] == b[n];
      AllShaped(m);
      assert OutRows(m, a + b, names) == OutRows(m, a + b[..n], names) + [OutRow(m.byId[b[n]], names)];
    }
  }

  lemma AllShaped(m: Merged)
    requires WellShaped(m)
    ensures forall id :: id in m.byId ==> |m.byId[id].meta| == 5
  {
  }

  lemma OneOutRow(m: Merged, id: string, names: seq<string>)
    requires WellShaped(m) && id in m.byId
    ensures OutRows(m, [id], names) == [OutRow(m.byId[id], names)] && OutRows(m, [], names) == []
  {
    hide OutRow;
    assert [id][..0] == [];
  }

  lemma {:induction false} PageAgrees(env: Env, m: Merged, page: seq<FinalRecord>, k: nat, names: seq<string>, voters: set<Snowflake>)
    requires Holds(env, m, page) && WellShaped(m) && k <= |page|
    requires ProperNames(env, voters) && AreColumns(env, names, voters) && Voters(page) <= voters
    ensures forall id :: id in ExportedIds(page[..k]) ==> id in m.byId
    ensures OutRows(m, ExportedIds(page[..k]), names) == PageRows(env, page[..k], names, voters, Voters(page))
  {
    hide ProperNames, Voters, AreColumns, OutRow, RowWith, PagedVotes, Entry, Count, OutRows, WellShaped, HasTime;
    if k > 0 {
      assert page[..k][..k - 1] == page[..k - 1];
      PageAgrees(env, m, page, k - 1, names, voters);
      var rec := page[k - 1];
      if Exported(rec) {
        assert rec in page;
        VotesHaveColumns(page, k - 1);
        OutRowsOfSum(m, ExportedIds(page[..k - 1]), [rec.id], names);
        OneOutRow(m, rec.id, names);
        RowAgrees(env, m.byId[rec.id], rec, names, voters, Voters(page));
      } else {
        assert ExportedIds(page[..k]) == ExportedIds(page[..k - 1]);
      }
    } else {
      assert OutRows(m, [], names) == [] by { NoOutRows(m, names); }
    }
  }

  lemma NoOutRows(m: Merged, names: seq<string>)
    requires WellShaped(m)
    ensures OutRows(m, [], names) == []
  {
  }

  lemma VotesHaveColumns(recs: seq<FinalRecord>, i: nat)
    requires i < |recs| && HasTime(recs[i])
    ensures Count(recs[i].answers).votes.Keys <= Voters(recs)
  {
    VotesAreChoices(recs[i].answers);
    SeenHasColumn(recs, recs[i]);
  }

  lemma {:induction false} PagesAgree(env: Env, m: Merged, pages: seq<seq<FinalRecord>>, names: seq<string>, voters: set<Snowflake>)
    requires (forall i :: 0 <= i < |pages| ==> Holds(env, m, pages[i])) && WellShaped(m) && ProperRecords(env, Flatten(pages))
    requires ProperNames(env, voters) && AreColumns(env, names, voters) && Voters(Flatten(pages)) <= voters
    ensures forall id :: id in ExportedIds(Flatten(pages)) ==> id in m.byId
    ensures OutRows(m, ExportedIds(Flatten(pages)), names) == PagedRows(env, pages, names, voters)
  {
    hide ProperNames, Voters, AreColumns, OutRow, RowWith, PagedVotes, Holds, OutRows, WellShaped, ExportedIds, PageRows, ProperRecords;
    if pages == [] {
      NoOutRows(m, names);
      assert ExportedIds([]) == [] by { NoIds(); }
    } else {
      var n := |pages| - 1;
      var recs, page := Flatten(pages[..n]), pages[n];
      ProperParts(env, recs, page);
      VotersOfSum(recs, page);
      IdsOfSum(recs, page);
      PagesAgree(env, m, pages[..n], names, voters);
      PageAgrees(env, m, page, |page|, names, voters);
      assert page[..|page|] == page;
      OutRowsOfSum(m, ExportedIds(recs), ExportedIds(page), names);
    }
  }

  lemma NoIds()
    ensures ExportedIds([]) == []
  {
  }

  lemma OutputIsPagedTable(env: Env, m: Merged, pages: seq<seq<FinalRecord>>)
    requires Represents(env, m, pages) && WellShaped(m)
    requires ProperRecords(env, Flatten(pages)) && ProperNames(env, Voters(Flatten(pages)))
    ensures Output(m) == PagedTable(env, pages)
  {
    hide ProperNames, ProperRecords, Voters, Holds, WellShaped, ExportedIds, Flatten, PagedRows, OutRows, ColumnSet;
    var voters := Voters(Flatten(pages));
    var names := Sorted(ColumnSet(env, voters));
    SortGivesRecordOrder(env, m, Flatten(pages));
    PagesAgree(env, m, pages, names, voters);
  }

  /** For any split of a record list into pages, exporting each page, parsing it and merging the pages gives
      the table of the pages. */
  lemma MergeOfPages(env: Env, pages: seq<seq<FinalRecord>>, texts: seq<string>)
    requires |texts| == |pages| && forall i :: 0 <= i < |pages| ==> IsExport(pages[i], env, texts[i])
    requires ProperRecords(env, Flatten(pages)) && ProperNames(env, Voters(Flatten(pages)))
    ensures Merge(ParseAll(texts)) == PagedTable(env, pages)
  {
    hide Output, PagedTable, ProperNames, ProperRecords, Represents, WellShaped, AddPages, IsExport, Voters, Flatten;
    PagesRepresent(env, pages, texts);
    PagesKeepShape(ParseAll(texts));
    OutputIsPagedTable(env, AddPages(ParseAll(texts)).m, pages);
  }

  // ---------------------------------------------------------------- when the boundaries do not show

  predicate HasExported(page: seq<FinalRecord>) {
    exists i :: 0 <= i < |page| && Exported(page[i])
  }

  /** A voter whose column is named like a property every object has. */
  predicate Treacherous(env: Env, v: Snowflake) {
    Column(env, v) in INHERITED && Column(env, v) != PROTO
  }

  /** Every page with an exported poll lists every voter of the list whose name is an inherited property. */
  ghost predicate ColumnsCovered(env: Env, pages: seq<seq<FinalRecord>>, voters: set<Snowflake>) {
    forall i, v :: 0 <= i < |pages| && HasExported(pages[i]) && v in voters && Treacherous(env, v) ==> v in Voters(pages[i])
  }

  lemma ShownIsPlain(env: Env, rec: FinalRecord, v: Snowflake, own: set<Snowflake>)
    ensures ShownCell(env, rec, v, own) == ToNumberOrText(CellOf(rec, v)) <==> v in own || Column(env, v) !in INHERITED
  {
  }

  /** Whether a page shows every column's own vote. */
  ghost predicate PageCovers(env: Env, own: set<Snowflake>, voters: set<Snowflake>) {
    forall v :: v in voters && Treacherous(env, v) ==> v in own
  }

  lemma VotesPlainIff(env: Env, rec: FinalRecord, names: seq<string>, voters: set<Snowflake>, own: set<Snowflake>)
    requires ProperNames(env, voters) && AreColumns(env, names, voters)
    requires forall n :: n in ColumnSet(env, voters) ==> n in names
    ensures PagedVotes(env, rec, names, voters, own) == ReferenceVotes(env, rec, names, voters) <==> PageCovers(env, own, voters)
  {
    hide CellOf, ToNumberOrText, ShownCell, Column;
    var a, b := PagedVotes(env, rec, names, voters, own), ReferenceVotes(env, rec, names, voters);
    if PageCovers(env, own, voters) {
      forall i | 0 <= i < |names| ensures a[i] == b[i] {
        assert names[i] in names;
        ColumnIsNotProto(env, voters, names[i]);
        ShownIsPlain(env, rec, Who(env, voters, names[i]), own);
      }
    } else {
      var v :| v in voters && Treacherous(env, v) && v !in own;
      assert Column(env, v) in ColumnSet(env, voters);
      var i :| 0 <= i < |names| && names[i] == Column(env, v);
      assert Who(env, voters, names[i]) == v;
      ShownIsPlain(env, rec, v, own);
      assert a[i] != b[i];
    }
  }

  lemma RowWithIs(env: Env, rec: FinalRecord, a: seq<Cell>, b: seq<Cell>)
    requires HasTime(rec)
    ensures RowWith(env, rec, a) == RowWith(env, rec, b) <==> a == b
  {
    hide ParseDate, ToNumberOrText, Trim;
    assert RowWith(env, rec, a)[3..] == a && RowWith(env, rec, b)[3..] == b;
  }

  lemma {:induction false} PagePlainIff(env: Env, page: seq<FinalRecord>, names: seq<string>, voters: set<Snowflake>, own: set<Snowflake>)
    requires ProperNames(env, voters) && AreColumns(env, names, voters)
    requires forall n :: n in ColumnSet(env, voters) ==> n in names
    ensures |PageRows(env, page, names, voters, own)| == |ReferenceRows(env, page, names, voters)|
    ensures PageRows(env, page, names, voters, own) == ReferenceRows(env, page, names, voters)
            <==> !HasExported(page) || PageCovers(env, own, voters)
  {
    hide RowWith, PagedVotes, ReferenceVotes, PageCovers, ProperNames, AreColumns, ColumnSet, Count;
    if page != [] {
      var n := |page| - 1;
      var last := page[n];
      PagePlainIff(env, page[..n], names, voters, own);
      LastExported(page);
      if Exported(last) {
        var a, b := PagedVotes(env, last, names, voters, own), ReferenceVotes(env, last, names, voters);
        VotesPlainIff(env, last, names, voters, own);
        RowWithIs(env, last, a, b);
        SumsEqualIff(PageRows(env, page[..n], names, voters, own), [RowWith(env, last, a)],
                     ReferenceRows(env, page[..n], names, voters), [RowWith(env, last, b)]);
      } else {
        assert PageRows(env, page, names, voters, own) == PageRows(env, page[..n], names, voters, own);
        assert ReferenceRows(env, page, names, voters) == ReferenceRows(env, page[..n], names, voters);
      }
    }
  }

  lemma LastExported(page: seq<FinalRecord>)
    requires page != []
    ensures HasExported(page) <==> HasExported(page[..|page| - 1]) || Exported(page[|page| - 1])
  {
    hide Exported;
    var n := |page| - 1;
    if i :| 0 <= i < n && Exported(page[..n][i]) {
      assert Exported(page[i]);
    }
    if i :| 0 <= i < n && Exported(page[i]) {
      assert Exported(page[..n][i]);
    }
  }

  lemma SumsEqualIff<X>(a: seq<X>, b: seq<X>, c: seq<X>, d: seq<X>)
    requires |a| == |c| && |b| == |d|
    ensures a + b == c + d <==> a == c && b == d
  {
    assert (a + b)[..|a|] == a && (c + d)[..|a|] == c;
    assert (a + b)[|a|..] == b && (c + d)[|a|..] == d;
  }

  lemma {:induction false} ReferenceRowsOfSum(env: Env, a: seq<FinalRecord>, b: seq<FinalRecord>, names: seq<string>, voters: set<Snowflake>)
    requires AreColumns(env, names, voters)
    ensures ReferenceRows(env, a + b, names, voters) == ReferenceRows(env, a, names, voters) + ReferenceRows(env, b, names, voters)
  {
    hide RowWith, ReferenceVotes, Exported, AreColumns;
    if b == [] {
      assert a + b == a;
    } else {
      var n := |b| - 1;
      ReferenceRowsOfSum(env, a, b[..n], names, voters);
      assert (a + b)[..|a + b| - 1] == a + b[..n] && (a + b)[|a + b| - 1] == b[n];
      ExportedHasTime(b[n]);
      var last := if Exported(b[n]) then [RowWith(env, b[n], ReferenceVotes(env, b[n], names, voters))] else [];
      assert ReferenceRows(env, a + b, names, voters) == ReferenceRows(env, a + b[..n], names, voters) + last;
      assert ReferenceRows(env, b, names, voters) == ReferenceRows(env, b[..n], names, voters) + last;
    }
  }

  lemma ExportedHasTime(rec: FinalRecord)
    ensures Exported(rec) ==> HasTime(rec)
  {
  }

  lemma {:induction false} PagesPlainIff(env: Env, pages: seq<seq<FinalRecord>>, names: seq<string>, voters: set<Snowflake>)
    requires ProperNames(env, voters) && AreColumns(env, names, voters)
    requires forall n :: n in ColumnSet(env, voters) ==> n in names
    ensures |PagedRows(env, pages, names, voters)| == |ReferenceRows(env, Flatten(pages), names, voters)|
    ensures PagedRows(env, pages, names, voters) == ReferenceRows(env, Flatten(pages), names, voters)
            <==> ColumnsCovered(env, pages, voters)
  {
    hide PageRows, ReferenceRows, ProperNames, AreColumns, ColumnSet, Voters, HasExported, Treacherous;
    if pages == [] {
      assert ReferenceRows(env, [], names, voters) == [] by { NoReferenceRows(env, names, voters); }
    } else {
      var n := |pages| - 1;
      PagesPlainIff(env, pages[..n], names, voters);
      PagePlainIff(env, pages[n], names, voters, Voters(pages[n]));
      ReferenceRowsOfSum(env, Flatten(pages[..n]), pages[n], names, voters);
      SumsEqualIff(PagedRows(env, pages[..n], names, voters), PageRows(env, pages[n], names, voters, Voters(pages[n])),
                   ReferenceRows(env, Flatten(pages[..n]), names, voters), ReferenceRows(env, pages[n], names, voters));
      assert ColumnsCovered(env, pages, voters) <==>
             ColumnsCovered(env, pages[..n], voters) && (HasExported(pages[n]) ==> PageCovers(env, Voters(pages[n]), voters)) by {
        LastCovered(env, pages, voters);
      }
    }
  }

  lemma NoReferenceRows(env: Env, names: seq<string>, voters: set<Snowflake>)
    requires AreColumns(env, names, voters)
    ensures ReferenceRows(env, [], names, voters) == []
  {
  }

  lemma LastCovered(env: Env, pages: seq<seq<FinalRecord>>, voters: set<Snowflake>)
    requires pages != []
    ensures var n := |pages| - 1;
            ColumnsCovered(env, pages, voters) <==>
            ColumnsCovered(env, pages[..n], voters) && (HasExported(pages[n]) ==> PageCovers(env, Voters(pages[n]), voters))
  {
    hide Voters, HasExported, Treacherous;
    var n := |pages| - 1;
    assert forall i :: 0 <= i < n ==> pages[..n][i] == pages[i];
  }

  /** The table of the pages is the reference table of the whole list if and only if every page with an
      exported poll lists every voter of the list whose name is an inherited property. */
  lemma PagedIsReferenceIff(env: Env, pages: seq<seq<FinalRecord>>)
    requires ProperNames(env, Voters(Flatten(pages)))
    ensures PagedTable(env, pages) == Reference(env, Flatten(pages)) <==> ColumnsCovered(env, pages, Voters(Flatten(pages)))
  {
    hide ProperNames, Voters, PagedRows, ReferenceRows, ColumnsCovered, ColumnSet, Flatten;
    var voters := Voters(Flatten(pages));
    PagesPlainIff(env, pages, Sorted(ColumnSet(env, voters)), voters);
  }

  /** One page lists all its voters, so one export of the whole list always gives the reference table. */
  lemma MergeOfWhole(env: Env, recs: seq<FinalRecord>, whole: string)
    requires IsExport(recs, env, whole) && ProperRecords(env, recs) && ProperNames(env, Voters(recs))
    ensures Merge(ParseAll([whole])) == Reference(env, recs)
  {
    hide Merge, Reference, ProperRecords, ProperNames, IsExport, Parse, PagedTable, Voters;
    assert Flatten([recs]) == recs by {
      assert [recs][..0] == [];
    }
    MergeOfPages(env, [recs], [whole]);
    PagedIsReferenceIff(env, [recs]);
  }

  /** Page-split invariance, exactly: merging the pages gives what merging one export of the whole list gives
      if and only if every page with an exported poll lists every voter of the list whose name is an
      inherited property - in particular when there is no such name. */
  lemma PagingIsInvisibleIff(env: Env, pages: seq<seq<FinalRecord>>, texts: seq<string>, whole: string)
    requires |texts| == |pages| && forall i :: 0 <= i < |pages| ==> IsExport(pages[i], env, texts[i])
    requires IsExport(Flatten(pages), env, whole)
    requires ProperRecords(env, Flatten(pages)) && ProperNames(env, Voters(Flatten(pages)))
    ensures Merge(ParseAll([whole])) == Reference(env, Flatten(pages))
    ensures Merge(ParseAll(texts)) == Merge(ParseAll([whole])) <==> ColumnsCovered(env, pages, Voters(Flatten(pages)))
  {
    hide Merge, Reference, PagedTable, ProperRecords, ProperNames, IsExport, Parse, ColumnsCovered, Voters, Flatten;
    MergeOfPages(env, pages, texts);
    MergeOfWhole(env, Flatten(pages), whole);
    PagedIsReferenceIff(env, pages);
  }
}
