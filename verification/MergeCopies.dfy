/** A poll that pages repeat. Paging is by offset, so a poll finalized while the pages are read can shift a row
    over a page boundary: the merge keeps one row per id, from the last copy read. */
module MergeCopies {
  import opened Text
  import opened PageMerge

  /** A row as it was read: its page's voter columns and its cells. */
  datatype Copy = Copy(names: seq<string>, cells: seq<string>)

  predicate Fits(c: Copy) {
    |c.cells| == 5 + |c.names|
  }

  function RowCopies(names: seq<string>, rows: seq<seq<string>>): (c: seq<Copy>)
    ensures |c| == |rows| && forall i :: 0 <= i < |c| ==> c[i] == Copy(names, rows[i])
  {
    seq(|rows|, i requires 0 <= i < |rows| => Copy(names, rows[i]))
  }

  function PageCopies(rows: seq<seq<string>>): seq<Copy> {
    if rows == [] || |rows[0]| < 5 then [] else RowCopies(rows[0][5..], rows[1..])
  }

  /** All rows read, in the order they were read. */
  function Copies(pages: seq<seq<seq<string>>>): seq<Copy> {
    if pages == [] then [] else Copies(pages[..|pages| - 1]) + PageCopies(pages[|pages| - 1])
  }

  predicate AllFit(copies: seq<Copy>) {
    forall i :: 0 <= i < |copies| ==> Fits(copies[i])
  }

  predicate IsId(copies: seq<Copy>, id: string)
    requires AllFit(copies)
  {
    exists i :: 0 <= i < |copies| && copies[i].cells[0] == id
  }

  predicate IsLast(copies: seq<Copy>, i: nat)
    requires AllFit(copies) && i < |copies|
  {
    forall j :: i < j < |copies| ==> copies[j].cells[0] != copies[i].cells[0]
  }

  function RecordOf(c: Copy): Record
    requires Fits(c)
  {
    Record(c.cells[..5], VotesOf(c.names, c.cells[5..]))
  }

  predicate NoRepeats(ids: seq<string>) {
    forall i, j :: 0 <= i < j < |ids| ==> ids[i] != ids[j]
  }

  /** The dictionaries hold the last copy of each id, listed once. */
  ghost predicate HoldsLast(m: Merged, copies: seq<Copy>) {
    && AllFit(copies) && NoRepeats(m.order)
    && (forall id :: id in m.order <==> IsId(copies, id) && id !in INHERITED)
    && (forall id :: id in m.byId <==> IsId(copies, id) && id != PROTO)
    && (forall i :: 0 <= i < |copies| && IsLast(copies, i) && copies[i].cells[0] != PROTO ==>
          m.byId[copies[i].cells[0]] == RecordOf(copies[i]))
  }

  lemma OneMoreId(copies: seq<Copy>, c: Copy)
    requires AllFit(copies) && Fits(c)
    ensures AllFit(copies + [c])
    ensures forall id :: IsId(copies + [c], id) <==> IsId(copies, id) || id == c.cells[0]
  {
    var all := copies + [c];
    assert all[|copies|] == c;
    forall id ensures IsId(all, id) <==> IsId(copies, id) || id == c.cells[0] {
      if i :| 0 <= i < |copies| && copies[i].cells[0] == id {
        assert all[i].cells[0] == id;
      }
      if i :| 0 <= i < |all| && all[i].cells[0] == id {
        assert i < |copies| ==> copies[i].cells[0] == id;
      }
    }
  }

  lemma IsIdAt(copies: seq<Copy>, i: nat)
    requires AllFit(copies) && i < |copies|
    ensures IsId(copies, copies[i].cells[0])
  {
  }

  lemma OneMoreLast(copies: seq<Copy>, c: Copy, i: nat)
    requires AllFit(copies) && Fits(c) && i < |copies| && AllFit(copies + [c]) && IsLast(copies + [c], i)
    ensures IsLast(copies, i) && copies[i].cells[0] != c.cells[0]
  {
    var all := copies + [c];
    assert all[|copies|] == c && all[i] == copies[i];
    forall j | i < j < |copies| ensures copies[j].cells[0] != copies[i].cells[0] {
      assert all[j] == copies[j];
    }
  }

  /** Reading one more copy: it replaces what was stored, and a known id is not listed again. */
  lemma OneMoreCopy(m: Merged, copies: seq<Copy>, c: Copy)
    requires HoldsLast(m, copies) && Fits(c)
    ensures HoldsLast(AddRow(m, c.names, c.cells), copies + [c])
  {
    hide VotesOf, IsId, IsLast;
    var all := copies + [c];
    var out := AddRow(m, c.names, c.cells);
    OneMoreId(copies, c);
    forall i | 0 <= i < |all| && IsLast(all, i) && all[i].cells[0] != PROTO
      ensures all[i].cells[0] in out.byId && out.byId[all[i].cells[0]] == RecordOf(all[i])
    {
      IsIdAt(all, i);
      if i < |copies| {
        OneMoreLast(copies, c, i);
        IsIdAt(copies, i);
      }
    }
  }

  lemma {:induction false} RowsHoldLast(m: Merged, copies: seq<Copy>, page: nat, names: seq<string>, rows: seq<seq<string>>)
    requires HoldsLast(m, copies)
    ensures var s := AddRows(m, page, names, rows); s.Good? ==> HoldsLast(s.m, copies + RowCopies(names, rows))
  {
    hide HoldsLast, AddRow;
    if rows == [] {
      assert copies + RowCopies(names, rows) == copies;
    } else {
      var n := |rows| - 1;
      RowsHoldLast(m, copies, page, names, rows[..n]);
      if AddRows(m, page, names, rows).Good? {
        OneMoreCopy(AddRows(m, page, names, rows[..n]).m, copies + RowCopies(names, rows[..n]), Copy(names, rows[n]));
        assert copies + RowCopies(names, rows[..n]) + [Copy(names, rows[n])] == copies + RowCopies(names, rows);
      }
    }
  }

  lemma MoreColumns(m: Merged, copies: seq<Copy>, voters: set<string>)
    requires HoldsLast(m, copies)
    ensures HoldsLast(m.(voters := voters), copies)
  {
    hide IsId, IsLast, VotesOf;
  }

  lemma {:induction false} PagesHoldLast(pages: seq<seq<seq<string>>>)
    ensures var s := AddPages(pages); s.Good? ==> HoldsLast(s.m, Copies(pages))
  {
    hide HoldsLast, AddRows;
    if pages == [] {
      assert HoldsLast(EMPTY, []) by { NothingHeld(); }
    } else {
      var n := |pages| - 1;
      var rows := pages[n];
      PagesHoldLast(pages[..n]);
      if AddPages(pages).Good? {
        var m := AddPages(pages[..n]).m;
        if rows == [] {
          assert Copies(pages) == Copies(pages[..n]);
        } else {
          var voters := AddVoters(m.voters, rows[0][5..]);
          MoreColumns(m, Copies(pages[..n]), voters);
          RowsHoldLast(m.(voters := voters), Copies(pages[..n]), n, rows[0][5..], rows[1..]);
        }
      }
    }
  }

  lemma NothingHeld()
    ensures HoldsLast(EMPTY, [])
  {
  }

  /** Row `k` of a table whose rows are for `ids` is what the last copy of its id says. */
  ghost predicate RowIsLast(copies: seq<Copy>, id: string, names: seq<string>, row: seq<Cell>)
    requires AllFit(copies)
  {
    exists i :: 0 <= i < |copies| && IsLast(copies, i) && copies[i].cells[0] == id && row == OutRow(RecordOf(copies[i]), names)
  }

  lemma {:induction false} LastCopyExists(copies: seq<Copy>, i: nat) returns (j: nat)
    requires AllFit(copies) && i < |copies|
    ensures i <= j < |copies| && IsLast(copies, j) && copies[j].cells[0] == copies[i].cells[0]
    decreases |copies| - i
  {
    if IsLast(copies, i) {
      j := i;
    } else {
      var k :| i < k < |copies| && copies[k].cells[0] == copies[i].cells[0];
      j := LastCopyExists(copies, k);
    }
  }

  lemma {:induction false} OutRowsAt(m: Merged, ids: seq<string>, names: seq<string>, k: nat)
    requires WellShaped(m) && (forall id :: id in ids ==> id in m.byId) && k < |ids|
    ensures |OutRows(m, ids, names)| == |ids| && ids[k] in m.byId && |m.byId[ids[k]].meta| == 5
    ensures OutRows(m, ids, names)[k] == OutRow(m.byId[ids[k]], names)
  {
    hide OutRow;
    var n := |ids| - 1;
    assert ids[k] in ids;
    OutRowsLong(m, ids, names);
    OutRowsLong(m, ids[..n], names);
    if k < n {
      OutRowsAt(m, ids[..n], names, k);
    }
  }

  lemma {:induction false} OutRowsLong(m: Merged, ids: seq<string>, names: seq<string>)
    requires WellShaped(m) && forall id :: id in ids ==> id in m.byId
    ensures |OutRows(m, ids, names)| == |ids|
  {
    hide OutRow;
    if ids != [] {
      OutRowsLong(m, ids[..|ids| - 1], names);
    }
  }

  lemma SortedHasNoRepeats(ids: seq<string>)
    requires NoRepeats(ids)
    ensures NoRepeats(SortIds(ids))
  {
    var sorted := SortIds(ids);
    forall i, j | 0 <= i < j < |sorted| ensures sorted[i] != sorted[j] {
      if sorted[i] == sorted[j] {
        assert sorted == sorted[..j] + [sorted[j]] + sorted[j + 1..];
        assert sorted[..j][i] in multiset(sorted[..j]);
        assert multiset(ids)[sorted[i]] >= 2;
      }
      OnceEach(ids, sorted[i]);
    }
  }

  lemma {:induction false} OnceEach(ids: seq<string>, id: string)
    requires NoRepeats(ids)
    ensures multiset(ids)[id] <= 1
  {
    if ids != [] {
      var n := |ids| - 1;
      assert ids == ids[..n] + [ids[n]];
      OnceEach(ids[..n], id);
      assert ids[n] !in ids[..n];
    }
  }

  /** For any pages, repeated rows included: a merged table has exactly one row for each id read (an id that
      is an inherited property apart), and it shows the last copy read. */
  lemma LastCopyWins(pages: seq<seq<seq<string>>>) returns (ids: seq<string>, names: seq<string>)
    requires Merge(pages).Table?
    ensures AllFit(Copies(pages)) && NoRepeats(ids)
    ensures forall id :: id in ids <==> IsId(Copies(pages), id) && id !in INHERITED
    ensures var rows := Merge(pages).rows;
            Merge(pages).header == KEPT_COLUMNS + names && |rows| == |ids| && forall k :: 0 <= k < |ids| ==> RowIsLast(Copies(pages), ids[k], names, rows[k])
  {
    hide AddPages, Copies, OutRow, OutRows, VotesOf;
    PagesHoldLast(pages);
    PagesKeepShape(pages);
    var m := AddPages(pages).m;
    names := Sorted(m.voters);
    ids := SortIds(m.order);
    SortKeepsIds(m.order);
    SortedHasNoRepeats(m.order);
    OutRowsLong(m, ids, names);
    forall k | 0 <= k < |ids| ensures RowIsLast(Copies(pages), ids[k], names, Merge(pages).rows[k]) {
      assert ids[k] in ids;
      OutRowsAt(m, ids, names, k);
      var i :| 0 <= i < |Copies(pages)| && Copies(pages)[i].cells[0] == ids[k];
      var j := LastCopyExists(Copies(pages), i);
    }
  }
}
