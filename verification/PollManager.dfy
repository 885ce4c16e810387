/** The poll manager: pushes deduplicated by id, the queue cleaned of deleted messages, and the retry loop of
    the queue view. */
module PollManager {
  import opened Sorting
  import opened FileHeaps
  import opened FinalizedStore

  /** Whether the results table holds an id. */
  predicate IsFinal(results: Table, id: Snowflake) {
    KeyOf(id).Some? && KeyOf(id).value in results
  }

  datatype Pruned = Pruned(ids: set<Snowflake>, kept: seq<Poll>)

  /** The set after a push, and the polls it lets through. `readOk` says of each lookup in the results table
      whether it worked; one that failed finds nothing. */
  function PruneReading(ids: set<Snowflake>, results: Table, values: seq<Poll>, readOk: nat -> bool): (p: Pruned) {
    if values == [] then Pruned(ids, [])
    else
      var n := |values| - 1;
      var before := PruneReading(ids, results, values[..n], readOk);
      var v := values[n];
      if v.id in before.ids || (readOk(n) && IsFinal(results, v.id)) then before
      else Pruned(before.ids + {v.id}, before.kept + [v])
  }

  /** Every lookup works. */
  const ALL_READ: nat -> bool := (_: nat) => true

  function Prune(ids: set<Snowflake>, results: Table, values: seq<Poll>): (p: Pruned) {
    PruneReading(ids, results, values, ALL_READ)
  }

  function Ids(polls: seq<Poll>): set<Snowflake> {
    set p | p in polls :: p.id
  }

  /** A lookup that says the poll is finalized. */
  predicate SeenFinal(results: Table, values: seq<Poll>, i: nat, readOk: nat -> bool)
    requires i < |values|
  {
    readOk(i) && IsFinal(results, values[i].id)
  }

  /** A poll that got through was not seen to be finalized. */
  predicate GotThrough(results: Table, values: seq<Poll>, v: Poll, readOk: nat -> bool) {
    exists i :: 0 <= i < |values| && values[i] == v && !SeenFinal(results, values, i, readOk)
  }

  lemma OneMoreThrough(results: Table, values: seq<Poll>, v: Poll, readOk: nat -> bool)
    requires values != [] && GotThrough(results, values[..|values| - 1], v, readOk)
    ensures GotThrough(results, values, v, readOk)
  {
    hide IsFinal;
    var n := |values| - 1;
    var i :| 0 <= i < n && values[..n][i] == v && !SeenFinal(results, values[..n], i, readOk);
    assert values[i] == v && !SeenFinal(results, values, i, readOk);
  }

  /** A push lets through one copy of each id that was neither queued nor seen to be finalized, and no other. */
  lemma {:induction false} ReadingKeeps(ids: set<Snowflake>, results: Table, values: seq<Poll>, readOk: nat -> bool)
    ensures var p := PruneReading(ids, results, values, readOk);
            && p.ids == ids + Ids(p.kept)
            && |p.kept| <= |values|
            && (forall i, j :: 0 <= i < j < |p.kept| ==> p.kept[i].id != p.kept[j].id)
            && (forall v :: v in p.kept ==> v.id !in ids && GotThrough(results, values, v, readOk))
            && (forall i :: 0 <= i < |values| ==> values[i].id in p.ids || SeenFinal(results, values, i, readOk))
  {
    hide IsFinal, GotThrough;
    if values != [] {
      var n := |values| - 1;
      ReadingKeeps(ids, results, values[..n], readOk);
      var before := PruneReading(ids, results, values[..n], readOk);
      forall v | v in before.kept ensures v.id in before.ids && GotThrough(results, values, v, readOk) {
        OneMoreThrough(results, values, v, readOk);
      }
      forall i | 0 <= i < n ensures values[i].id in before.ids || SeenFinal(results, values, i, readOk) {
        assert values[..n][i] == values[i];
        assert values[..n][i].id in before.ids || SeenFinal(results, values[..n], i, readOk);
      }
      if values[n].id !in before.ids && !SeenFinal(results, values, n, readOk) {
        LastThrough(results, values, readOk);
        assert Ids(before.kept + [values[n]]) == Ids(before.kept) + {values[n].id};
      }
    }
  }

  lemma LastThrough(results: Table, values: seq<Poll>, readOk: nat -> bool)
    requires values != [] && !SeenFinal(results, values, |values| - 1, readOk)
    ensures GotThrough(results, values, values[|values| - 1], readOk)
  {
  }

  /** When every lookup works, exactly the first copy of each id that was neither queued nor finalized. */
  lemma PruneKeeps(ids: set<Snowflake>, results: Table, values: seq<Poll>)
    ensures var p := Prune(ids, results, values);
            && p.ids == ids + Ids(p.kept)
            && |p.kept| <= |values|
            && (forall i, j :: 0 <= i < j < |p.kept| ==> p.kept[i].id != p.kept[j].id)
            && (forall v :: v in p.kept ==> v in values && v.id !in ids && !IsFinal(results, v.id))
            && (forall v :: v in values ==> v.id in p.ids || IsFinal(results, v.id))
  {
    hide IsFinal, PruneReading;
    ReadingKeeps(ids, results, values, ALL_READ);
    var p := Prune(ids, results, values);
    forall v | v in p.kept ensures v in values && !IsFinal(results, v.id) {
      assert GotThrough(results, values, v, ALL_READ);
    }
    forall v | v in values ensures v.id in p.ids || IsFinal(results, v.id) {
      var i :| 0 <= i < |values| && values[i] == v;
      assert values[i].id in p.ids || SeenFinal(results, values, i, ALL_READ);
    }
  }

  /** The polls whose message is not gone. */
  function Surviving(d: seq<Poll>, gone: set<Snowflake>): seq<Poll> {
    if d == [] then []
    else Surviving(d[..|d| - 1], gone) + (if d[|d| - 1].id in gone then [] else [d[|d| - 1]])
  }

  function StaleIds(d: seq<Poll>, gone: set<Snowflake>): seq<Snowflake> {
    if d == [] then []
    else StaleIds(d[..|d| - 1], gone) + (if d[|d| - 1].id in gone then [d[|d| - 1].id] else [])
  }

  lemma {:induction false} SurvivingCount(d: seq<Poll>, gone: set<Snowflake>)
    ensures |Surviving(d, gone)| + |StaleIds(d, gone)| == |d|
    ensures multiset(Surviving(d, gone)) <= multiset(d)
  {
    if d != [] {
      var n := |d| - 1;
      SurvivingCount(d[..n], gone);
      assert d == d[..n] + [d[n]];
    }
  }

  /** Every copy of a surviving poll stays, and nothing else does. */
  lemma {:induction false} SurvivingIs(d: seq<Poll>, gone: set<Snowflake>, p: Poll)
    ensures multiset(Surviving(d, gone))[p] == if p.id in gone then 0 else multiset(d)[p]
  {
    if d != [] {
      var n := |d| - 1;
      var rest := d[..n];
      SurvivingIs(rest, gone, p);
      assert d == rest + [d[n]];
      CountOneMore(rest, d[n], p);
      if d[n].id in gone {
        assert Surviving(d, gone) == Surviving(rest, gone);
      } else {
        assert Surviving(d, gone) == Surviving(rest, gone) + [d[n]];
        CountOneMore(Surviving(rest, gone), d[n], p);
      }
    }
  }

  lemma CountOneMore(xs: seq<Poll>, x: Poll, p: Poll)
    ensures multiset(xs + [x])[p] == multiset(xs)[p] + (if x == p then 1 else 0)
  {
  }

  lemma {:induction false} StaleIs(d: seq<Poll>, gone: set<Snowflake>, id: Snowflake)
    ensures id in StaleIds(d, gone) <==> id in gone && id in Ids(d)
  {
    if d != [] {
      var n := |d| - 1;
      StaleIs(d[..n], gone, id);
      assert d == d[..n] + [d[n]];
      assert Ids(d) == Ids(d[..n]) + {d[n].id};
    }
  }

  function SortKey(p: Poll): Time {
    p.expiry.GetOr(0)
  }

  predicate SortedByExpiry(s: seq<Poll>) {
    SortedBy(s, SortKey)
  }

  function FirstThree(d: seq<Poll>): seq<Poll> {
    d[..if |d| < 3 then |d| else 3]
  }

  /** The tops: three of the queue's polls, or all there are, a sooner expiry first. A poll without one is shown
      before those to come; when there is none, the first is due before every other poll of the queue. */
  lemma TopsAre(data: seq<Poll>, tops: seq<Poll>)
    requires Heap(data) && data != [] && multiset(tops) == multiset(FirstThree(data)) && SortedByExpiry(tops)
    ensures |tops| == (if |data| < 3 then |data| else 3) && multiset(tops) <= multiset(data)
    ensures forall i, j :: 0 <= i < j < |tops| && tops[i].expiry.Some? && tops[j].expiry.Some? ==>
              tops[i].expiry.value <= tops[j].expiry.value
    ensures forall i, j :: 0 <= i < j < |tops| && tops[j].expiry.None? ==>
              tops[i].expiry.None? || tops[i].expiry.value <= 0
    ensures (forall p :: p in tops ==> p.expiry.Some?) ==>
              forall q :: q in data && q.expiry.Some? ==> tops[0].expiry.value <= q.expiry.value
  {
    hide Heap;
    SameSize(tops, FirstThree(data));
    SameTops(tops, FirstThree(data));
    assert data == FirstThree(data) + data[|FirstThree(data)|..];
    TopIsLeastOfAll(data);
    assert data[0] in FirstThree(data);
    var i :| 0 <= i < |tops| && tops[i] == data[0];
    assert SortKey(tops[0]) <= SortKey(tops[i]);
  }

  /** How fetching the top went. */
  datatype Fetched = AllThere | SomeMissing | SomeFailed

  predicate AllFetchable(tops: seq<Poll>, missing: set<Snowflake>, failing: set<Snowflake>) {
    forall p :: p in tops ==> p.id !in missing && p.id !in failing
  }

  method FetchTops(tops: seq<Poll>, missing: set<Snowflake>, failing: set<Snowflake>) returns (f: Fetched)
    ensures f.AllThere? <==> AllFetchable(tops, missing, failing)
    ensures f.SomeMissing? ==> SomeIn(tops, missing)
    ensures f.SomeFailed? ==> SomeIn(tops, failing - missing)
  {
    for i := 0 to |tops|
      invariant forall k :: 0 <= k < i ==> tops[k].id !in missing && tops[k].id !in failing
    {
      if tops[i].id in missing {
        assert tops[i] in tops;
        return SomeMissing;
      }
      if tops[i].id in failing {
        assert tops[i] in tops;
        return SomeFailed;
      }
    }
    return AllThere;
  }

  class Manager {
    const queue: FileHeap
    const finalized: Store
    var ids: set<Snowflake>

    ghost predicate Valid()
      reads this, queue
    {
      queue.Valid()
    }

    constructor (queue: FileHeap, finalized: Store)
      requires queue.Valid()
      ensures Valid() && this.queue == queue && this.finalized == finalized && ids == {}
    {
      this.queue, this.finalized, ids := queue, finalized, {};
    }

    /** Inserts the new ids, then merges their polls. A closed heap refuses the merge; a failing file
        leaves the polls queued in memory. Either way the ids stay in the set. */
    method Push(values: seq<Poll>, readOk: nat -> bool, dbOk: bool) returns (dupes: int, ok: bool)
      requires Valid()
      modifies this`ids, queue`data, queue`file
      ensures Valid()
      ensures var p := PruneReading(old(ids), finalized.results, values, readOk);
              && ids == p.ids
              && (if queue.closed && p.kept != [] then
                    !ok && queue.data == old(queue.data) && queue.file == old(queue.file)
                  else
                    && multiset(queue.data) == multiset(old(queue.data)) + multiset(p.kept)
                    && ok == (p.kept == [] || dbOk)
                    && (p.kept == [] ==> queue.data == old(queue.data))
                    && queue.file == if dbOk then old(queue.file) + (set q | q in p.kept) else old(queue.file))
              && dupes == if ok then |values| - |p.kept| else -1
    {
      var pruned: seq<Poll> := [];
      var dropped := 0;
      for i := 0 to |values|
        invariant Pruned(ids, pruned) == PruneReading(old(ids), finalized.results, values[..i], readOk)
        invariant dropped == i - |pruned|
        invariant queue.data == old(queue.data) && queue.file == old(queue.file) && queue.closed == old(queue.closed)
      {
        assert values[..i + 1][..i] == values[..i];
        var poll := values[i];
        if poll.id in ids {
          dropped := dropped + 1;
          continue;
        }
        var held := ids;
        ids := ids + {poll.id};
        var final := finalized.HasFinalized(poll.id, readOk(i));
        if final {
          ids := ids - {poll.id};
          assert ids == held;
          dropped := dropped + 1;
          continue;
        }
        pruned := pruned + [poll];
      }
      assert values[..|values|] == values;
      if dropped == |values| {
        return dropped, true;
      }
      if queue.closed {
        return -1, false;
      }
      ok := queue.MergeLocked(pruned, dbOk);
      dupes := if ok then dropped else -1;
    }

    /** Drops every queued poll whose message is gone, from the heap, its file and the set. `gone` is what
        the fetches of this scan answer with a missing message. */
    method CleanQueue(gone: set<Snowflake>, clearOk: bool, mergeOk: bool) returns (dropped: int, ok: bool)
      requires Valid()
      modifies this`ids, queue`data, queue`file
      ensures Valid() && queue.closed == old(queue.closed)
      ensures var keep, stale := Surviving(old(queue.data), gone), StaleIds(old(queue.data), gone);
              && (stale == [] ==> ok && dropped == 0 && queue.data == old(queue.data) && queue.file == old(queue.file) && ids == old(ids))
              && (stale != [] ==>
                    && ok == (clearOk && (keep == [] || mergeOk))
                    && (if ok then
                          && dropped == |stale| == |old(queue.data)| - |queue.data|
                          && multiset(queue.data) == multiset(keep)
                          && queue.file == (set q | q in keep)
                          && ids == old(ids) - (set id | id in stale)
                        else
                          dropped == 0 && ids == old(ids)
                          && (if clearOk then multiset(queue.data) == multiset(keep) && queue.file == {}
                              else queue.data == old(queue.data) && queue.file == old(queue.file))))
    {
      hide Heap, Surviving, StaleIds;
      SurvivingCount(queue.data, gone);
      var data, stale := Scan(gone);
      if |stale| == 0 {
        return 0, true;
      }
      ok := queue.ClearLocked(clearOk);
      if !ok {
        return 0, false;
      }
      ok := queue.MergeLocked(data, mergeOk);
      if !ok {
        return 0, false;
      }
      SameSize(queue.data, data);
      assert queue.file == (set q | q in data);
      Forget(stale);
      return |stale|, true;
    }

    /** The queued polls whose message is still there, and the ids of the others. */
    method Scan(gone: set<Snowflake>) returns (data: seq<Poll>, stale: seq<Snowflake>)
      ensures data == Surviving(queue.data, gone) && stale == StaleIds(queue.data, gone)
    {
      data, stale := [], [];
      var d := queue.data;
      for i := 0 to |d|
        invariant data == Surviving(d[..i], gone) && stale == StaleIds(d[..i], gone)
      {
        assert d[..i + 1][..i] == d[..i];
        if d[i].id in gone {
          stale := stale + [d[i].id];
          continue;
        }
        data := data + [d[i]];
      }
      assert d[..|d|] == d;
    }

    /** Frees the ids of messages that no longer exist. */
    method Forget(stale: seq<Snowflake>)
      modifies this`ids
      ensures ids == old(ids) - (set id | id in stale)
    {
      for i := 0 to |stale|
        invariant ids == old(ids) - (set id | id in stale[..i])
      {
        assert stale[..i + 1] == stale[..i] + [stale[i]];
        ids := ids - {stale[i]};
      }
      assert stale[..|stale|] == stale;
    }

    /** The top of the heap and its two children, by expiry; a missing expiry counts as the zero time. */
    method GetTopOrdered() returns (tops: seq<Poll>)
      ensures multiset(tops) == multiset(FirstThree(queue.data)) && SortedByExpiry(tops)
      ensures tops == [] <==> queue.data == []
    {
      var data := FirstThree(queue.data);
      tops := [];
      for i := 0 to |data|
        invariant |tops| == i && multiset(tops) == multiset(data[..i]) && SortedByExpiry(tops)
      {
        assert data[..i + 1] == data[..i] + [data[i]];
        InsertSorts(data[i], tops, SortKey);
        SameSize(InsertBy(data[i], tops, SortKey), tops + [data[i]]);
        tops := InsertBy(data[i], tops, SortKey);
      }
      assert data[..|data|] == data;
    }

    /** A clean in one turn of the view: it fails only with the file, drops nothing only when nothing queued is
        gone, and otherwise shrinks the queue. */
    method CleanTurn(gone: nat -> set<Snowflake>, turn: nat, clearOk: bool, mergeOk: bool, ghost before: seq<Poll>)
      returns (dropped: int, ok: bool)
      requires Valid() && OnlyGoneLeave(before, queue.data, gone)
      modifies this`ids, queue`data, queue`file
      ensures Valid() && OnlyGoneLeave(before, queue.data, gone)
      ensures multiset(queue.data) <= multiset(old(queue.data)) && |queue.data| <= |old(queue.data)|
      ensures !ok ==> !clearOk || !mergeOk
      ensures ok ==>
                && Ids(queue.data) <= Ids(old(queue.data)) && ids == old(ids) - (Ids(old(queue.data)) - Ids(queue.data))
                && (old(queue.Synced()) ==> queue.Synced())
                && (dropped == 0 ==> queue.data == old(queue.data) && Ids(queue.data) !! gone(turn))
                && (dropped != 0 ==> |queue.data| < |old(queue.data)|)
    {
      hide Heap, Surviving, StaleIds, OnlyGoneLeave, Ids;
      SurvivingCount(queue.data, gone(turn));
      NoneStale(queue.data, gone(turn));
      ghost var d, file := queue.data, queue.file;
      dropped, ok := CleanQueue(gone(turn), clearOk, mergeOk);
      if multiset(queue.data) == multiset(Surviving(d, gone(turn))) {
        OnlyGoneLater(before, d, queue.data, gone, turn);
        CleanedIds(d, file, queue.data, gone(turn));
        SameSize(queue.data, Surviving(d, gone(turn)));
      }
    }

    /** The queue view: re-read the top until none of it is gone, cleaning in between. Discord's answers may
        differ from one turn to the next. Every further turn strictly shrinks the queue, so it ends. */
    method ViewQueue(missing: nat -> set<Snowflake>, failing: nat -> set<Snowflake>, gone: nat -> set<Snowflake>,
                     clearOk: nat -> bool, mergeOk: nat -> bool) returns (view: View)
      requires Valid()
      modifies this`ids, queue`data, queue`file
      ensures Valid()
      ensures multiset(queue.data) <= multiset(old(queue.data))
      // what it removes was gone, and its id is free again
      ensures OnlyGoneLeave(old(queue.data), queue.data, gone)
      ensures !view.CleanFailed? ==>
                && ids == old(ids) - (Ids(old(queue.data)) - Ids(queue.data))
                && (old(queue.Synced()) ==> queue.Synced())
      ensures view.EmptyQueue? ==> queue.data == []
      ensures view.Shown? ==>
                && view.count == |queue.data| > 0 && view.turn <= |old(queue.data)|
                && multiset(view.tops) == multiset(FirstThree(queue.data)) && SortedByExpiry(view.tops)
                && AllFetchable(view.tops, missing(view.turn), failing(view.turn))
      ensures view.NothingDropped? ==>
                && Ids(queue.data) !! gone(view.turn)
                && SomeIn(queue.data, missing(view.turn))
      ensures view.FetchFailed? ==> SomeIn(FirstThree(queue.data), failing(view.turn) - missing(view.turn))
      ensures view.CleanFailed? ==> !clearOk(view.turn) || !mergeOk(view.turn)
      // the first turn settles it unless a top is missing
      ensures old(queue.data) != [] && AllFetchable(FirstThree(old(queue.data)), missing(0), failing(0)) ==>
                view.Shown? && view.turn == 0 && queue.data == old(queue.data)
      ensures !view.Shown? && (forall n :: missing(n) <= gone(n) && failing(n) == {} && clearOk(n) && mergeOk(n)) ==> queue.data == []
    {
      hide Heap, Surviving, StaleIds, SortedByExpiry, FirstThree, AllFetchable, SomeIn, OnlyGoneLeave, Ids;
      OnlyGoneStart(queue.data, gone);
      var turn := 0;
      while true
        invariant if turn == 0 then queue.data == old(queue.data)
                  else !AllFetchable(FirstThree(old(queue.data)), missing(0), failing(0))
        invariant Valid() && turn + |queue.data| <= |old(queue.data)|
        invariant multiset(queue.data) <= multiset(old(queue.data))
        invariant OnlyGoneLeave(old(queue.data), queue.data, gone)
        invariant Ids(queue.data) <= Ids(old(queue.data)) && ids == old(ids) - (Ids(old(queue.data)) - Ids(queue.data))
        invariant old(queue.Synced()) ==> queue.Synced()
        decreases |queue.data|
      {
        var tops := GetTopOrdered();
        if tops == [] {
          return EmptyQueue;
        }
        SameFetch(tops, queue.data, missing(turn), failing(turn));
        var fetched := FetchTops(tops, missing(turn), failing(turn));
        if fetched.SomeFailed? {
          return FetchFailed(turn);
        }
        if fetched.AllThere? {
          return Shown(tops, |queue.data|, turn);
        }
        NoneGone(queue.data, missing(turn), gone(turn));
        var dropped, ok := CleanTurn(gone, turn, clearOk(turn), mergeOk(turn), old(queue.data));
        if !ok {
          return CleanFailed(turn);
        }
        if dropped == 0 {
          return NothingDropped(turn);
        }
        turn := turn + 1;
      }
    }
  }

  lemma SameSize(a: seq<Poll>, b: seq<Poll>)
    requires multiset(a) == multiset(b)
    ensures |a| == |b|
  {
    assert |multiset(a)| == |multiset(b)|;
  }

  ghost predicate WasGone(gone: nat -> set<Snowflake>, id: Snowflake) {
    exists n :: id in gone(n)
  }

  /** Of each poll every copy stays, or all go and its message was gone in some turn. */
  ghost predicate OnlyGoneLeave(before: seq<Poll>, after: seq<Poll>, gone: nat -> set<Snowflake>) {
    forall p :: multiset(after)[p] == multiset(before)[p] || (multiset(after)[p] == 0 && WasGone(gone, p.id))
  }

  lemma OnlyGoneStart(d: seq<Poll>, gone: nat -> set<Snowflake>)
    ensures OnlyGoneLeave(d, d, gone)
  {
  }

  lemma OnlyGoneLater(before: seq<Poll>, d: seq<Poll>, after: seq<Poll>, gone: nat -> set<Snowflake>, n: nat)
    requires OnlyGoneLeave(before, d, gone) && multiset(after) == multiset(Surviving(d, gone(n)))
    ensures OnlyGoneLeave(before, after, gone)
  {
    hide Surviving;
    forall p ensures multiset(after)[p] == multiset(before)[p] || (multiset(after)[p] == 0 && WasGone(gone, p.id)) {
      SurvivingIs(d, gone(n), p);
    }
  }

  /** A clean frees the ids that are no longer queued, and keeps heap and file in step. */
  lemma CleanedIds(d: seq<Poll>, file: set<Poll>, after: seq<Poll>, gone: set<Snowflake>)
    requires multiset(after) == multiset(Surviving(d, gone))
    ensures Ids(after) == Ids(d) - gone
    ensures (set id | id in StaleIds(d, gone)) == Ids(d) - Ids(after)
    ensures multiset(d) == multiset(file) ==> multiset(after) == multiset(set q | q in Surviving(d, gone))
  {
    hide Surviving, StaleIds;
    forall p ensures p in after <==> p in d && p.id !in gone {
      SurvivingIs(d, gone, p);
      assert p in after <==> p in multiset(after);
      assert p in d <==> p in multiset(d);
    }
    forall id ensures id in StaleIds(d, gone) <==> id in gone && id in Ids(d) {
      StaleIs(d, gone, id);
    }
    if multiset(d) == multiset(file) {
      var keep := set q | q in Surviving(d, gone);
      forall p ensures multiset(after)[p] == multiset(keep)[p] {
        SurvivingIs(d, gone, p);
        assert p in keep <==> p in multiset(Surviving(d, gone));
        assert multiset(d)[p] == multiset(file)[p];
      }
    }
  }

  lemma NoneGone(d: seq<Poll>, missing: set<Snowflake>, gone: set<Snowflake>)
    requires SomeIn(d, missing)
    ensures missing <= gone ==> !(Ids(d) !! gone)
  {
    var p :| p in d && p.id in missing;
    assert p.id in Ids(d);
  }

  lemma SameTops(a: seq<Poll>, b: seq<Poll>)
    requires multiset(a) == multiset(b)
    ensures forall p :: p in a <==> p in b
  {
    forall p ensures p in a <==> p in b {
      assert p in multiset(a) <==> p in multiset(b);
    }
  }

  predicate SomeIn(polls: seq<Poll>, ids: set<Snowflake>) {
    exists p :: p in polls && p.id in ids
  }

  /** What fetching the tops says of the queue. */
  lemma SameFetch(tops: seq<Poll>, data: seq<Poll>, missing: set<Snowflake>, failing: set<Snowflake>)
    requires multiset(tops) == multiset(FirstThree(data))
    ensures AllFetchable(tops, missing, failing) <==> AllFetchable(FirstThree(data), missing, failing)
    ensures SomeIn(tops, missing) ==> SomeIn(data, missing)
    ensures SomeIn(tops, failing - missing) ==> SomeIn(FirstThree(data), failing - missing)
  {
    SameTops(tops, FirstThree(data));
  }

  lemma NoneStale(d: seq<Poll>, gone: set<Snowflake>)
    ensures StaleIds(d, gone) == [] ==> Ids(d) !! gone
  {
    forall id | id in Ids(d) && StaleIds(d, gone) == [] ensures id !in gone {
      StaleIs(d, gone, id);
    }
  }

  datatype View =
    | EmptyQueue
    | Shown(tops: seq<Poll>, count: nat, turn: nat)
    | FetchFailed(turn: nat)
    | CleanFailed(turn: nat)
    | NothingDropped(turn: nat)
}
