/** The results worker: due polls are taken into a batch, the batch is finalized, and what was not
    written goes back to the queue. `BatchProtocol` proves that the exchange between worker and `Insert`
    always ends with the rows, requeues and cutoff used here. */
module ResultsWorker {
  import opened Options
  import opened FileHeaps
  import opened Decimals
  import opened FinalizedStore
  import opened BatchProtocol
  import opened PollManager

  const RETRY_DELAY: Time := 30_000_000_000

  /** A poll Discord has not finalized yet, as Insert pushes it back: Discord's expiry when it has one, but
      never a retry sooner than one delay from now. */
  function Retried(p: Poll, live: Option<Time>, now: Time): (r: Poll)
    ensures r.id == p.id && r.channel == p.channel && r.guild == p.guild
    ensures r.expiry.Some? && r.expiry.value >= now + RETRY_DELAY
    ensures var known := if live.Some? then live else p.expiry;
            r.expiry.value == if known.Some? && known.value > now + RETRY_DELAY then known.value else now + RETRY_DELAY
  {
    var q := if live.Some? then p.(expiry := live) else p;
    if q.expiry.None? || q.expiry.value < now + RETRY_DELAY then q.(expiry := Some(now + RETRY_DELAY)) else q
  }

  /** One poll of a batch: what fetching it came to, the row it renders to, the expiry Discord reports. */
  datatype Item = Item(poll: Poll, outcome: Outcome, row: Row, live: Option<Time>, now: Time)

  function Outcomes(b: seq<Item>): (o: seq<Outcome>)
    ensures |o| == |b| && forall i :: 0 <= i < |b| ==> o[i] == b[i].outcome
  {
    seq(|b|, i requires 0 <= i < |b| => b[i].outcome)
  }

  function Polls(b: seq<Item>): (p: seq<Poll>)
    ensures |p| == |b| && forall i :: 0 <= i < |b| ==> p[i] == b[i].poll
  {
    seq(|b|, i requires 0 <= i < |b| => b[i].poll)
  }

  /** The rows Insert has gathered. */
  function Rows(b: seq<Item>): Table {
    if b == [] then map[]
    else
      var last := b[|b| - 1];
      var before := Rows(b[..|b| - 1]);
      if last.outcome.Row? && KeyOf(last.poll.id).Some?
      then before[KeyOf(last.poll.id).value := last.row] else before
  }

  /** The polls Insert pushes back while it goes through the batch. */
  function Retries(b: seq<Item>): seq<Poll> {
    if b == [] then []
    else
      var last := b[|b| - 1];
      Retries(b[..|b| - 1]) + (if last.outcome.NotFinalized? then [Retried(last.poll, last.live, last.now)] else [])
  }

  /** The set, the results and the polls newly queued once a batch is settled. */
  datatype Books = Books(ids: set<Snowflake>, results: Table, queued: seq<Poll>)

  function Settle(ids: set<Snowflake>, results: Table, b: seq<Item>, wrote: bool): Books {
    var early := Prune(ids, results, Retries(b));
    var results' := if wrote then results + Rows(b) else results;
    var rest := if wrote then Polls(b)[Cutoff(Outcomes(b), |b|)..] else Polls(b);
    var late := Prune(early.ids, results', rest);
    Books(late.ids, results', early.kept + late.kept)
  }

  /** The rows of the queue's file once polls were merged into it. */
  function FileAfter(file: set<Poll>, added: seq<Poll>, ok: bool): set<Poll> {
    if ok then file + (set p | p in added) else file
  }

  /** Polls merged into a queue: those already there and the added ones in memory, and their rows in the file
      if it took them. A closed queue takes nothing. */
  ghost predicate Takes(data: multiset<Poll>, file: set<Poll>, added: seq<Poll>, closed: bool, ok: bool,
                        data': multiset<Poll>, file': set<Poll>) {
    && data' == data + (if closed then multiset{} else multiset(added))
    && file' == FileAfter(file, added, ok && !closed)
  }

  lemma TakesTwice(data: multiset<Poll>, file: set<Poll>, a: seq<Poll>, b: seq<Poll>, closed: bool, ok: bool,
                   data': multiset<Poll>, file': set<Poll>, data'': multiset<Poll>, file'': set<Poll>)
    requires Takes(data, file, a, closed, ok, data', file') && Takes(data', file', b, closed, ok, data'', file'')
    ensures Takes(data, file, a + b, closed, ok, data'', file'')
  {
  }

  lemma TakesNothing(data: multiset<Poll>, file: set<Poll>, closed: bool, ok: bool)
    ensures Takes(data, file, [], closed, ok, data, file)
  {
  }

  /** Heap and file stay in step exactly when no poll goes back that was queued already. */
  lemma TakesInStep(data: seq<Poll>, file: set<Poll>, added: seq<Poll>, data': seq<Poll>, file': set<Poll>)
    requires multiset(data) == multiset(file) && Takes(multiset(data), file, added, false, true, multiset(data'), file')
    requires Distinct(added)
    ensures multiset(data') == multiset(file') <==> forall p :: p in added ==> p !in data
  {
    MergeStaysSynced(data, added, file);
  }

  /** Pushing one at a time is pushing all. */
  lemma PruneOneMore(ids: set<Snowflake>, results: Table, xs: seq<Poll>, x: Poll)
    ensures var before, one := Prune(ids, results, xs), Prune(Prune(ids, results, xs).ids, results, [x]);
            Prune(ids, results, xs + [x]) == Pruned(one.ids, before.kept + one.kept)
  {
    assert (xs + [x])[..|xs|] == xs && [x][..0] == [];
    assert ALL_READ(|xs|) && ALL_READ(0);
    assert PruneReading(Prune(ids, results, xs).ids, results, [], ALL_READ) == Pruned(Prune(ids, results, xs).ids, []);
  }

  function WithRow(rows: Table, item: Item): Table {
    if KeyOf(item.poll.id).Some? then rows[KeyOf(item.poll.id).value := item.row] else rows
  }

  /** What one more poll adds to the rows, the retries and the cutoff. */
  lemma OneMoreItem(items: seq<Item>, i: nat)
    requires i < |items|
    ensures var o, item := Outcomes(items), items[i];
            && Rows(items[..i + 1]) == (if item.outcome.Row? then WithRow(Rows(items[..i]), item) else Rows(items[..i]))
            && Retries(items[..i + 1]) ==
                 (if item.outcome.NotFinalized? then Retries(items[..i]) + [Retried(item.poll, item.live, item.now)] else Retries(items[..i]))
            && |Positions(o, i + 1, Outcome.Row)| == |Positions(o, i, Outcome.Row)| + (if item.outcome.Row? then 1 else 0)
            && Cutoff(o, i + 1) == (if item.outcome.Row? || item.outcome.Gone? then i + 1 else Cutoff(o, i))
  {
    assert items[..i + 1][..i] == items[..i];
  }

  lemma GatherNothing(items: seq<Item>)
    ensures Rows(items[..0]) == map[] && Retries(items[..0]) == []
    ensures |Positions(Outcomes(items), 0, Outcome.Row)| == 0 && Cutoff(Outcomes(items), 0) == 0
    ensures forall ids, results :: Prune(ids, results, []) == Pruned(ids, [])
  {
  }

  lemma QueuedDistinct(ids: set<Snowflake>, results: Table, b: seq<Item>, wrote: bool)
    ensures Distinct(Settle(ids, results, b, wrote).queued)
  {
    hide Settle;
    QueuedPolls(ids, results, b, wrote);
  }

  class Worker {
    const man: Manager
    const maxBatch: nat
    var batch: seq<Poll>
    var finalIndex: nat

    constructor (man: Manager, maxBatch: nat)
      requires maxBatch >= 1
      ensures this.man == man && this.maxBatch == maxBatch && batch == [] && finalIndex == 0
    {
      this.man, this.maxBatch, batch, finalIndex := man, maxBatch, [], 0;
    }

    /** Takes the top of the queue into the batch if it is due. Nothing is lost between the two. When it is
        declined, `wait` carries the earliest deadline in the queue, which is still to come. */
    method TryAddToBatch(now: Time, dbOk: bool) returns (ok: bool, full: bool, wait: Option<Poll>)
      requires man.Valid() && |batch| <= maxBatch
      modifies this`batch, man`ids, man.queue`data, man.queue`file
      ensures man.Valid() && |batch| <= maxBatch
      ensures multiset(batch) + multiset(man.queue.data) == multiset(old(batch)) + multiset(old(man.queue.data))
      ensures ok ==> (full <==> |batch| == maxBatch)
      ensures |old(batch)| == maxBatch || !ok ==> batch == old(batch) && man.ids == old(man.ids) && man.queue.data == old(man.queue.data)
      ensures |old(batch)| < maxBatch && ok ==>
                && old(man.queue.data) != [] && batch == old(batch) + [old(man.queue.data)[0]]
                && man.ids == old(man.ids) - {old(man.queue.data)[0].id}
      ensures wait.Some? ==>
                && !ok && wait.value in man.queue.data && wait.value.expiry.Some? && now < wait.value.expiry.value
                && (forall q :: q in man.queue.data && q.expiry.Some? ==> wait.value.expiry.value <= q.expiry.value)
      ensures !ok && wait.None? ==> man.queue.data == [] || man.queue.closed
      // the file loses exactly the row of a poll taken
      ensures man.queue.file ==
              if |old(batch)| < maxBatch && ok && dbOk then old(man.queue.file) - {old(man.queue.data)[0]} else old(man.queue.file)
      ensures old(man.queue.Synced()) && dbOk ==> man.queue.Synced()
    {
      if |batch| == maxBatch {
        return true, true, None;
      }
      var poll, taken, err := man.queue.TryTake(now, dbOk);
      if poll.None? {
        return false, false, None;
      }
      if !taken {
        return false, false, poll;
      }
      batch := batch + [poll.value];
      man.ids := man.ids - {poll.value.id};
      return true, |batch| == maxBatch, None;
    }

    /** Hands polls back to the queue. */
    method PushAgain(polls: seq<Poll>, fileOk: bool, ghost added: seq<Poll>)
      requires man.Valid() && added == Prune(man.ids, man.finalized.results, polls).kept
      modifies man`ids, man.queue`data, man.queue`file
      ensures man.Valid() && man.ids == Prune(old(man.ids), man.finalized.results, polls).ids
      ensures Takes(multiset(old(man.queue.data)), old(man.queue.file), added, man.queue.closed, fileOk,
                    multiset(man.queue.data), man.queue.file)
    {
      hide Heap, PruneReading;
      var _, _ := man.Push(polls, ALL_READ, fileOk);
    }

    /** Insert's pass over the batch, with the worker's answers: gone polls advance the cutoff, other errors
        do not, unfinalized polls are pushed back at once. */
    method Gather(items: seq<Item>, fileOk: bool) returns (rows: Table, rowCount: nat)
      requires man.Valid() && finalIndex == 0
      modifies this`finalIndex, man`ids, man.queue`data, man.queue`file
      ensures man.Valid() && rows == Rows(items)
      ensures var o := Outcomes(items); rowCount == |Positions(o, |o|, Outcome.Row)| && finalIndex == Cutoff(o, |o|)
      ensures var early := Prune(old(man.ids), man.finalized.results, Retries(items));
              && man.ids == early.ids
              && Takes(multiset(old(man.queue.data)), old(man.queue.file), early.kept, man.queue.closed, fileOk,
                       multiset(man.queue.data), man.queue.file)
    {
      GatherNothing(items);
      hide Heap, PruneReading, Rows, Retries, Positions, Cutoff, Retried, Takes;
      TakesNothing(multiset(man.queue.data), man.queue.file, man.queue.closed, fileOk);
      rows, rowCount := map[], 0;
      ghost var o := Outcomes(items);
      ghost var early := Pruned(man.ids, []);
      for i := 0 to |items|
        invariant man.Valid()
        invariant rows == Rows(items[..i]) && rowCount == |Positions(o, i, Outcome.Row)| && finalIndex == Cutoff(o, i)
        invariant early == Prune(old(man.ids), man.finalized.results, Retries(items[..i])) && man.ids == early.ids
        invariant Takes(multiset(old(man.queue.data)), old(man.queue.file), early.kept, man.queue.closed, fileOk,
                        multiset(man.queue.data), man.queue.file)
      {
        var item := items[i];
        OneMoreItem(items, i);
        match item.outcome {
          case Row =>
            var key := KeyOf(item.poll.id);
            if key.Some? {
              rows := rows[key.value := item.row];
            }
            assert rows == WithRow(Rows(items[..i]), item);
            rowCount := rowCount + 1;
            finalIndex := i + 1;
          case Gone =>
            finalIndex := i + 1;
          case NotFinalized =>
            var retry := Retried(item.poll, item.live, item.now);
            PruneOneMore(old(man.ids), man.finalized.results, Retries(items[..i]), retry);
            ghost var before, data, file := early, man.queue.data, man.queue.file;
            ghost var added := Prune(man.ids, man.finalized.results, [retry]).kept;
            PushAgain([retry], fileOk, added);
            TakesTwice(multiset(old(man.queue.data)), old(man.queue.file), before.kept, added, man.queue.closed, fileOk,
                       multiset(data), file, multiset(man.queue.data), man.queue.file);
            early := Prune(old(man.ids), man.finalized.results, Retries(items[..i]) + [retry]);
          case Other =>
        }
      }
      assert items[..|items|] == items;
    }

    /** One batch from `Insert`'s start to the worker's reset. `items` are the batch's polls with what Discord
        answers for each. A queue that was closed takes nothing back. */
    method RunBatch(items: seq<Item>, writeOk: bool, fileOk: bool) returns (status: int)
      requires man.Valid() && batch == Polls(items) && finalIndex == 0
      modifies this, man`ids, man.queue`data, man.queue`file, man.finalized`results
      ensures man.Valid() && batch == [] && finalIndex == 0
      ensures status == if writeOk || Positions(Outcomes(items), |items|, Outcome.Row) == [] then INS_WRITE_SUCCESS else INS_WRITE_FAILED
      ensures var books := Settle(old(man.ids), old(man.finalized.results), items, status == INS_WRITE_SUCCESS);
              && man.ids == books.ids
              && man.finalized.results == books.results
              && Takes(multiset(old(man.queue.data)), old(man.queue.file), books.queued, man.queue.closed, fileOk,
                       multiset(man.queue.data), man.queue.file)
              // heap and file stay in step exactly when no poll goes back that was queued already
              && (old(man.queue.Synced()) && fileOk && !man.queue.closed ==>
                    (man.queue.Synced() <==> forall p :: p in books.queued ==> p !in old(man.queue.data)))
    {
      hide Heap, PruneReading, Rows, Retries, Positions, Cutoff, Takes, Distinct;
      var rows, rowCount := Gather(items, fileOk);
      var toRequeue := batch;
      if rowCount == 0 || writeOk {
        man.finalized.results := man.finalized.results + rows;
        toRequeue := batch[finalIndex..];
        status := INS_WRITE_SUCCESS;
      } else {
        status := INS_WRITE_FAILED;
      }
      ghost var data, file := man.queue.data, man.queue.file;
      ghost var added := Prune(man.ids, man.finalized.results, toRequeue).kept;
      PushAgain(toRequeue, fileOk, added);
      ghost var early := Prune(old(man.ids), old(man.finalized.results), Retries(items)).kept;
      TakesTwice(multiset(old(man.queue.data)), old(man.queue.file), early, added, man.queue.closed, fileOk,
                 multiset(data), file, multiset(man.queue.data), man.queue.file);
      QueuedDistinct(old(man.ids), old(man.finalized.results), items, status == INS_WRITE_SUCCESS);
      if old(man.queue.Synced()) && fileOk && !man.queue.closed {
        TakesInStep(old(man.queue.data), old(man.queue.file), early + added, man.queue.data, man.queue.file);
      }
      batch, finalIndex := [], 0;
    }
  }

  // ---------------------------------------------------------------- exact accounting

  /** A poll goes back to the queue: it is not finalized yet, or it lies at or after the cutoff. */
  predicate GoesBack(b: seq<Item>, i: nat)
    requires i < |b|
  {
    b[i].outcome.NotFinalized? || i >= Cutoff(Outcomes(b), |b|)
  }

  /** The batch writes a row under this key. */
  predicate Writes(b: seq<Item>, n: nat) {
    exists i :: 0 <= i < |b| && b[i].outcome.Row? && KeyOf(b[i].poll.id) == Some(n)
  }

  predicate IsRetried(b: seq<Item>, id: Snowflake) {
    exists i :: 0 <= i < |b| && b[i].outcome.NotFinalized? && b[i].poll.id == id
  }

  predicate InTail(b: seq<Item>, from: nat, id: Snowflake) {
    exists i :: from <= i < |b| && b[i].poll.id == id
  }

  lemma {:induction false} RowsAre(b: seq<Item>, n: nat)
    ensures n in Rows(b) <==> Writes(b, n)
  {
    if b != [] {
      var k := |b| - 1;
      RowsAre(b[..k], n);
      assert b == b[..k] + [b[k]];
    }
  }

  predicate IsLastRow(b: seq<Item>, i: nat, n: nat)
    requires i < |b|
  {
    && b[i].outcome.Row? && KeyOf(b[i].poll.id) == Some(n)
    && forall j :: i < j < |b| && b[j].outcome.Row? ==> KeyOf(b[j].poll.id) != Some(n)
  }

  /** Of several rows under one key the last is written. */
  lemma {:induction false} LastRow(b: seq<Item>, i: nat, n: nat)
    requires i < |b| && IsLastRow(b, i, n)
    ensures n in Rows(b) && Rows(b)[n] == b[i].row
  {
    var k := |b| - 1;
    if i < k {
      LastRow(b[..k], i, n);
    }
  }

  lemma {:induction false} RetriesAre(b: seq<Item>, id: Snowflake)
    ensures id in Ids(Retries(b)) <==> IsRetried(b, id)
  {
    if b != [] {
      var k := |b| - 1;
      RetriesAre(b[..k], id);
      assert b == b[..k] + [b[k]];
    }
  }

  /** A push takes an id in exactly when it was offered, not yet held and not finalized. */
  lemma PruneAdds(ids: set<Snowflake>, results: Table, values: seq<Poll>, id: Snowflake)
    ensures id in Ids(Prune(ids, results, values).kept) <==> id in Ids(values) && id !in ids && !IsFinal(results, id)
    ensures id in Prune(ids, results, values).ids <==> id in ids || id in Ids(Prune(ids, results, values).kept)
  {
    PruneKeeps(ids, results, values);
  }

  lemma TailIds(b: seq<Item>, from: nat, id: Snowflake)
    requires from <= |b|
    ensures id in Ids(Polls(b)[from..]) <==> InTail(b, from, id)
  {
    var tail := Polls(b)[from..];
    if i :| from <= i < |b| && b[i].poll.id == id {
      assert tail[i - from] == b[i].poll;
      assert b[i].poll in tail;
    }
    if id in Ids(tail) {
      var p :| p in tail && p.id == id;
      var k :| 0 <= k < |tail| && tail[k] == p;
      assert b[from + k].poll.id == id;
    }
  }

  lemma FinalAfter(results: Table, b: seq<Item>, id: Snowflake)
    ensures IsFinal(results + Rows(b), id) <==>
            IsFinal(results, id) || (KeyOf(id).Some? && Writes(b, KeyOf(id).value))
  {
    hide Writes;
    if KeyOf(id).Some? {
      RowsAre(b, KeyOf(id).value);
    }
  }

  lemma IdsOfSum(a: seq<Poll>, b: seq<Poll>)
    ensures Ids(a + b) == Ids(a) + Ids(b)
  {
  }

  /** Exact accounting of a written batch, id by id, for any batch - one that holds an id twice included. An id
      is finalized if it was or a row of its number was written. It goes back to the queue exactly when it was
      neither queued nor finalized, and some copy of it is not finalized yet, or some copy lies at or after the
      cutoff and no row of its number was written. */
  lemma BatchAccounting(ids: set<Snowflake>, results: Table, b: seq<Item>, id: Snowflake)
    ensures var books, written := Settle(ids, results, b, true), KeyOf(id).Some? && Writes(b, KeyOf(id).value);
            && (IsFinal(books.results, id) <==> IsFinal(results, id) || written)
            && (id in Ids(books.queued) <==>
                  && id !in ids && !IsFinal(results, id)
                  && (IsRetried(b, id) || (InTail(b, Cutoff(Outcomes(b), |b|), id) && !written)))
            && (id in books.ids <==> id in ids || id in Ids(books.queued))
  {
    hide IsFinal, Writes, IsRetried, InTail, Prune, Ids, Cutoff, Rows, Retries, Polls, Outcomes;
    var c := Cutoff(Outcomes(b), |b|);
    var early := Prune(ids, results, Retries(b));
    RetriesAre(b, id);
    PruneAdds(ids, results, Retries(b), id);
    FinalAfter(results, b, id);
    TailIds(b, c, id);
    var late := Prune(early.ids, results + Rows(b), Polls(b)[c..]);
    PruneAdds(early.ids, results + Rows(b), Polls(b)[c..], id);
    IdsOfSum(early.kept, late.kept);
  }

  /** What is written is the poll's own row, the last one of its number; other rows stay. */
  lemma RowsWritten(ids: set<Snowflake>, results: Table, b: seq<Item>, n: nat)
    ensures var after := Settle(ids, results, b, true).results;
            && (n in after <==> n in results || Writes(b, n))
            && (n in after && !Writes(b, n) ==> after[n] == results[n])
            && (forall i :: 0 <= i < |b| && IsLastRow(b, i, n) ==> n in after && after[n] == b[i].row)
  {
    hide Prune, Cutoff, Writes, Polls, Retries;
    RowsAre(b, n);
    forall i | 0 <= i < |b| && IsLastRow(b, i, n) ensures n in Rows(b) && Rows(b)[n] == b[i].row {
      LastRow(b, i, n);
    }
  }

  /** A poll a batch has written is in the view as its row tells it, unless a hand-entered poll stands there. */
  lemma WrittenIsShown(ids: set<Snowflake>, results: Table, manual: Table, b: seq<Item>, i: nat, n: nat)
    requires i < |b| && IsLastRow(b, i, n) && n !in manual && n < INT64_LIMIT
    ensures var all, row := Selected(Sources(Settle(ids, results, b, true).results, manual), false, []), b[i].row;
            exists rec :: rec in all
              && ParseUint(rec.id) == Some(n) && rec.channel == row.channel && rec.options == row.options && rec.answers == row.answers
              && rec.title == row.titleOverride.GetOr(row.title) && (rec.active <==> row.active != 0)
  {
    hide Settle, Selected, IsLastRow, ParseUint;
    RowsWritten(ids, results, b, n);
    var t := Sources(Settle(ids, results, b, true).results, manual);
    SelectedIsOrdered(t, false);
    assert n in t && t[n] == b[i].row;
    var rec := FinalizedStore.Shown(n, t[n]);
    assert rec in Selected(t, false, []);
  }

  /** What is queued is a poll of the batch: a retry with its new expiry, or the poll as it was taken; and no
      id is queued twice. */
  lemma QueuedPolls(ids: set<Snowflake>, results: Table, b: seq<Item>, wrote: bool)
    ensures var queued := Settle(ids, results, b, wrote).queued;
            && (forall p :: p in queued ==> p in Retries(b) || p in Polls(b))
            && (forall i, j :: 0 <= i < j < |queued| ==> queued[i].id != queued[j].id)
  {
    hide Prune, Cutoff, Rows, Retries, IsFinal, Outcomes;
    var early := Prune(ids, results, Retries(b));
    var results' := if wrote then results + Rows(b) else results;
    var rest := if wrote then Polls(b)[Cutoff(Outcomes(b), |b|)..] else Polls(b);
    var late := Prune(early.ids, results', rest);
    PruneKeeps(ids, results, Retries(b));
    PruneKeeps(early.ids, results', rest);
    forall i, j | 0 <= i < |early.kept| && 0 <= j < |late.kept| ensures early.kept[i].id != late.kept[j].id {
      assert early.kept[i] in early.kept && late.kept[j] in late.kept;
      assert early.kept[i].id in Ids(early.kept);
    }
  }

  predicate SameKey(a: Snowflake, b: Snowflake) {
    a == b || (KeyOf(a).Some? && KeyOf(a) == KeyOf(b))
  }

  /** No other poll of the batch has this one's id. */
  predicate Alone(b: seq<Item>, i: nat)
    requires i < |b|
  {
    forall j :: 0 <= j < |b| && j != i ==> !SameKey(b[j].poll.id, b[i].poll.id)
  }

  /** Read poll by poll, for one that is in the batch once: its row is written exactly when it has one, and it
      is its own; it goes back exactly when it is not finalized or at or after the cutoff, unless already
      queued or finalized; no written or gone poll goes back. */
  lemma WrittenBatchAccounting(ids: set<Snowflake>, results: Table, b: seq<Item>, i: nat)
    requires i < |b| && Alone(b, i)
    ensures var books, id := Settle(ids, results, b, true), b[i].poll.id;
            && (KeyOf(id).Some? ==>
                  var n := KeyOf(id).value;
                  && (n in books.results <==> n in results || b[i].outcome.Row?)
                  && (b[i].outcome.Row? ==> books.results[n] == b[i].row)
                  && (n in results && !b[i].outcome.Row? ==> books.results[n] == results[n]))
            && (id in Ids(books.queued) <==> GoesBack(b, i) && id !in ids && !IsFinal(results, id))
            && (id in books.ids <==> id in ids || id in Ids(books.queued))
            && (b[i].outcome.Row? || b[i].outcome.Gone? ==> !GoesBack(b, i))
  {
    hide Settle, Prune, Ids;
    var id := b[i].poll.id;
    BatchAccounting(ids, results, b, id);
    AloneIn(b, i);
    if KeyOf(id).Some? {
      RowsWritten(ids, results, b, KeyOf(id).value);
      assert b[i].outcome.Row? ==> IsLastRow(b, i, KeyOf(id).value);
    }
  }

  lemma AloneIn(b: seq<Item>, i: nat)
    requires i < |b| && Alone(b, i)
    ensures var id := b[i].poll.id;
            && (IsRetried(b, id) <==> b[i].outcome.NotFinalized?)
            && (forall from: nat :: InTail(b, from, id) <==> from <= i)
            && (forall n :: KeyOf(id) == Some(n) ==> (Writes(b, n) <==> b[i].outcome.Row?))
            && (forall j, n :: 0 <= j < |b| && KeyOf(id) == Some(n) && KeyOf(b[j].poll.id) == Some(n) ==> j == i)
  {
  }

  /** A failed write hands the whole batch back: nothing is finalized, and every poll that was not finalized
      before ends up queued. */
  lemma FailedBatchAccounting(ids: set<Snowflake>, results: Table, b: seq<Item>, i: nat)
    requires i < |b|
    ensures var books, id := Settle(ids, results, b, false), b[i].poll.id;
            && books.results == results
            && (id in Ids(books.queued) <==> id !in ids && !IsFinal(results, id))
            && (id in books.ids <==> id in ids || !IsFinal(results, id))
  {
    hide Prune, Retries, IsFinal;
    var id := b[i].poll.id;
    var early := Prune(ids, results, Retries(b));
    RetriesAre(b, id);
    PruneAdds(ids, results, Retries(b), id);
    assert Polls(b)[0..] == Polls(b);
    TailIds(b, 0, id);
    var late := Prune(early.ids, results, Polls(b));
    PruneAdds(early.ids, results, Polls(b), id);
    IdsOfSum(early.kept, late.kept);
  }

  lemma NotInTail(b: seq<Item>, from: nat, id: Snowflake)
    requires from <= |b| && forall i :: 0 <= i < |b| ==> b[i].poll.id != id
    ensures id !in Ids(Polls(b)[from..]) && id !in Ids(Polls(b))
  {
    assert forall p :: p in Polls(b) ==> p.id != id;
  }

  /** Ids outside the batch keep their place. */
  lemma OthersUntouched(ids: set<Snowflake>, results: Table, b: seq<Item>, wrote: bool, id: Snowflake)
    requires forall i :: 0 <= i < |b| ==> b[i].poll.id != id
    ensures var books := Settle(ids, results, b, wrote);
            id !in Ids(books.queued) && (id in books.ids <==> id in ids)
  {
    hide Ids, Prune, Retries, Polls, Rows, Cutoff, Outcomes, IsFinal;
    var early := Prune(ids, results, Retries(b));
    RetriesAre(b, id);
    PruneAdds(ids, results, Retries(b), id);
    var results' := if wrote then results + Rows(b) else results;
    NotInTail(b, 0, id);
    NotInTail(b, Cutoff(Outcomes(b), |b|), id);
    var rest := if wrote then Polls(b)[Cutoff(Outcomes(b), |b|)..] else Polls(b);
    PruneAdds(early.ids, results', rest, id);
    IdsOfSum(early.kept, Prune(early.ids, results', rest).kept);
  }

  /** A poll skipped on a recoverable error is retried exactly when no later poll of its batch was written
      or found gone - not always, as a comment in `Insert` has it. */
  lemma SkippedPollIsRetriedIff(ids: set<Snowflake>, results: Table, b: seq<Item>, i: nat)
    requires i < |b| && Alone(b, i) && b[i].outcome.Other?
    requires b[i].poll.id !in ids && !IsFinal(results, b[i].poll.id)
    ensures b[i].poll.id in Ids(Settle(ids, results, b, true).queued) <==>
            forall j :: i < j < |b| ==> !b[j].outcome.Row? && !b[j].outcome.Gone?
  {
    hide Settle, Alone, IsFinal;
    WrittenBatchAccounting(ids, results, b, i);
    var c := Cutoff(Outcomes(b), |b|);
    if c > i {
      assert Outcomes(b)[c - 1].Row? || Outcomes(b)[c - 1].Gone?;
      assert c - 1 > i && (b[c - 1].outcome.Row? || b[c - 1].outcome.Gone?);
    }
  }

  /** The smallest batch that loses a poll: an error on the first, a row for the second. */
  lemma SkippedPollCanBeLost(row: Row)
    ensures var first, second := Poll(None, "1", "", ""), Poll(None, "2", "", "");
            var b := [Item(first, Outcome.Other, row, None, 0), Item(second, Outcome.Row, row, None, 0)];
            var books := Settle({}, map[], b, true);
            && Alone(b, 0)
            && "1" !in Ids(books.queued) && "1" !in books.ids && books.results == map[2 := row]
  {
    hide Settle, IsFinal;
    var first, second := Poll(None, "1", "", ""), Poll(None, "2", "", "");
    var b := [Item(first, Outcome.Other, row, None, 0), Item(second, Outcome.Row, row, None, 0)];
    assert Decimals.Value("1") == 1 && Decimals.Value("2") == 2 by {
      assert "1"[..0] == "" && "2"[..0] == "";
    }
    assert !IsFinal(map[], "1") by { NothingFinal("1"); }
    WrittenBatchAccounting({}, map[], b, 0);
    WrittenBatchAccounting({}, map[], b, 1);
    assert Outcomes(b)[1].Row?;
    forall n | n in Settle({}, map[], b, true).results ensures n == 2 {
      RowsWritten({}, map[], b, n);
    }
  }

  lemma NothingFinal(id: Snowflake)
    ensures !IsFinal(map[], id)
  {
  }
}
