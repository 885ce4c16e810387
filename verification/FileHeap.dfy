/** The expiry-ordered heap of queued polls and its file mirror. The array algorithms are those of
    `container/heap`; the file is a table keyed by an injective hash of the row, so a set of rows. */
module FileHeaps {
  import opened Options
  import Decimals

  type Snowflake = Decimals.Snowflake
  type Time = int

  datatype Poll = Poll(expiry: Option<Time>, id: Snowflake, channel: Snowflake, guild: Snowflake)

  /** Soonest expiry first; a poll without one sinks. */
  predicate Less(l: Poll, r: Poll) {
    if l.expiry.None? then false
    else if r.expiry.None? then true
    else l.expiry.value < r.expiry.value
  }

  predicate Validate(p: Poll) {
    p.expiry.Some? && p.guild != ""
  }

  /** "Not after": the total preorder `Less` is the strict part of. */
  predicate Le(l: Poll, r: Poll) {
    !Less(r, l)
  }

  lemma LeTransitive(a: Poll, b: Poll, c: Poll)
    requires Le(a, b) && Le(b, c)
    ensures Le(a, c)
  {
  }

  function Parent(j: int): int
    requires j > 0
  {
    (j - 1) / 2
  }

  /** Every entry below n whose parent is at `lo` or later is not before its parent. */
  ghost predicate HeapFrom(d: seq<Poll>, lo: int, n: int)
    requires n <= |d|
  {
    forall j {:trigger Parent(j)} :: 0 < j < n && Parent(j) >= lo ==> Le(d[Parent(j)], d[j])
  }

  ghost predicate Heap(d: seq<Poll>) {
    HeapFrom(d, 0, |d|)
  }

  function Swapped(d: seq<Poll>, i: nat, j: nat): (s: seq<Poll>)
    requires i < |d| && j < |d|
    ensures multiset(s) == multiset(d)
  {
    d[i := d[j]][j := d[i]]
  }

  /** The top of a heap is not after any entry. */
  lemma {:induction false} TopIsLeast(d: seq<Poll>, n: nat, j: nat)
    requires n <= |d| && HeapFrom(d, 0, n) && j < n
    ensures Le(d[0], d[j])
  {
    if j > 0 {
      TopIsLeast(d, n, Parent(j));
      LeTransitive(d[0], d[Parent(j)], d[j]);
    }
  }

  lemma TopIsLeastOfAll(d: seq<Poll>)
    requires Heap(d) && d != []
    ensures forall q :: q in d ==> Le(d[0], q)
  {
    forall q | q in d ensures Le(d[0], q) {
      var j :| 0 <= j < |d| && d[j] == q;
      TopIsLeast(d, |d|, j);
    }
  }

  /** After the top went to the end, the rest is a heap but for its new top. */
  lemma SwapTail(d: seq<Poll>)
    requires Heap(d) && d != []
    ensures var e := Swapped(d, 0, |d| - 1);
            |e| == |d| && HeapFrom(e, 1, |d| - 1) && e[|d| - 1..] == [d[0]]
  {
    var e := Swapped(d, 0, |d| - 1);
    forall k {:trigger Parent(k)} | 0 < k < |d| - 1 && Parent(k) >= 1 ensures Le(e[Parent(k)], e[k]) {
      assert Le(d[Parent(k)], d[k]);
    }
  }

  /** When the top has gone to the end and the rest is a heap again, dropping the end is a pop. */
  lemma TailIsTop(before: seq<Poll>, d: seq<Poll>)
    requires Heap(before) && before != [] && |d| == |before| && multiset(d) == multiset(before)
    requires d[|d| - 1..] == [before[0]] && (|d| > 1 ==> HeapFrom(d, 0, |d| - 1))
    ensures d[|d| - 1] == before[0] && Heap(d[..|d| - 1]) && PopsLeast(before, before[0], d[..|d| - 1])
  {
    assert d[|d| - 1] == d[|d| - 1..][0];
    TopIsLeastOfAll(before);
    LastOf(d);
  }

  lemma LastOf(d: seq<Poll>)
    requires d != []
    ensures multiset(d[..|d| - 1]) == multiset(d) - multiset{d[|d| - 1]}
  {
    assert d == d[..|d| - 1] + [d[|d| - 1]];
  }

  // ------------------------------------------------------------ one sift step

  /** Sifting up: the heap order may fail only between j and its parent. */
  ghost predicate UpInv(d: seq<Poll>, j: nat)
  {
    && j < |d|
    && (forall k {:trigger Parent(k)} :: 0 < k < |d| && k != j ==> Le(d[Parent(k)], d[k]))
    && (j > 0 ==> forall k {:trigger Parent(k)} :: 0 < k < |d| && Parent(k) == j ==> Le(d[Parent(j)], d[k]))
  }

  lemma UpStep(d: seq<Poll>, j: nat)
    requires UpInv(d, j) && j > 0 && Less(d[j], d[Parent(j)])
    ensures UpInv(Swapped(d, Parent(j), j), Parent(j))
  {
    var i := Parent(j);
    var e := Swapped(d, i, j);
    forall k {:trigger Parent(k)} | 0 < k < |e| && k != i ensures Le(e[Parent(k)], e[k]) {
      assert k != j ==> Le(d[Parent(k)], d[k]);
    }
    if i > 0 {
      forall k {:trigger Parent(k)} | 0 < k < |e| && Parent(k) == i ensures Le(e[Parent(i)], e[k]) {
        assert Le(d[Parent(i)], d[i]);
        if k != j {
          LeTransitive(d[Parent(i)], d[i], d[k]);
        }
      }
    }
  }

  lemma UpStop(d: seq<Poll>, j: nat)
    requires UpInv(d, j) && (j > 0 ==> Le(d[Parent(j)], d[j]))
    ensures Heap(d)
  {
  }

  /** Sifting down among the first n entries: the order may fail only between i and its children. */
  ghost predicate DownInv(d: seq<Poll>, i0: nat, i: nat, n: nat)
  {
    && i0 <= i < n <= |d|
    && (forall k {:trigger Parent(k)} :: 0 < k < n && Parent(k) >= i0 && Parent(k) != i ==> Le(d[Parent(k)], d[k]))
    && (i > i0 && Parent(i) >= i0 ==> forall k {:trigger Parent(k)} :: 0 < k < n && Parent(k) == i ==> Le(d[Parent(i)], d[k]))
  }

  /** j is the child of i that is not after its sibling. */
  ghost predicate LeastChild(d: seq<Poll>, i: nat, j: nat, n: nat)
    requires n <= |d|
  {
    && 0 < j < n && Parent(j) == i
    && forall k {:trigger Parent(k)} :: 0 < k < n && Parent(k) == i ==> Le(d[j], d[k])
  }

  lemma DownStep(d: seq<Poll>, i0: nat, i: nat, j: nat, n: nat)
    requires DownInv(d, i0, i, n) && LeastChild(d, i, j, n) && Less(d[j], d[i])
    ensures DownInv(Swapped(d, i, j), i0, j, n)
  {
    var e := Swapped(d, i, j);
    forall k {:trigger Parent(k)} | 0 < k < n && Parent(k) >= i0 && Parent(k) != j ensures Le(e[Parent(k)], e[k]) {
      if Parent(k) == i {
        assert Le(d[j], d[k]);
      } else if k == i {
        assert Le(d[Parent(i)], d[j]);
      } else {
        assert Le(d[Parent(k)], d[k]);
      }
    }
    forall k {:trigger Parent(k)} | 0 < k < n && Parent(k) == j ensures Le(e[Parent(j)], e[k]) {
      assert Le(d[Parent(k)], d[k]);
    }
  }

  lemma DownStart(d: seq<Poll>, i0: nat, n: nat)
    requires i0 < n <= |d| && HeapFrom(d, i0 + 1, n)
    ensures DownInv(d, i0, i0, n)
  {
  }

  lemma DownLeaf(d: seq<Poll>, i0: nat, i: nat, n: nat)
    requires DownInv(d, i0, i, n) && 2 * i + 1 >= n
    ensures HeapFrom(d, i0, n)
  {
    forall k {:trigger Parent(k)} | 0 < k < n ensures Parent(k) != i {
      ChildrenOf(i, k);
    }
  }

  lemma DownStop(d: seq<Poll>, i0: nat, i: nat, j: nat, n: nat)
    requires DownInv(d, i0, i, n) && LeastChild(d, i, j, n) && !Less(d[j], d[i])
    ensures HeapFrom(d, i0, n)
  {
    forall k {:trigger Parent(k)} | 0 < k < n && Parent(k) == i ensures Le(d[i], d[k]) {
      LeTransitive(d[i], d[j], d[k]);
    }
  }

  lemma SwapKeepsEnd(d: seq<Poll>, i: nat, j: nat, n: nat)
    requires i < n && j < n <= |d|
    ensures Swapped(d, i, j)[n..] == d[n..] && |Swapped(d, i, j)| == |d|
  {
  }

  lemma ChildrenOf(i: nat, k: int)
    requires k > 0
    ensures Parent(k) == i <==> k == 2 * i + 1 || k == 2 * i + 2
  {
  }

  /** The child `down` picks, and why no child is before it. */
  lemma PickedChild(d: seq<Poll>, i: nat, n: nat)
    requires 2 * i + 1 < n <= |d|
    ensures var j1, j2 := 2 * i + 1, 2 * i + 2;
            LeastChild(d, i, if j2 < n && Less(d[j2], d[j1]) then j2 else j1, n)
  {
    forall k {:trigger Parent(k)} | 0 < k < n && Parent(k) == i ensures k == 2 * i + 1 || k == 2 * i + 2 {
      ChildrenOf(i, k);
    }
    ChildrenOf(i, 2 * i + 1);
    ChildrenOf(i, 2 * i + 2);
  }

  /** What a pop promises about the queue before and after. */
  ghost predicate PopsLeast(before: seq<Poll>, least: Poll, after: seq<Poll>) {
    && least in before
    && multiset(after) == multiset(before) - multiset{least}
    && forall q :: q in before ==> Le(least, q)
  }

  /** Draining a queue one pop at a time yields its polls in nondecreasing expiry order. */
  lemma {:induction false} DrainIsOrdered(queues: seq<seq<Poll>>, popped: seq<Poll>)
    requires |queues| == |popped| + 1 && queues[|popped|] == []
    requires forall i :: 0 <= i < |popped| ==> PopsLeast(queues[i], popped[i], queues[i + 1])
    ensures multiset(popped) == multiset(queues[0])
    ensures forall i, j :: 0 <= i < j < |popped| ==> Le(popped[i], popped[j])
  {
    if popped != [] {
      var rest := popped[1..];
      DrainIsOrdered(queues[1..], rest);
      assert popped == [popped[0]] + rest;
      assert PopsLeast(queues[0], popped[0], queues[1]);
      forall j | 0 < j < |popped| ensures Le(popped[0], popped[j]) {
        assert popped[j] == rest[j - 1];
        assert popped[j] in multiset(rest);
        assert popped[j] in multiset(queues[0]);
      }
    }
  }

  class FileHeap {
    var data: seq<Poll>
    var file: set<Poll>
    var closed: bool

    ghost predicate Valid()
      reads this
    {
      Heap(data)
    }

    /** The file holds exactly the heap's values, each once. */
    ghost predicate Synced()
      reads this
    {
      multiset(data) == multiset(file)
    }

    constructor (rows: seq<Poll>, ghost file: set<Poll>)
      requires multiset(rows) == multiset(file)
      ensures data == rows && this.file == (set p | p in rows) && !closed && Synced()
    {
      data, this.file, closed := rows, set p | p in rows, false;
      new;
      assert forall p :: p in multiset(rows) <==> p in rows;
      assert this.file == file;
    }

    // ------------------------------------------------------------ container/heap

    method Swap(i: nat, j: nat)
      requires i < |data| && j < |data|
      modifies this`data
      ensures data == Swapped(old(data), i, j)
    {
      data := data[i := data[j]][j := data[i]];
    }

    method Up(start: nat)
      requires UpInv(data, start)
      modifies this`data
      ensures Heap(data) && multiset(data) == multiset(old(data))
    {
      var j: nat := start;
      while true
        invariant UpInv(data, j) && multiset(data) == multiset(old(data))
        decreases j
      {
        var i := if j == 0 then 0 else (j - 1) / 2; // Go's division truncates toward zero
        if i == j || !Less(data[j], data[i]) {
          UpStop(data, j);
          break;
        }
        UpStep(data, j);
        Swap(i, j);
        j := i;
      }
    }

    /** Restores the heap below i0 among the first n entries. */
    method Down(i0: nat, n: nat)
      requires i0 < n <= |data| && HeapFrom(data, i0 + 1, n)
      modifies this`data
      ensures |data| == |old(data)| && HeapFrom(data, i0, n)
      ensures multiset(data) == multiset(old(data)) && data[n..] == old(data)[n..]
    {
      hide DownInv, HeapFrom, LeastChild, Swapped;
      var i := i0;
      DownStart(data, i0, n);
      while true
        invariant DownInv(data, i0, i, n) && i0 <= i < n && |data| == |old(data)|
        invariant multiset(data) == multiset(old(data)) && data[n..] == old(data)[n..]
        decreases n - i
      {
        var j1 := 2 * i + 1;
        if j1 >= n {
          DownLeaf(data, i0, i, n);
          break;
        }
        PickedChild(data, i, n);
        var j := j1;
        var j2 := j1 + 1;
        if j2 < n && Less(data[j2], data[j1]) {
          j := j2;
        }
        if !Less(data[j], data[i]) {
          DownStop(data, i0, i, j, n);
          break;
        }
        DownStep(data, i0, i, j, n);
        SwapKeepsEnd(data, i, j, n);
        Swap(i, j);
        i := j;
      }
    }

    method Heapify()
      modifies this`data
      ensures Heap(data) && multiset(data) == multiset(old(data))
    {
      var n := |data|;
      var i := n / 2;
      while i > 0
        invariant 0 <= i <= n / 2 && |data| == n
        invariant HeapFrom(data, i, n) && multiset(data) == multiset(old(data))
      {
        i := i - 1;
        Down(i, n);
      }
    }

    method HeapPop() returns (v: Poll)
      requires Valid() && data != []
      modifies this`data
      ensures Valid() && v == old(data)[0] && PopsLeast(old(data), v, data)
    {
      hide Heap, HeapFrom, PopsLeast, Swapped;
      var n := |data| - 1;
      SwapTail(data);
      Swap(0, n);
      if n > 0 {
        Down(0, n);
      }
      TailIsTop(old(data), data);
      v := data[n];
      data := data[..n];
    }

    // ------------------------------------------------------------ FileHeap

    /** `dbOk` says whether the file accepted the statement. */
    method PushLocked(value: Poll, dbOk: bool) returns (ok: bool)
      requires Valid()
      modifies this`data, this`file
      ensures Valid() && ok == dbOk
      ensures multiset(data) == multiset(old(data)) + multiset{value}
      ensures file == if dbOk then old(file) + {value} else old(file)
      ensures old(Synced()) && dbOk ==> (Synced() <==> value !in old(data))
    {
      data := data + [value];
      Up(|data| - 1);
      if dbOk {
        file := file + {value};
      }
      assert value in old(data) ==> multiset(data)[value] >= 2;
      return dbOk;
    }

    method PopLocked(dbOk: bool) returns (value: Option<Poll>, ok: bool)
      requires Valid()
      modifies this`data, this`file
      ensures Valid()
      ensures old(data) == [] ==> value == None && !ok && data == [] && file == old(file)
      ensures old(data) != [] ==>
                && value == Some(old(data)[0]) && ok == dbOk
                && PopsLeast(old(data), value.value, data)
                && file == if dbOk then old(file) - {value.value} else old(file)
      ensures old(Synced()) && ok ==> Synced()
    {
      if |data| == 0 {
        return None, false;
      }
      var v := HeapPop();
      if dbOk {
        file := file - {v};
      }
      return Some(v), dbOk;
    }

    /** Takes the top if it is due, or if it has no expiry, under the lock that decided so. */
    method TryTake(now: Time, dbOk: bool) returns (top: Option<Poll>, taken: bool, ok: bool)
      requires Valid()
      modifies this`data, this`file
      ensures Valid() && (old(Synced()) && ok ==> Synced())
      ensures closed ==> top == None && !taken && !ok
      ensures !closed && old(data) == [] ==> top == None && !taken && ok
      ensures !taken ==> data == old(data) && file == old(file)
      ensures !closed && old(data) != [] ==> top == Some(old(data)[0]) && (taken || ok)
      // a declined take is justified: nothing known to be due is queued, and top is the earliest deadline
      ensures top.Some? && !taken ==>
                && top.value.expiry.Some?
                && (forall q :: q in data && q.expiry.Some? ==> now < q.expiry.value && top.value.expiry.value <= q.expiry.value)
      // a take is of the earliest, which is due unless no queued poll has an expiry at all
      ensures taken ==>
                && PopsLeast(old(data), top.value, data) && ok == dbOk
                && (top.value.expiry.Some? ==> top.value.expiry.value <= now)
                && (top.value.expiry.None? ==> forall q :: q in data ==> q.expiry.None?)
                && file == if dbOk then old(file) - {top.value} else old(file)
    {
      if closed {
        return None, false, false;
      }
      if |data| == 0 {
        return None, false, true;
      }
      TopIsLeastOfAll(data);
      var value := data[0];
      if !(value.expiry.None? || value.expiry.value <= now) {
        return Some(value), false, true;
      }
      top, ok := PopLocked(dbOk);
      taken := true;
      forall q | q in data ensures q in old(data) {
        assert q in multiset(data);
      }
    }

    method ClearLocked(dbOk: bool) returns (ok: bool)
      modifies this`data, this`file
      ensures ok == dbOk
      ensures if dbOk then data == [] && file == {} else data == old(data) && file == old(file)
    {
      if !dbOk {
        return false;
      }
      file, data := {}, [];
      return true;
    }

    method MergeLocked(values: seq<Poll>, dbOk: bool) returns (ok: bool)
      requires Valid()
      modifies this`data, this`file
      ensures Valid()
      ensures multiset(data) == multiset(old(data)) + multiset(values)
      ensures values == [] ==> ok && data == old(data) && file == old(file)
      ensures values != [] ==> ok == dbOk && file == if dbOk then old(file) + (set p | p in values) else old(file)
      ensures old(Synced()) && ok ==>
                (Synced() <==> Distinct(values) && forall p :: p in values ==> p !in old(data))
    {
      if |values| == 0 {
        return true;
      }
      data := data + values;
      Heapify();
      if dbOk {
        file := file + (set p | p in values);
      }
      if old(Synced()) {
        MergeStaysSynced(old(data), values, old(file));
      }
      return dbOk;
    }
  }

  predicate Distinct<X(==)>(xs: seq<X>) {
    forall i, j :: 0 <= i < j < |xs| ==> xs[i] != xs[j]
  }

  lemma {:induction false} DistinctCounts<X>(xs: seq<X>)
    ensures Distinct(xs) <==> forall x :: multiset(xs)[x] <= 1
  {
    if xs != [] {
      var n := |xs| - 1;
      DistinctCounts(xs[..n]);
      assert xs == xs[..n] + [xs[n]];
      if Distinct(xs) {
        assert xs[n] !in xs[..n];
      } else if Distinct(xs[..n]) {
        var i :| 0 <= i < n && xs[i] == xs[n];
        assert xs[i] in xs[..n];
        assert multiset(xs)[xs[n]] == multiset(xs[..n])[xs[n]] + 1;
      } else {
        var x :| multiset(xs[..n])[x] > 1;
        assert multiset(xs)[x] > 1;
      }
    }
  }

  lemma MergeStaysSynced(old_: seq<Poll>, values: seq<Poll>, file: set<Poll>)
    requires multiset(old_) == multiset(file)
    ensures multiset(old_) + multiset(values) == multiset(file + (set p | p in values)) <==>
            Distinct(values) && forall p :: p in values ==> p !in old_
  {
    var all := file + (set p | p in values);
    DistinctCounts(values);
    forall p ensures p in multiset(values) <==> p in values {
    }
    forall p ensures p in multiset(old_) <==> p in old_ {
    }
    if Distinct(values) && forall p :: p in values ==> p !in old_ {
      forall p ensures (multiset(old_) + multiset(values))[p] == multiset(all)[p] {
      }
    } else if !Distinct(values) {
      var x :| multiset(values)[x] > 1;
      assert (multiset(old_) + multiset(values))[x] > multiset(all)[x];
    } else {
      var p :| p in values && p in old_;
      assert (multiset(old_) + multiset(values))[p] > multiset(all)[p];
    }
  }

  /** Opening a file: read its rows, in whatever order the database returns them, refuse the whole file if
      one row is invalid, and heapify. */
  method New(rows: seq<Poll>, ghost file: set<Poll>) returns (heap: Option<FileHeap>)
    requires multiset(rows) == multiset(file)
    ensures heap.Some? <==> forall p :: p in file ==> p.expiry.Some? && p.guild != ""
    ensures heap.Some? ==>
              && fresh(heap.value) && heap.value.Valid() && heap.value.Synced()
              && heap.value.file == file && multiset(heap.value.data) == multiset(file) && !heap.value.closed
  {
    forall p ensures p in rows <==> p in file {
      assert p in multiset(rows) <==> p in multiset(file);
    }
    var h := new FileHeap(rows, file);
    for i := 0 to |rows|
      invariant forall k :: 0 <= k < i ==> Validate(rows[k])
    {
      if !Validate(rows[i]) {
        return None;
      }
    }
    h.Heapify();
    return Some(h);
  }

  /** Closing a queue in use and opening its file again: possible exactly when every queued poll is valid, and
      then the same polls are queued. */
  method Reopen(used: FileHeap, rows: seq<Poll>) returns (heap: Option<FileHeap>)
    requires used.Valid() && used.Synced() && multiset(rows) == multiset(used.file)
    modifies used`closed
    ensures used.closed
    ensures heap.Some? <==> forall p :: p in used.data ==> p.expiry.Some? && p.guild != ""
    ensures heap.Some? ==>
              && fresh(heap.value) && heap.value.Valid() && heap.value.Synced() && !heap.value.closed
              && multiset(heap.value.data) == multiset(used.data)
  {
    used.closed := true;
    heap := New(rows, used.file);
    SameValues(used.data, used.file);
  }

  lemma SameValues(data: seq<Poll>, file: set<Poll>)
    requires multiset(data) == multiset(file)
    ensures forall p :: p in data <==> p in file
  {
    forall p ensures p in data <==> p in file {
      assert p in multiset(data) <==> p in multiset(file);
    }
  }

  /** A poll whose expiry Discord did not tell is queued, and taken, like any other; while it is queued the
      file cannot be opened again. */
  method NoExpiryBlocksReopening(p: Poll) returns (heap: Option<FileHeap>)
    requires p.expiry.None?
    ensures heap.None?
  {
    var first := New([], {});
    var queue := first.value;
    var _ := queue.PushLocked(p, true);
    assert p in multiset(queue.data);
    SameValues(queue.data, queue.file);
    heap := Reopen(queue, queue.data);
  }
}
