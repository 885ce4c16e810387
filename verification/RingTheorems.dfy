/** What the ring protocol guarantees in every state a timely run can reach. */
module RingTheorems {
  import opened Options
  import opened Sorting
  import opened RingIndex
  import opened RingProtocol
  import opened RingInvariant

  /** The slots from head to tail, read the way the source reads them. */
  function Live(c: Config, s: State): (live: seq<Option<Value>>)
    requires s.head <= s.tail
    ensures |live| == s.tail - s.head
  {
    seq(s.tail - s.head, (i: nat) =>
      var m := c.Mask((s.head + i) % WORD);
      if m < |s.slots| then s.slots[m] else None)
  }

  function Pointers(values: seq<Value>): seq<Option<Value>> {
    seq(|values|, i requires 0 <= i < |values| => Some(values[i]))
  }

  /** Linearizability: the values popped in CAS order, then the slots from head to tail, are the values
      the writer appended: none lost, duplicated or reordered, and never more than the ring holds. */
  lemma Linearizable(c: Config, s: State)
    requires c.Valid() && Reachable(c, s)
    ensures s.head <= s.tail <= s.head + c.Size()
    ensures Pointers(s.popped) + Live(c, s) == Pointers(s.appended)
  {
    hide Live, Pointers, Reachable, BitAnd, Pow2;
    LiveIsAppended(c, s);
    PointersSplit(s.appended, s.head);
  }

  lemma PointersSplit(values: seq<Value>, k: nat)
    requires k <= |values|
    ensures Pointers(values[..k]) + Pointers(values[k..]) == Pointers(values)
  {
  }

  lemma LiveFromRing(c: Config, s: State)
    requires c.Valid() && RingInv(c, s)
    ensures Live(c, s) == Pointers(s.appended[s.head..])
  {
    forall i: nat | i < s.tail - s.head ensures Live(c, s)[i] == Some(s.appended[s.head + i]) {
      MaskExact(c, s.head + i);
      assert Slot(c.Size(), s.slots, s.head + i) == Some(s.appended[s.head + i]);
    }
  }

  lemma LiveIsAppended(c: Config, s: State)
    requires c.Valid() && Reachable(c, s)
    ensures s.head <= s.tail <= s.head + c.Size() && s.tail == |s.appended|
    ensures s.popped == s.appended[..s.head] && Live(c, s) == Pointers(s.appended[s.head..])
  {
    hide Live, Pointers, BitAnd, Pow2;
    ReachableInv(c, s);
    LiveFromRing(c, s);
  }

  /** No popper ever dereferences a nil slot: the read is always possible. */
  lemma NoNilDereference(c: Config, s: State, id: ThreadId)
    requires c.Valid() && Reachable(c, s) && id in s.poppers && s.poppers[id].ReadSlot?
    ensures PopEnabled(c, s, id, GetSlot)
  {
    ReachableInv(c, s);
    assert PopperOk(s.head, s.appended, s.poppers[id]);
    SlotReadIsRight(c, s, s.poppers[id].h);
  }

  /** "Empty" is answered at the tail load only when the ring is empty then, and always when the
      popper's head is still current. */
  lemma EmptyIsTrue(c: Config, s: State, id: ThreadId)
    requires c.Valid() && Reachable(c, s)
    requires PopEnabled(c, s, id, GetTail) && Timely(s, ByPopper(id, GetTail))
    ensures id !in PopApply(c, s, id, GetTail).poppers ==> s.head == s.tail
    ensures s.head == s.tail && s.poppers[id].h == s.head ==> id !in PopApply(c, s, id, GetTail).poppers
  {
    ReachableInv(c, s);
    assert PopperOk(s.head, s.appended, s.poppers[id]);
    WrapInjective(s.poppers[id].h, s.tail);
  }

  /** A timely CAS succeeds exactly when head has not moved since it was loaded, and then it takes the
      oldest value of a ring that is not empty. */
  lemma CasTakesOldest(c: Config, s: State, id: ThreadId)
    requires c.Valid() && Reachable(c, s)
    requires PopEnabled(c, s, id, Cas) && Timely(s, ByPopper(id, Cas))
    ensures CasMatches(s, s.poppers[id].h) <==> s.poppers[id].h == s.head
    ensures CasMatches(s, s.poppers[id].h) ==>
              |s.popped| < |s.appended| && s.poppers[id].v == s.appended[|s.popped|]
  {
    ReachableInv(c, s);
    assert PopperOk(s.head, s.appended, s.poppers[id]);
    WrapInjective(s.poppers[id].h, s.head);
  }

  /** The assumption of timely runs is exact, CAS by CAS: one that matches the wrapped counter finds head
      unmoved if and only if it is timely. */
  lemma MatchingCasIsFreshIffTimely(c: Config, s: State, id: ThreadId)
    requires c.Valid() && Reachable(c, s) && PopEnabled(c, s, id, Cas) && CasMatches(s, s.poppers[id].h)
    ensures s.poppers[id].h == s.head <==> Timely(s, ByPopper(id, Cas))
  {
    hide BitAnd, Pow2;
    ReachableInv(c, s);
    assert PopperOk(s.head, s.appended, s.poppers[id]);
    if Timely(s, ByPopper(id, Cas)) {
      WrapInjective(s.poppers[id].h, s.head);
    }
  }

  /** Likewise the empty test: one that matches finds tail at the loaded head if and only if it is timely. */
  lemma MatchingTailIsFreshIffTimely(c: Config, s: State, id: ThreadId)
    requires c.Valid() && Reachable(c, s) && PopEnabled(c, s, id, GetTail) && SameCounter(s.poppers[id].h, s.tail)
    ensures s.poppers[id].h == s.tail <==> Timely(s, ByPopper(id, GetTail))
  {
    hide BitAnd, Pow2;
    ReachableInv(c, s);
    assert PopperOk(s.head, s.appended, s.poppers[id]);
    if Timely(s, ByPopper(id, GetTail)) {
      WrapInjective(s.poppers[id].h, s.tail);
    }
  }

  /** Conservation: every accepted push is popped, in the ring, in the writer's hand, in the channel or
      counted as dropped; what entered the ring is a subsequence of what was accepted. */
  lemma Conservation(c: Config, s: State)
    requires c.Valid() && Reachable(c, s)
    ensures s.head <= s.tail
    ensures |s.accepted| == |s.popped| + |Live(c, s)| + |InHand(s.writer)| + |s.channel| + s.dropped
    ensures s.tail == |s.appended| && |s.popped| == s.head && Selects(s.appended, s.kept, s.accepted)
    ensures s.accepted[|s.appended| + s.dropped..] == InHand(s.writer) + s.channel
  {
    ReachableHistory(c, s);
    SelectsMore(s.appended, s.kept, s.accepted, |s.appended| + s.dropped);
  }

  lemma SelectsMore(part: seq<Value>, kept: seq<nat>, whole: seq<Value>, n: nat)
    requires n <= |whole| && Selects(part, kept, whole[..n])
    ensures Selects(part, kept, whole)
  {
  }

  lemma {:induction false} IncreasingBelow(xs: seq<nat>, k: nat)
    requires Increasing(xs) && k < |xs| && forall i :: 0 <= i < |xs| ==> xs[i] < |xs|
    ensures xs[k] == k
  {
    IncreasingAtLeast(xs, k);
    IncreasingAtMost(xs, k);
  }

  lemma {:induction false} IncreasingAtLeast(xs: seq<nat>, k: nat)
    requires Increasing(xs) && k < |xs|
    ensures xs[k] >= k
  {
    if k > 0 {
      IncreasingAtLeast(xs, k - 1);
    }
  }

  lemma {:induction false} IncreasingAtMost(xs: seq<nat>, k: nat)
    requires Increasing(xs) && k < |xs| && forall i :: 0 <= i < |xs| ==> xs[i] < |xs|
    ensures xs[k] <= k
    decreases |xs| - k
  {
    if k + 1 < |xs| {
      IncreasingAtMost(xs, k + 1);
    }
  }

  /** Under F_BLOCKFULL nothing is dropped and the order is exact: accepted = popped, ring, hand, channel. */
  lemma ExactFifoWhenBlocking(c: Config, s: State)
    requires c.Valid() && Reachable(c, s) && c.policy.BlockFull?
    ensures s.dropped == 0 && s.head <= s.tail
    ensures Pointers(s.accepted) == Pointers(s.popped) + Live(c, s) + Pointers(InHand(s.writer) + s.channel)
  {
    ReachableInv(c, s);
    Linearizable(c, s);
    var n := |s.appended|;
    forall i | 0 <= i < n ensures s.appended[i] == s.accepted[i] {
      IncreasingBelow(s.kept, i);
    }
    assert s.accepted == s.appended + (InHand(s.writer) + s.channel) by {
      assert s.accepted == s.accepted[..n] + s.accepted[n..];
      assert s.accepted[..n] == s.appended;
    }
    assert Pointers(s.accepted) == Pointers(s.appended) + Pointers(InHand(s.writer) + s.channel);
  }

  /** No lost wake-up for a blocked writer: if it is parked and the ring has room, the token is present or
      some popper is between its successful CAS and its send. */
  lemma ParkedWriterIsWoken(c: Config, s: State)
    requires c.Valid() && Reachable(c, s) && s.writer.Parked?
    ensures SeesFull(c, s) || s.token || exists id :: id in s.poppers && s.poppers[id].Signal?
  {
    ReachableInv(c, s);
    SeesFullExact(c, s);
  }

  /** No lost wake-up for a consumer: one asleep on an open channel, of whatever generation, means the
      queue is active and empty, or the writer is about to release, or Stop is. */
  lemma SleepingConsumerIsWoken(c: Config, s: State, id: ThreadId)
    requires c.Valid() && Reachable(c, s) && id in s.awaiters && s.awaiters[id].Asleep?
    requires !IsClosed(s, s.awaiters[id].gen)
    ensures (s.active && s.head == s.tail) || s.writer.Release? || s.stopper.ActiveCleared? || s.stopper.DoneClosed?
    ensures s.awaiters[id].gen == s.gen
  {
    ReachableInv(c, s);
    assert AwaiterOk(s, s.awaiters[id]);
  }

  function NextAwait(p: AwaitPc): AwaitAction {
    match p
    case TakeLock => Lock
    case LoadActive => ReadActive
    case AwaitHead => ReadHead
    case AwaitTail(_) => ReadTail
    case Join => Subscribe
    case Asleep(_) => Wake
  }

  /** The subscribers' mutex is never held by a goroutine that cannot move, so a pending release happens:
      if the mutex is taken its holder has a step, and if it is free the release itself is possible. */
  lemma ReleaseIsNotBlocked(c: Config, s: State)
    requires c.Valid() && Reachable(c, s)
    ensures s.mutex.Some? ==>
              var id := s.mutex.value;
              id in s.awaiters && AwaitEnabled(s, id, NextAwait(s.awaiters[id])) && !s.awaiters[id].Asleep?
    ensures s.mutex.None? && s.writer.Release? ==> WriterEnabled(c, s, WriterRelease)
    ensures s.mutex.None? && s.stopper.DoneClosed? ==> StopEnabled(s, StopRelease)
    ensures forall p, q :: p in s.awaiters && q in s.awaiters && HoldsMutex(s.awaiters[p]) && HoldsMutex(s.awaiters[q]) ==> p == q
  {
    ReachableInv(c, s);
  }

  /** The writer leaves its loop only after `done` was closed, and no value it received is left behind. */
  lemma WriterExitIsClean(c: Config, s: State)
    requires c.Valid() && Reachable(c, s) && s.writer.Exited?
    ensures s.done && !s.active
    ensures |s.appended| + s.dropped <= |s.accepted| && s.accepted[|s.appended| + s.dropped..] == s.channel
  {
    ReachableInv(c, s);
  }
}
