/** The inductive invariant of the ring protocol, in five parts, and its preservation by every action. */
module RingInvariant {
  import opened Options
  import opened Sorting
  import opened RingIndex
  import opened RingProtocol

  /** The slot a counter names, or None when the array is too short. */
  function Slot(size: nat, slots: seq<Option<Value>>, i: nat): Option<Value>
    requires size > 0
  {
    if i % size < |slots| then slots[i % size] else None
  }

  /** The popped values, then the slots from head to tail, are the appended values; no slot below tail is nil. */
  ghost predicate RingOk(size: nat, slots: seq<Option<Value>>, head: nat, tail: nat, appended: seq<Value>, popped: seq<Value>)
    requires size > 0
  {
    && |slots| == size
    && head <= tail == |appended|
    && tail <= head + size
    && popped == appended[..head]
    && (forall i: nat :: head <= i < tail ==> Slot(size, slots, i) == Some(appended[i]))
    && (forall i: nat :: i < tail ==> Slot(size, slots, i).Some?)
  }

  /** Where the writer may be, given how full the ring is. */
  ghost predicate WriterOk(c: Config, slots: seq<Option<Value>>, head: nat, tail: nat, writer: WriterPc) {
    && (writer.Publish? ==> Slot(c.Size(), slots, tail) == Some(writer.v))
    && (writer.Store? || writer.Publish? || (c.policy.BlockFull? && (writer.Receive? || writer.Holding?)) ==>
          tail < head + c.Size())
    && (c.policy.DropFull? ==> !writer.CheckFull? && !writer.Parked?)
  }

  ghost predicate RingInv(c: Config, s: State) {
    && RingOk(c.Size(), s.slots, s.head, s.tail, s.appended, s.popped)
    && WriterOk(c, s.slots, s.head, s.tail, s.writer)
  }

  /** A popper's loaded head never runs ahead, what it read is right if head has not moved since, and a value
      it took is one that left the ring. */
  ghost predicate PopperOk(head: nat, appended: seq<Value>, p: PopPc) {
    match p
    case LoadHead => true
    case LoadTail(h) => h <= head
    case ReadSlot(h) => h <= head && h < |appended|
    case Swap(h, v) => h <= head && h < |appended| && (h == head ==> v == appended[h])
    case Signal(v) => exists i :: 0 <= i < head && i < |appended| && appended[i] == v
  }

  ghost predicate PoppersOk(head: nat, appended: seq<Value>, poppers: map<ThreadId, PopPc>) {
    forall id :: id in poppers ==> PopperOk(head, appended, poppers[id])
  }

  /** The value the writer has received and not yet appended or dropped. */
  function InHand(writer: WriterPc): seq<Value> {
    match writer
    case Holding(v) => [v]
    case Store(v) => [v]
    case Publish(v) => [v]
    case _ => []
  }

  /** `part` is what `kept` selects from `whole`, in order. */
  ghost predicate Selects(part: seq<Value>, kept: seq<nat>, whole: seq<Value>) {
    && |kept| == |part| && Increasing(kept)
    && (forall i :: 0 <= i < |kept| ==> kept[i] < |whole| && part[i] == whole[kept[i]])
  }

  /** The accepted values are those the writer is done with, then the one in its hand, then the channel;
      of the first group, `kept` were appended and the rest dropped. */
  ghost predicate HistoryOk(block: bool, accepted: seq<Value>, hand: seq<Value>, channel: seq<Value>,
                            appended: seq<Value>, kept: seq<nat>, dropped: nat) {
    && |accepted| == |appended| + dropped + |hand| + |channel|
    && accepted[|appended| + dropped..] == hand + channel
    && Selects(appended, kept, accepted[..|appended| + dropped])
    && (block ==> dropped == 0)
  }

  ghost predicate HistoryInv(c: Config, s: State) {
    HistoryOk(c.policy.BlockFull?, s.accepted, InHand(s.writer), s.channel, s.appended, s.kept, s.dropped)
  }

  ghost predicate SomeSignal(poppers: map<ThreadId, PopPc>) {
    exists id :: id in poppers && poppers[id].Signal?
  }

  /** The token is there, or a popper is about to offer it. */
  ghost predicate TokenComing(s: State) {
    s.token || SomeSignal(s.poppers)
  }

  /** Stop has cleared `active` but not yet released the consumers. */
  predicate StopReleasing(s: State) {
    s.stopper.ActiveCleared? || s.stopper.DoneClosed?
  }

  predicate HoldsMutex(p: AwaitPc) {
    p.LoadActive? || p.AwaitHead? || p.AwaitTail? || p.Join?
  }

  /** Why it is right for a consumer to sleep now. */
  predicate MaySleep(s: State) {
    (s.active && s.head == s.tail) || s.writer.Release? || StopReleasing(s)
  }

  ghost predicate AwaiterOk(s: State, p: AwaitPc) {
    match p
    case TakeLock => true
    case LoadActive => true
    case AwaitHead => s.active || StopReleasing(s)
    case AwaitTail(h) => (s.active || StopReleasing(s)) && h <= s.head
    case Join => MaySleep(s)
    case Asleep(g) => g <= s.gen && (!IsClosed(s, g) ==> MaySleep(s))
  }

  ghost predicate WakeInv(c: Config, s: State) {
    && (s.writer.Parked? ==> s.tail == s.head + c.Size() || TokenComing(s))
    && (forall id :: id in s.awaiters ==> AwaiterOk(s, s.awaiters[id]))
    && (s.active <==> s.stopper.Running?)
    && (s.done <==> s.stopper.DoneClosed? || s.stopper.Stopped?)
    && (s.writer.Exited? ==> s.done)
  }

  /** The mutex is held by exactly the consumer that is between its lock and its unlock. */
  ghost predicate MutexOk(mutex: Option<ThreadId>, awaiters: map<ThreadId, AwaitPc>) {
    forall id :: id in awaiters && HoldsMutex(awaiters[id]) <==> mutex == Some(id)
  }

  ghost predicate Inv(c: Config, s: State) {
    && RingInv(c, s)
    && PoppersOk(s.head, s.appended, s.poppers)
    && HistoryInv(c, s)
    && WakeInv(c, s)
    && MutexOk(s.mutex, s.awaiters)
  }

  // ---------------------------------------------------------------- initial state

  lemma InitHolds(c: Config)
    requires c.Valid()
    ensures Inv(c, Init(c))
  {
  }

  // ---------------------------------------------------------------- facts about the wrapped reads

  /** The writer's view of Full() is exact. */
  lemma SeesFullExact(c: Config, s: State)
    requires c.Valid() && RingInv(c, s)
    ensures SeesFull(c, s) <==> s.tail == s.head + c.Size()
  {
    RingSizeFits(c.logSize);
    WrapInjective(s.head, s.tail);
  }

  lemma MaskExact(c: Config, x: nat)
    requires c.Valid()
    ensures c.Mask(x % WORD) == x % c.Size() < c.Size()
  {
    MaskOfWrapped(x, c.logSize);
  }

  // ---------------------------------------------------------------- ring steps on their own state

  lemma StoreKeeps(size: nat, slots: seq<Option<Value>>, head: nat, tail: nat, appended: seq<Value>, popped: seq<Value>, v: Value)
    requires size > 0 && RingOk(size, slots, head, tail, appended, popped) && tail < head + size
    ensures tail % size < |slots|
    ensures var slots' := slots[tail % size := Some(v)];
            RingOk(size, slots', head, tail, appended, popped) && Slot(size, slots', tail) == Some(v)
  {
    assert tail % size < size;
    var slots' := slots[tail % size := Some(v)];
    forall i: nat | head <= i < tail ensures Slot(size, slots', i) == Some(appended[i]) {
      assert Slot(size, slots, i) == Some(appended[i]);
      SlotsDistinct(i, tail, size);
    }
    forall i: nat | i < tail ensures Slot(size, slots', i).Some? {
      assert Slot(size, slots, i).Some?;
    }
  }

  lemma AppendKeeps(size: nat, slots: seq<Option<Value>>, head: nat, tail: nat, appended: seq<Value>, popped: seq<Value>, v: Value)
    requires size > 0 && RingOk(size, slots, head, tail, appended, popped) && tail < head + size
    requires Slot(size, slots, tail) == Some(v)
    ensures RingOk(size, slots, head, tail + 1, appended + [v], popped)
  {
    assert (appended + [v])[..head] == appended[..head];
  }

  lemma PopKeeps(size: nat, slots: seq<Option<Value>>, head: nat, tail: nat, appended: seq<Value>, popped: seq<Value>, v: Value)
    requires size > 0 && RingOk(size, slots, head, tail, appended, popped)
    requires head < tail && v == appended[head]
    ensures RingOk(size, slots, head + 1, tail, appended, popped + [v])
  {
  }

  // ---------------------------------------------------------------- the writer

  lemma WriterKeepsRing(c: Config, s: State, a: WriterAction)
    requires c.Valid() && RingInv(c, s) && WriterEnabled(c, s, a)
    ensures RingInv(c, WriterApply(c, s, a))
  {
    SeesFullExact(c, s);
    if a.StoreSlot? {
      MaskExact(c, s.tail);
      StoreKeeps(c.Size(), s.slots, s.head, s.tail, s.appended, s.popped, s.writer.v);
    } else if a.StoreTail? {
      AppendKeeps(c.Size(), s.slots, s.head, s.tail, s.appended, s.popped, s.writer.v);
    }
  }

  /** Where the writer goes next. */
  lemma WriterMoves(c: Config, s: State, a: WriterAction)
    requires WriterEnabled(c, s, a)
    ensures var next := WriterNext(c, s, a);
            && (next.Parked? ==> a.EvalFull? && SeesFull(c, s))
            && (next.Exited? ==> s.done)
            && (next.Release? <==> a.StoreTail?) && (s.writer.Release? <==> a.WriterRelease?)
            && (a.WriterRelease? ==> s.mutex.None?) && (a.StoreTail? ==> s.writer.Publish?)
  {
    hide SlotOf, SeesFull;
  }

  lemma WriterKeepsPoppers(c: Config, s: State, a: WriterAction)
    requires PoppersOk(s.head, s.appended, s.poppers) && WriterEnabled(c, s, a)
    ensures var t := WriterApply(c, s, a); PoppersOk(t.head, t.appended, t.poppers)
  {
    WriterMoves(c, s, a);
    hide WriterNext, WriterEnabled, SlotOf, SeesFull, PopperOk;
    var t := WriterApply(c, s, a);
    forall id | id in t.poppers ensures PopperOk(t.head, t.appended, t.poppers[id]) {
      AppendedGrows(s.head, s.appended, t.appended, s.poppers[id]);
    }
  }

  /** A popper that is right stays right when the writer appends. */
  lemma AppendedGrows(head: nat, appended: seq<Value>, more: seq<Value>, p: PopPc)
    requires PopperOk(head, appended, p) && appended <= more
    ensures PopperOk(head, more, p)
  {
    if p.Signal? {
      var i :| 0 <= i < head && i < |appended| && appended[i] == p.v;
      assert more[i] == p.v;
    }
  }

  lemma AppendHistory(block: bool, accepted: seq<Value>, channel: seq<Value>, appended: seq<Value>,
                      kept: seq<nat>, dropped: nat, v: Value)
    requires HistoryOk(block, accepted, [v], channel, appended, kept, dropped)
    ensures HistoryOk(block, accepted, [], channel, appended + [v], kept + [|accepted| - |channel| - 1], dropped)
  {
    var n := |appended| + dropped;
    assert accepted[n] == accepted[n..][0] == v;
    assert accepted[n + 1..] == accepted[n..][1..] == channel;
    assert accepted[..n + 1][..n] == accepted[..n];
  }

  lemma DropHistory(accepted: seq<Value>, channel: seq<Value>, appended: seq<Value>, kept: seq<nat>, dropped: nat, v: Value)
    requires HistoryOk(false, accepted, [v], channel, appended, kept, dropped)
    ensures HistoryOk(false, accepted, [], channel, appended, kept, dropped + 1)
  {
    var n := |appended| + dropped;
    assert accepted[n + 1..] == accepted[n..][1..] == channel;
    assert accepted[..n + 1][..n] == accepted[..n];
  }

  lemma TakeHistory(block: bool, accepted: seq<Value>, channel: seq<Value>, appended: seq<Value>, kept: seq<nat>, dropped: nat)
    requires channel != [] && HistoryOk(block, accepted, [], channel, appended, kept, dropped)
    ensures HistoryOk(block, accepted, [channel[0]], channel[1..], appended, kept, dropped)
  {
    assert channel == [channel[0]] + channel[1..];
  }

  lemma TakeKeepsHistory(c: Config, s: State)
    requires HistoryInv(c, s) && WriterEnabled(c, s, TakeValue)
    ensures HistoryInv(c, WriterApply(c, s, TakeValue))
  {
    TakeHistory(c.policy.BlockFull?, s.accepted, s.channel, s.appended, s.kept, s.dropped);
  }

  lemma AdmitKeepsHistory(c: Config, s: State)
    requires HistoryInv(c, s) && WriterEnabled(c, s, Admit)
    requires c.policy.BlockFull? ==> !SeesFull(c, s)
    ensures HistoryInv(c, WriterApply(c, s, Admit))
  {
    if SeesFull(c, s) {
      DropHistory(s.accepted, s.channel, s.appended, s.kept, s.dropped, s.writer.v);
    }
  }

  lemma CountsOk(block: bool, accepted: seq<Value>, hand: seq<Value>, channel: seq<Value>,
                 appended: seq<Value>, kept: seq<nat>, dropped: nat)
    requires HistoryOk(block, accepted, hand, channel, appended, kept, dropped)
    ensures |accepted| == |appended| + dropped + |hand| + |channel|
  {
  }

  lemma AppendKeepsHistory(c: Config, s: State)
    requires HistoryInv(c, s) && WriterEnabled(c, s, StoreTail)
    ensures HistoryInv(c, WriterApply(c, s, StoreTail))
  {
    hide HistoryOk;
    CountsOk(c.policy.BlockFull?, s.accepted, InHand(s.writer), s.channel, s.appended, s.kept, s.dropped);
    AppendHistory(c.policy.BlockFull?, s.accepted, s.channel, s.appended, s.kept, s.dropped, s.writer.v);
  }

  lemma WriterKeepsHistory(c: Config, s: State, a: WriterAction)
    requires HistoryInv(c, s) && WriterEnabled(c, s, a)
    requires c.policy.BlockFull? && s.writer.Holding? ==> !SeesFull(c, s)
    ensures HistoryInv(c, WriterApply(c, s, a))
  {
    match a
    case TakeValue => TakeKeepsHistory(c, s);
    case Admit => AdmitKeepsHistory(c, s);
    case StoreTail => AppendKeepsHistory(c, s);
    case _ => assert InHand(WriterApply(c, s, a).writer) == InHand(s.writer);
  }

  lemma WriterKeepsWake(c: Config, s: State, a: WriterAction)
    requires c.Valid() && RingInv(c, s) && WakeInv(c, s) && MutexOk(s.mutex, s.awaiters) && WriterEnabled(c, s, a)
    ensures WakeInv(c, WriterApply(c, s, a))
  {
    SeesFullExact(c, s);
    WriterMoves(c, s, a);
    hide WriterNext, WriterEnabled, SlotOf, BitAnd, Pow2, SeesFull, RingInv;
    var t := WriterApply(c, s, a);
    forall id | id in t.awaiters ensures AwaiterOk(t, t.awaiters[id]) {
      assert AwaiterOk(s, s.awaiters[id]);
    }
  }

  lemma WriterKeepsAll(c: Config, s: State, a: WriterAction)
    requires c.Valid() && Inv(c, s) && WriterEnabled(c, s, a)
    ensures Inv(c, WriterApply(c, s, a))
  {
    hide BitAnd, Pow2;
    WriterKeepsRing(c, s, a);
    WriterKeepsPoppers(c, s, a);
    SeesFullExact(c, s);
    WriterKeepsHistory(c, s, a);
    WriterKeepsWake(c, s, a);
  }

  // ---------------------------------------------------------------- Stop and Push

  lemma StopKeeps(c: Config, s: State, a: StopAction)
    requires Inv(c, s) && StopEnabled(s, a)
    ensures Inv(c, StopApply(s, a))
  {
    var t := StopApply(s, a);
    forall id | id in t.awaiters ensures AwaiterOk(t, t.awaiters[id]) {
      assert AwaiterOk(s, s.awaiters[id]);
    }
  }

  lemma SendHistory(block: bool, accepted: seq<Value>, hand: seq<Value>, channel: seq<Value>, appended: seq<Value>,
                    kept: seq<nat>, dropped: nat, v: Value)
    requires HistoryOk(block, accepted, hand, channel, appended, kept, dropped)
    ensures HistoryOk(block, accepted + [v], hand, channel + [v], appended, kept, dropped)
  {
    var n := |appended| + dropped;
    assert (accepted + [v])[n..] == accepted[n..] + [v] == hand + (channel + [v]);
    assert (accepted + [v])[..n] == accepted[..n];
  }

  lemma PushKeeps(c: Config, s: State, id: ThreadId, a: PushAction)
    requires Inv(c, s) && PushEnabled(c, s, id, a)
    ensures Inv(c, PushApply(c, s, id, a))
  {
    var t := PushApply(c, s, id, a);
    if a.Send? {
      SendHistory(c.policy.BlockFull?, s.accepted, InHand(s.writer), s.channel, s.appended, s.kept, s.dropped, s.pushers[id]);
    }
    forall p | p in t.awaiters ensures AwaiterOk(t, t.awaiters[p]) {
      assert AwaiterOk(s, s.awaiters[p]);
    }
  }

  // ---------------------------------------------------------------- Pop

  /** A CAS that matches in time finds head unmoved, so it takes the oldest value in the ring. */
  lemma MatchingCasIsFresh(c: Config, s: State, id: ThreadId)
    requires RingInv(c, s) && PoppersOk(s.head, s.appended, s.poppers)
    requires id in s.poppers && s.poppers[id].Swap? && s.head < s.poppers[id].h + WORD
    requires CasMatches(s, s.poppers[id].h)
    ensures s.poppers[id].h == s.head < s.tail && s.poppers[id].v == s.appended[s.head]
  {
    assert PopperOk(s.head, s.appended, s.poppers[id]);
    WrapInjective(s.poppers[id].h, s.head);
  }

  ghost predicate OnlyMoves<X>(m: map<ThreadId, X>, n: map<ThreadId, X>, id: ThreadId) {
    && (forall p :: p != id ==> (p in n <==> p in m))
    && (forall p :: p != id && p in m ==> n[p] == m[p])
  }

  lemma MoveOne<X>(m: map<ThreadId, X>, id: ThreadId, next: Option<X>)
    ensures OnlyMoves(m, Moved(m, id, next), id)
    ensures id in Moved(m, id, next) <==> next.Some?
    ensures next.Some? ==> Moved(m, id, next)[id] == next.value
  {
  }

  lemma PopKeepsRing(c: Config, s: State, id: ThreadId, a: PopAction)
    requires c.Valid() && RingInv(c, s) && PoppersOk(s.head, s.appended, s.poppers)
    requires PopEnabled(c, s, id, a) && Timely(s, ByPopper(id, a))
    ensures RingInv(c, PopApply(c, s, id, a))
  {
    hide PopNext, Moved, SlotOf, BitAnd, Pow2;
    if Takes(s, id, a) {
      MatchingCasIsFresh(c, s, id);
      PopKeeps(c.Size(), s.slots, s.head, s.tail, s.appended, s.popped, s.poppers[id].v);
    }
  }

  /** What a popper reads at a slot it may still win is the value appended there. */
  lemma SlotReadIsRight(c: Config, s: State, h: nat)
    requires c.Valid() && RingInv(c, s) && h <= s.head && h < s.tail
    ensures SlotOf(c, h) < |s.slots| && s.slots[SlotOf(c, h)].Some?
    ensures h == s.head ==> s.slots[SlotOf(c, h)] == Some(s.appended[h])
  {
    MaskExact(c, h);
    assert Slot(c.Size(), s.slots, h).Some?;
  }

  lemma PopperAdvances(c: Config, s: State, id: ThreadId, a: PopAction)
    requires c.Valid() && RingInv(c, s) && PoppersOk(s.head, s.appended, s.poppers)
    requires PopEnabled(c, s, id, a) && Timely(s, ByPopper(id, a))
    ensures var next := PopNext(c, s, id, a);
            next.Some? ==> PopperOk(PopApply(c, s, id, a).head, s.appended, next.value)
  {
    hide SlotOf, BitAnd, Pow2, Moved;
    assert id in s.poppers ==> PopperOk(s.head, s.appended, s.poppers[id]);
    match a
    case GetTail => WrapInjective(s.poppers[id].h, s.tail);
    case GetSlot => SlotReadIsRight(c, s, s.poppers[id].h);
    case Cas =>
      if Takes(s, id, a) {
        MatchingCasIsFresh(c, s, id);
        assert s.appended[s.head] == s.poppers[id].v;
      }
    case _ =>
  }

  /** A popper that is right stays right when others move head on. */
  lemma HeadMoves(head: nat, head': nat, appended: seq<Value>, p: PopPc)
    requires PopperOk(head, appended, p) && head <= head'
    ensures PopperOk(head', appended, p)
  {
  }

  lemma PopKeepsPoppers(c: Config, s: State, id: ThreadId, a: PopAction)
    requires c.Valid() && RingInv(c, s) && PoppersOk(s.head, s.appended, s.poppers)
    requires PopEnabled(c, s, id, a) && Timely(s, ByPopper(id, a))
    ensures var t := PopApply(c, s, id, a); PoppersOk(t.head, t.appended, t.poppers)
  {
    PopperAdvances(c, s, id, a);
    MoveOne(s.poppers, id, PopNext(c, s, id, a));
    hide PopNext, Moved, PopperOk, RingInv;
    var t := PopApply(c, s, id, a);
    forall p | p in t.poppers ensures PopperOk(t.head, t.appended, t.poppers[p]) {
      if p != id {
        HeadMoves(s.head, t.head, s.appended, t.poppers[p]);
      }
    }
  }

  /** Under F_BLOCKFULL a popper that took a value goes on to offer the token; and one leaves that point only
      by offering it. */
  lemma PopSignals(c: Config, s: State, id: ThreadId, a: PopAction)
    requires PopEnabled(c, s, id, a)
    ensures Takes(s, id, a) && c.policy.BlockFull? ==> PopNext(c, s, id, a).Some? && PopNext(c, s, id, a).value.Signal?
    ensures id in s.poppers && s.poppers[id].Signal? ==> a.OfferToken?
  {
    hide SlotOf, SameCounter, CasMatches;
  }

  lemma TokenKeepsComing(c: Config, s: State, id: ThreadId, a: PopAction)
    requires PopEnabled(c, s, id, a)
    requires c.policy.BlockFull? && (TokenComing(s) || Takes(s, id, a))
    ensures TokenComing(PopApply(c, s, id, a))
  {
    PopSignals(c, s, id, a);
    MoveOne(s.poppers, id, PopNext(c, s, id, a));
    hide PopNext, Moved, PopEnabled, Takes;
    var t := PopApply(c, s, id, a);
    if Takes(s, id, a) {
      assert id in t.poppers && t.poppers[id].Signal?;
    } else if !t.token {
      var p :| p in s.poppers && s.poppers[p].Signal?;
      assert p in t.poppers && t.poppers[p].Signal?;
    }
  }

  /** A sleeper's reason survives a pop: a ring that was empty has nothing to pop. */
  lemma PopKeepsSleepers(c: Config, s: State, t: State)
    requires forall p :: p in s.awaiters ==> AwaiterOk(s, s.awaiters[p])
    requires t.awaiters == s.awaiters && t.gen == s.gen && t.genClosed == s.genClosed && t.active == s.active
    requires t.writer == s.writer && t.stopper == s.stopper && t.tail == s.tail
    requires s.head <= t.head && (s.head == s.tail ==> t.head == s.head)
    ensures forall p :: p in t.awaiters ==> AwaiterOk(t, t.awaiters[p])
  {
    forall p | p in t.awaiters ensures AwaiterOk(t, t.awaiters[p]) {
      assert AwaiterOk(s, s.awaiters[p]);
    }
  }

  lemma PopKeepsWake(c: Config, s: State, id: ThreadId, a: PopAction)
    requires WakeInv(c, s) && PopEnabled(c, s, id, a)
    requires Takes(s, id, a) ==> s.head < s.tail
    requires c.policy.DropFull? ==> !s.writer.Parked?
    ensures WakeInv(c, PopApply(c, s, id, a))
  {
    hide PopNext, Moved, CasMatches, AwaiterOk, SlotOf, Pow2, TokenComing;
    var t := PopApply(c, s, id, a);
    if s.writer.Parked? && (TokenComing(s) || Takes(s, id, a)) {
      TokenKeepsComing(c, s, id, a);
    }
    PopKeepsSleepers(c, s, t);
  }

  lemma PopKeepsAll(c: Config, s: State, id: ThreadId, a: PopAction)
    requires c.Valid() && Inv(c, s) && PopEnabled(c, s, id, a) && Timely(s, ByPopper(id, a))
    ensures Inv(c, PopApply(c, s, id, a))
  {
    PopKeepsRing(c, s, id, a);
    PopKeepsPoppers(c, s, id, a);
    if Takes(s, id, a) {
      MatchingCasIsFresh(c, s, id);
    }
    PopKeepsWake(c, s, id, a);
    hide PopNext, Moved, PopEnabled, Takes, RingOk, PoppersOk, WakeInv, MutexOk, HistoryOk;
  }

  // ---------------------------------------------------------------- Await

  lemma MutexMoves(mutex: Option<ThreadId>, mutex': Option<ThreadId>, m: map<ThreadId, AwaitPc>, n: map<ThreadId, AwaitPc>, id: ThreadId)
    requires MutexOk(mutex, m) && OnlyMoves(m, n, id)
    requires mutex' == mutex || (mutex == None && mutex' == Some(id)) || (mutex == Some(id) && mutex' == None)
    requires id in n && HoldsMutex(n[id]) <==> mutex' == Some(id)
    ensures MutexOk(mutex', n)
  {
    forall p ensures p in n && HoldsMutex(n[p]) <==> mutex' == Some(p) {
      assert p in m && HoldsMutex(m[p]) <==> mutex == Some(p);
    }
  }

  /** A consumer holds the mutex at exactly the points between its lock and its unlock. */
  lemma AwaitHolds(s: State, id: ThreadId, a: AwaitAction)
    requires AwaitEnabled(s, id, a)
    ensures (id in s.awaiters && HoldsMutex(s.awaiters[id])) <==> a.ReadActive? || a.ReadHead? || a.ReadTail? || a.Subscribe?
    ensures a.Lock? ==> s.mutex.None?
    ensures var next := AwaitNext(s, id, a);
            (next.Some? && HoldsMutex(next.value)) <==>
            a.Lock? || a.ReadHead? || ((a.ReadActive? || a.ReadTail?) && next.Some?)
  {
    hide SameCounter, IsClosed;
  }

  lemma AwaitKeepsMutex(s: State, id: ThreadId, a: AwaitAction)
    requires MutexOk(s.mutex, s.awaiters) && AwaitEnabled(s, id, a)
    ensures var t := AwaitApply(s, id, a); MutexOk(t.mutex, t.awaiters)
  {
    assert id in s.awaiters && HoldsMutex(s.awaiters[id]) <==> s.mutex == Some(id);
    AwaitHolds(s, id, a);
    MoveOne(s.awaiters, id, AwaitNext(s, id, a));
    hide MutexOk, OnlyMoves, AwaitNext, AwaitEnabled, Moved;
    var t := AwaitApply(s, id, a);
    MutexMoves(s.mutex, t.mutex, s.awaiters, t.awaiters, id);
  }

  lemma AwaiterAdvances(s: State, id: ThreadId, a: AwaitAction)
    requires s.head <= s.tail && AwaitEnabled(s, id, a) && Timely(s, ByAwaiter(id, a))
    requires id in s.awaiters ==> AwaiterOk(s, s.awaiters[id])
    requires s.active <==> s.stopper.Running?
    ensures var next := AwaitNext(s, id, a); next.Some? && !a.Subscribe? ==> AwaiterOk(s, next.value)
    ensures a.Subscribe? ==> MaySleep(s) && AwaitNext(s, id, a) == Some(Asleep(if s.genClosed then s.gen + 1 else s.gen))
  {
    hide IsClosed;
    match a
    case ReadTail => WrapInjective(s.awaiters[id].h, s.tail);
    case _ =>
  }

  /** A consumer's reason to sleep does not depend on later generations. */
  lemma GenerationMoves(s: State, t: State, p: AwaitPc)
    requires AwaiterOk(s, p) && t.active == s.active && t.head == s.head && t.tail == s.tail
    requires t.writer == s.writer && t.stopper == s.stopper
    requires (t.gen == s.gen && t.genClosed == s.genClosed) || (!t.genClosed && t.gen == if s.genClosed then s.gen + 1 else s.gen)
    ensures AwaiterOk(t, p)
  {
  }

  lemma AwaitKeeps(c: Config, s: State, id: ThreadId, a: AwaitAction)
    requires Inv(c, s) && AwaitEnabled(s, id, a) && Timely(s, ByAwaiter(id, a))
    ensures Inv(c, AwaitApply(s, id, a))
  {
    assert id in s.awaiters ==> AwaiterOk(s, s.awaiters[id]);
    AwaiterAdvances(s, id, a);
    AwaitKeepsMutex(s, id, a);
    MoveOne(s.awaiters, id, AwaitNext(s, id, a));
    hide AwaitNext, AwaitEnabled, Moved, MutexOk, RingOk, PoppersOk, HistoryOk, AwaiterOk, MaySleep, TokenComing;
    var t := AwaitApply(s, id, a);
    forall p | p in t.awaiters ensures AwaiterOk(t, t.awaiters[p]) {
      if p == id && a.Subscribe? {
        JoinsSleepers(s, t);
      } else {
        assert p != id ==> AwaiterOk(s, s.awaiters[p]);
        GenerationMoves(s, t, t.awaiters[p]);
      }
    }
  }

  lemma JoinsSleepers(s: State, t: State)
    requires MaySleep(s) && t.active == s.active && t.head == s.head && t.tail == s.tail
    requires t.writer == s.writer && t.stopper == s.stopper
    requires t.gen == if s.genClosed then s.gen + 1 else s.gen
    ensures AwaiterOk(t, Asleep(t.gen))
  {
  }

  // ---------------------------------------------------------------- every run

  lemma StepKeeps(c: Config, s: State, a: Action)
    requires c.Valid() && Inv(c, s) && Enabled(c, s, a) && Timely(s, a)
    ensures Inv(c, Apply(c, s, a))
  {
    hide BitAnd, Pow2;
    match a
    case ByWriter(w) => WriterKeepsAll(c, s, w);
    case ByStop(st) => StopKeeps(c, s, st);
    case ByPusher(id, pu) => PushKeeps(c, s, id, pu);
    case ByPopper(id, po) => PopKeepsAll(c, s, id, po);
    case ByAwaiter(id, aw) => AwaitKeeps(c, s, id, aw);
  }

  /** Every state of every timely run satisfies the invariant. */
  lemma {:induction false} RunKeeps(c: Config, actions: seq<Action>)
    requires c.Valid() && TimelyRun(c, actions) && Run(c, actions).Some?
    ensures Inv(c, Run(c, actions).value)
  {
    if actions == [] {
      InitHolds(c);
    } else {
      var n := |actions| - 1;
      RunKeeps(c, actions[..n]);
      StepKeeps(c, Run(c, actions[..n]).value, actions[n]);
    }
  }

  lemma ReachableInv(c: Config, s: State)
    requires c.Valid() && Reachable(c, s)
    ensures Inv(c, s)
  {
    var actions :| TimelyRun(c, actions) && Run(c, actions) == Some(s);
    RunKeeps(c, actions);
  }

  /** The counts and the history alone, without the slots. */
  lemma ReachableHistory(c: Config, s: State)
    requires c.Valid() && Reachable(c, s)
    ensures s.head <= s.tail == |s.appended| && |s.popped| == s.head
    ensures HistoryInv(c, s)
  {
    ReachableInv(c, s);
  }
}
