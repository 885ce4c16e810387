/** What each goroutine of the ring does next in every reachable state, told by the unbounded counters: the
    writer drops only what does not fit, a popper leaves only with a value or from an empty ring, a consumer
    sleeps exactly when there is nothing to consume, and nobody is stuck without a reason. */
module RingSteps {
  import opened Options
  import opened RingIndex
  import opened RingProtocol
  import opened RingInvariant
  import opened RingTheorems
  import opened RingOverflow

  // ---------------------------------------------------------------- the writer

  /** A received value is dropped if and only if the ring is full - then under F_DROPFULL - and otherwise the
      writer goes on to store it; nothing else changes. */
  lemma DropsOnlyWhenFull(c: Config, s: State)
    requires c.Valid() && Reachable(c, s) && s.writer.Holding?
    ensures WriterEnabled(c, s, Admit) && s.tail <= s.head + c.Size()
    ensures var t := WriterApply(c, s, Admit);
            if s.tail < s.head + c.Size() then t == s.(writer := Store(s.writer.v))
            else c.policy.DropFull? && t == s.(writer := Receive, dropped := s.dropped + 1)
  {
    ReachableInv(c, s);
    SeesFullExact(c, s);
    hide Pow2, BitAnd, SlotOf, SeesFull, Reachable;
  }

  /** Under F_BLOCKFULL the writer parks if and only if the ring is full. */
  lemma ParksOnlyWhenFull(c: Config, s: State)
    requires c.Valid() && Reachable(c, s) && s.writer.CheckFull?
    ensures WriterEnabled(c, s, EvalFull)
    ensures WriterApply(c, s, EvalFull) == s.(writer := if s.tail == s.head + c.Size() then Parked else Receive)
  {
    ReachableInv(c, s);
    SeesFullExact(c, s);
    hide Pow2, BitAnd, SlotOf, SeesFull, Reachable;
  }

  /** Between values it takes the oldest of the channel, or the token, or leaves after Stop; under F_BLOCKFULL it
      looks for room before every value, and only then. */
  lemma TakesOldest(c: Config, s: State, a: WriterAction)
    requires WriterEnabled(c, s, a) && (a.TakeToken? || a.TakeValue? || a.QuitParked? || a.QuitReceive?)
    ensures var t := WriterApply(c, s, a);
            match s.writer
            case Parked =>
              || (s.token && t == s.(writer := CheckFull, token := false))
              || (s.done && t == s.(writer := Exited))
            case Receive =>
              || (s.done && t == s.(writer := Exited))
              || (t.writer.Holding? && s.channel == [t.writer.v] + t.channel
                  && t == s.(writer := t.writer, channel := t.channel))
            case _ => false
  {
    hide SlotOf, SeesFull;
    assert a.TakeValue? ==> s.channel == [s.channel[0]] + s.channel[1..];
  }

  lemma StoreIsEnabled(c: Config, s: State)
    requires c.Valid() && Reachable(c, s) && s.writer.Store?
    ensures WriterEnabled(c, s, StoreSlot)
  {
    ReachableInv(c, s);
    MaskExact(c, s.tail);
    hide Pow2, BitAnd, Reachable;
  }

  /** A value it stores becomes the last of the ring, and only then does it release the consumers. */
  lemma StoresThenReleases(c: Config, s: State, a: WriterAction)
    requires WriterEnabled(c, s, a) && (a.StoreSlot? || a.StoreTail? || a.WriterRelease?)
    ensures var t := WriterApply(c, s, a);
            match s.writer
            case Store(v) => t == s.(writer := Publish(v), slots := t.slots)
            case Publish(v) =>
              && t.appended == s.appended + [v]
              && t == s.(writer := WriterPc.Release, tail := s.tail + 1, appended := t.appended, kept := t.kept)
            case Release =>
              t == s.(writer := if c.policy.BlockFull? then CheckFull else Receive, genClosed := true)
            case _ => false
  {
    hide Pow2, BitAnd, SlotOf, SeesFull;
  }

  /** The writer has left, or waits for room, for a value, or for the mutex. */
  predicate WriterWaits(s: State) {
    || s.writer.Exited? || (s.writer.Parked? && !s.token && !s.done)
    || (s.writer.Receive? && s.channel == [] && !s.done) || (s.writer.Release? && s.mutex.Some?)
  }

  function NextOfWriter(s: State): WriterAction {
    match s.writer
    case CheckFull => EvalFull
    case Parked => if s.token then TakeToken else QuitParked
    case Receive => if s.channel != [] then TakeValue else QuitReceive
    case Holding(_) => Admit
    case Store(_) => StoreSlot
    case Publish(_) => StoreTail
    case _ => WriterRelease
  }

  lemma WaitingIsStuck(c: Config, s: State, a: WriterAction)
    requires WriterWaits(s)
    ensures !WriterEnabled(c, s, a)
  {
    hide SlotOf;
  }

  lemma OtherwiseGoesOn(c: Config, s: State) returns (a: WriterAction)
    requires c.Valid() && Reachable(c, s) && !WriterWaits(s)
    ensures WriterEnabled(c, s, a)
  {
    hide Pow2, BitAnd, SlotOf, Reachable, WriterApply;
    a := NextOfWriter(s);
    if s.writer.Store? {
      StoreIsEnabled(c, s);
    } else {
      assert WriterEnabled(c, s, a);
    }
  }

  /** It is stuck exactly then. */
  lemma WriterStuckIff(c: Config, s: State)
    requires c.Valid() && Reachable(c, s)
    ensures (forall a :: !WriterEnabled(c, s, a)) <==> WriterWaits(s)
  {
    hide WriterEnabled, WriterWaits, Reachable;
    if WriterWaits(s) {
      forall a ensures !WriterEnabled(c, s, a) {
        WaitingIsStuck(c, s, a);
      }
    } else {
      var a := OtherwiseGoesOn(c, s);
    }
  }

  // ---------------------------------------------------------------- pushers and Stop

  /** A pusher leaves with its value at the end of the channel, or because the queue was stopped; it is stuck
      only while the channel is full and the queue not stopped. */
  lemma PusherSteps(c: Config, s: State, id: ThreadId)
    requires id in s.pushers
    ensures forall a :: PushEnabled(c, s, id, a) ==>
              var t := PushApply(c, s, id, a);
              id !in t.pushers
              && ((t.channel == s.channel + [s.pushers[id]] && t.accepted == s.accepted + [s.pushers[id]])
                  || (s.done && t.channel == s.channel && t.accepted == s.accepted))
    ensures (forall a :: !PushEnabled(c, s, id, a)) <==> |s.channel| >= c.channelSize && !s.done
  {
    if |s.channel| < c.channelSize || s.done {
      var a: PushAction := if s.done then Refuse else Send;
      assert PushEnabled(c, s, id, a);
    }
  }

  /** No value enters a stopped queue. */
  lemma NoPushAfterStop(c: Config, s: State, id: ThreadId, v: Value)
    requires id !in s.pushers
    ensures PushEnabled(c, s, id, Enter(v)) <==> !s.done
    ensures !s.done ==> PushApply(c, s, id, Enter(v)) == s.(pushers := s.pushers[id := v])
  {
  }

  /** Stop goes through clearing `active`, closing `done` and releasing the consumers, and waits only for the
      mutex. */
  lemma StopSteps(c: Config, s: State)
    requires c.Valid() && Reachable(c, s)
    ensures s.active <==> s.stopper.Running?
    ensures s.done <==> s.stopper.DoneClosed? || s.stopper.Stopped?
    ensures (forall a :: !StopEnabled(s, a)) <==> s.stopper.Stopped? || (s.stopper.DoneClosed? && s.mutex.Some?)
    ensures StopEnabled(s, StopRelease) ==> StopApply(s, StopRelease).genClosed && StopApply(s, StopRelease).stopper.Stopped?
  {
    ReachableInv(c, s);
    hide Pow2, BitAnd, Reachable;
    var a: StopAction := if s.stopper.Running? then ClearActive else if s.stopper.ActiveCleared? then CloseDone else StopRelease;
    assert (forall b :: !StopEnabled(s, b)) ==> !StopEnabled(s, a);
  }

  // ---------------------------------------------------------------- poppers

  /** Every step of a popper: it loads the current head; from there it leaves empty-handed exactly when tail is
      at that head; it reads a value; and its CAS takes that value exactly when head has not moved - otherwise
      it starts over, and nothing has changed. */
  lemma PopperSteps(c: Config, s: State, id: ThreadId, a: PopAction)
    requires c.Valid() && Reachable(c, s) && id in s.poppers && PopEnabled(c, s, id, a) && Timely(s, ByPopper(id, a))
    ensures var t := PopApply(c, s, id, a);
            match s.poppers[id]
            case LoadHead => t == s.(poppers := s.poppers[id := LoadTail(s.head)])
            case LoadTail(h) =>
              if h == s.tail then s.head == s.tail && t == s.(poppers := s.poppers - {id})
              else t == s.(poppers := s.poppers[id := ReadSlot(h)])
            case ReadSlot(h) =>
              id in t.poppers && t.poppers[id].Swap? && t == s.(poppers := s.poppers[id := Swap(h, t.poppers[id].v)])
              && (h == s.head < |s.appended| ==> t.poppers[id].v == s.appended[h])
            case Swap(h, v) =>
              if h == s.head then
                && s.head < |s.appended| && v == s.appended[s.head]
                && t == s.(head := s.head + 1, popped := s.popped + [v],
                           poppers := if c.policy.BlockFull? then s.poppers[id := Signal(v)] else s.poppers - {id})
              else t == s.(poppers := s.poppers[id := LoadHead])
            case Signal(v) => t == s.(poppers := s.poppers - {id}, token := true)
  {
    ReachableInv(c, s);
    assert PopperOk(s.head, s.appended, s.poppers[id]);
    hide Pow2, BitAnd, SlotOf, Reachable;
    match s.poppers[id]
    case LoadTail(h) => WrapInjective(h, s.tail);
    case ReadSlot(h) => SlotReadIsRight(c, s, h);
    case Swap(h, v) => WrapInjective(h, s.head);
    case _ =>
  }

  lemma SignalWasPopped(c: Config, s: State, id: ThreadId)
    requires c.Valid() && Reachable(c, s) && id in s.poppers && s.poppers[id].Signal?
    ensures s.poppers[id].v in s.popped
  {
    ReachableInv(c, s);
    LiveIsAppended(c, s);
    hide Pow2, BitAnd, SlotOf, Reachable, Live;
    assert PopperOk(s.head, s.appended, s.poppers[id]);
    var i :| 0 <= i < s.head && i < |s.appended| && s.appended[i] == s.poppers[id].v;
    assert s.popped[i] == s.appended[i];
  }

  /** A popper leaves only with a value that was popped, or at a tail load that finds the ring empty. */
  lemma PopperLeavesWithValueOrEmpty(c: Config, s: State, id: ThreadId, a: PopAction)
    requires c.Valid() && Reachable(c, s) && id in s.poppers && PopEnabled(c, s, id, a) && Timely(s, ByPopper(id, a))
    requires id !in PopApply(c, s, id, a).poppers
    ensures var t := PopApply(c, s, id, a);
            || (s.poppers[id].LoadTail? && s.head == s.tail)
            || (s.poppers[id].Swap? && t.popped == s.popped + [s.poppers[id].v])
            || (s.poppers[id].Signal? && s.poppers[id].v in s.popped)
  {
    PopperSteps(c, s, id, a);
    hide Pow2, BitAnd, SlotOf, Reachable, PopApply;
    if s.poppers[id].Signal? {
      SignalWasPopped(c, s, id);
    }
  }

  /** A pop and a wait may begin at any time, also on a queue that was stopped: what is in the ring can still be
      popped. */
  lemma CallsBegin(c: Config, s: State, id: ThreadId)
    ensures id !in s.poppers ==>
              PopEnabled(c, s, id, Begin) && PopApply(c, s, id, Begin) == s.(poppers := s.poppers[id := LoadHead])
    ensures id !in s.awaiters ==>
              AwaitEnabled(s, id, Arrive) && AwaitApply(s, id, Arrive) == s.(awaiters := s.awaiters[id := TakeLock])
  {
    hide SlotOf;
  }

  /** A popper is never stuck. */
  lemma PopperNeverStuck(c: Config, s: State, id: ThreadId)
    requires c.Valid() && Reachable(c, s) && id in s.poppers
    ensures exists a :: PopEnabled(c, s, id, a)
  {
    hide Pow2, BitAnd, SlotOf, Reachable;
    if s.poppers[id].ReadSlot? {
      NoNilDereference(c, s, id);
    }
    var a := match s.poppers[id]
      case LoadHead => GetHead
      case LoadTail(_) => GetTail
      case ReadSlot(_) => GetSlot
      case Swap(_, _) => Cas
      case Signal(_) => OfferToken;
    assert PopEnabled(c, s, id, a);
  }

  // ---------------------------------------------------------------- consumers

  /** Every step of a waiting consumer: an inactive queue sends it away; otherwise it loads the current head, and
      joins the sleepers exactly when tail is at that head; it sleeps on a channel that is open, and wakes only
      when that channel was closed. */
  lemma ConsumerSteps(c: Config, s: State, id: ThreadId, a: AwaitAction)
    requires c.Valid() && Reachable(c, s) && id in s.awaiters && AwaitEnabled(s, id, a) && Timely(s, ByAwaiter(id, a))
    ensures var t := AwaitApply(s, id, a);
            match s.awaiters[id]
            case TakeLock => s.mutex.None? && t == s.(awaiters := s.awaiters[id := LoadActive], mutex := Some(id))
            case LoadActive =>
              if s.active then t == s.(awaiters := s.awaiters[id := AwaitHead])
              else t == s.(awaiters := s.awaiters - {id}, mutex := None)
            case AwaitHead => t == s.(awaiters := s.awaiters[id := AwaitTail(s.head)])
            case AwaitTail(h) =>
              h <= s.head
              && (if h == s.tail then t == s.(awaiters := s.awaiters[id := Join])
                  else h < s.tail && t == s.(awaiters := s.awaiters - {id}, mutex := None))
            case Join =>
              && t.mutex.None? && !t.genClosed && t.awaiters == s.awaiters[id := Asleep(t.gen)]
              && (s.genClosed ==> t.gen == s.gen + 1) && (!s.genClosed ==> t.gen == s.gen)
            case Asleep(g) => IsClosed(s, g) && t == s.(awaiters := s.awaiters - {id})
  {
    ReachableInv(c, s);
    assert AwaiterOk(s, s.awaiters[id]);
    hide Pow2, BitAnd, Reachable;
    match s.awaiters[id]
    case AwaitTail(h) => WrapInjective(h, s.tail);
    case _ =>
  }

  /** In particular one that loaded the current head of an empty ring goes to sleep. */
  lemma SleepsOnEmpty(c: Config, s: State, id: ThreadId)
    requires c.Valid() && Reachable(c, s) && id in s.awaiters && s.awaiters[id] == AwaitTail(s.head) && s.head == s.tail
    ensures AwaitEnabled(s, id, ReadTail) && AwaitApply(s, id, ReadTail) == s.(awaiters := s.awaiters[id := Join])
  {
    ConsumerSteps(c, s, id, ReadTail);
  }

  /** A consumer is stuck only while another holds the mutex, or asleep on an open channel. */
  lemma ConsumerStuckIff(s: State, id: ThreadId)
    requires id in s.awaiters
    ensures (forall a :: !AwaitEnabled(s, id, a)) <==>
              (s.awaiters[id].TakeLock? && s.mutex.Some?) || (s.awaiters[id].Asleep? && !IsClosed(s, s.awaiters[id].gen))
  {
    var a := NextAwait(s.awaiters[id]);
    assert (forall b :: !AwaitEnabled(s, id, b)) ==> !AwaitEnabled(s, id, a);
  }

  /** And consumers do sleep: on the fresh queue, every step is timely and the consumer ends asleep. */
  lemma SomeConsumerSleeps(id: ThreadId) returns (s: State)
    ensures Reachable(TINY, s) && s.active && s.head == s.tail
    ensures id in s.awaiters && s.awaiters[id].Asleep? && !IsClosed(s, s.awaiters[id].gen)
  {
    EmptyReachable();
    hide Reachable;
    s := ReachStep(TINY, RingOverflow.Empty(), ByAwaiter(id, Arrive));
    s := ReachStep(TINY, s, ByAwaiter(id, Lock));
    s := ReachStep(TINY, s, ByAwaiter(id, ReadActive));
    s := ReachStep(TINY, s, ByAwaiter(id, ReadHead));
    s := ReachStep(TINY, s, ByAwaiter(id, ReadTail));
    s := ReachStep(TINY, s, ByAwaiter(id, Subscribe));
  }
}
