/** The concurrent protocol of `atomicqueue`: one writer goroutine, any number of pushers, poppers and
    sleeping consumers, and one `Stop`. Every atomic action of the source is one `Action`; each goroutine
    has a program counter holding its local variables.

    `head` and `tail` are kept unbounded here. The source sees only their values modulo 2^64, so every
    comparison and every slot index below is computed from the wrapped values. */
module RingProtocol {
  import opened Options
  import opened RingIndex

  /** The queued values; the protocol never looks inside them. */
  type Value(==, !new)

  type ThreadId = nat

  /** What `New` accepted: a power-of-two ring size (an `int` in the source, so at most 2^62), a channel
      with room for at least one value, and one full-ring policy. */
  datatype Config = Config(logSize: nat, channelSize: nat, policy: Policy) {
    predicate Valid() {
      logSize <= 62 && channelSize >= 1
    }

    function Size(): nat {
      Pow2(logSize)
    }

    function Mask(counter: nat): nat {
      BitAnd(counter, Size() - 1)
    }

    /** The top of the writer's loop: only F_BLOCKFULL waits there for room. */
    function LoopTop(): WriterPc {
      if policy.BlockFull? then CheckFull else Receive
    }
  }

  datatype WriterPc =
    | CheckFull          // evaluating Full() before receiving (F_BLOCKFULL)
    | Parked             // blocked on the token channel or on done
    | Receive            // blocked on the value channel or on done
    | Holding(v: Value)  // received, about to evaluate Full() again
    | Store(v: Value)    // about to write the slot
    | Publish(v: Value)  // slot written, about to store tail+1
    | Release            // tail stored, about to release the consumers
    | Exited

  datatype StopPc = Running | ActiveCleared | DoneClosed | Stopped

  datatype PopPc =
    | LoadHead
    | LoadTail(h: nat)
    | ReadSlot(h: nat)
    | Swap(h: nat, v: Value)
    | Signal(v: Value)   // CAS done, about to offer the token (F_BLOCKFULL)

  datatype AwaitPc =
    | TakeLock
    | LoadActive
    | AwaitHead
    | AwaitTail(h: nat)
    | Join               // decided to sleep, still holding the mutex
    | Asleep(gen: nat)

  datatype State = State(
    slots: seq<Option<Value>>,
    head: nat,
    tail: nat,
    channel: seq<Value>,
    token: bool,
    active: bool,
    done: bool,
    gen: nat,            // generation of the subscribers' current channel
    genClosed: bool,
    mutex: Option<ThreadId>,
    writer: WriterPc,
    stopper: StopPc,
    pushers: map<ThreadId, Value>,
    poppers: map<ThreadId, PopPc>,
    awaiters: map<ThreadId, AwaitPc>,
    // history
    accepted: seq<Value>,
    appended: seq<Value>,
    popped: seq<Value>,
    kept: seq<nat>,      // positions in `accepted` of the values appended
    dropped: nat)

  function Init(c: Config): State {
    State(seq(c.Size(), _ => None), 0, 0, [], false, true, false, 0, false, None,
          c.LoopTop(), Running, map[], map[], map[], [], [], [], [], 0)
  }

  // ---------------------------------------------------------------- shared reads

  /** `Full()`: the writer is alone in storing tail, so loading head is the only racing access. */
  predicate SeesFull(c: Config, s: State) {
    (s.tail % WORD - s.head % WORD) % WORD >= c.Size()
  }

  /** What the source sees of two counters being equal. */
  predicate SameCounter(a: nat, b: nat) {
    a % WORD == b % WORD
  }

  /** The slot the source computes for a counter. */
  function SlotOf(c: Config, counter: nat): nat {
    c.Mask(counter % WORD)
  }

  /** A channel generation is closed when it was retired, or is current and closed. */
  predicate IsClosed(s: State, gen: nat) {
    gen < s.gen || (gen == s.gen && s.genClosed)
  }

  /** A goroutine goes on to its next step, or leaves. */
  function Moved<X>(m: map<ThreadId, X>, id: ThreadId, next: Option<X>): map<ThreadId, X> {
    if next.Some? then m[id := next.value] else m - {id}
  }

  // ---------------------------------------------------------------- the writer

  datatype WriterAction =
    | EvalFull | TakeToken | QuitParked | TakeValue | QuitReceive | Admit | StoreSlot | StoreTail | WriterRelease

  predicate WriterEnabled(c: Config, s: State, a: WriterAction) {
    match a
    case EvalFull => s.writer.CheckFull?
    case TakeToken => s.writer.Parked? && s.token
    case QuitParked => s.writer.Parked? && s.done
    case TakeValue => s.writer.Receive? && s.channel != []
    case QuitReceive => s.writer.Receive? && s.done
    case Admit => s.writer.Holding?
    case StoreSlot => s.writer.Store? && SlotOf(c, s.tail) < |s.slots|
    case StoreTail => s.writer.Publish?
    case WriterRelease => s.writer.Release? && s.mutex.None?
  }

  /** Where the writer goes. */
  function WriterNext(c: Config, s: State, a: WriterAction): WriterPc
    requires WriterEnabled(c, s, a)
  {
    match a
    case EvalFull => if SeesFull(c, s) then Parked else Receive
    case TakeToken => CheckFull
    case QuitParked => Exited
    case TakeValue => Holding(s.channel[0])
    case QuitReceive => Exited
    case Admit => if SeesFull(c, s) then c.LoopTop() else Store(s.writer.v)
    case StoreSlot => Publish(s.writer.v)
    case StoreTail => WriterPc.Release
    case WriterRelease => c.LoopTop()
  }

  function WriterApply(c: Config, s: State, a: WriterAction): State
    requires WriterEnabled(c, s, a)
  {
    s.(writer := WriterNext(c, s, a),
       token := s.token && !a.TakeToken?,
       channel := if a.TakeValue? then s.channel[1..] else s.channel,
       dropped := if a.Admit? && SeesFull(c, s) then s.dropped + 1 else s.dropped,
       slots := if a.StoreSlot? then s.slots[SlotOf(c, s.tail) := Some(s.writer.v)] else s.slots,
       tail := if a.StoreTail? then s.tail + 1 else s.tail,
       appended := if a.StoreTail? then s.appended + [s.writer.v] else s.appended,
       kept := if a.StoreTail? then s.kept + [LastTaken(s)] else s.kept,
       genClosed := s.genClosed || a.WriterRelease?)
  }

  /** The position in `accepted` of the value the writer took last. */
  function LastTaken(s: State): nat {
    if |s.accepted| - |s.channel| >= 1 then |s.accepted| - |s.channel| - 1 else 0
  }

  // ---------------------------------------------------------------- Stop

  datatype StopAction = ClearActive | CloseDone | StopRelease

  predicate StopEnabled(s: State, a: StopAction) {
    match a
    case ClearActive => s.stopper.Running?
    case CloseDone => s.stopper.ActiveCleared?
    case StopRelease => s.stopper.DoneClosed? && s.mutex.None?
  }

  function StopApply(s: State, a: StopAction): State
    requires StopEnabled(s, a)
  {
    match a
    case ClearActive => s.(stopper := ActiveCleared, active := false)
    case CloseDone => s.(stopper := DoneClosed, done := true)
    case StopRelease => s.(stopper := Stopped, genClosed := true)
  }

  // ---------------------------------------------------------------- Push

  datatype PushAction = Enter(v: Value) | Send | Refuse

  predicate PushEnabled(c: Config, s: State, id: ThreadId, a: PushAction) {
    match a
    case Enter(_) => id !in s.pushers && !s.done
    case Send => id in s.pushers && |s.channel| < c.channelSize
    case Refuse => id in s.pushers && s.done
  }

  function PushApply(c: Config, s: State, id: ThreadId, a: PushAction): State
    requires PushEnabled(c, s, id, a)
  {
    match a
    case Enter(v) => s.(pushers := s.pushers[id := v])
    case Send =>
      s.(pushers := Moved(s.pushers, id, None), channel := s.channel + [s.pushers[id]],
         accepted := s.accepted + [s.pushers[id]])
    case Refuse => s.(pushers := Moved(s.pushers, id, None))
  }

  // ---------------------------------------------------------------- Pop / tryPop

  datatype PopAction = Begin | GetHead | GetTail | GetSlot | Cas | OfferToken

  /** The concrete comparison of the CAS. */
  predicate CasMatches(s: State, h: nat) {
    SameCounter(s.head, h)
  }

  predicate PopEnabled(c: Config, s: State, id: ThreadId, a: PopAction) {
    match a
    case Begin => id !in s.poppers
    case GetHead => id in s.poppers && s.poppers[id].LoadHead?
    case GetTail => id in s.poppers && s.poppers[id].LoadTail?
    case GetSlot => // a nil slot has no next step: the source would panic
      id in s.poppers && s.poppers[id].ReadSlot? && SlotOf(c, s.poppers[id].h) < |s.slots|
      && s.slots[SlotOf(c, s.poppers[id].h)].Some?
    case Cas => id in s.poppers && s.poppers[id].Swap?
    case OfferToken => id in s.poppers && s.poppers[id].Signal?
  }

  /** Whether the action is a CAS that succeeds. */
  predicate Takes(s: State, id: ThreadId, a: PopAction)
    requires a.Cas? ==> id in s.poppers && s.poppers[id].Swap?
  {
    a.Cas? && CasMatches(s, s.poppers[id].h)
  }

  /** Where a popper goes. */
  function PopNext(c: Config, s: State, id: ThreadId, a: PopAction): Option<PopPc>
    requires PopEnabled(c, s, id, a)
  {
    match a
    case Begin => Some(LoadHead)
    case GetHead => Some(LoadTail(s.head))
    case GetTail => if SameCounter(s.poppers[id].h, s.tail) then None /* Empty */ else Some(ReadSlot(s.poppers[id].h))
    case GetSlot => Some(Swap(s.poppers[id].h, s.slots[SlotOf(c, s.poppers[id].h)].value))
    case Cas => if !Takes(s, id, a) then Some(LoadHead) else if c.policy.BlockFull? then Some(Signal(s.poppers[id].v)) else None
    case OfferToken => None
  }

  function PopApply(c: Config, s: State, id: ThreadId, a: PopAction): State
    requires PopEnabled(c, s, id, a)
  {
    s.(poppers := Moved(s.poppers, id, PopNext(c, s, id, a)),
       head := if Takes(s, id, a) then s.head + 1 else s.head,
       popped := if Takes(s, id, a) then s.popped + [s.poppers[id].v] else s.popped,
       token := s.token || a.OfferToken?)
  }

  // ---------------------------------------------------------------- Await

  datatype AwaitAction = Arrive | Lock | ReadActive | ReadHead | ReadTail | Subscribe | Wake

  predicate AwaitEnabled(s: State, id: ThreadId, a: AwaitAction) {
    match a
    case Arrive => id !in s.awaiters
    case Lock => id in s.awaiters && s.awaiters[id].TakeLock? && s.mutex.None?
    case ReadActive => id in s.awaiters && s.awaiters[id].LoadActive?
    case ReadHead => id in s.awaiters && s.awaiters[id].AwaitHead?
    case ReadTail => id in s.awaiters && s.awaiters[id].AwaitTail?
    case Subscribe => id in s.awaiters && s.awaiters[id].Join?
    case Wake => id in s.awaiters && s.awaiters[id].Asleep? && IsClosed(s, s.awaiters[id].gen)
  }

  /** Where a consumer goes. */
  function AwaitNext(s: State, id: ThreadId, a: AwaitAction): Option<AwaitPc>
    requires AwaitEnabled(s, id, a)
  {
    match a
    case Arrive => Some(TakeLock)
    case Lock => Some(LoadActive)
    case ReadActive => if s.active then Some(AwaitHead) else None
    case ReadHead => Some(AwaitTail(s.head))
    case ReadTail => if SameCounter(s.awaiters[id].h, s.tail) then Some(Join) else None
    case Subscribe => Some(Asleep(if s.genClosed then s.gen + 1 else s.gen))
    case Wake => None
  }

  /** It unlocks when it leaves without sleeping, and when it has joined the sleepers. */
  function AwaitApply(s: State, id: ThreadId, a: AwaitAction): State
    requires AwaitEnabled(s, id, a)
  {
    var next := AwaitNext(s, id, a);
    s.(awaiters := Moved(s.awaiters, id, next),
       mutex := if a.Lock? then Some(id)
                else if a.Subscribe? || ((a.ReadActive? || a.ReadTail?) && next.None?) then None
                else s.mutex,
       gen := if a.Subscribe? && s.genClosed then s.gen + 1 else s.gen,
       genClosed := s.genClosed && !a.Subscribe?)
  }

  // ---------------------------------------------------------------- runs

  datatype Action =
    | ByWriter(w: WriterAction)
    | ByStop(st: StopAction)
    | ByPusher(id: ThreadId, pu: PushAction)
    | ByPopper(id: ThreadId, po: PopAction)
    | ByAwaiter(id: ThreadId, aw: AwaitAction)

  predicate Enabled(c: Config, s: State, a: Action) {
    match a
    case ByWriter(w) => WriterEnabled(c, s, w)
    case ByStop(st) => StopEnabled(s, st)
    case ByPusher(id, pu) => PushEnabled(c, s, id, pu)
    case ByPopper(id, po) => PopEnabled(c, s, id, po)
    case ByAwaiter(id, aw) => AwaitEnabled(s, id, aw)
  }

  function Apply(c: Config, s: State, a: Action): State
    requires Enabled(c, s, a)
  {
    match a
    case ByWriter(w) => WriterApply(c, s, w)
    case ByStop(st) => StopApply(s, st)
    case ByPusher(id, pu) => PushApply(c, s, id, pu)
    case ByPopper(id, po) => PopApply(c, s, id, po)
    case ByAwaiter(id, aw) => AwaitApply(s, id, aw)
  }

  /** No goroutine is overtaken by 2^64 appends between loading head and the comparison that uses it. */
  predicate Timely(s: State, a: Action) {
    match a
    case ByPopper(id, GetTail) => id in s.poppers && s.poppers[id].LoadTail? ==> s.tail < s.poppers[id].h + WORD
    case ByPopper(id, Cas) => id in s.poppers && s.poppers[id].Swap? ==> s.head < s.poppers[id].h + WORD
    case ByAwaiter(id, ReadTail) => id in s.awaiters && s.awaiters[id].AwaitTail? ==> s.tail < s.awaiters[id].h + WORD
    case _ => true
  }

  /** The state after a sequence of actions, or None when one of them was not possible. */
  function Run(c: Config, actions: seq<Action>): Option<State> {
    if actions == [] then Some(Init(c))
    else
      var n := |actions| - 1;
      var r := Run(c, actions[..n]);
      if r.Some? && Enabled(c, r.value, actions[n]) then Some(Apply(c, r.value, actions[n])) else None
  }

  /** Every action of the run was taken in time. */
  predicate TimelyRun(c: Config, actions: seq<Action>) {
    actions == [] ||
    (var n := |actions| - 1;
     var r := Run(c, actions[..n]);
     TimelyRun(c, actions[..n]) && (r.Some? ==> Timely(r.value, actions[n])))
  }

  ghost predicate Reachable(c: Config, s: State) {
    exists actions :: TimelyRun(c, actions) && Run(c, actions) == Some(s)
  }
}
