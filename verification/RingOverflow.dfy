/** Why the ring's guarantees need timely runs: a popper overtaken by exactly 2^64 pops between its head
    load and its CAS finds the wrapped counter unchanged, wins the CAS, and takes a value already taken. */
module RingOverflow {
  import opened Options
  import opened RingIndex
  import opened RingProtocol

  /** A one-slot ring. */
  const TINY := Config(0, 1, DropFull)

  /** `a` once, then `b` again and again. */
  function History(a: Value, b: Value, n: nat): (h: seq<Value>)
    ensures |h| == n
  {
    seq(n, i => if i == 0 then a else b)
  }

  function Naturals(n: nat): (k: seq<nat>)
    ensures |k| == n
  {
    seq(n, i => i)
  }

  /** n values appended and popped, while popper 0 still holds what it read at head 0. */
  function Lap(a: Value, b: Value, n: nat): State {
    State([Some(if n <= 1 then a else b)], n, n, [], false, true, false, 0, true, None, Receive, Running,
          map[], map[0 := Swap(0, a)], map[],
          History(a, b, n), History(a, b, n), History(a, b, n), Naturals(n), 0)
  }

  /** The same with one more value in the ring. */
  function Filled(a: Value, b: Value, n: nat): State {
    Lap(a, b, n).(slots := [Some(if n == 0 then a else b)], tail := n + 1,
      accepted := History(a, b, n + 1), appended := History(a, b, n + 1), kept := Naturals(n + 1))
  }

  lemma ReachStep(c: Config, s: State, a: Action) returns (t: State)
    requires Reachable(c, s) && Enabled(c, s, a) && Timely(s, a)
    ensures t == Apply(c, s, a) && Reachable(c, t)
  {
    t := Apply(c, s, a);
    var actions :| TimelyRun(c, actions) && Run(c, actions) == Some(s);
    var more := actions + [a];
    assert more[..|more| - 1] == actions;
    assert TimelyRun(c, more) && Run(c, more) == Some(t);
  }

  lemma AcceptOne(s: State, v: Value) returns (t: State)
    requires Reachable(TINY, s) && s.pushers == map[] && !s.done && s.channel == []
    ensures Reachable(TINY, t) && t == s.(channel := [v], accepted := s.accepted + [v])
  {
    hide Reachable;
    t := ReachStep(TINY, s, ByPusher(0, Enter(v)));
    t := ReachStep(TINY, t, ByPusher(0, Send));
    assert t.pushers == map[];
  }

  lemma StoreOne(s: State, v: Value) returns (t: State)
    requires Reachable(TINY, s) && |s.slots| == 1 && s.channel == [] && s.writer == Store(v) && s.mutex.None?
    requires |s.accepted| == s.tail + 1
    ensures Reachable(TINY, t)
    ensures t == s.(slots := [Some(v)], tail := s.tail + 1, genClosed := true, writer := Receive,
                    appended := s.appended + [v], kept := s.kept + [s.tail])
  {
    hide Reachable;
    t := ReachStep(TINY, s, ByWriter(StoreSlot));
    assert t.slots == [Some(v)];
    t := ReachStep(TINY, t, ByWriter(StoreTail));
    t := ReachStep(TINY, t, ByWriter(WriterRelease));
  }

  /** Seven steps of the writer and a pusher put one value into an empty one-slot ring. */
  lemma AppendOne(s: State, v: Value) returns (t: State)
    requires Reachable(TINY, s) && |s.slots| == 1 && s.head == s.tail && s.channel == []
    requires s.writer.Receive? && s.stopper.Running? && s.pushers == map[] && !s.done && s.mutex.None?
    requires |s.accepted| == s.tail
    ensures Reachable(TINY, t)
    ensures t == s.(slots := [Some(v)], tail := s.tail + 1, genClosed := true, accepted := s.accepted + [v],
                    appended := s.appended + [v], kept := s.kept + [s.tail])
  {
    hide Reachable;
    WrapInjective(s.head, s.tail);
    t := AcceptOne(s, v);
    t := ReachStep(TINY, t, ByWriter(TakeValue));
    t := ReachStep(TINY, t, ByWriter(Admit));
    t := StoreOne(t, v);
  }

  lemma SeesValue(s: State, id: ThreadId) returns (t: State)
    requires Reachable(TINY, s) && id !in s.poppers && s.tail == s.head + 1
    ensures Reachable(TINY, t) && t == s.(poppers := s.poppers[id := ReadSlot(s.head)])
  {
    hide Reachable;
    WrapInjective(s.head, s.tail);
    t := ReachStep(TINY, s, ByPopper(id, Begin));
    t := ReachStep(TINY, t, ByPopper(id, GetHead));
    t := ReachStep(TINY, t, ByPopper(id, GetTail));
    assert t.poppers == s.poppers[id := ReadSlot(s.head)];
  }

  /** Popper `id` reads the slot of a one-slot ring that holds one value. */
  lemma ReadOne(s: State, id: ThreadId, v: Value) returns (t: State)
    requires Reachable(TINY, s) && id !in s.poppers && s.slots == [Some(v)] && s.tail == s.head + 1
    ensures Reachable(TINY, t) && t == s.(poppers := s.poppers[id := Swap(s.head, v)])
  {
    hide Reachable;
    t := SeesValue(s, id);
    t := ReachStep(TINY, t, ByPopper(id, GetSlot));
    assert t.poppers == s.poppers[id := Swap(s.head, v)];
  }

  lemma PopOne(s: State, id: ThreadId, v: Value) returns (t: State)
    requires Reachable(TINY, s) && id !in s.poppers && s.slots == [Some(v)] && s.tail == s.head + 1
    ensures Reachable(TINY, t) && t == s.(head := s.tail, popped := s.popped + [v])
  {
    hide Reachable;
    t := ReadOne(s, id, v);
    t := ReachStep(TINY, t, ByPopper(id, Cas));
    assert t.poppers == s.poppers;
  }

  lemma HistoryGrows(a: Value, b: Value, n: nat)
    requires n >= 1
    ensures History(a, b, n + 1) == History(a, b, n) + [b] && History(a, b, 1) == [a]
    ensures Naturals(n + 1) == Naturals(n) + [n] && Naturals(1) == [0]
  {
  }

  /** One more value in the ring after n laps. */
  lemma LapFills(a: Value, b: Value, n: nat, t: State)
    requires n >= 1
    requires var s := Lap(a, b, n);
             t == s.(slots := [Some(b)], tail := s.tail + 1, genClosed := true, accepted := s.accepted + [b],
                     appended := s.appended + [b], kept := s.kept + [s.tail])
    ensures t == Filled(a, b, n)
  {
    hide History, Naturals;
    HistoryGrows(a, b, n);
  }

  /** And that value popped. */
  lemma FilledLaps(a: Value, b: Value, n: nat, t: State)
    requires n >= 1
    requires var s := Filled(a, b, n); t == s.(head := s.tail, popped := s.popped + [b])
    ensures t == Lap(a, b, n + 1)
  {
    hide History, Naturals;
    HistoryGrows(a, b, n);
  }

  /** The empty ring of one slot. */
  function Empty(): State {
    State([None], 0, 0, [], false, true, false, 0, false, None, Receive, Running, map[], map[], map[], [], [], [], [], 0)
  }

  /** One value in it. */
  function One(a: Value): State {
    Empty().(slots := [Some(a)], tail := 1, genClosed := true, accepted := [a], appended := [a], kept := [0])
  }

  lemma EmptyReachable()
    ensures Reachable(TINY, Empty())
  {
    assert Init(TINY) == Empty();
    assert TimelyRun(TINY, []) && Run(TINY, []) == Some(Init(TINY));
  }

  lemma OneReachable(a: Value)
    ensures Reachable(TINY, One(a))
  {
    EmptyReachable();
    hide Reachable;
    var s := AppendOne(Empty(), a);
    assert [] + [a] == [a];
    assert s == One(a);
  }

  lemma OneRead(a: Value)
    ensures Reachable(TINY, One(a).(poppers := map[0 := Swap(0, a)]))
  {
    OneReachable(a);
    hide Reachable;
    var s := ReadOne(One(a), 0, a);
    assert s.poppers == map[0 := Swap(0, a)];
  }

  lemma FirstLap(a: Value, b: Value)
    ensures Reachable(TINY, Lap(a, b, 1))
  {
    OneRead(a);
    hide Reachable, History, Naturals;
    var s := PopOne(One(a).(poppers := map[0 := Swap(0, a)]), 1, a);
    HistoryGrows(a, b, 1);
    assert s == Lap(a, b, 1);
  }

  lemma {:induction false} LapsReachable(a: Value, b: Value, n: nat)
    requires n >= 1
    ensures Reachable(TINY, Lap(a, b, n))
    decreases n, 0
  {
    hide Reachable, History, Naturals, TimelyRun, Run;
    if n == 1 {
      FirstLap(a, b);
    } else {
      FilledReachable(a, b, n - 1);
      var s := PopOne(Filled(a, b, n - 1), 1, b);
      FilledLaps(a, b, n - 1, s);
    }
  }

  lemma {:induction false} FilledReachable(a: Value, b: Value, n: nat)
    requires n >= 1
    ensures Reachable(TINY, Filled(a, b, n))
    decreases n, 1
  {
    hide Reachable, History, Naturals;
    LapsReachable(a, b, n);
    var s := AppendOne(Lap(a, b, n), b);
    LapFills(a, b, n, s);
  }

  /** A run in which every earlier action was timely, and the next CAS - possible, but 2^64 pops late -
      succeeds with the first value again although the ring holds another. */
  lemma LateCasTakesAStaleValue(a: Value, b: Value)
    requires a != b
    ensures exists s :: && Reachable(TINY, s) && PopEnabled(TINY, s, 0, Cas) && CasMatches(s, s.poppers[0].h)
                        && |s.popped| < |s.appended| && s.poppers[0].v != s.appended[|s.popped|]
  {
    FilledReachable(a, b, WORD);
    var s := Filled(a, b, WORD);
    assert CasMatches(s, 0);
  }
}
