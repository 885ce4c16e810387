/** Who holds a poll id: the dedupe set against the heap, concurrent pushers, takers and `CleanQueue`.
    Each set operation and each locked heap operation is one atomic action. */
module DedupeProtocol {
  import opened Options

  type Id = string
  type ThreadId = nat

  /** A `Push` call: ids still to look at, the one inserted and not yet checked against the results
      table, and those kept for the merge. */
  datatype Pusher = Pusher(todo: seq<Id>, checking: Option<Id>, pruned: seq<Id>)

  /** `stale` is Some while `CleanQueue` holds the heap's lock and has ids left to take out of the set. */
  datatype State = State(
    ids: set<Id>,
    heap: multiset<Id>,
    pushers: map<ThreadId, Pusher>,
    takers: map<ThreadId, Id>,
    stale: Option<seq<Id>>,
    leaked: set<Id>)   // history: ids whose holder failed before it could free them

  function Start(heap: multiset<Id>): State {
    State({}, heap, map[], map[], None, {})
  }

  datatype Action =
    | Push(values: seq<Id>)
    | TryInsert
    | AlreadyFinalized   // hasFinalized says yes: undo the insert
    | NotFinalized
    | Merge
    | MergeRefused       // the heap was closed: the pruned ids stay in the set
    | Pop(id: Id)
    | Remove
    | CleanSwap(gone: seq<Id>)  // heap cleared and rewritten without the stale polls
    | CleanRemove
    | CleanFailed        // the rewrite failed on file: returns before freeing any id
    | CleanUnlock

  predicate Enabled(s: State, t: ThreadId, a: Action) {
    match a
    case Push(_) => t !in s.pushers
    case TryInsert => t in s.pushers && s.pushers[t].checking.None? && s.pushers[t].todo != []
    case AlreadyFinalized => t in s.pushers && s.pushers[t].checking.Some?
    case NotFinalized => t in s.pushers && s.pushers[t].checking.Some?
    case Merge => t in s.pushers && s.pushers[t].checking.None? && s.pushers[t].todo == [] && s.stale.None?
    case MergeRefused => t in s.pushers && s.pushers[t].checking.None? && s.pushers[t].todo == []
    case Pop(id) => t !in s.takers && id in s.heap && s.stale.None?
    case Remove => t in s.takers
    case CleanSwap(gone) => s.stale.None? && multiset(gone) <= s.heap
    case CleanRemove => s.stale.Some? && s.stale.value != []
    case CleanFailed => s.stale.Some?
    case CleanUnlock => s.stale == Some([])
  }

  function Apply(s: State, t: ThreadId, a: Action): State
    requires Enabled(s, t, a)
  {
    match a
    case Push(values) => s.(pushers := s.pushers[t := Pusher(values, None, [])])
    case TryInsert =>
      var p := s.pushers[t];
      var id := p.todo[0];
      if id in s.ids then s.(pushers := s.pushers[t := p.(todo := p.todo[1..])])
      else s.(ids := s.ids + {id}, pushers := s.pushers[t := p.(todo := p.todo[1..], checking := Some(id))])
    case AlreadyFinalized =>
      var p := s.pushers[t];
      s.(ids := s.ids - {p.checking.value}, pushers := s.pushers[t := p.(checking := None)])
    case NotFinalized =>
      var p := s.pushers[t];
      s.(pushers := s.pushers[t := p.(checking := None, pruned := p.pruned + [p.checking.value])])
    case Merge => s.(heap := s.heap + multiset(s.pushers[t].pruned), pushers := s.pushers - {t})
    case MergeRefused =>
      s.(leaked := s.leaked + (set id | id in s.pushers[t].pruned), pushers := s.pushers - {t})
    case Pop(id) => s.(heap := s.heap - multiset{id}, takers := s.takers[t := id])
    case Remove => s.(ids := s.ids - {s.takers[t]}, takers := s.takers - {t})
    case CleanSwap(gone) => s.(heap := s.heap - multiset(gone), stale := Some(gone))
    case CleanRemove => s.(ids := s.ids - {s.stale.value[0]}, stale := Some(s.stale.value[1..]))
    case CleanFailed => s.(leaked := s.leaked + (set id | id in s.stale.value), stale := None)
    case CleanUnlock => s.(stale := None)
  }

  // ---------------------------------------------------------------- ownership

  datatype Owner = Queue | ByPusher(t: ThreadId) | ByTaker(t: ThreadId) | Cleaner

  /** How many times an owner holds an id. */
  function Count(s: State, o: Owner, id: Id): nat {
    match o
    case Queue => s.heap[id]
    case ByPusher(t) => if t in s.pushers then CountIn(s.pushers[t], id) else 0
    case ByTaker(t) => if t in s.takers && s.takers[t] == id then 1 else 0
    case Cleaner => if s.stale.Some? then multiset(s.stale.value)[id] else 0
  }

  function CountIn(p: Pusher, id: Id): nat {
    multiset(p.pruned)[id] + (if p.checking == Some(id) then 1 else 0)
  }

  /** An id has one owner, who holds it once, or none; and it is in the set exactly when it has an owner
      or was left there by a failure. */
  ghost predicate Owned(s: State, id: Id, who: Option<Owner>) {
    && (forall o :: Count(s, o, id) == if who == Some(o) then 1 else 0)
    && (id in s.ids <==> who.Some? || id in s.leaked)
    && (id in s.leaked ==> who.None?)
  }

  ghost predicate HasOneOwner(s: State, id: Id) {
    exists who :: Owned(s, id, who)
  }

  ghost predicate Inv(s: State) {
    forall id :: HasOneOwner(s, id)
  }

  /** The owner of an id after an action. */
  ghost function NewOwner(s: State, t: ThreadId, a: Action, id: Id, who: Option<Owner>): Option<Owner>
    requires Enabled(s, t, a)
  {
    match a
    case TryInsert => if id == s.pushers[t].todo[0] && id !in s.ids then Some(ByPusher(t)) else who
    case AlreadyFinalized => if s.pushers[t].checking == Some(id) then None else who
    case Merge => if who == Some(ByPusher(t)) then Some(Queue) else who
    case MergeRefused => if who == Some(ByPusher(t)) then None else who
    case Pop(top) => if id == top then Some(ByTaker(t)) else who
    case Remove => if id == s.takers[t] then None else who
    case CleanSwap(gone) => if id in gone then Some(Cleaner) else who
    case CleanRemove => if id == s.stale.value[0] then None else who
    case CleanFailed => if who == Some(Cleaner) then None else who
    case _ => who
  }

  lemma PushStep(s: State, t: ThreadId, a: Action, id: Id, who: Option<Owner>)
    requires Owned(s, id, who) && Enabled(s, t, a) && (a.Push? || a.TryInsert?)
    ensures Owned(Apply(s, t, a), id, NewOwner(s, t, a, id, who))
  {
    var u := Apply(s, t, a);
    var me := ByPusher(t);
    assert Count(s, me, id) == if who == Some(me) then 1 else 0;
    forall o ensures Count(u, o, id) == if NewOwner(s, t, a, id, who) == Some(o) then 1 else 0 {
      assert Count(s, o, id) == if who == Some(o) then 1 else 0;
    }
  }

  lemma CheckedStep(s: State, t: ThreadId, a: Action, id: Id, who: Option<Owner>)
    requires Owned(s, id, who) && Enabled(s, t, a) && (a.AlreadyFinalized? || a.NotFinalized?)
    ensures Owned(Apply(s, t, a), id, NewOwner(s, t, a, id, who))
  {
    var u := Apply(s, t, a);
    var me := ByPusher(t);
    assert Count(s, me, id) == if who == Some(me) then 1 else 0;
    forall o ensures Count(u, o, id) == if NewOwner(s, t, a, id, who) == Some(o) then 1 else 0 {
      assert Count(s, o, id) == if who == Some(o) then 1 else 0;
    }
  }

  lemma MergeStep(s: State, t: ThreadId, a: Action, id: Id, who: Option<Owner>)
    requires Owned(s, id, who) && Enabled(s, t, a) && (a.Merge? || a.MergeRefused?)
    ensures Owned(Apply(s, t, a), id, NewOwner(s, t, a, id, who))
  {
    var u := Apply(s, t, a);
    var me := ByPusher(t);
    assert Count(s, me, id) == multiset(s.pushers[t].pruned)[id] == if who == Some(me) then 1 else 0;
    assert id in s.pushers[t].pruned <==> who == Some(me);
    forall o ensures Count(u, o, id) == if NewOwner(s, t, a, id, who) == Some(o) then 1 else 0 {
      assert Count(s, o, id) == if who == Some(o) then 1 else 0;
    }
  }

  lemma PopStep(s: State, t: ThreadId, top: Id, id: Id, who: Option<Owner>)
    requires Owned(s, id, who) && Enabled(s, t, Pop(top))
    ensures Owned(Apply(s, t, Pop(top)), id, NewOwner(s, t, Pop(top), id, who))
  {
    var u := Apply(s, t, Pop(top));
    assert Count(s, Queue, id) == if who == Some(Queue) then 1 else 0;
    assert Count(s, ByTaker(t), id) == 0;
    forall o ensures Count(u, o, id) == if NewOwner(s, t, Pop(top), id, who) == Some(o) then 1 else 0 {
      assert Count(s, o, id) == if who == Some(o) then 1 else 0;
    }
  }

  lemma RemoveStep(s: State, t: ThreadId, id: Id, who: Option<Owner>)
    requires Owned(s, id, who) && Enabled(s, t, Remove)
    ensures Owned(Apply(s, t, Remove), id, NewOwner(s, t, Remove, id, who))
  {
    var u := Apply(s, t, Remove);
    assert Count(s, ByTaker(t), id) == if who == Some(ByTaker(t)) then 1 else 0;
    forall o ensures Count(u, o, id) == if NewOwner(s, t, Remove, id, who) == Some(o) then 1 else 0 {
      assert Count(s, o, id) == if who == Some(o) then 1 else 0;
    }
  }

  lemma CleanSwapStep(s: State, t: ThreadId, gone: seq<Id>, id: Id, who: Option<Owner>)
    requires Owned(s, id, who) && Enabled(s, t, CleanSwap(gone))
    ensures Owned(Apply(s, t, CleanSwap(gone)), id, NewOwner(s, t, CleanSwap(gone), id, who))
  {
    var u := Apply(s, t, CleanSwap(gone));
    assert Count(s, Queue, id) == if who == Some(Queue) then 1 else 0;
    assert multiset(gone)[id] <= s.heap[id];
    assert id in gone <==> id in multiset(gone);
    forall o ensures Count(u, o, id) == if NewOwner(s, t, CleanSwap(gone), id, who) == Some(o) then 1 else 0 {
      assert Count(s, o, id) == if who == Some(o) then 1 else 0;
    }
  }

  lemma CleanerStep(s: State, t: ThreadId, a: Action, id: Id, who: Option<Owner>)
    requires Owned(s, id, who) && Enabled(s, t, a)
    requires a.CleanRemove? || a.CleanFailed? || a.CleanUnlock?
    ensures Owned(Apply(s, t, a), id, NewOwner(s, t, a, id, who))
  {
    var u := Apply(s, t, a);
    var gone := s.stale.value;
    assert Count(s, Cleaner, id) == multiset(gone)[id];
    assert a.CleanRemove? ==> gone == [gone[0]] + gone[1..];
    assert id in gone <==> id in multiset(gone);
    forall o ensures Count(u, o, id) == if NewOwner(s, t, a, id, who) == Some(o) then 1 else 0 {
      assert Count(s, o, id) == if who == Some(o) then 1 else 0;
    }
  }

  lemma StepKeeps(s: State, t: ThreadId, a: Action)
    requires Inv(s) && Enabled(s, t, a)
    ensures Inv(Apply(s, t, a))
  {
    hide Count, Owned, Apply, NewOwner;
    forall id ensures HasOneOwner(Apply(s, t, a), id) {
      assert HasOneOwner(s, id);
      var who :| Owned(s, id, who);
      match a {
        case Push(_) | TryInsert => PushStep(s, t, a, id, who);
        case AlreadyFinalized | NotFinalized => CheckedStep(s, t, a, id, who);
        case Merge | MergeRefused => MergeStep(s, t, a, id, who);
        case Pop(top) => PopStep(s, t, top, id, who);
        case Remove => RemoveStep(s, t, id, who);
        case CleanSwap(gone) => CleanSwapStep(s, t, gone, id, who);
        case CleanRemove | CleanFailed | CleanUnlock => CleanerStep(s, t, a, id, who);
      }
    }
  }

  // ---------------------------------------------------------------- runs

  datatype Step = Step(t: ThreadId, a: Action)

  function Run(from: State, steps: seq<Step>): Option<State> {
    if steps == [] then Some(from)
    else
      var n := |steps| - 1;
      var r := Run(from, steps[..n]);
      if r.Some? && Enabled(r.value, steps[n].t, steps[n].a) then Some(Apply(r.value, steps[n].t, steps[n].a)) else None
  }

  lemma {:induction false} RunKeeps(steps: seq<Step>)
    requires Run(Start(multiset{}), steps).Some?
    ensures Inv(Run(Start(multiset{}), steps).value)
  {
    if steps == [] {
      forall id ensures HasOneOwner(Start(multiset{}), id) {
        assert Owned(Start(multiset{}), id, None);
      }
    } else {
      var n := |steps| - 1;
      RunKeeps(steps[..n]);
      StepKeeps(Run(Start(multiset{}), steps[..n]).value, steps[n].t, steps[n].a);
    }
  }

  /** From an empty queue, in every interleaving: an id is held at most once among the heap, the pushers
      between insert and merge, the takers between pop and remove, and the cleaner; every held id is in the
      set; and every id in the set is held, unless a failed merge or rewrite left it there. */
  lemma EveryIdHasOneOwner(steps: seq<Step>, id: Id)
    requires Run(Start(multiset{}), steps).Some?
    ensures var s := Run(Start(multiset{}), steps).value;
            && (forall o :: Count(s, o, id) <= 1)
            && (forall o, q :: Count(s, o, id) > 0 && Count(s, q, id) > 0 ==> o == q)
            && (id in s.ids <==> id in s.leaked || exists o :: Count(s, o, id) > 0)
  {
    RunKeeps(steps);
    var s := Run(Start(multiset{}), steps).value;
    assert HasOneOwner(s, id);
    var who :| Owned(s, id, who);
    if who.Some? {
      assert Count(s, who.value, id) == 1;
    }
  }

  // ---------------------------------------------------------------- reopening a non-empty heap file

  /** No id sits twice in the heap. */
  predicate NoDuplicate(s: State) {
    forall id :: id in s.heap ==> s.heap[id] <= 1
  }

  ghost predicate NeverDuplicates(heap: multiset<Id>) {
    forall steps :: Run(Start(heap), steps).Some? ==> NoDuplicate(Run(Start(heap), steps).value)
  }

  lemma RunOnce(from: State, steps: seq<Step>, x: Step)
    requires Run(from, steps).Some? && Enabled(Run(from, steps).value, x.t, x.a)
    ensures Run(from, steps + [x]) == Some(Apply(Run(from, steps).value, x.t, x.a))
  {
    assert (steps + [x])[..|steps|] == steps;
  }

  /** Pushing an id that a reopened heap already holds seats a second copy, the set being empty. */
  lemma RepushAfterReopen(heap: multiset<Id>, id: Id)
    requires id in heap
    ensures !NeverDuplicates(heap)
  {
    var s := Start(heap);
    var p := [Step(0, Push([id]))];
    RunOnce(s, [], p[0]);
    assert p == [] + p;
    RunOnce(s, p, Step(0, TryInsert));
    p := p + [Step(0, TryInsert)];
    RunOnce(s, p, Step(0, NotFinalized));
    p := p + [Step(0, NotFinalized)];
    RunOnce(s, p, Step(0, Merge));
    p := p + [Step(0, Merge)];
    assert Run(s, p).value.heap[id] >= 2;
  }

  /** The dedupe set starts empty even when the heap file does not, so the heap is safe from duplicates
      exactly when the file was empty. */
  lemma SafeIffStartedEmpty(heap: multiset<Id>)
    ensures NeverDuplicates(heap) <==> heap == multiset{}
  {
    if heap == multiset{} {
      forall steps | Run(Start(heap), steps).Some? ensures NoDuplicate(Run(Start(heap), steps).value) {
        var s := Run(Start(heap), steps).value;
        forall id | id in s.heap ensures s.heap[id] <= 1 {
          EveryIdHasOneOwner(steps, id);
          assert Count(s, Queue, id) <= 1;
        }
      }
    } else {
      var id :| id in heap;
      RepushAfterReopen(heap, id);
    }
  }
}
