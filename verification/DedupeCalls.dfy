/** What each call of the dedupe protocol comes to when nothing comes between its steps: the same ids join or
    leave heap and set as in `PollManager`, and no thread is left in the middle. */
module DedupeCalls {
  import opened Options
  import opened DedupeProtocol

  /** The ids a push lets in: in the set already, or finalized, an id stays out. */
  function Admitted(s: State, values: seq<Id>, final: set<Id>): (ids: set<Id>) {
    set v | v in values && v !in s.ids && v !in final
  }

  /** A push that has dealt with its first values. */
  ghost predicate PushedSoFar(s: State, u: State, t: ThreadId, values: seq<Id>, i: nat, final: set<Id>)
    requires i <= |values|
  {
    var ids := Admitted(s, values[..i], final);
    && t in u.pushers && u.pushers - {t} == s.pushers
    && u.pushers[t].todo == values[i..] && u.pushers[t].checking.None? && multiset(u.pushers[t].pruned) == multiset(ids)
    && u == s.(ids := s.ids + ids, pushers := u.pushers)
  }

  lemma AdmittedOneMore(s: State, values: seq<Id>, i: nat, final: set<Id>)
    requires i < |values|
    ensures Admitted(s, values[..i + 1], final) ==
            Admitted(s, values[..i], final) + (if values[i] in s.ids || values[i] in final then {} else {values[i]})
  {
    assert values[..i + 1] == values[..i] + [values[i]];
  }

  /** The state after one more value: one step if its id is in the set, otherwise two. */
  function AfterValue(u: State, t: ThreadId, id: Id, final: set<Id>): State
    requires Enabled(u, t, TryInsert) && u.pushers[t].todo[0] == id
  {
    var w := Apply(u, t, TryInsert);
    if id in u.ids then w else if id in final then Apply(w, t, AlreadyFinalized) else Apply(w, t, NotFinalized)
  }

  lemma AfterValueIs(u: State, t: ThreadId, id: Id, final: set<Id>)
    requires Enabled(u, t, TryInsert) && u.pushers[t].todo[0] == id
    ensures var p := u.pushers[t];
            AfterValue(u, t, id, final) ==
            if id in u.ids || id in final then u.(pushers := u.pushers[t := p.(todo := p.todo[1..])])
            else u.(ids := u.ids + {id}, pushers := u.pushers[t := p.(todo := p.todo[1..], pruned := p.pruned + [id])])
  {
    var w := AfterValue(u, t, id, final);
    assert w.pushers == u.pushers[t := w.pushers[t]];
    assert id in final && id !in u.ids ==> w.ids == u.ids;
  }

  lemma StaysOut(s: State, u: State, w: State, t: ThreadId, values: seq<Id>, i: nat, final: set<Id>)
    requires i < |values| && PushedSoFar(s, u, t, values, i, final) && (values[i] in u.ids || values[i] in final)
    requires w == u.(pushers := u.pushers[t := u.pushers[t].(todo := values[i + 1..])])
    ensures PushedSoFar(s, w, t, values, i + 1, final)
  {
    AdmittedOneMore(s, values, i, final);
    hide Admitted;
    assert w.pushers - {t} == u.pushers - {t};
    assert Admitted(s, values[..i + 1], final) == Admitted(s, values[..i], final);
  }

  lemma OneMoreOf(pruned: seq<Id>, ids: set<Id>, id: Id)
    requires multiset(pruned) == multiset(ids) && id !in ids
    ensures multiset(pruned + [id]) == multiset(ids + {id})
  {
    assert multiset(ids + {id}) == multiset(ids) + multiset{id};
  }

  lemma GetsIn(s: State, u: State, w: State, t: ThreadId, values: seq<Id>, i: nat, final: set<Id>)
    requires i < |values| && PushedSoFar(s, u, t, values, i, final) && values[i] !in u.ids && values[i] !in final
    requires w == u.(ids := u.ids + {values[i]},
                     pushers := u.pushers[t := u.pushers[t].(todo := values[i + 1..], pruned := u.pushers[t].pruned + [values[i]])])
    ensures PushedSoFar(s, w, t, values, i + 1, final)
  {
    AdmittedOneMore(s, values, i, final);
    hide Admitted;
    var ids := Admitted(s, values[..i], final);
    assert w.pushers - {t} == u.pushers - {t};
    assert w.ids == s.ids + (ids + {values[i]});
    OneMoreOf(u.pushers[t].pruned, ids, values[i]);
  }

  lemma PushOne(s: State, u: State, t: ThreadId, values: seq<Id>, i: nat, final: set<Id>)
    requires i < |values| && PushedSoFar(s, u, t, values, i, final)
    ensures Enabled(u, t, TryInsert) && u.pushers[t].todo[0] == values[i]
    ensures PushedSoFar(s, AfterValue(u, t, values[i], final), t, values, i + 1, final)
  {
    assert Enabled(u, t, TryInsert) && u.pushers[t].todo[0] == values[i];
    AfterValueIs(u, t, values[i], final);
    assert values[i..][1..] == values[i + 1..] && u.pushers[t].todo == values[i..];
    hide PushedSoFar, AfterValue, Apply, Enabled, Admitted;
    if values[i] in u.ids || values[i] in final {
      StaysOut(s, u, AfterValue(u, t, values[i], final), t, values, i, final);
    } else {
      GetsIn(s, u, AfterValue(u, t, values[i], final), t, values, i, final);
    }
  }

  lemma ValueSteps(u: State, t: ThreadId, id: Id, final: set<Id>) returns (steps: seq<Step>)
    requires Enabled(u, t, TryInsert) && u.pushers[t].todo[0] == id
    ensures Run(u, steps) == Some(AfterValue(u, t, id, final))
  {
    hide Run;
    NoSteps(u);
    RunOnce(u, [], Step(t, TryInsert));
    steps := [] + [Step(t, TryInsert)];
    if id !in u.ids {
      var a := if id in final then AlreadyFinalized else NotFinalized;
      RunOnce(u, steps, Step(t, a));
      steps := steps + [Step(t, a)];
    }
  }

  lemma NoSteps(s: State)
    ensures Run(s, []) == Some(s)
  {
  }

  lemma {:induction false} RunBoth(s: State, a: seq<Step>, b: seq<Step>)
    requires Run(s, a).Some?
    ensures Run(s, a + b) == Run(Run(s, a).value, b)
  {
    hide Enabled, Apply;
    if b == [] {
      assert a + b == a;
    } else {
      var n := |b| - 1;
      assert (a + b)[..|a + b| - 1] == a + b[..n];
      RunBoth(s, a, b[..n]);
    }
  }

  lemma PushBegins(s: State, t: ThreadId, values: seq<Id>, final: set<Id>) returns (u: State)
    requires t !in s.pushers
    ensures Enabled(s, t, Push(values)) && u == Apply(s, t, Push(values)) && PushedSoFar(s, u, t, values, 0, final)
  {
    u := Apply(s, t, Push(values));
    assert u.pushers - {t} == s.pushers;
    assert s.ids + {} == s.ids;
  }

  lemma PushEnds(s: State, u: State, t: ThreadId, values: seq<Id>, final: set<Id>)
    requires s.stale.None? && PushedSoFar(s, u, t, values, |values|, final)
    ensures var ids := Admitted(s, values, final);
            Enabled(u, t, Merge) && Apply(u, t, Merge) == s.(ids := s.ids + ids, heap := s.heap + multiset(ids))
  {
    assert values[..|values|] == values;
  }

  /** A push alone lets each id that is neither in the set nor finalized into set and heap, once. */
  lemma PushAlone(s: State, t: ThreadId, values: seq<Id>, final: set<Id>) returns (steps: seq<Step>)
    requires t !in s.pushers && s.stale.None?
    ensures var ids := Admitted(s, values, final);
            Run(s, steps) == Some(s.(ids := s.ids + ids, heap := s.heap + multiset(ids)))
  {
    hide Run, PushedSoFar, Enabled, Apply, Admitted;
    NoSteps(s);
    var u := PushBegins(s, t, values, final);
    RunOnce(s, [], Step(t, Push(values)));
    steps := [] + [Step(t, Push(values))];
    for i := 0 to |values|
      invariant Run(s, steps) == Some(u) && PushedSoFar(s, u, t, values, i, final)
    {
      hide AfterValue;
      PushOne(s, u, t, values, i, final);
      var more := ValueSteps(u, t, values[i], final);
      RunBoth(s, steps, more);
      steps, u := steps + more, AfterValue(u, t, values[i], final);
    }
    PushEnds(s, u, t, values, final);
    RunOnce(s, steps, Step(t, Merge));
    steps := steps + [Step(t, Merge)];
  }

  lemma PopThenRemove(s: State, t: ThreadId, id: Id)
    requires t !in s.takers && id in s.heap && s.stale.None?
    ensures Enabled(s, t, Pop(id)) && Enabled(Apply(s, t, Pop(id)), t, Remove)
    ensures Apply(Apply(s, t, Pop(id)), t, Remove) == s.(heap := s.heap - multiset{id}, ids := s.ids - {id})
  {
    assert s.takers[t := id] - {t} == s.takers;
  }

  /** A take alone moves one copy out of the heap and frees its id. */
  lemma TakeAlone(s: State, t: ThreadId, id: Id)
    requires t !in s.takers && id in s.heap && s.stale.None?
    ensures Run(s, [Step(t, Pop(id)), Step(t, Remove)]) == Some(s.(heap := s.heap - multiset{id}, ids := s.ids - {id}))
  {
    hide Run, Enabled, Apply;
    NoSteps(s);
    PopThenRemove(s, t, id);
    RunOnce(s, [], Step(t, Pop(id)));
    RunOnce(s, [] + [Step(t, Pop(id))], Step(t, Remove));
    assert [Step(t, Pop(id)), Step(t, Remove)] == [] + [Step(t, Pop(id))] + [Step(t, Remove)];
  }

  /** A clean that has freed its first ids. */
  function Cleaned(s: State, gone: seq<Id>, i: nat): State
    requires i <= |gone|
  {
    s.(heap := s.heap - multiset(gone), ids := s.ids - (set id | id in gone[..i]), stale := Some(gone[i..]))
  }

  lemma CleanOne(s: State, t: ThreadId, gone: seq<Id>, i: nat)
    requires i < |gone|
    ensures Enabled(Cleaned(s, gone, i), t, CleanRemove)
    ensures Apply(Cleaned(s, gone, i), t, CleanRemove) == Cleaned(s, gone, i + 1)
  {
    assert gone[..i + 1] == gone[..i] + [gone[i]] && gone[i..][1..] == gone[i + 1..];
  }

  lemma CleanEnds(s: State, t: ThreadId, gone: seq<Id>)
    requires s.stale.None? && multiset(gone) <= s.heap
    ensures Enabled(s, t, CleanSwap(gone)) && Apply(s, t, CleanSwap(gone)) == Cleaned(s, gone, 0)
    ensures Enabled(Cleaned(s, gone, |gone|), t, CleanUnlock)
    ensures Apply(Cleaned(s, gone, |gone|), t, CleanUnlock) ==
            s.(heap := s.heap - multiset(gone), ids := s.ids - (set id | id in gone))
  {
    assert gone[..|gone|] == gone && gone[0..] == gone && gone[|gone|..] == [];
    assert s.ids - (set id | id in gone[..0]) == s.ids;
  }

  /** A clean alone takes the stale polls out of the heap and frees their ids. */
  lemma CleanAlone(s: State, t: ThreadId, gone: seq<Id>) returns (steps: seq<Step>)
    requires s.stale.None? && multiset(gone) <= s.heap
    ensures Run(s, steps) == Some(s.(heap := s.heap - multiset(gone), ids := s.ids - (set id | id in gone)))
  {
    hide Run, Enabled, Apply, Cleaned;
    NoSteps(s);
    CleanEnds(s, t, gone);
    RunOnce(s, [], Step(t, CleanSwap(gone)));
    steps := [] + [Step(t, CleanSwap(gone))];
    for i := 0 to |gone|
      invariant Run(s, steps) == Some(Cleaned(s, gone, i))
    {
      CleanOne(s, t, gone, i);
      RunOnce(s, steps, Step(t, CleanRemove));
      steps := steps + [Step(t, CleanRemove)];
    }
    RunOnce(s, steps, Step(t, CleanUnlock));
    steps := steps + [Step(t, CleanUnlock)];
  }
}
