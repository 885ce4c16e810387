/** What the operations on the two tables of finalized polls change in what a query shows. */
module StoreViews {
  import opened Options
  import opened Decimals
  import opened Sorting
  import opened FinalizedStore

  /** The key a poll is shown for. */
  function NumberOf(rec: FinalRecord): nat {
    var id := rec.id;
    var digits := if ParseUint(id).None? && |id| > |FLOAT_SUFFIX| then id[..|id| - |FLOAT_SUFFIX|] else id;
    if AllDigits(digits) then Value(digits) else 0
  }

  function Dropping(recs: seq<FinalRecord>, ids: set<nat>): seq<FinalRecord> {
    if recs == [] then []
    else (if NumberOf(recs[0]) in ids then [] else [recs[0]]) + Dropping(recs[1..], ids)
  }

  function ActiveOnly(recs: seq<FinalRecord>): seq<FinalRecord> {
    if recs == [] then [] else (if recs[0].active then [recs[0]] else []) + ActiveOnly(recs[1..])
  }

  function Flagged(recs: seq<FinalRecord>, active: bool, ids: set<nat>): seq<FinalRecord> {
    if recs == [] then []
    else [if NumberOf(recs[0]) in ids then recs[0].(active := active) else recs[0]] + Flagged(recs[1..], active, ids)
  }

  /** Polls under new titles; the empty title gives a poll its own back. */
  function Retitled(recs: seq<FinalRecord>, titles: map<nat, string>, own: map<nat, string>): seq<FinalRecord> {
    if recs == [] then []
    else
      var n := NumberOf(recs[0]);
      var title := if n !in titles then recs[0].title else if titles[n] == "" && n in own then own[n] else titles[n];
      [recs[0].(title := title)] + Retitled(recs[1..], titles, own)
  }

  function OwnTitles(t: Table): map<nat, string> {
    map n | n in t :: t[n].title
  }

  // ---------------------------------------------------------------- queries by their keys

  function AllKeys(t: Table, omitInactive: bool): (k: seq<nat>)
    ensures forall n :: n in k ==> n in t
  {
    Ordered(Matching(t, omitInactive, {}, true))
  }

  lemma SelectedByKeys(t: Table, omitInactive: bool)
    ensures Selected(t, omitInactive, []) == Shows(t, AllKeys(t, omitInactive)) && Increasing(AllKeys(t, omitInactive))
    ensures forall n :: n in AllKeys(t, omitInactive) <==> n in t && (!omitInactive || t[n].active != 0)
  {
    hide Shows, Increasing;
    assert Keys([]) == {};
    OrderedIncreases(Matching(t, omitInactive, {}, true));
  }

  function Kept(keys: seq<nat>, keep: set<nat>): (k: seq<nat>)
    ensures forall n :: n in k <==> n in keys && n in keep
  {
    if keys == [] then [] else (if keys[0] in keep then [keys[0]] else []) + Kept(keys[1..], keep)
  }

  lemma {:induction false} KeptIncreases(keys: seq<nat>, keep: set<nat>)
    requires Increasing(keys)
    ensures Increasing(Kept(keys, keep))
  {
    if keys != [] {
      KeptIncreases(keys[1..], keep);
      var rest := Kept(keys[1..], keep);
      forall j | 0 <= j < |rest| ensures keys[0] < rest[j] {
        assert rest[j] in rest;
        assert rest[j] in keys[1..];
      }
    }
  }

  /** A query that keeps fewer rows keeps them in the same order. */
  lemma FewerKeys(t: Table, u: Table, omitT: bool, omitU: bool, keep: set<nat>)
    requires forall n :: (n in u && (!omitU || u[n].active != 0)) <==> (n in t && (!omitT || t[n].active != 0) && n in keep)
    ensures AllKeys(u, omitU) == Kept(AllKeys(t, omitT), keep)
  {
    hide AllKeys, Increasing;
    SelectedByKeys(t, omitT);
    SelectedByKeys(u, omitU);
    KeptIncreases(AllKeys(t, omitT), keep);
    OrderedUnique(AllKeys(u, omitU), Kept(AllKeys(t, omitT), keep));
  }

  lemma ShownNumber(n: nat, r: Row)
    ensures NumberOf(Shown(n, r)) == n
  {
    assert Value(Decimal(n)) == n;
    if n >= INT64_LIMIT {
      var id := ShownId(n);
      assert id[..|id| - |FLOAT_SUFFIX|] == Decimal(n);
    }
  }

  lemma ShowsTail(t: Table, keys: seq<nat>)
    requires keys != [] && forall n :: n in keys ==> n in t
    ensures (forall n :: n in keys[1..] ==> n in t) && keys[0] in t
    ensures Shows(t, keys) == [Shown(keys[0], t[keys[0]])] + Shows(t, keys[1..])
    ensures Shows(t, keys)[0] == Shown(keys[0], t[keys[0]]) && Shows(t, keys)[1..] == Shows(t, keys[1..])
  {
  }

  // ---------------------------------------------------------------- what each operation shows

  lemma {:induction false} ActiveShows(t: Table, keys: seq<nat>, keep: set<nat>)
    requires forall n :: n in keys ==> n in t && (n in keep <==> t[n].active != 0)
    ensures Shows(t, Kept(keys, keep)) == ActiveOnly(Shows(t, keys))
  {
    if keys != [] {
      ShowsTail(t, keys);
      ActiveShows(t, keys[1..], keep);
      if keys[0] in keep {
        ShowsTail(t, Kept(keys, keep));
        assert Kept(keys, keep)[1..] == Kept(keys[1..], keep);
      }
    }
  }

  /** Omitting inactive rows in the query is filtering the full answer. */
  lemma OmittingFilters(t: Table)
    ensures Selected(t, true, []) == ActiveOnly(Selected(t, false, []))
  {
    hide Shows, Selected, AllKeys, ActiveOnly;
    var keep := set n | n in t && t[n].active != 0;
    SelectedByKeys(t, true);
    SelectedByKeys(t, false);
    FewerKeys(t, t, false, true, keep);
    ActiveShows(t, AllKeys(t, false), keep);
  }

  lemma {:induction false} DroppedShows(t: Table, u: Table, keys: seq<nat>, keep: set<nat>, ids: set<nat>)
    requires forall n :: n in keys ==> n in t && (n in keep <==> n !in ids)
    requires forall n :: n in keys && n in keep ==> n in u && u[n] == t[n]
    ensures Shows(u, Kept(keys, keep)) == Dropping(Shows(t, keys), ids)
  {
    if keys != [] {
      ShowsTail(t, keys);
      ShownNumber(keys[0], t[keys[0]]);
      DroppedShows(t, u, keys[1..], keep, ids);
      if keys[0] in keep {
        ShowsTail(u, Kept(keys, keep));
        assert Kept(keys, keep)[1..] == Kept(keys[1..], keep);
      }
    }
  }

  lemma RemovedShows(t: Table, ids: set<nat>, omitInactive: bool)
    ensures Selected(t - ids, omitInactive, []) == Dropping(Selected(t, omitInactive, []), ids)
  {
    hide Shows, Selected, AllKeys, Dropping;
    var keep := t.Keys - ids;
    SelectedByKeys(t, omitInactive);
    SelectedByKeys(t - ids, omitInactive);
    FewerKeys(t, t - ids, omitInactive, omitInactive, keep);
    DroppedShows(t, t - ids, AllKeys(t, omitInactive), keep, ids);
  }

  /** After a drop every query shows what it showed before, without the dropped ids: nothing a manual row
      shadowed comes to light. */
  lemma DropShows(results: Table, manual: Table, ids: set<nat>, omitInactive: bool)
    ensures Selected(Sources(results - ids, manual - ids), omitInactive, []) ==
            Dropping(Selected(Sources(results, manual), omitInactive, []), ids)
  {
    hide Selected, Dropping;
    assert Sources(results - ids, manual - ids) == Sources(results, manual) - ids;
    RemovedShows(Sources(results, manual), ids, omitInactive);
  }

  /** Dropping only the manual row would not do: the results row it shadowed shows again. */
  lemma DropNeedsBothTables(results: Table, manual: Table, n: nat)
    requires n in results && n in manual
    ensures Shown(n, results[n]) in Selected(Sources(results, manual - {n}), false, [])
  {
    SelectedIsOrdered(Sources(results, manual - {n}), false);
  }

  lemma {:induction false} FlaggedShows(t: Table, u: Table, keys: seq<nat>, active: bool, ids: set<nat>)
    requires forall n :: n in keys ==> n in t && n in u && u[n] == if n in ids then t[n].(active := if active then 1 else 0) else t[n]
    ensures Shows(u, keys) == Flagged(Shows(t, keys), active, ids)
  {
    if keys != [] {
      ShowsTail(t, keys);
      ShowsTail(u, keys);
      ShownNumber(keys[0], t[keys[0]]);
      FlaggedShows(t, u, keys[1..], active, ids);
    }
  }

  /** After setting the flag the full answer is the old one with the flag of the named polls set, and the
      active view its active part: a poll deactivated disappears, one reactivated comes back in its place. */
  lemma SetActiveShows(results: Table, manual: Table, active: bool, ids: set<nat>)
    ensures var before := Selected(Sources(results, manual), false, []);
            var t := Sources(WithActive(results, active, ids), WithActive(manual, active, ids));
            && Selected(t, false, []) == Flagged(before, active, ids)
            && Selected(t, true, []) == ActiveOnly(Flagged(before, active, ids))
  {
    hide Shows, Selected, AllKeys, Flagged;
    var t, u := Sources(results, manual), Sources(WithActive(results, active, ids), WithActive(manual, active, ids));
    SelectedByKeys(t, false);
    SelectedByKeys(u, false);
    FewerKeys(t, u, false, false, t.Keys);
    AllKept(AllKeys(t, false), t.Keys);
    FlaggedShows(t, u, AllKeys(t, false), active, ids);
    OmittingFilters(u);
  }

  lemma {:induction false} AllKept(keys: seq<nat>, keep: set<nat>)
    requires forall n :: n in keys ==> n in keep
    ensures Kept(keys, keep) == keys
  {
    if keys != [] {
      AllKept(keys[1..], keep);
    }
  }

  lemma {:induction false} RetitledShows(t: Table, u: Table, keys: seq<nat>, titles: map<nat, string>, own: map<nat, string>)
    requires forall n :: n in keys ==> n in t && n in u && n in own && own[n] == t[n].title
    requires forall n :: n in keys ==> u[n] == if n in titles then WithTitle(t[n], titles[n]) else t[n]
    ensures Shows(u, keys) == Retitled(Shows(t, keys), titles, own)
  {
    hide NumberOf;
    if keys != [] {
      ShowsTail(t, keys);
      ShowsTail(u, keys);
      ShownNumber(keys[0], t[keys[0]]);
      RetitledShows(t, u, keys[1..], titles, own);
    }
  }

  lemma TitledShows(t: Table, titles: map<nat, string>, omitInactive: bool)
    ensures Selected(WithTitles(t, titles), omitInactive, []) == Retitled(Selected(t, omitInactive, []), titles, OwnTitles(t))
  {
    hide Shows, Selected, AllKeys, Retitled;
    var u := WithTitles(t, titles);
    SelectedByKeys(t, omitInactive);
    SelectedByKeys(u, omitInactive);
    FewerKeys(t, u, omitInactive, omitInactive, t.Keys);
    AllKept(AllKeys(t, omitInactive), t.Keys);
    RetitledShows(t, u, AllKeys(t, omitInactive), titles, OwnTitles(t));
  }

  /** After setting overrides every query shows the same polls in the same order, the named ones under their
      new titles and those cleared under their own, from whichever table they come. */
  lemma SetTitleShows(results: Table, manual: Table, titles: map<nat, string>, omitInactive: bool)
    ensures var t := Sources(results, manual);
            Selected(Sources(WithTitles(results, titles), WithTitles(manual, titles)), omitInactive, []) ==
            Retitled(Selected(t, omitInactive, []), titles, OwnTitles(t))
  {
    hide Selected, Retitled, WithTitle;
    assert Sources(WithTitles(results, titles), WithTitles(manual, titles)) == WithTitles(Sources(results, manual), titles);
    TitledShows(Sources(results, manual), titles, omitInactive);
  }

  // ---------------------------------------------------------------- overrides by text

  lemma {:induction false} ChosenKeys(order: seq<Snowflake>, m: map<Snowflake, string>, n: nat)
    requires forall s :: s in order ==> s in m
    ensures n in Chosen(order, m) <==> exists s :: s in order && KeyOf(s) == Some(n)
  {
    hide KeyOf;
    if order != [] {
      ChosenKeys(order[1..], m, n);
      assert forall s :: s in order <==> s == order[0] || s in order[1..];
    }
  }

  /** The title of a key is that of one of its texts. */
  lemma {:induction false} ChosenFrom(order: seq<Snowflake>, m: map<Snowflake, string>, n: nat) returns (s: Snowflake)
    requires (forall s :: s in order ==> s in m) && n in Chosen(order, m)
    ensures s in order && KeyOf(s) == Some(n) && Chosen(order, m)[n] == m[s]
  {
    hide KeyOf;
    if KeyOf(order[0]) == Some(n) {
      s := order[0];
    } else {
      s := ChosenFrom(order[1..], m, n);
    }
  }

  lemma {:induction false} OrderOf(m: map<Snowflake, string>) returns (order: seq<Snowflake>)
    ensures IsOrder(order, m)
    decreases |m|
  {
    if m == map[] {
      order := [];
    } else {
      var s :| s in m;
      var rest := m - {s};
      assert rest.Keys == m.Keys - {s};
      order := OrderOf(rest);
      order := [s] + order;
    }
  }

  lemma FirstOfTwo(m: map<Snowflake, string>, a: Snowflake, n: nat) returns (order: seq<Snowflake>)
    requires a in m && KeyOf(a) == Some(n)
    ensures IsOrder(order, m) && n in Chosen(order, m) && Chosen(order, m)[n] == m[a]
  {
    hide KeyOf;
    var rest := OrderOf(m - {a});
    order := [a] + rest;
    assert order[1..] == rest;
    assert forall s :: s in order <==> s == a || s in rest;
    assert a !in rest;
  }

  /** A batch of overrides keyed by text has one outcome, whatever order Go visits the map in, if and only if
      texts of one key carry equal titles. */
  predicate OneTitlePerKey(m: map<Snowflake, string>) {
    forall a, b :: a in m && b in m && KeyOf(a).Some? && KeyOf(a) == KeyOf(b) ==> m[a] == m[b]
  }

  lemma SameChoice(m: map<Snowflake, string>, order: seq<Snowflake>, other: seq<Snowflake>)
    requires IsOrder(order, m) && IsOrder(other, m) && OneTitlePerKey(m)
    ensures Chosen(order, m) == Chosen(other, m)
  {
    hide KeyOf, Chosen;
    forall n ensures n in Chosen(order, m) <==> n in Chosen(other, m) {
      ChosenKeys(order, m, n);
      ChosenKeys(other, m, n);
    }
    forall n | n in Chosen(order, m) ensures Chosen(order, m)[n] == Chosen(other, m)[n] {
      var s := ChosenFrom(order, m, n);
      var t := ChosenFrom(other, m, n);
    }
  }

  lemma OverridesDeterminedIff(m: map<Snowflake, string>)
    ensures (forall order, other :: IsOrder(order, m) && IsOrder(other, m) ==> Chosen(order, m) == Chosen(other, m))
            <==> OneTitlePerKey(m)
  {
    hide KeyOf, Chosen, IsOrder;
    if OneTitlePerKey(m) {
      forall order, other | IsOrder(order, m) && IsOrder(other, m) ensures Chosen(order, m) == Chosen(other, m) {
        SameChoice(m, order, other);
      }
    } else {
      var a, b :| a in m && b in m && KeyOf(a).Some? && KeyOf(a) == KeyOf(b) && m[a] != m[b];
      var order := FirstOfTwo(m, a, KeyOf(a).value);
      var other := FirstOfTwo(m, b, KeyOf(a).value);
    }
  }
}
