// Runs in which an event is dispatched inside a dispatch of itself: how often a
// hook can be called, and that this happens.
module HooksNested {
  import opened Hooks
  import opened Wrappers

  // How deep dispatches of event e nest.
  function Depth(script: Script, e: Key): nat {
    match script
    case Stop => 0
    case Register(_, _, next) => Depth(next, e)
    case Cancel(_, next) => Depth(next, e)
    case Clear(_, _, next) => Depth(next, e)
    case Fire(k, bodies, next) => Max((if k == e then 1 else 0) + BodiesDepth(bodies, e), Depth(next, e))
  }

  function BodiesDepth(bodies: Bodies, e: Key): nat {
    if bodies.Body? then Max(Depth(bodies.script, e), BodiesDepth(bodies.rest, e)) else 0
  }

  // What dispatches nested at most d deep do to a hook with n shots: each of
  // them that called it has completed, and only those begun before its shots
  // were used up can have called it.
  ghost predicate Within(s: State, s': State, id: nat, n: nat, d: nat, fired: nat) {
    && Calls(s'.log, id) - Done(s'.log, id) == Calls(s.log, id) - Done(s.log, id) + fired
    && (Done(s.log, id) < n ==> Done(s'.log, id) <= n - 1 + d)
    && (Done(s.log, id) >= n ==> Done(s'.log, id) == Done(s.log, id))
  }

  lemma WithinTrans(a: State, b: State, c: State, id: nat, n: nat, d: nat, d': nat, f: nat, f': nat)
    requires n > 0 && Within(a, b, id, n, d, f) && Within(b, c, id, n, d', f')
    ensures Within(a, c, id, n, Max(d, d'), f + f')
  {
  }

  lemma {:induction false} NestedRun(s: State, script: Script, id: nat, e: Key, n: nat)
    requires Inv(s) && n > 0 && Fits(Run(s, script), id, e, n)
    ensures Within(s, Run(s, script), id, n, Depth(script, e), 0)
    decreases script, 0
  {
    hide Done, Calls, Rounds, Inv;
    match script {
      case Stop =>
      case Register(key, shots, next) =>
        RegisterKeepsInv(s, key, shots);
        NestedRun(Registered(s, key, shots), next, id, e, n);
      case Cancel(x, next) =>
        var s1 := CancelledOne(s, x);
        if x in s.born { DropKeepsInv(s, {x}); }
        NestedRun(s1, next, id, e, n);
      case Clear(kind, event, next) =>
        MatchingAreBorn(s, kind, event);
        DropKeepsInv(s, MatchingIds(s.hooks, kind, event));
        NestedRun(Cleared(s, kind, event), next, id, e, n);
      case Fire(key, bodies, next) =>
        var s1 := Dispatch(s, key, bodies).0;
        DispatchKeepsInv(s, key, bodies);
        RunKeepsInv(s1, next);
        NestedDispatch(s, key, bodies, id, e, n);
        NestedRun(s1, next, id, e, n);
        WithinTrans(s, s1, Run(s1, next), id, n,
                    (if key == e then 1 else 0) + BodiesDepth(bodies, e), Depth(next, e), 0, 0);
    }
  }

  lemma {:induction false} NestedDispatch(s: State, key: Key, bodies: Bodies, id: nat, e: Key, n: nat)
    requires Inv(s) && n > 0 && Fits(Dispatch(s, key, bodies).0, id, e, n)
    ensures Within(s, Dispatch(s, key, bodies).0, id, n, (if key == e then 1 else 0) + BodiesDepth(bodies, e), 0)
    decreases bodies, |s.hooks| + 1
  {
    hide Done, Calls, Rounds, Inv, Walk;
    DispatchKeepsInv(s, key, bodies);
    assert s.hooks[0..] == s.hooks;
    NestedWalk(s, s, 0, key, bodies, NoTally, id, e, n);
    var (s1, t) := Walk(s, s.hooks, key, bodies, NoTally);
    LogStep(s1.log, Completed(key, s.nextHook, set x | x in t.called));
    if id in t.called {
      assert Live(s, id) && s.born[id].key == key;
    }
  }

  lemma {:induction false} NestedWalk(s0: State, s: State, k: nat, key: Key, bodies: Bodies, t: Tally, id: nat,
                                      e: Key, n: nat)
    requires Inv(s0) && Inv(s) && Grows(s0, s) && k <= |s0.hooks| && TallyOk(s0, s, k, key, t)
    requires n > 0 && Fits(Walk(s, s0.hooks[k..], key, bodies, t).0, id, e, n)
    ensures var (s', t') := Walk(s, s0.hooks[k..], key, bodies, t);
            && Within(s, s', id, n, BodiesDepth(bodies, e), if id in t'.fired && id !in t.fired then 1 else 0)
            && (forall x :: x in t.fired ==> x in t'.fired)
    decreases bodies, |s0.hooks| - k
  {
    hide Done, Calls, Rounds, Inv, TallyOk;
    if k < |s0.hooks| {
      var h := s0.hooks[k];
      assert s0.hooks[k..][1..] == s0.hooks[k + 1..];
      if h.id in s.cancelled || h.key != key {
        TallyPassed(s0, s, k, key, t);
        NestedWalk(s0, s, k + 1, key, bodies, Passed(s, h, t), id, e, n);
      } else {
        var s1, t1 := BeforeCall(s, h), Fired(t, h, bodies);
        SnapshotHook(s0, s, k, key, t);
        CallKeepsInv(s, h);
        LogStep(s.log, Called(h.id));
        TallyCalled(s0, s, k, key, bodies, t);
        GrowsTrans(s0, s, s1);
        NestedWalkBody(s0, s1, k, key, bodies, t1, id, e, n);
        var s2 := if bodies.Body? then Run(s1, bodies.script) else s1;
        var (s', t') := Walk(s2, s0.hooks[k + 1..], key, if bodies.Body? then bodies.rest else Idle, t1);
        assert Walk(s, s0.hooks[k..], key, bodies, t) == (s', t');
        NestedStep(s, s1, s', h, bodies, t, t', id, n, BodiesDepth(bodies, e));
      }
    }
  }

  lemma NestedStep(s: State, s1: State, s': State, h: Hook, bodies: Bodies, t: Tally, t': Tally, id: nat, n: nat,
                   d: nat)
    requires n > 0 && s1 == BeforeCall(s, h) && h.id !in t.fired
    requires var t1 := Fired(t, h, bodies);
      && (forall x :: x in t1.fired ==> x in t'.fired)
      && Within(s1, s', id, n, d, if id in t'.fired && id !in t1.fired then 1 else 0)
    ensures Within(s, s', id, n, d, if id in t'.fired && id !in t.fired then 1 else 0)
    ensures forall x :: x in t.fired ==> x in t'.fired
  {
    hide Done, Calls, Rounds;
    LogStep(s.log, Called(h.id));
    var t1 := Fired(t, h, bodies);
    assert h.id in t1.fired;
    forall x | x in t.fired ensures x in t'.fired {
      assert x in t1.fired;
    }
  }

  lemma {:induction false} NestedWalkBody(s0: State, s1: State, k: nat, key: Key, bodies: Bodies, t1: Tally, id: nat,
                                          e: Key, n: nat)
    requires k < |s0.hooks| && Inv(s0) && Inv(s1) && Grows(s0, s1) && TallyOk(s0, s1, k + 1, key, t1)
    requires n > 0 && Fits(Walk(if bodies.Body? then Run(s1, bodies.script) else s1, s0.hooks[k + 1..], key,
                                if bodies.Body? then bodies.rest else Idle, t1).0, id, e, n)
    ensures var s2 := if bodies.Body? then Run(s1, bodies.script) else s1;
            var (s', t') := Walk(s2, s0.hooks[k + 1..], key, if bodies.Body? then bodies.rest else Idle, t1);
            && Within(s1, s', id, n, BodiesDepth(bodies, e), if id in t'.fired && id !in t1.fired then 1 else 0)
            && (forall x :: x in t1.fired ==> x in t'.fired)
    decreases bodies, |s0.hooks| - k, 0
  {
    hide Done, Calls, Rounds, Inv, TallyOk;
    match bodies {
      case Idle =>
        NestedWalk(s0, s1, k + 1, key, Idle, t1, id, e, n);
      case Body(script, _, _, rest) =>
        var s2 := Run(s1, script);
        RunKeepsInv(s1, script);
        GrowsTrans(s0, s1, s2);
        TallyLater(s0, s1, s2, k + 1, key, t1);
        WalkKeepsInv(s0, s2, k + 1, key, rest, t1);
        NestedRun(s1, script, id, e, n);
        NestedWalk(s0, s2, k + 1, key, rest, t1, id, e, n);
        var (s', t') := Walk(s2, s0.hooks[k + 1..], key, rest, t1);
        WithinTrans(s1, s2, s', id, n, Depth(script, e), BodiesDepth(rest, e), 0,
                    if id in t'.fired && id !in t1.fired then 1 else 0);
    }
  }

  // A hook with n > 0 shots is called at most n + d - 1 times when dispatches
  // of its event nest at most d deep: at most n times without nesting.
  lemma OvercallsAreBounded(script: Script, id: nat)
    ensures var s := Run(Initial, script);
            id in s.born && s.born[id].shots > 0 ==>
              && Calls(s.log, id) <= s.born[id].shots + Depth(script, s.born[id].key) - 1
              && Calls(s.log, id) == Done(s.log, id)
  {
    hide Run, Depth, Inv;
    InitialInv();
    var s := Run(Initial, script);
    if id in s.born && s.born[id].shots > 0 {
      NestedRun(Initial, script, id, s.born[id].key, s.born[id].shots);
    }
  }

  // Dispatches of one event, one after the other and one inside the other.
  function Rows(key: Key, count: nat, last: Script): Script {
    if count == 0 then last else Fire(key, Idle, Rows(key, count - 1, last))
  }

  function Tower(key: Key, d: nat): Bodies
    requires d > 0
  {
    if d == 1 then Idle else Body(Fire(key, Tower(key, d - 1), Stop), false, 0, Idle)
  }

  // The bound is reached for every number of shots and every depth.
  lemma OvercallsReachBound(key: Key, n: nat, d: nat)
    requires n > 0 && d > 0
    ensures var script := Register(key, n, Rows(key, n - 1, Fire(key, Tower(key, d), Stop)));
            var s := Run(Initial, script);
            && Depth(script, key) == d
            && 1 in s.born && s.born[1] == Hook(key, 1, n)
            && Calls(s.log, 1) == n + d - 1 && s.hooks == []
  {
    hide Walk, Dispatch, Calls;
    TowerDepth(key, d);
    RowsDepth(key, n - 1, d, Fire(key, Tower(key, d), Stop));
    var s0 := Registered(Initial, key, n);
    assert s0.hooks == [Hook(key, 1, n)] && s0.log == [];
    NoCalls(1);
    RowsRun(s0, Hook(key, 1, n), n - 1, d);
  }

  lemma NoCalls(id: nat)
    ensures Calls([], id) == 0
  {
  }

  lemma {:induction false} TowerDepth(key: Key, d: nat)
    requires d > 0
    ensures BodiesDepth(Tower(key, d), key) == d - 1
  {
    if d > 1 {
      TowerDepth(key, d - 1);
      assert Depth(Fire(key, Tower(key, d - 1), Stop), key) == Max(1 + (d - 2), Depth(Stop, key));
      assert BodiesDepth(Idle, key) == 0;
    }
  }

  lemma {:induction false} RowsDepth(key: Key, count: nat, d: nat, last: Script)
    requires d > 0 && Depth(last, key) == d
    ensures Depth(Rows(key, count, last), key) == d
  {
    if count > 0 {
      RowsDepth(key, count - 1, d, last);
    }
  }

  lemma {:induction false} RowsRun(s: State, h: Hook, count: nat, d: nat)
    requires s.hooks == [h] && h.shots == count + 1 && h.id !in s.cancelled && d > 0
    ensures var s' := Run(s, Rows(h.key, count, Fire(h.key, Tower(h.key, d), Stop)));
            && s'.hooks == [] && s'.born == s.born && Calls(s'.log, h.id) == Calls(s.log, h.id) + count + d
    decreases count
  {
    hide Walk, Dispatch, Calls;
    if count == 0 {
      TowerFires(s, h, d);
      var s1 := Dispatch(s, h.key, Tower(h.key, d)).0;
      assert Run(s1, Stop) == s1;
    } else {
      HookFires(s, h);
      RowsRun(Dispatch(s, h.key, Idle).0, h.(shots := count), count - 1, d);
    }
  }

  lemma HookFires(s: State, h: Hook)
    requires s.hooks == [h] && h.shots > 1 && h.id !in s.cancelled
    ensures var s' := Dispatch(s, h.key, Idle).0;
            && s'.hooks == [h.(shots := h.shots - 1)] && s'.born == s.born && s'.cancelled == s.cancelled
            && Calls(s'.log, h.id) == Calls(s.log, h.id) + 1
  {
    hide Calls, Done, Rounds;
    var s1 := BeforeCall(s, h);
    var t := Fired(NoTally, h, Idle);
    assert Walk(s, s.hooks, h.key, Idle, NoTally) == (s1, t) by {
      assert s.hooks[1..] == [];
      assert Walk(s1, s.hooks[1..], h.key, Idle, t) == (s1, t);
    }
    MergeOfOne(s1, h, t);
    LogStep(s.log, Called(h.id));
    LogStep(s1.log, Completed(h.key, s.nextHook, set id | id in t.called));
  }

  lemma MergeOfOne(s: State, h: Hook, t: Tally)
    requires s.hooks == [h]
    ensures var k := Settle(h, Ids([h]), s.cancelled, t);
            Merge(s.hooks, Ids([h]), s.cancelled, t) == if k.Kept? then [k.hook] else []
    ensures h.id in Ids([h])
  {
    assert h in [h];
    assert [h][..0] == [];
    assert Merge([], Ids([h]), s.cancelled, t) == [];
  }

  // d dispatches, one inside the other, all call a hook with one shot left.
  lemma {:induction false} TowerFires(s: State, h: Hook, d: nat)
    requires s.hooks == [h] && h.shots == 1 && h.id !in s.cancelled && d > 0
    ensures var s' := Dispatch(s, h.key, Tower(h.key, d)).0;
            && s'.hooks == [] && s'.born == s.born && s'.cancelled == s.cancelled
            && Calls(s'.log, h.id) == Calls(s.log, h.id) + d
    decreases d
  {
    hide Calls, Done, Rounds;
    if d == 1 {
      OneShotFires(s, h);
    } else {
      var b := Tower(h.key, d);
      var s1, t := BeforeCall(s, h), Fired(NoTally, h, b);
      var s2 := Dispatch(s1, h.key, Tower(h.key, d - 1)).0;
      TowerFires(s1, h, d - 1);
      assert Run(s1, b.script) == Run(s2, Stop) == s2;
      assert Walk(s, s.hooks, h.key, b, NoTally) == (s2, t) by {
        assert s.hooks[1..] == [];
        assert Walk(s2, s.hooks[1..], h.key, Idle, t) == (s2, t);
      }
      LogStep(s.log, Called(h.id));
      LogStep(s2.log, Completed(h.key, s.nextHook, set id | id in t.called));
    }
  }

  // With nesting the count of calls alone can pass the shots: an outer
  // snapshot still calls a one-shot hook that a nested dispatch used up.
  lemma NestedDispatchOvercalls(key: Key)
    ensures var script := Register(key, 1, Fire(key, Body(Fire(key, Idle, Stop), false, 0, Idle), Stop));
            var s := Run(Initial, script);
            1 in s.born && s.born[1].shots == 1 && Calls(s.log, 1) == 2 && s.hooks == []
  {
    var s0 := Registered(Initial, key, 1);
    var h := Hook(key, 1, 1);
    var b := Body(Fire(key, Idle, Stop), false, 0, Idle);
    var s1 := BeforeCall(s0, h);
    assert s0.hooks == [h];
    OneShotFires(s1, h);
    var s2 := Dispatch(s1, key, Idle).0;
    var t := Fired(NoTally, h, b);
    assert [h][1..] == [];
    assert Walk(s2, [], key, Idle, t) == (s2, t);
    assert Run(s1, b.script) == Run(s2, Stop) == s2;
    assert Walk(s0, [h], key, b, NoTally) == (s2, t);
    var s3 := Finished(s0, s2, key, t);
    assert Run(Initial, Register(key, 1, Fire(key, b, Stop))) == Run(s0, Fire(key, b, Stop)) == Run(s3, Stop) == s3;
    LogStep(s2.log, Completed(key, s0.nextHook, set id | id in t.called));
    LogStep(s0.log, Called(1));
  }

  lemma OneShotFires(s: State, h: Hook)
    requires s.hooks == [h] && h.shots == 1 && h.id !in s.cancelled
    ensures var s' := Dispatch(s, h.key, Idle).0;
            && s'.hooks == [] && s'.born == s.born && s'.cancelled == s.cancelled
            && Calls(s'.log, h.id) == Calls(s.log, h.id) + 1
  {
    var s1 := BeforeCall(s, h);
    var t := Fired(NoTally, h, Idle);
    assert Walk(s, s.hooks, h.key, Idle, NoTally) == (s1, t) by {
      assert s.hooks[1..] == [];
      assert Walk(s1, s.hooks[1..], h.key, Idle, t) == (s1, t);
    }
    assert Merge(s1.hooks, Ids(s.hooks), s.cancelled, t) == [] by {
      assert h in s.hooks && h.id in Ids(s.hooks);
      assert Settle(h, Ids(s.hooks), s.cancelled, t) == Gone;
      assert s1.hooks[..0] == [];
    }
    LogStep(s.log, Called(h.id));
    LogStep(s1.log, Completed(h.key, s.nextHook, set id | id in t.called));
  }
}
