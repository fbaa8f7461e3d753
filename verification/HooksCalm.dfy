// Runs in which an event is never dispatched inside a dispatch of itself: the
// calls of a hook follow the dispatches of its event one to one.
module HooksCalm {
  import opened Hooks
  import opened Wrappers

  predicate Avoids(script: Script, key: Key) {
    match script
    case Stop => true
    case Register(_, _, next) => Avoids(next, key)
    case Cancel(_, next) => Avoids(next, key)
    case Clear(_, _, next) => Avoids(next, key)
    case Fire(k, bodies, next) => k != key && BodiesAvoid(bodies, key) && Avoids(next, key)
  }

  predicate BodiesAvoid(bodies: Bodies, key: Key) {
    bodies.Body? ==> Avoids(bodies.script, key) && BodiesAvoid(bodies.rest, key)
  }

  // No dispatch of event e inside a dispatch of e; other events may nest freely.
  predicate Calm(script: Script, e: Key) {
    match script
    case Stop => true
    case Register(_, _, next) => Calm(next, e)
    case Cancel(_, next) => Calm(next, e)
    case Clear(_, _, next) => Calm(next, e)
    case Fire(k, bodies, next) => (k == e ==> BodiesAvoid(bodies, e)) && BodiesCalm(bodies, e) && Calm(next, e)
  }

  predicate BodiesCalm(bodies: Bodies, e: Key) {
    bodies.Body? ==> Calm(bodies.script, e) && BodiesCalm(bodies.rest, e)
  }

  ghost predicate Untouched(s: State, s': State, id: nat, e: Key) {
    && Calls(s'.log, id) == Calls(s.log, id)
    && Done(s'.log, id) == Done(s.log, id)
    && Rounds(s'.log, e, id) == Rounds(s.log, e, id)
  }

  lemma {:induction false} AvoidingRun(s: State, script: Script, id: nat, e: Key, n: nat)
    requires Inv(s) && Avoids(script, e) && Fits(Run(s, script), id, e, n)
    ensures Untouched(s, Run(s, script), id, e)
    decreases script, 0
  {
    hide Done, Calls, Rounds, Inv;
    match script {
      case Stop =>
      case Register(key, shots, next) =>
        RegisterKeepsInv(s, key, shots);
        AvoidingRun(Registered(s, key, shots), next, id, e, n);
      case Cancel(x, next) =>
        if x in s.born { DropKeepsInv(s, {x}); }
        AvoidingRun(CancelledOne(s, x), next, id, e, n);
      case Clear(kind, event, next) =>
        MatchingAreBorn(s, kind, event);
        DropKeepsInv(s, MatchingIds(s.hooks, kind, event));
        AvoidingRun(Cleared(s, kind, event), next, id, e, n);
      case Fire(key, bodies, next) =>
        var s1 := Dispatch(s, key, bodies).0;
        DispatchKeepsInv(s, key, bodies);
        RunKeepsInv(s1, next);
        AvoidingDispatch(s, key, bodies, id, e, n);
        AvoidingRun(s1, next, id, e, n);
    }
  }

  lemma {:induction false} AvoidingDispatch(s: State, key: Key, bodies: Bodies, id: nat, e: Key, n: nat)
    requires Inv(s) && key != e && BodiesAvoid(bodies, e) && Fits(Dispatch(s, key, bodies).0, id, e, n)
    ensures Untouched(s, Dispatch(s, key, bodies).0, id, e)
    decreases bodies, |s.hooks| + 1
  {
    hide Done, Calls, Rounds, Inv, Walk;
    DispatchKeepsInv(s, key, bodies);
    assert s.hooks[0..] == s.hooks;
    AvoidingWalk(s, s, 0, key, bodies, NoTally, id, e, n);
    var (s1, t) := Walk(s, s.hooks, key, bodies, NoTally);
    LogStep(s1.log, Completed(key, s.nextHook, set x | x in t.called));
    FiredIsOwn(s, s1, key, t, id);
  }

  lemma FiredIsOwn(s: State, s1: State, key: Key, t: Tally, id: nat)
    requires TallyOk(s, s1, |s.hooks|, key, t)
    ensures (id in t.fired <==> id in t.called) && (id in t.fired ==> id in s.born && s.born[id].key == key)
  {
  }

  // While a dispatch of event k runs handlers that never dispatch event e, a
  // hook of event e is called only by this dispatch itself, at most once.
  lemma {:induction false} AvoidingWalk(s0: State, s: State, k: nat, key: Key, bodies: Bodies, t: Tally,
                                        id: nat, e: Key, n: nat)
    requires Inv(s0) && Inv(s) && Grows(s0, s) && k <= |s0.hooks| && TallyOk(s0, s, k, key, t)
    requires BodiesAvoid(bodies, e) && Fits(Walk(s, s0.hooks[k..], key, bodies, t).0, id, e, n)
    ensures var (s', t') := Walk(s, s0.hooks[k..], key, bodies, t);
            && Calls(s'.log, id) == Calls(s.log, id) + (if id in t'.fired && id !in t.fired then 1 else 0)
            && Done(s'.log, id) == Done(s.log, id)
            && Rounds(s'.log, e, id) == Rounds(s.log, e, id)
            && (forall x :: x in t.fired ==> x in t'.fired)
    decreases bodies, |s0.hooks| - k
  {
    hide Done, Calls, Rounds, Inv, TallyOk;
    if k < |s0.hooks| {
      var h := s0.hooks[k];
      assert s0.hooks[k..][1..] == s0.hooks[k + 1..];
      if h.id in s.cancelled || h.key != key {
        TallyPassed(s0, s, k, key, t);
        AvoidingWalk(s0, s, k + 1, key, bodies, Passed(s, h, t), id, e, n);
      } else {
        var s1, t1 := BeforeCall(s, h), Fired(t, h, bodies);
        SnapshotHook(s0, s, k, key, t);
        CallKeepsInv(s, h);
        LogStep(s.log, Called(h.id));
        TallyCalled(s0, s, k, key, bodies, t);
        GrowsTrans(s0, s, s1);
        AvoidingWalkBody(s0, s1, k, key, bodies, t1, id, e, n);
        var s2 := if bodies.Body? then Run(s1, bodies.script) else s1;
        var (s', t') := Walk(s2, s0.hooks[k + 1..], key, if bodies.Body? then bodies.rest else Idle, t1);
        assert Walk(s, s0.hooks[k..], key, bodies, t) == (s', t');
        FiredGrows(t, h, bodies, t');
      }
    }
  }

  lemma FiredGrows(t: Tally, h: Hook, bodies: Bodies, t': Tally)
    requires forall x :: x in Fired(t, h, bodies).fired ==> x in t'.fired
    ensures h.id in t'.fired && forall x :: x in t.fired ==> x in t'.fired
  {
    assert h.id in Fired(t, h, bodies).fired;
    forall x | x in t.fired ensures x in t'.fired {
      assert x in Fired(t, h, bodies).fired;
    }
  }

  lemma {:induction false} AvoidingWalkBody(s0: State, s1: State, k: nat, key: Key, bodies: Bodies, t1: Tally,
                                            id: nat, e: Key, n: nat)
    requires k < |s0.hooks| && Inv(s0) && Inv(s1) && Grows(s0, s1) && TallyOk(s0, s1, k + 1, key, t1)
    requires BodiesAvoid(bodies, e)
    requires Fits(Walk(if bodies.Body? then Run(s1, bodies.script) else s1, s0.hooks[k + 1..], key,
                       if bodies.Body? then bodies.rest else Idle, t1).0, id, e, n)
    ensures var s2 := if bodies.Body? then Run(s1, bodies.script) else s1;
            var (s', t') := Walk(s2, s0.hooks[k + 1..], key, if bodies.Body? then bodies.rest else Idle, t1);
            && Calls(s'.log, id) == Calls(s1.log, id) + (if id in t'.fired && id !in t1.fired then 1 else 0)
            && Done(s'.log, id) == Done(s1.log, id)
            && Rounds(s'.log, e, id) == Rounds(s1.log, e, id)
            && (forall x :: x in t1.fired ==> x in t'.fired)
    decreases bodies, |s0.hooks| - k, 0
  {
    hide Done, Calls, Rounds, Inv, TallyOk;
    match bodies {
      case Idle =>
        AvoidingWalk(s0, s1, k + 1, key, Idle, t1, id, e, n);
      case Body(script, _, _, rest) =>
        var s2 := Run(s1, script);
        RunKeepsInv(s1, script);
        GrowsTrans(s0, s1, s2);
        TallyLater(s0, s1, s2, k + 1, key, t1);
        WalkKeepsInv(s0, s2, k + 1, key, rest, t1);
        AvoidingRun(s1, script, id, e, n);
        AvoidingWalk(s0, s2, k + 1, key, rest, t1, id, e, n);
    }
  }

  // The calls of a hook with n shots follow the dispatches of event e since it
  // was registered, one to one until its shots are used up.
  ghost predicate InStep(s: State, id: nat, e: Key, n: nat) {
    var calls, rounds := Calls(s.log, id), Rounds(s.log, e, id);
    && calls == Done(s.log, id) <= rounds
    && (n > 0 ==> calls <= n)
    && (id !in s.cancelled ==> calls == if n == 0 then rounds else Min(n, rounds))
    && (id !in s.born ==> rounds == 0)
  }

  lemma {:induction false} CalmRun(s: State, script: Script, id: nat, e: Key, n: nat)
    requires Inv(s) && id > 0 && Calm(script, e) && Fits(Run(s, script), id, e, n) && InStep(s, id, e, n)
    ensures InStep(Run(s, script), id, e, n)
    decreases script, 0
  {
    hide Done, Calls, Rounds, Inv;
    match script {
      case Stop =>
      case Register(key, shots, next) =>
        RegisterKeepsInv(s, key, shots);
        CalmRun(Registered(s, key, shots), next, id, e, n);
      case Cancel(x, next) =>
        var s1 := CancelledOne(s, x);
        if x in s.born { DropKeepsInv(s, {x}); }
        CalmRun(s1, next, id, e, n);
      case Clear(kind, event, next) =>
        MatchingAreBorn(s, kind, event);
        DropKeepsInv(s, MatchingIds(s.hooks, kind, event));
        CalmRun(Cleared(s, kind, event), next, id, e, n);
      case Fire(key, bodies, next) =>
        var s1 := Dispatch(s, key, bodies).0;
        DispatchKeepsInv(s, key, bodies);
        RunKeepsInv(s1, next);
        CalmDispatch(s, key, bodies, id, e, n);
        CalmRun(s1, next, id, e, n);
    }
  }

  lemma {:induction false} CalmDispatch(s: State, key: Key, bodies: Bodies, id: nat, e: Key, n: nat)
    requires Inv(s) && id > 0 && (key == e ==> BodiesAvoid(bodies, e)) && BodiesCalm(bodies, e)
    requires Fits(Dispatch(s, key, bodies).0, id, e, n) && InStep(s, id, e, n)
    ensures InStep(Dispatch(s, key, bodies).0, id, e, n)
    decreases bodies, |s.hooks| + 1
  {
    hide Done, Calls, Rounds, Inv, InStep, Walk;
    if key == e {
      OwnDispatch(s, bodies, id, e, n);
    } else {
      DispatchKeepsInv(s, key, bodies);
      assert s.hooks[0..] == s.hooks;
      CalmWalk(s, s, 0, key, bodies, NoTally, id, e, n);
      var (s1, t) := Walk(s, s.hooks, key, bodies, NoTally);
      FiredIsOwn(s, s1, key, t, id);
      OtherDispatchDone(s, s1, key, t, id, e, n);
    }
  }

  lemma OtherDispatchDone(s: State, s1: State, key: Key, t: Tally, id: nat, e: Key, n: nat)
    requires key != e && id !in t.called && InStep(s1, id, e, n)
    ensures InStep(Finished(s, s1, key, t), id, e, n)
  {
    hide Done, Calls, Rounds;
    LogStep(s1.log, Completed(key, s.nextHook, set x | x in t.called));
  }

  lemma OwnDispatch(s: State, bodies: Bodies, id: nat, e: Key, n: nat)
    requires Inv(s) && id > 0 && BodiesAvoid(bodies, e)
    requires Fits(Dispatch(s, e, bodies).0, id, e, n) && InStep(s, id, e, n)
    ensures InStep(Dispatch(s, e, bodies).0, id, e, n)
  {
    hide Done, Calls, Rounds, Walk, HooksRight, Quiet, Ordered;
    DispatchKeepsInv(s, e, bodies);
    DispatchCallsSnapshot(s, e, bodies);
    assert s.hooks[0..] == s.hooks;
    AvoidingWalk(s, s, 0, e, bodies, NoTally, id, e, n);
    var (s1, t) := Walk(s, s.hooks, e, bodies, NoTally);
    LogStep(s1.log, Completed(e, s.nextHook, set x | x in t.called));
    var s' := Dispatch(s, e, bodies).0;
    assert Calls(s'.log, id) == Done(s'.log, id) == Calls(s.log, id) + if id in t.called then 1 else 0;
    assert Rounds(s'.log, e, id) == Rounds(s.log, e, id) + if id in s.born then 1 else 0;
    assert id in t.called ==> Live(s, id);
  }

  lemma {:induction false} CalmWalk(s0: State, s: State, k: nat, key: Key, bodies: Bodies, t: Tally,
                                    id: nat, e: Key, n: nat)
    requires Inv(s0) && Inv(s) && Grows(s0, s) && k <= |s0.hooks| && TallyOk(s0, s, k, key, t)
    requires id > 0 && key != e && BodiesCalm(bodies, e) && InStep(s, id, e, n)
    requires Fits(Walk(s, s0.hooks[k..], key, bodies, t).0, id, e, n)
    ensures InStep(Walk(s, s0.hooks[k..], key, bodies, t).0, id, e, n)
    decreases bodies, |s0.hooks| - k
  {
    hide Done, Calls, Rounds, Inv, TallyOk;
    if k < |s0.hooks| {
      var h := s0.hooks[k];
      assert s0.hooks[k..][1..] == s0.hooks[k + 1..];
      if h.id in s.cancelled || h.key != key {
        TallyPassed(s0, s, k, key, t);
        CalmWalk(s0, s, k + 1, key, bodies, Passed(s, h, t), id, e, n);
      } else {
        var s1, t1 := BeforeCall(s, h), Fired(t, h, bodies);
        SnapshotHook(s0, s, k, key, t);
        CallKeepsInv(s, h);
        LogStep(s.log, Called(h.id));
        TallyCalled(s0, s, k, key, bodies, t);
        GrowsTrans(s0, s, s1);
        WalkBodyKeepsInv(s0, s1, k, key, bodies, t1);
        CalmWalkBody(s0, s1, k, key, bodies, t1, id, e, n);
      }
    }
  }

  lemma {:induction false} CalmWalkBody(s0: State, s1: State, k: nat, key: Key, bodies: Bodies, t1: Tally,
                                        id: nat, e: Key, n: nat)
    requires k < |s0.hooks| && Inv(s0) && Inv(s1) && Grows(s0, s1) && TallyOk(s0, s1, k + 1, key, t1)
    requires id > 0 && key != e && BodiesCalm(bodies, e) && InStep(s1, id, e, n)
    requires Fits(Walk(if bodies.Body? then Run(s1, bodies.script) else s1, s0.hooks[k + 1..], key,
                       if bodies.Body? then bodies.rest else Idle, t1).0, id, e, n)
    ensures var s2 := if bodies.Body? then Run(s1, bodies.script) else s1;
            InStep(Walk(s2, s0.hooks[k + 1..], key, if bodies.Body? then bodies.rest else Idle, t1).0, id, e, n)
    decreases bodies, |s0.hooks| - k, 0
  {
    hide Done, Calls, Rounds, Inv, TallyOk, InStep;
    match bodies {
      case Idle =>
        CalmWalk(s0, s1, k + 1, key, Idle, t1, id, e, n);
      case Body(script, _, _, rest) =>
        var s2 := Run(s1, script);
        RunKeepsInv(s1, script);
        GrowsTrans(s0, s1, s2);
        TallyLater(s0, s1, s2, k + 1, key, t1);
        WalkKeepsInv(s0, s2, k + 1, key, rest, t1);
        CalmRun(s1, script, id, e, n);
        CalmWalk(s0, s2, k + 1, key, rest, t1, id, e, n);
    }
  }

  // Without nested dispatch of its own event, an uncancelled hook with n > 0
  // shots is called by exactly the first n dispatches of its event that began
  // after it was registered, one with 0 shots by every one; a cancelled hook
  // by no more than that.
  lemma CalmRunCallsFirstDispatches(script: Script, id: nat)
    ensures var s := Run(Initial, script);
            id in s.born && Calm(script, s.born[id].key) ==>
              var n, calls, rounds := s.born[id].shots, Calls(s.log, id), Rounds(s.log, s.born[id].key, id);
              && calls == Done(s.log, id)
              && calls <= (if n == 0 then rounds else Min(n, rounds))
              && (id !in s.cancelled ==> calls == if n == 0 then rounds else Min(n, rounds))
  {
    hide Run, Calm, HooksRight, Quiet;
    InitialInv();
    RunKeepsInv(Initial, script);
    var s := Run(Initial, script);
    if id in s.born && Calm(script, s.born[id].key) {
      CalmRun(Initial, script, id, s.born[id].key, s.born[id].shots);
    }
  }
}
