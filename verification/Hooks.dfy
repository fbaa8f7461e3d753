// The Lua hook dispatcher: registration, cancellation, clearing and the
// re-entrant dispatch that walks a snapshot of the hook list and then merges
// only its own outcomes onto the list that its handlers left behind.
//
// A handler is an arbitrary Lua function. One finite run of it is described by
// a Script: the calls it makes back into the runtime, in order. A nested
// dispatch carries the scripts of the handlers it will call, so a Script is an
// arbitrary finite tree of register, cancel, clear and dispatch calls, and a
// statement over all scripts is a statement over all runs that end.
module Hooks {

  datatype Key = Key(kind: string, event: int)

  datatype Hook = Hook(key: Key, id: nat, shots: nat)

  datatype Script =
    | Stop
    | Register(key: Key, shots: nat, next: Script)
    | Cancel(id: nat, next: Script)
    | Clear(kind: string, event: int, next: Script)
    | Fire(key: Key, bodies: Bodies, next: Script)

  // The handlers one dispatch runs, in calling order. A handler that raises
  // an error returns nothing; once the list is used up handlers do nothing.
  datatype Bodies =
    | Idle
    | Body(script: Script, returned: bool, value: int, rest: Bodies)

  // What happened, oldest first. Completed(k, f, c) is the end of a dispatch of
  // event k that began when the next hook was to be f, and that had called
  // exactly the hooks in c.
  datatype Entry =
    | Dropped(ids: set<nat>)
    | Called(id: nat)
    | Completed(key: Key, from: nat, called: set<nat>)

  // hooks, cancelled and nextHook are the runtime's own fields; born (each
  // hook as it was registered) and log are history.
  datatype State = State(hooks: seq<Hook>, cancelled: set<nat>, nextHook: nat,
                         born: map<nat, Hook>, log: seq<Entry>)

  const Initial := State([], {}, 1, map[], [])

  // ---------------------------------------------------------------------
  // The operations, as functions of the state

  function Registered(s: State, key: Key, shots: nat): State {
    var h := Hook(key, s.nextHook, shots);
    s.(hooks := s.hooks + [h], nextHook := s.nextHook + 1, born := s.born[h.id := h])
  }

  function Without(hooks: seq<Hook>, dead: set<nat>): seq<Hook> {
    if |hooks| == 0 then []
    else
      var h := hooks[|hooks| - 1];
      Without(hooks[..|hooks| - 1], dead) + if h.id in dead then [] else [h]
  }

  function DropIds(s: State, ids: set<nat>): State {
    s.(hooks := Without(s.hooks, ids), cancelled := s.cancelled + ids, log := s.log + [Dropped(ids)])
  }

  // Only a registered hook has a cancel function to call.
  function CancelledOne(s: State, id: nat): State {
    if id in s.born then DropIds(s, {id}) else s
  }

  predicate Matches(h: Hook, kind: string, event: int) {
    h.key.kind == kind && (event < 0 || h.key.event == event)
  }

  function MatchingIds(hooks: seq<Hook>, kind: string, event: int): set<nat> {
    set h | h in hooks && Matches(h, kind, event) :: h.id
  }

  function Cleared(s: State, kind: string, event: int): State {
    DropIds(s, MatchingIds(s.hooks, kind, event))
  }

  // One dispatch's own bookkeeping: shots in the snapshot of each hook it
  // fired, hooks it skipped, and the values its handlers returned.
  datatype Tally = Tally(fired: map<nat, nat>, skipped: set<nat>, called: seq<nat>, results: seq<int>)

  const NoTally := Tally(map[], {}, [], [])

  function Ids(hooks: seq<Hook>): set<nat> {
    set h | h in hooks :: h.id
  }

  function BeforeCall(s: State, h: Hook): State {
    s.(log := s.log + [Called(h.id)])
  }

  function Fired(t: Tally, h: Hook, bodies: Bodies): Tally {
    Tally(t.fired[h.id := h.shots], t.skipped, t.called + [h.id],
          if bodies.Body? && bodies.returned then t.results + [bodies.value] else t.results)
  }

  function Walk(s: State, todo: seq<Hook>, key: Key, bodies: Bodies, t: Tally): (State, Tally)
    decreases bodies, |todo|
  {
    if |todo| == 0 then (s, t)
    else
      var h := todo[0];
      if h.id in s.cancelled then
        Walk(s, todo[1..], key, bodies, t.(skipped := t.skipped + {h.id}))
      else if h.key != key then
        Walk(s, todo[1..], key, bodies, t)
      else
        var t' := Fired(t, h, bodies);
        match bodies
        case Idle => Walk(BeforeCall(s, h), todo[1..], key, Idle, t')
        case Body(script, _, _, rest) => Walk(Run(BeforeCall(s, h), script), todo[1..], key, rest, t')
  }

  datatype Kept = Gone | Kept(hook: Hook)

  function Settle(h: Hook, existed: set<nat>, cancelled: set<nat>, t: Tally): Kept {
    if h.id in t.skipped then Gone
    else if h.id !in existed then
      if h.id in cancelled then Gone else Kept(h)
    else if h.id in t.fired && t.fired[h.id] == 1 then Gone
    else if h.id in t.fired && t.fired[h.id] > 1 then
      if h.shots == 1 then Gone
      else if h.shots > 1 then Kept(h.(shots := h.shots - 1))
      else Kept(h)
    else Kept(h)
  }

  function Merge(hooks: seq<Hook>, existed: set<nat>, cancelled: set<nat>, t: Tally): seq<Hook> {
    if |hooks| == 0 then []
    else
      var k := Settle(hooks[|hooks| - 1], existed, cancelled, t);
      Merge(hooks[..|hooks| - 1], existed, cancelled, t) + if k.Kept? then [k.hook] else []
  }

  // The end of a dispatch that began in s0.
  function Finished(s0: State, s: State, key: Key, t: Tally): State {
    s.(hooks := Merge(s.hooks, Ids(s0.hooks), s.cancelled, t),
       log := s.log + [Completed(key, s0.nextHook, set id | id in t.called)])
  }

  function Dispatch(s: State, key: Key, bodies: Bodies): (State, Tally)
    decreases bodies, |s.hooks| + 1
  {
    var (s', t) := Walk(s, s.hooks, key, bodies, NoTally);
    (Finished(s, s', key, t), t)
  }

  function Run(s: State, script: Script): State
    decreases script, 0
  {
    match script
    case Stop => s
    case Register(key, shots, next) => Run(Registered(s, key, shots), next)
    case Cancel(id, next) => Run(CancelledOne(s, id), next)
    case Clear(kind, event, next) => Run(Cleared(s, kind, event), next)
    case Fire(key, bodies, next) => Run(Dispatch(s, key, bodies).0, next)
  }

  // ---------------------------------------------------------------------
  // The invariant: the hook list is exactly the hooks with shots left

  // Completed dispatches that called this hook.
  function Done(log: seq<Entry>, id: nat): nat {
    if |log| == 0 then 0
    else
      var e := log[|log| - 1];
      Done(log[..|log| - 1], id) + if e.Completed? && id in e.called then 1 else 0
  }

  // Calls of this hook, from completed and unfinished dispatches alike.
  function Calls(log: seq<Entry>, id: nat): nat {
    if |log| == 0 then 0
    else Calls(log[..|log| - 1], id) + if log[|log| - 1] == Called(id) then 1 else 0
  }

  // Completed dispatches of this event that began when the hook was registered.
  function Rounds(log: seq<Entry>, key: Key, id: nat): nat {
    if |log| == 0 then 0
    else
      var e := log[|log| - 1];
      Rounds(log[..|log| - 1], key, id) + if e.Completed? && e.key == key && id < e.from then 1 else 0
  }

  lemma LogStep(log: seq<Entry>, e: Entry)
    ensures forall id :: Done(log + [e], id) == Done(log, id) + if e.Completed? && id in e.called then 1 else 0
    ensures forall id :: Calls(log + [e], id) == Calls(log, id) + if e == Called(id) then 1 else 0
    ensures forall k, id: nat ::
              Rounds(log + [e], k, id)
                == Rounds(log, k, id) + if e.Completed? && e.key == k && id < e.from then 1 else 0
  {
    assert (log + [e])[..|log|] == log;
  }

  // If the hook exists it has this event and this many shots.
  ghost predicate Fits(s: State, id: nat, e: Key, n: nat) {
    id in s.born ==> s.born[id].key == e && s.born[id].shots == n
  }

  // A hook still counts: registered, not cancelled, shots left (0 shots: always).
  ghost predicate Live(s: State, id: nat) {
    id in s.born && id !in s.cancelled && (s.born[id].shots == 0 || Done(s.log, id) < s.born[id].shots)
  }

  ghost function Left(s: State, id: nat): nat
    requires id in s.born && (s.born[id].shots == 0 || Done(s.log, id) <= s.born[id].shots)
  {
    if s.born[id].shots == 0 then 0 else s.born[id].shots - Done(s.log, id)
  }

  ghost predicate Listed(hooks: seq<Hook>, id: nat) {
    exists i :: 0 <= i < |hooks| && hooks[i].id == id
  }

  ghost predicate Ordered(hooks: seq<Hook>) {
    forall i, j :: 0 <= i < j < |hooks| ==> hooks[i].id < hooks[j].id
  }

  ghost predicate HooksRight(s: State) {
    && (forall i :: 0 <= i < |s.hooks| ==>
          Live(s, s.hooks[i].id)
          && s.hooks[i] == Hook(s.born[s.hooks[i].id].key, s.hooks[i].id, Left(s, s.hooks[i].id)))
    && (forall id :: Live(s, id) ==> Listed(s.hooks, id))
  }

  // No call of a hook after the entry that dropped it.
  ghost predicate Quiet(log: seq<Entry>) {
    forall i, j :: 0 <= i < j < |log| && log[i].Dropped? && log[j].Called? ==> log[j].id !in log[i].ids
  }

  ghost predicate Inv(s: State) {
    && s.nextHook >= 1
    && (forall id :: id in s.born <==> 1 <= id < s.nextHook)
    && (forall id :: id in s.born ==> s.born[id].id == id)
    && s.cancelled <= s.born.Keys
    && Ordered(s.hooks)
    && HooksRight(s)
    && Quiet(s.log)
    && (forall i :: 0 <= i < |s.log| && s.log[i].Dropped? ==> s.log[i].ids <= s.cancelled)
    && (forall id :: id !in s.born ==> Done(s.log, id) == 0 && Calls(s.log, id) == 0)
  }

  // What every operation keeps: history only grows.
  ghost predicate Grows(s: State, s': State) {
    && s.nextHook <= s'.nextHook
    && s.cancelled <= s'.cancelled
    && (forall id :: id in s.born ==> id in s'.born && s'.born[id] == s.born[id])
    && (forall id :: Done(s.log, id) <= Done(s'.log, id))
    && s.log <= s'.log
  }

  lemma WithoutAt(hooks: seq<Hook>, dead: set<nat>)
    requires Ordered(hooks)
    ensures var r := Without(hooks, dead);
            && Ordered(r)
            && (forall h :: h in r <==> h in hooks && h.id !in dead)
  {
    WithoutMembers(hooks, dead);
    WithoutOrdered(hooks, dead);
  }

  lemma {:induction false} WithoutMembers(hooks: seq<Hook>, dead: set<nat>)
    ensures forall h :: h in Without(hooks, dead) <==> h in hooks && h.id !in dead
  {
    if |hooks| != 0 {
      var p, g := hooks[..|hooks| - 1], hooks[|hooks| - 1];
      WithoutMembers(p, dead);
      assert hooks == p + [g];
      forall h ensures h in Without(hooks, dead) <==> h in hooks && h.id !in dead {
        assert h in Without(hooks, dead) <==> h in Without(p, dead) || (g.id !in dead && h == g);
      }
    }
  }

  lemma {:induction false} WithoutOrdered(hooks: seq<Hook>, dead: set<nat>)
    requires Ordered(hooks)
    ensures Ordered(Without(hooks, dead))
  {
    if |hooks| != 0 {
      var p, g := hooks[..|hooks| - 1], hooks[|hooks| - 1];
      WithoutOrdered(p, dead);
      WithoutMembers(p, dead);
      var r := Without(p, dead);
      forall i | 0 <= i < |r| ensures r[i].id < g.id {
        assert r[i] in r;
        var j :| 0 <= j < |p| && p[j] == r[i];
        assert hooks[j] == p[j];
      }
    }
  }

  lemma DropKeepsInv(s: State, ids: set<nat>)
    requires Inv(s) && ids <= s.born.Keys
    ensures Inv(DropIds(s, ids)) && Grows(s, DropIds(s, ids))
    ensures forall id ::
              && Calls(DropIds(s, ids).log, id) == Calls(s.log, id)
              && Done(DropIds(s, ids).log, id) == Done(s.log, id)
    ensures forall key, id: nat :: Rounds(DropIds(s, ids).log, key, id) == Rounds(s.log, key, id)
  {
    hide Done, Calls, Rounds;
    var s' := DropIds(s, ids);
    LogStep(s.log, Dropped(ids));
    WithoutAt(s.hooks, ids);
    forall i | 0 <= i < |s'.hooks|
      ensures Live(s', s'.hooks[i].id)
      ensures s'.hooks[i] == Hook(s'.born[s'.hooks[i].id].key, s'.hooks[i].id, Left(s', s'.hooks[i].id))
    {
      assert s'.hooks[i] in s.hooks;
    }
    forall id | Live(s', id) ensures Listed(s'.hooks, id) {
      assert Live(s, id);
      var i :| 0 <= i < |s.hooks| && s.hooks[i].id == id;
      assert s.hooks[i] in s'.hooks;
    }
  }

  lemma RegisterKeepsInv(s: State, key: Key, shots: nat)
    requires Inv(s)
    ensures Inv(Registered(s, key, shots)) && Grows(s, Registered(s, key, shots))
  {
    hide Done, Calls, Rounds;
    var s' := Registered(s, key, shots);
    forall id | Live(s', id) ensures Listed(s'.hooks, id) {
      if id == s.nextHook {
        assert s'.hooks[|s.hooks|].id == id;
      } else {
        assert Live(s, id);
        var i :| 0 <= i < |s.hooks| && s.hooks[i].id == id;
        assert s'.hooks[i].id == id;
      }
    }
  }

  // The tally of a dispatch that began in s0 and has walked k hooks of its
  // snapshot, with the runtime now in state s: the ids called, in order,
  ghost predicate TallyListed(s0: State, k: nat, t: Tally)
    requires k <= |s0.hooks|
  {
    && (forall id :: id in t.fired <==> id in t.called)
    && (forall i, j :: 0 <= i < j < |t.called| ==> t.called[i] < t.called[j])
    && (forall id, j :: id in t.fired && k <= j < |s0.hooks| ==> id < s0.hooks[j].id)
  }

  // and what is known of them.
  ghost predicate TallyTrue(s0: State, s: State, k: nat, key: Key, t: Tally)
    requires k <= |s0.hooks|
  {
    && (forall id :: id in t.fired ==> Live(s0, id) && s0.born[id].key == key && t.fired[id] == Left(s0, id))
    && t.skipped <= s.cancelled
    && (forall j :: 0 <= j < k && s0.hooks[j].key == key && s0.hooks[j].id !in s.cancelled ==>
          s0.hooks[j].id in t.fired)
  }

  ghost predicate TallyOk(s0: State, s: State, k: nat, key: Key, t: Tally)
    requires k <= |s0.hooks|
  {
    TallyListed(s0, k, t) && TallyTrue(s0, s, k, key, t)
  }

  lemma CallKeepsInv(s: State, h: Hook)
    requires Inv(s) && h.id in s.born && h.id !in s.cancelled
    ensures Inv(BeforeCall(s, h)) && Grows(s, BeforeCall(s, h))
  {
    hide Done, Calls, Rounds;
    var s' := BeforeCall(s, h);
    LogStep(s.log, Called(h.id));
    forall id | Live(s', id) ensures Listed(s'.hooks, id) {
      assert Live(s, id);
    }
  }

  lemma GrowsTrans(a: State, b: State, c: State)
    requires Grows(a, b) && Grows(b, c)
    ensures Grows(a, c)
  {
    hide Done, Calls, Rounds;
  }

  lemma TallyCalled(s0: State, s: State, k: nat, key: Key, bodies: Bodies, t: Tally)
    requires Inv(s0) && Inv(s) && Grows(s0, s) && k < |s0.hooks| && TallyOk(s0, s, k, key, t)
    requires s0.hooks[k].key == key
    ensures TallyOk(s0, BeforeCall(s, s0.hooks[k]), k + 1, key, Fired(t, s0.hooks[k], bodies))
  {
    hide Inv, Grows, TallyListed, TallyTrue;
    SnapshotHook(s0, s, k, key, t);
    CalledIsListed(s0, s, k, key, bodies, t);
    CalledIsTrue(s0, s, k, key, bodies, t);
  }

  lemma CalledIsListed(s0: State, s: State, k: nat, key: Key, bodies: Bodies, t: Tally)
    requires Inv(s0) && k < |s0.hooks| && TallyListed(s0, k, t)
    ensures TallyListed(s0, k + 1, Fired(t, s0.hooks[k], bodies))
  {
    hide HooksRight, Quiet, Done, Calls;
    var h := s0.hooks[k];
    forall i | 0 <= i < |t.called| ensures t.called[i] < h.id {
      assert t.called[i] in t.fired;
    }
  }

  lemma CalledIsTrue(s0: State, s: State, k: nat, key: Key, bodies: Bodies, t: Tally)
    requires k < |s0.hooks| && TallyTrue(s0, s, k, key, t) && s0.hooks[k].key == key
    requires Live(s0, s0.hooks[k].id) && s0.born[s0.hooks[k].id].key == key
    requires s0.hooks[k].shots == Left(s0, s0.hooks[k].id)
    ensures TallyTrue(s0, BeforeCall(s, s0.hooks[k]), k + 1, key, Fired(t, s0.hooks[k], bodies))
  {
    hide Done, Live;
  }

  lemma SnapshotHook(s0: State, s: State, k: nat, key: Key, t: Tally)
    requires Inv(s0) && k < |s0.hooks| && TallyOk(s0, s, k, key, t)
    ensures var h := s0.hooks[k];
            Live(s0, h.id) && s0.born[h.id].key == h.key && h.shots == Left(s0, h.id) && h.id !in t.fired
  {
    hide Done, Quiet;
  }

  function Passed(s: State, h: Hook, t: Tally): Tally {
    if h.id in s.cancelled then t.(skipped := t.skipped + {h.id}) else t
  }

  lemma TallyPassed(s0: State, s: State, k: nat, key: Key, t: Tally)
    requires Inv(s0) && k < |s0.hooks| && TallyOk(s0, s, k, key, t)
    requires s0.hooks[k].id in s.cancelled || s0.hooks[k].key != key
    ensures TallyOk(s0, s, k + 1, key, Passed(s, s0.hooks[k], t))
  {
    hide Done, Calls, Rounds, Quiet;
  }

  lemma TallyLater(s0: State, s: State, s': State, k: nat, key: Key, t: Tally)
    requires k <= |s0.hooks| && TallyOk(s0, s, k, key, t) && Grows(s, s')
    ensures TallyOk(s0, s', k, key, t)
  {
    hide Done, Calls, Rounds;
  }

  lemma {:induction false} WalkKeepsInv(s0: State, s: State, k: nat, key: Key, bodies: Bodies, t: Tally)
    requires Inv(s0) && Inv(s) && Grows(s0, s) && k <= |s0.hooks| && TallyOk(s0, s, k, key, t)
    ensures var (s', t') := Walk(s, s0.hooks[k..], key, bodies, t);
            Inv(s') && Grows(s, s') && TallyOk(s0, s', |s0.hooks|, key, t')
    decreases bodies, |s0.hooks| - k
  {
    hide Done, Calls, Rounds, Inv, TallyOk;
    if k < |s0.hooks| {
      var h := s0.hooks[k];
      assert s0.hooks[k..][1..] == s0.hooks[k + 1..];
      if h.id in s.cancelled || h.key != key {
        TallyPassed(s0, s, k, key, t);
        WalkKeepsInv(s0, s, k + 1, key, bodies, Passed(s, h, t));
      } else {
        var s1, t1 := BeforeCall(s, h), Fired(t, h, bodies);
        SnapshotHook(s0, s, k, key, t);
        CallKeepsInv(s, h);
        TallyCalled(s0, s, k, key, bodies, t);
        GrowsTrans(s0, s, s1);
        WalkBodyKeepsInv(s0, s1, k, key, bodies, t1);
        GrowsTrans(s, s1, Walk(s, s0.hooks[k..], key, bodies, t).0);
      }
    }
  }

  lemma {:induction false} WalkBodyKeepsInv(s0: State, s1: State, k: nat, key: Key, bodies: Bodies, t1: Tally)
    requires k < |s0.hooks| && Inv(s0) && Inv(s1) && Grows(s0, s1) && TallyOk(s0, s1, k + 1, key, t1)
    ensures var s2 := if bodies.Body? then Run(s1, bodies.script) else s1;
            var (s', t') := Walk(s2, s0.hooks[k + 1..], key, if bodies.Body? then bodies.rest else Idle, t1);
            Inv(s') && Grows(s1, s') && TallyOk(s0, s', |s0.hooks|, key, t')
    decreases bodies, |s0.hooks| - k, 0
  {
    hide Done, Calls, Rounds, Inv, TallyOk, Grows;
    match bodies {
      case Idle =>
        WalkKeepsInv(s0, s1, k + 1, key, Idle, t1);
      case Body(script, _, _, rest) =>
        var s2 := Run(s1, script);
        RunKeepsInv(s1, script);
        GrowsTrans(s0, s1, s2);
        TallyLater(s0, s1, s2, k + 1, key, t1);
        WalkKeepsInv(s0, s2, k + 1, key, rest, t1);
        GrowsTrans(s1, s2, Walk(s2, s0.hooks[k + 1..], key, rest, t1).0);
    }
  }

  ghost predicate Survives(hooks: seq<Hook>, existed: set<nat>, cancelled: set<nat>, t: Tally, g: Hook) {
    exists h :: h in hooks && Settle(h, existed, cancelled, t) == Kept(g)
  }

  lemma MergeStep(hooks: seq<Hook>, h: Hook, existed: set<nat>, cancelled: set<nat>, t: Tally)
    ensures Merge(hooks + [h], existed, cancelled, t)
         == Merge(hooks, existed, cancelled, t)
            + if Settle(h, existed, cancelled, t).Kept? then [Settle(h, existed, cancelled, t).hook] else []
  {
    assert (hooks + [h])[..|hooks|] == hooks;
  }

  lemma {:induction false} MergeMembers(hooks: seq<Hook>, existed: set<nat>, cancelled: set<nat>, t: Tally)
    ensures forall g :: g in Merge(hooks, existed, cancelled, t) <==> Survives(hooks, existed, cancelled, t, g)
  {
    if |hooks| != 0 {
      var p, h := hooks[..|hooks| - 1], hooks[|hooks| - 1];
      assert hooks == p + [h];
      MergeMembers(p, existed, cancelled, t);
      MergeStep(p, h, existed, cancelled, t);
      forall g ensures Survives(hooks, existed, cancelled, t, g) <==>
                       Survives(p, existed, cancelled, t, g) || Settle(h, existed, cancelled, t) == Kept(g)
      {
        assert forall x :: x in hooks <==> x in p || x == h;
      }
    }
  }

  lemma {:induction false} MergeOrdered(hooks: seq<Hook>, existed: set<nat>, cancelled: set<nat>, t: Tally)
    requires Ordered(hooks)
    ensures Ordered(Merge(hooks, existed, cancelled, t))
  {
    if |hooks| != 0 {
      var p, h := hooks[..|hooks| - 1], hooks[|hooks| - 1];
      assert hooks == p + [h];
      MergeOrdered(p, existed, cancelled, t);
      MergeStep(p, h, existed, cancelled, t);
      MergeMembers(p, existed, cancelled, t);
      var r := Merge(p, existed, cancelled, t);
      forall i | 0 <= i < |r| ensures r[i].id < h.id {
        assert r[i] in r;
        assert Survives(p, existed, cancelled, t, r[i]);
      }
    }
  }

  // The merge turns "this dispatch called h" into one shot used, whatever
  // nested dispatches did to the list in between.
  lemma FinishKeepsInv(s0: State, s: State, key: Key, t: Tally)
    requires Inv(s0) && Inv(s) && Grows(s0, s) && TallyOk(s0, s, |s0.hooks|, key, t)
    ensures var s' := Finished(s0, s, key, t); Inv(s') && Grows(s, s')
  {
    hide Done, Calls, Rounds;
    LogStep(s.log, Completed(key, s0.nextHook, set id | id in t.called));
    MergeOrdered(s.hooks, Ids(s0.hooks), s.cancelled, t);
    FinishedHooksLive(s0, s, key, t);
    FinishedLiveListed(s0, s, key, t);
  }

  lemma FinishedHooksLive(s0: State, s: State, key: Key, t: Tally)
    requires Inv(s0) && Inv(s) && Grows(s0, s) && TallyOk(s0, s, |s0.hooks|, key, t)
    ensures var s' := Finished(s0, s, key, t);
            forall i :: 0 <= i < |s'.hooks| ==>
              && Live(s', s'.hooks[i].id)
              && s'.hooks[i] == Hook(s'.born[s'.hooks[i].id].key, s'.hooks[i].id, Left(s', s'.hooks[i].id))
  {
    hide Done, Calls, Rounds, Quiet, Ordered;
    var existed := Ids(s0.hooks);
    var s' := Finished(s0, s, key, t);
    LogStep(s.log, Completed(key, s0.nextHook, set id | id in t.called));
    MergeMembers(s.hooks, existed, s.cancelled, t);
    forall g | g in s'.hooks
      ensures Live(s', g.id) && g == Hook(s'.born[g.id].key, g.id, Left(s', g.id))
    {
      assert Survives(s.hooks, existed, s.cancelled, t, g);
      var h :| h in s.hooks && Settle(h, existed, s.cancelled, t) == Kept(g);
      FiredExisted(s0, s, key, t, h.id);
      SettleRight(s0, s, key, t, h);
    }
  }

  lemma FinishedLiveListed(s0: State, s: State, key: Key, t: Tally)
    requires Inv(s0) && Inv(s) && Grows(s0, s) && TallyOk(s0, s, |s0.hooks|, key, t)
    ensures var s' := Finished(s0, s, key, t);
            forall id :: Live(s', id) ==> Listed(s'.hooks, id)
  {
    hide Done, Calls, Rounds, Quiet, Ordered;
    var existed := Ids(s0.hooks);
    var s' := Finished(s0, s, key, t);
    LogStep(s.log, Completed(key, s0.nextHook, set id | id in t.called));
    MergeMembers(s.hooks, existed, s.cancelled, t);
    forall id | Live(s', id) ensures Listed(s'.hooks, id) {
      assert Live(s, id);
      var i :| 0 <= i < |s.hooks| && s.hooks[i].id == id;
      var h := s.hooks[i];
      FiredExisted(s0, s, key, t, id);
      SettleRight(s0, s, key, t, h);
      var g := Settle(h, existed, s.cancelled, t).hook;
      assert Survives(s.hooks, existed, s.cancelled, t, g);
      assert g in s'.hooks;
    }
  }

  lemma SettleRight(s0: State, s: State, key: Key, t: Tally, h: Hook)
    requires Inv(s0) && Inv(s) && Grows(s0, s) && TallyOk(s0, s, |s0.hooks|, key, t)
    requires h in s.hooks && (h.id in t.fired ==> h.id in Ids(s0.hooks))
    ensures var k := Settle(h, Ids(s0.hooks), s.cancelled, t);
            var used := Done(s.log, h.id) + if h.id in t.fired then 1 else 0;
            var n := s.born[h.id].shots;
            && k == if n != 0 && used >= n then Gone
                    else Kept(Hook(s.born[h.id].key, h.id, if n == 0 then 0 else n - used))
  {
    hide Done, Calls, Rounds, Quiet, Ordered;
    assert Live(s, h.id) && h == Hook(s.born[h.id].key, h.id, Left(s, h.id));
    if h.id in t.fired {
      assert Live(s0, h.id) && t.fired[h.id] == Left(s0, h.id);
      assert Done(s0.log, h.id) <= Done(s.log, h.id);
    }
  }

  lemma FiredExisted(s0: State, s: State, key: Key, t: Tally, id: nat)
    requires Inv(s0) && TallyOk(s0, s, |s0.hooks|, key, t)
    ensures id in t.fired ==> id in Ids(s0.hooks)
  {
    hide Done, Calls, Rounds, Quiet, Ordered;
    if id in t.fired {
      assert Listed(s0.hooks, id);
    }
  }

  lemma {:induction false} DispatchKeepsInv(s: State, key: Key, bodies: Bodies)
    requires Inv(s)
    ensures Inv(Dispatch(s, key, bodies).0) && Grows(s, Dispatch(s, key, bodies).0)
    ensures var (s', t) := Walk(s, s.hooks, key, bodies, NoTally);
            Inv(s') && Grows(s, s') && TallyOk(s, s', |s.hooks|, key, t)
    decreases bodies, |s.hooks| + 1
  {
    hide Done, Calls, Rounds;
    assert s.hooks[0..] == s.hooks;
    WalkKeepsInv(s, s, 0, key, bodies, NoTally);
    var (s', t) := Walk(s, s.hooks, key, bodies, NoTally);
    FinishKeepsInv(s, s', key, t);
    GrowsTrans(s, s', Dispatch(s, key, bodies).0);
  }

  // Every run, however its dispatches nest, keeps the invariant.
  lemma {:induction false} RunKeepsInv(s: State, script: Script)
    requires Inv(s)
    ensures Inv(Run(s, script)) && Grows(s, Run(s, script))
    decreases script, 0
  {
    hide Done, Calls, Rounds, Inv;
    match script {
      case Stop =>
      case Register(key, shots, next) =>
        RegisterKeepsInv(s, key, shots);
        RunKeepsInv(Registered(s, key, shots), next);
      case Cancel(id, next) =>
        if id in s.born { DropKeepsInv(s, {id}); }
        RunKeepsInv(CancelledOne(s, id), next);
      case Clear(kind, event, next) =>
        MatchingAreBorn(s, kind, event);
        DropKeepsInv(s, MatchingIds(s.hooks, kind, event));
        RunKeepsInv(Cleared(s, kind, event), next);
      case Fire(key, bodies, next) =>
        DispatchKeepsInv(s, key, bodies);
        RunKeepsInv(Dispatch(s, key, bodies).0, next);
    }
  }

  lemma MatchingAreBorn(s: State, kind: string, event: int)
    requires Inv(s)
    ensures MatchingIds(s.hooks, kind, event) <= s.born.Keys
  {
    forall id | id in MatchingIds(s.hooks, kind, event) ensures id in s.born {
      var h :| h in s.hooks && Matches(h, kind, event) && h.id == id;
      assert Live(s, id);
    }
  }

  // ---------------------------------------------------------------------
  // What every run promises

  lemma InitialInv()
    ensures Inv(Initial)
  {
  }

  // Shots are conserved under any nesting: a hook with n > 0 shots has
  // max(0, n - completed dispatches that called it) left, and is gone exactly
  // when that is 0 or it was cancelled; a hook with 0 shots never expires.
  lemma ShotsConserved(script: Script, id: nat)
    ensures var s := Run(Initial, script);
            id in s.born ==>
              var n, used := s.born[id].shots, Done(s.log, id);
              if id in s.cancelled || (n != 0 && used >= n) then !Listed(s.hooks, id)
              else Hook(s.born[id].key, id, if n == 0 then 0 else n - used) in s.hooks
  {
    hide Done, Calls, Rounds, Run, Quiet, Ordered;
    InitialInv();
    RunKeepsInv(Initial, script);
    var s := Run(Initial, script);
    if Live(s, id) {
      var i :| 0 <= i < |s.hooks| && s.hooks[i].id == id;
      assert s.hooks[i] in s.hooks;
    }
  }

  // Once dropped, a hook is never called again, not even by an outer dispatch
  // still walking an older snapshot; ids are unique, in registration order,
  // below nextHook, and no listed hook is cancelled.
  lemma DroppedStaysSilent(script: Script)
    ensures var s := Run(Initial, script);
            && (forall i, j :: 0 <= i < j < |s.log| && s.log[i].Dropped? && s.log[j].Called? ==>
                  s.log[j].id !in s.log[i].ids)
            && (forall i, j :: 0 <= i < j < |s.hooks| ==> s.hooks[i].id < s.hooks[j].id)
            && (forall i :: 0 <= i < |s.hooks| ==> s.hooks[i].id < s.nextHook && s.hooks[i].id !in s.cancelled)
  {
    hide Run;
    InitialInv();
    RunKeepsInv(Initial, script);
    var s := Run(Initial, script);
    forall i | 0 <= i < |s.hooks| ensures s.hooks[i].id < s.nextHook && s.hooks[i].id !in s.cancelled {
      assert Live(s, s.hooks[i].id);
    }
  }

  // What a cancel does to the runtime.
  lemma CancelDrops(s: State, id: nat)
    requires Inv(s) && id in s.born
    ensures var s' := CancelledOne(s, id);
            && s'.cancelled == s.cancelled + {id} && s'.nextHook == s.nextHook
            && (forall h :: h in s'.hooks <==> h in s.hooks && h.id != id)
            && (forall i, j :: 0 <= i < j < |s'.hooks| ==> s'.hooks[i].id < s'.hooks[j].id)
            && s'.log == s.log + [Dropped({id})]
  {
    hide Done, Calls, Rounds, HooksRight, Quiet, Without;
    WithoutAt(s.hooks, {id});
  }

  // What a clear does to it: a negative event stands for every event of the kind.
  lemma ClearDrops(s: State, kind: string, event: int)
    requires Inv(s)
    ensures var s' := Cleared(s, kind, event);
            && (forall h :: h in s'.hooks <==>
                  h in s.hooks && !(h.key.kind == kind && (event < 0 || h.key.event == event)))
            && (forall i, j :: 0 <= i < j < |s'.hooks| ==> s'.hooks[i].id < s'.hooks[j].id)
            && (forall id :: id in s'.cancelled <==>
                  || id in s.cancelled
                  || exists h :: h in s.hooks && h.id == id && h.key.kind == kind
                                 && (event < 0 || h.key.event == event))
            && s'.nextHook == s.nextHook
            && |s'.log| == |s.log| + 1 && s.log <= s'.log && s'.log[|s.log|].Dropped?
            && (forall h :: h in s.hooks && h.key.kind == kind && (event < 0 || h.key.event == event) ==>
                  h.id in s'.log[|s.log|].ids)
  {
    hide Done, Calls, Rounds, HooksRight, Quiet, Without;
    var dead := MatchingIds(s.hooks, kind, event);
    WithoutAt(s.hooks, dead);
    forall h | h in s.hooks ensures h.id in dead <==> Matches(h, kind, event) {
      var i :| 0 <= i < |s.hooks| && s.hooks[i] == h;
      OnlyMatchingDropped(s.hooks, i, kind, event);
    }
  }

  // Whatever follows a cancel, and however deep in dispatches it happens, the
  // hook is never called after it.
  lemma CancelledIsSilent(s: State, id: nat, next: Script)
    requires Inv(s) && id in s.born
    ensures var s' := Run(s, Cancel(id, next));
            && s.log + [Dropped({id})] <= s'.log && id in s'.cancelled
            && (forall j :: |s.log| <= j < |s'.log| ==> s'.log[j] != Called(id))
  {
    hide Done, Calls, Rounds, HooksRight, Without;
    var s1 := CancelledOne(s, id);
    DropKeepsInv(s, {id});
    CancelDrops(s, id);
    RunKeepsInv(s1, next);
    assert Run(s1, next).log[|s.log|] == s1.log[|s.log|] == Dropped({id});
  }

  // The same for every hook that a clear meets.
  lemma ClearedAreSilent(s: State, kind: string, event: int, next: Script, h: Hook)
    requires Inv(s) && h in s.hooks && h.key.kind == kind && (event < 0 || h.key.event == event)
    ensures var s' := Run(s, Clear(kind, event, next));
            && s.log <= s'.log && |s.log| < |s'.log| && h.id in s'.cancelled
            && s'.log[|s.log|].Dropped? && h.id in s'.log[|s.log|].ids
            && (forall j :: |s.log| <= j < |s'.log| ==> s'.log[j] != Called(h.id))
  {
    hide Done, Calls, Rounds, HooksRight, Without;
    var s1 := Cleared(s, kind, event);
    MatchingAreBorn(s, kind, event);
    DropKeepsInv(s, MatchingIds(s.hooks, kind, event));
    ClearDrops(s, kind, event);
    RunKeepsInv(s1, next);
    assert Run(s1, next).log[|s.log|] == s1.log[|s.log|];
  }

  // A walk calls no hook that is not on its list.
  lemma {:induction false} WalkCallsListed(s: State, todo: seq<Hook>, key: Key, bodies: Bodies, t: Tally, id: nat)
    requires forall i :: 0 <= i < |todo| ==> todo[i].id != id
    ensures id in Walk(s, todo, key, bodies, t).1.called <==> id in t.called
    decreases bodies, |todo|
  {
    hide Run;
    if |todo| > 0 {
      var h := todo[0];
      if h.id in s.cancelled {
        WalkCallsListed(s, todo[1..], key, bodies, t.(skipped := t.skipped + {h.id}), id);
      } else if h.key != key {
        WalkCallsListed(s, todo[1..], key, bodies, t, id);
      } else {
        var t' := Fired(t, h, bodies);
        match bodies {
          case Idle => WalkCallsListed(BeforeCall(s, h), todo[1..], key, Idle, t', id);
          case Body(script, _, _, rest) => WalkCallsListed(Run(BeforeCall(s, h), script), todo[1..], key, rest, t', id);
        }
      }
    }
  }

  // A matching hook is called exactly when it is not cancelled at its turn,
  // that is, in the state in which the walk of the hooks before it ends.
  lemma {:induction false} CalledAtTurn(s: State, todo: seq<Hook>, k: nat, key: Key, bodies: Bodies, t: Tally)
    requires k < |todo| && todo[k].key == key && todo[k].id !in t.called
    requires forall i, j :: 0 <= i < j < |todo| ==> todo[i].id < todo[j].id
    ensures todo[k].id in Walk(s, todo, key, bodies, t).1.called
            <==> todo[k].id !in Walk(s, todo[..k], key, bodies, t).0.cancelled
    decreases bodies, |todo|
  {
    hide Run;
    var h, more := todo[0], todo[1..];
    if k == 0 {
      if h.id in s.cancelled {
        WalkCallsListed(s, more, key, bodies, t.(skipped := t.skipped + {h.id}), h.id);
      } else {
        var t' := Fired(t, h, bodies);
        match bodies {
          case Idle => WalkCallsListed(BeforeCall(s, h), more, key, Idle, t', h.id);
          case Body(script, _, _, rest) => WalkCallsListed(Run(BeforeCall(s, h), script), more, key, rest, t', h.id);
        }
      }
    } else {
      assert todo[..k][0] == h && todo[..k][1..] == more[..k - 1] && more[k - 1] == todo[k];
      if h.id in s.cancelled {
        CalledAtTurn(s, more, k - 1, key, bodies, t.(skipped := t.skipped + {h.id}));
      } else if h.key != key {
        CalledAtTurn(s, more, k - 1, key, bodies, t);
      } else {
        var t' := Fired(t, h, bodies);
        match bodies {
          case Idle => CalledAtTurn(BeforeCall(s, h), more, k - 1, key, Idle, t');
          case Body(script, _, _, rest) => CalledAtTurn(Run(BeforeCall(s, h), script), more, k - 1, key, rest, t');
        }
      }
    }
  }

  // One dispatch calls, in registration order, matching hooks of its snapshot
  // only; it leaves out exactly those cancelled at their turn. A hook that is
  // registered meanwhile is not called, and stays unless cancelled or used up.
  lemma DispatchCallsSnapshot(s: State, key: Key, bodies: Bodies)
    requires Inv(s)
    ensures var (s', t) := Dispatch(s, key, bodies);
            && (forall i, j :: 0 <= i < j < |t.called| ==> t.called[i] < t.called[j])
            && (forall id :: id in t.called ==> id < s.nextHook && Live(s, id) && s.born[id].key == key)
            && (forall id :: Live(s, id) && s.born[id].key == key && id !in s'.cancelled ==> id in t.called)
            && (forall k :: 0 <= k < |s.hooks| && s.hooks[k].key == key ==>
                  (s.hooks[k].id in t.called <==>
                   s.hooks[k].id !in Walk(s, s.hooks[..k], key, bodies, NoTally).0.cancelled))
            && (forall id :: id !in s.born && Live(s', id) ==> Listed(s'.hooks, id))
  {
    hide Done, Calls, Rounds, Quiet, Walk;
    forall k | 0 <= k < |s.hooks| && s.hooks[k].key == key
      ensures s.hooks[k].id in Walk(s, s.hooks, key, bodies, NoTally).1.called
              <==> s.hooks[k].id !in Walk(s, s.hooks[..k], key, bodies, NoTally).0.cancelled
    {
      CalledAtTurn(s, s.hooks, k, key, bodies, NoTally);
    }
    DispatchKeepsInv(s, key, bodies);
    var (s1, t) := Walk(s, s.hooks, key, bodies, NoTally);
    forall id | Live(s, id) && s.born[id].key == key && id !in s1.cancelled ensures id in t.called {
      var i :| 0 <= i < |s.hooks| && s.hooks[i].id == id;
    }
  }

  // What the first n handlers return, in order; one that fails returns nothing.
  function Returned(bodies: Bodies, n: nat): seq<int> {
    if n == 0 || bodies.Idle? then []
    else (if bodies.returned then [bodies.value] else []) + Returned(bodies.rest, n - 1)
  }

  lemma ReturnedInOrder(x: int, y: int, z: int)
    ensures Returned(Body(Stop, true, x, Body(Stop, false, y, Body(Stop, true, z, Idle))), 4) == [x, z]
    ensures Returned(Body(Stop, true, x, Body(Stop, true, y, Body(Stop, true, z, Idle))), 2) == [x, y]
  {
    assert Returned(Body(Stop, true, z, Idle), 2) == [z];
    assert Returned(Body(Stop, true, z, Idle), 0) == [];
    assert Returned(Body(Stop, false, y, Body(Stop, true, z, Idle)), 3) == [z];
    assert Returned(Body(Stop, true, y, Body(Stop, true, z, Idle)), 1) == [y];
  }

  lemma {:induction false} WalkReturns(s: State, todo: seq<Hook>, key: Key, bodies: Bodies, t: Tally)
    ensures var t' := Walk(s, todo, key, bodies, t).1;
            |t.called| <= |t'.called| && t'.results == t.results + Returned(bodies, |t'.called| - |t.called|)
    decreases bodies, |todo|
  {
    hide Run;
    if |todo| > 0 {
      var h := todo[0];
      if h.id in s.cancelled {
        WalkReturns(s, todo[1..], key, bodies, t.(skipped := t.skipped + {h.id}));
      } else if h.key != key {
        WalkReturns(s, todo[1..], key, bodies, t);
      } else {
        var t1 := Fired(t, h, bodies);
        match bodies {
          case Idle => WalkReturns(BeforeCall(s, h), todo[1..], key, Idle, t1);
          case Body(script, returned, value, rest) =>
            WalkReturns(Run(BeforeCall(s, h), script), todo[1..], key, rest, t1);
            var v := if returned then [value] else [];
            var more := Returned(rest, |Walk(s, todo, key, bodies, t).1.called| - |t1.called|);
            assert t.results + v + more == t.results + (v + more);
        }
      }
    }
  }

  // A dispatch returns what the handlers it called returned, in calling order.
  lemma DispatchReturns(s: State, key: Key, bodies: Bodies)
    ensures var t := Dispatch(s, key, bodies).1; t.results == Returned(bodies, |t.called|)
  {
    hide Walk;
    WalkReturns(s, s.hooks, key, bodies, NoTally);
  }

  // ---------------------------------------------------------------------
  // The runtime object

  class Runtime {
    var hooks: seq<Hook>
    var cancelled: set<nat>
    var nextHook: nat
    ghost var born: map<nat, Hook>
    ghost var log: seq<Entry>

    ghost function Now(): State
      reads this
    {
      State(hooks, cancelled, nextHook, born, log)
    }

    ghost predicate Valid()
      reads this
    {
      Inv(Now())
    }

    constructor ()
      ensures Valid() && Now() == Initial
    {
      hooks, cancelled, nextHook, born, log := [], {}, 1, map[], [];
    }

    method RegisterHook(key: Key, shots: nat) returns (id: nat)
      requires Valid()
      modifies this
      ensures Valid() && id == old(nextHook) && Now() == Registered(old(Now()), key, shots)
      ensures hooks == old(hooks) + [Hook(key, id, shots)] && nextHook == id + 1 && cancelled == old(cancelled)
    {
      hide Done, Calls, Rounds, HooksRight, Quiet;
      RegisterKeepsInv(Now(), key, shots);
      id := nextHook;
      nextHook := nextHook + 1;
      hooks := hooks + [Hook(key, id, shots)];
      born := born[id := Hook(key, id, shots)];
    }

    method CancelHook(id: nat)
      requires Valid() && id in born
      modifies this
      ensures Valid() && Now() == CancelledOne(old(Now()), id)
      ensures cancelled == old(cancelled) + {id} && nextHook == old(nextHook)
      ensures forall h :: h in hooks <==> h in old(hooks) && h.id != id
      ensures forall i, j :: 0 <= i < j < |hooks| ==> hooks[i].id < hooks[j].id
    {
      hide Done, Calls, Rounds, HooksRight, Quiet, Without;
      DropKeepsInv(Now(), {id});
      CancelDrops(Now(), id);
      cancelled := cancelled + {id};
      var remaining, i := [], 0;
      WithoutNone({id});
      assert hooks[..0] == [];
      while i < |hooks|
        invariant 0 <= i <= |hooks|
        invariant remaining == Without(hooks[..i], {id})
        modifies {}
      {
        assert hooks[..i + 1] == hooks[..i] + [hooks[i]];
        WithoutStep(hooks[..i], hooks[i], {id});
        if hooks[i].id != id {
          remaining := remaining + [hooks[i]];
        }
        i := i + 1;
      }
      assert hooks[..|hooks|] == hooks;
      hooks := remaining;
      log := log + [Dropped({id})];
    }

    method ClearHooks(kind: string, event: int)
      requires Valid()
      modifies this
      ensures Valid() && Now() == Cleared(old(Now()), kind, event) && nextHook == old(nextHook)
      ensures forall h :: h in hooks <==>
                h in old(hooks) && !(h.key.kind == kind && (event < 0 || h.key.event == event))
      ensures forall i, j :: 0 <= i < j < |hooks| ==> hooks[i].id < hooks[j].id
      ensures forall id :: id in cancelled <==>
                || id in old(cancelled)
                || exists h :: h in old(hooks) && h.id == id && h.key.kind == kind
                               && (event < 0 || h.key.event == event)
    {
      hide Done, Calls, Rounds, HooksRight, Quiet, Without, Matches;
      ghost var dead := MatchingIds(hooks, kind, event);
      MatchingAreBorn(Now(), kind, event);
      DropKeepsInv(Now(), dead);
      ClearDrops(Now(), kind, event);
      var remaining, dropped, i := [], {}, 0;
      WithoutNone(dead);
      assert hooks[..0] == [];
      while i < |hooks|
        invariant 0 <= i <= |hooks|
        invariant remaining == Without(hooks[..i], dead)
        invariant dropped == MatchingIds(hooks[..i], kind, event)
        modifies {}
      {
        assert hooks[..i + 1] == hooks[..i] + [hooks[i]];
        WithoutStep(hooks[..i], hooks[i], dead);
        MatchingStep(hooks[..i], hooks[i], kind, event);
        OnlyMatchingDropped(hooks, i, kind, event);
        if Matches(hooks[i], kind, event) {
          dropped := dropped + {hooks[i].id};
        } else {
          remaining := remaining + [hooks[i]];
        }
        i := i + 1;
      }
      assert hooks[..|hooks|] == hooks;
      cancelled := cancelled + dropped;
      hooks := remaining;
      log := log + [Dropped(dead)];
    }

    // True exactly when some hook of this event would be called.
    method HasHook(key: Key) returns (found: bool)
      requires Valid()
      ensures found <==> exists id :: Live(Now(), id) && born[id].key == key
    {
      found := false;
      var i := 0;
      while i < |hooks|
        invariant 0 <= i <= |hooks|
        invariant forall j :: 0 <= j < i ==> hooks[j].key != key
      {
        assert Live(Now(), hooks[i].id);
        if hooks[i].id !in cancelled && hooks[i].key == key {
          return true;
        }
        i := i + 1;
      }
      forall id | Live(Now(), id) ensures born[id].key != key {
        assert Listed(hooks, id);
      }
    }

    method Trigger(key: Key, bodies: Bodies) returns (results: seq<int>)
      requires Valid()
      modifies this
      ensures Valid() && Now() == Dispatch(old(Now()), key, bodies).0
      ensures results == Dispatch(old(Now()), key, bodies).1.results
      ensures Grows(old(Now()), Now())
      decreases bodies, 1
    {
      hide Inv, TallyOk, Grows, Walk, Run, Merge;
      DispatchKeepsInv(Now(), key, bodies);
      var initialIds := set h | h in hooks :: h.id;
      ghost var from := nextHook;
      var fired, skipped;
      ghost var called;
      fired, skipped, called, results := WalkSnapshot(hooks, key, bodies);
      hooks := Merged(initialIds, fired, skipped, Tally(fired, skipped, called, results));
      log := log + [Completed(key, from, set id | id in called)];
    }

    // The snapshot walk of a dispatch.
    method WalkSnapshot(initial: seq<Hook>, key: Key, bodies: Bodies)
      returns (fired: map<nat, nat>, skipped: set<nat>, ghost called: seq<nat>, results: seq<int>)
      requires Valid() && initial == hooks
      modifies this
      ensures Valid()
      ensures (Now(), Tally(fired, skipped, called, results)) == Walk(old(Now()), initial, key, bodies, NoTally)
      decreases bodies, 0
    {
      hide Done, Calls, Rounds, HooksRight, Quiet, TallyOk;
      ghost var s0 := Now();
      var todo, i := bodies, 0;
      fired, skipped, called, results := map[], {}, [], [];
      SnapshotBorn(s0);
      assert initial[0..] == initial;
      while i < |initial|
        invariant 0 <= i <= |initial| && Valid()
        invariant todo == bodies || todo < bodies
        invariant Walk(Now(), initial[i..], key, todo, Tally(fired, skipped, called, results))
               == Walk(s0, initial, key, bodies, NoTally)
        invariant s0.born.Keys <= born.Keys
      {
        var h := initial[i];
        assert initial[i..][0] == h && initial[i..][1..] == initial[i + 1..];
        if h.id in cancelled {
          skipped := skipped + {h.id};
        } else if h.key == key {
          fired := fired[h.id := h.shots];
          called := called + [h.id];
          CallKeepsInv(Now(), h);
          log := log + [Called(h.id)];
          if todo.Body? {
            if todo.returned { results := results + [todo.value]; }
            RunScript(todo.script);
            todo := todo.rest;
          }
        }
        i := i + 1;
      }
      assert initial[|initial|..] == [];
    }

    method Merged(initialIds: set<nat>, fired: map<nat, nat>, skipped: set<nat>, ghost t: Tally)
      returns (merged: seq<Hook>)
      requires t.fired == fired && t.skipped == skipped
      ensures merged == Merge(hooks, initialIds, cancelled, t)
    {
      merged := [];
      var i := 0;
      while i < |hooks|
        invariant 0 <= i <= |hooks|
        invariant merged == Merge(hooks[..i], initialIds, cancelled, t)
      {
        var h := hooks[i];
        assert hooks[..i + 1] == hooks[..i] + [h];
        MergeStep(hooks[..i], h, initialIds, cancelled, t);
        i := i + 1;
        if h.id in skipped { continue; }
        if h.id !in initialIds {
          if h.id in cancelled { continue; }
          merged := merged + [h];
          continue;
        }
        if h.id in fired {
          if fired[h.id] == 1 { continue; }
          if fired[h.id] > 1 {
            if h.shots == 1 { continue; }
            if h.shots > 1 { h := h.(shots := h.shots - 1); }
          }
        }
        merged := merged + [h];
      }
      assert hooks[..|hooks|] == hooks;
    }

    // One handler's calls back into the runtime.
    method RunScript(script: Script)
      requires Valid()
      modifies this
      ensures Valid() && Now() == Run(old(Now()), script)
      ensures Grows(old(Now()), Now())
      decreases script, 0
    {
      hide Done, Calls, Rounds, HooksRight, Quiet;
      RunKeepsInv(Now(), script);
      match script
      case Stop =>
      case Register(key, shots, next) =>
        var _ := RegisterHook(key, shots);
        RunScript(next);
      case Cancel(id, next) =>
        if 1 <= id < nextHook { CancelHook(id); }
        RunScript(next);
      case Clear(kind, event, next) =>
        ClearHooks(kind, event);
        RunScript(next);
      case Fire(key, bodies, next) =>
        var _ := Trigger(key, bodies);
        RunScript(next);
    }
  }

  lemma SnapshotBorn(s: State)
    requires Inv(s)
    ensures forall i :: 0 <= i < |s.hooks| ==> s.hooks[i].id in s.born
  {
    forall i | 0 <= i < |s.hooks| ensures s.hooks[i].id in s.born {
      assert Live(s, s.hooks[i].id);
    }
  }

  lemma WithoutNone(dead: set<nat>)
    ensures Without([], dead) == []
  {
  }

  lemma WithoutStep(hooks: seq<Hook>, h: Hook, dead: set<nat>)
    ensures Without(hooks + [h], dead) == Without(hooks, dead) + if h.id in dead then [] else [h]
  {
    assert (hooks + [h])[..|hooks|] == hooks;
  }

  lemma MatchingStep(hooks: seq<Hook>, h: Hook, kind: string, event: int)
    ensures MatchingIds(hooks + [h], kind, event)
         == MatchingIds(hooks, kind, event) + if Matches(h, kind, event) then {h.id} else {}
  {
    assert forall x :: x in hooks + [h] <==> x in hooks || x == h;
    forall id | id in MatchingIds(hooks, kind, event) + (if Matches(h, kind, event) then {h.id} else {})
      ensures id in MatchingIds(hooks + [h], kind, event)
    {
    }
  }

  lemma OnlyMatchingDropped(hooks: seq<Hook>, i: nat, kind: string, event: int)
    requires Ordered(hooks) && i < |hooks|
    ensures hooks[i].id in MatchingIds(hooks, kind, event) <==> Matches(hooks[i], kind, event)
  {
    if hooks[i].id in MatchingIds(hooks, kind, event) {
      var h :| h in hooks && Matches(h, kind, event) && h.id == hooks[i].id;
      var j :| 0 <= j < |hooks| && hooks[j] == h;
    }
  }
}
