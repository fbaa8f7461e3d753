// Lua timers: CreateLuaEvent and the catch-up loop of Tick, for callbacks that
// leave the timer list alone.
module Timers {
  import opened Numbers

  // drawn is the timer's position in its own stream of random delays.
  datatype Timer = Timer(id: nat, minDelay: int, maxDelay: int, delay: int, repeats: int, elapsed: int, drawn: nat)

  // One callback: the timer, the delay that passed, and the repeats left before it.
  datatype Firing = Firing(id: nat, delay: int, repeats: int)

  // Source(id, k) is what the random generator yields for draw k of timer id.
  type Source = (nat, nat) -> nat

  function TimerDelay(source: Source, id: nat, k: nat, minDelay: int, maxDelay: int): (d: int)
    ensures minDelay <= maxDelay ==> minDelay <= d <= maxDelay
  {
    if maxDelay <= minDelay then minDelay else minDelay + source(id, k) % (maxDelay - minDelay + 1)
  }

  predicate Sound(t: Timer) {
    1 <= t.minDelay <= t.delay <= t.maxDelay && 0 <= t.elapsed
  }

  predicate Settled(t: Timer) {
    Sound(t) && t.elapsed < t.delay
  }

  datatype Outcome = Outcome(alive: bool, timer: Timer, fired: seq<Firing>)

  function AfterFiring(t: Timer, source: Source): Timer {
    t.(elapsed := t.elapsed - t.delay,
       repeats := if t.repeats > 1 then t.repeats - 1 else t.repeats,
       delay := TimerDelay(source, t.id, t.drawn, t.minDelay, t.maxDelay),
       drawn := t.drawn + 1)
  }

  function CatchUp(t: Timer, source: Source): Outcome
    requires Sound(t)
    decreases t.elapsed
  {
    if t.elapsed < t.delay then Outcome(true, t, [])
    else
      var f := Firing(t.id, t.delay, t.repeats);
      if t.repeats == 1 then Outcome(false, t.(elapsed := t.elapsed - t.delay), [f])
      else
        var o := CatchUp(AfterFiring(t, source), source);
        o.(fired := [f] + o.fired)
  }

  function Advance(t: Timer, time: nat, source: Source): Outcome
    requires Sound(t)
  {
    CatchUp(t.(elapsed := t.elapsed + time), source)
  }

  // ---------------------------------------------------------------------
  // When a timer fires, told without the loop

  // The delay before firing k + 1, counted from now.
  function DelayAt(t: Timer, source: Source, k: nat): int {
    if k == 0 then t.delay else TimerDelay(source, t.id, t.drawn + k - 1, t.minDelay, t.maxDelay)
  }

  // The time, counted from the start of the current delay, of firing k.
  function Due(t: Timer, source: Source, k: nat): int {
    if k == 0 then 0 else Due(t, source, k - 1) + DelayAt(t, source, k - 1)
  }

  lemma {:induction false} DueShift(t: Timer, source: Source, k: nat)
    requires t.repeats != 1
    ensures Due(t, source, k + 1) == t.delay + Due(AfterFiring(t, source), source, k)
  {
    if k != 0 {
      DueShift(t, source, k - 1);
    } else {
      assert Due(t, source, 1) == Due(t, source, 0) + DelayAt(t, source, 0);
    }
  }

  // Callback i of a timer reports delay i and the repeats left before it.
  lemma {:induction false} FiringsInOrder(t: Timer, source: Source)
    requires Sound(t)
    ensures var o := CatchUp(t, source);
            && (forall i :: 0 <= i < |o.fired| ==>
                  o.fired[i] == Firing(t.id, DelayAt(t, source, i), if t.repeats > 1 then t.repeats - i else t.repeats))
            && (o.alive ==> Settled(o.timer) && o.timer.id == t.id)
    decreases t.elapsed
  {
    hide TimerDelay;
    if t.elapsed >= t.delay && t.repeats != 1 {
      var t' := AfterFiring(t, source);
      FiringsInOrder(t', source);
      var o, o' := CatchUp(t, source), CatchUp(t', source);
      forall i | 0 <= i < |o.fired|
        ensures o.fired[i] == Firing(t.id, DelayAt(t, source, i), if t.repeats > 1 then t.repeats - i else t.repeats)
      {
        if i > 0 {
          assert o.fired[i] == o'.fired[i - 1];
          assert DelayAt(t, source, i) == DelayAt(t', source, i - 1);
        }
      }
    }
  }

  // A timer fires once for each delay that has passed in full and no more: a
  // survivor keeps exactly the time left over, and a timer with a positive
  // repeat count is removed exactly at its last repeat.
  lemma {:induction false} FiresWhenDue(t: Timer, source: Source)
    requires Sound(t)
    ensures var o := CatchUp(t, source); var n := |o.fired|;
            && Due(t, source, n) <= t.elapsed
            && (o.alive ==> Due(t, source, n) + o.timer.elapsed == t.elapsed < Due(t, source, n + 1))
            && (o.alive ==> o.timer.repeats == if t.repeats > 1 then t.repeats - n else t.repeats)
            && (o.alive ==> t.repeats >= 1 ==> n < t.repeats)
            && (!o.alive ==> t.repeats >= 1 && n == t.repeats)
    decreases t.elapsed
  {
    hide TimerDelay;
    assert Due(t, source, 1) == Due(t, source, 0) + DelayAt(t, source, 0) == t.delay;
    if t.elapsed >= t.delay && t.repeats != 1 {
      var t' := AfterFiring(t, source);
      FiresWhenDue(t', source);
      var n := |CatchUp(t', source).fired|;
      DueShift(t, source, n);
      DueShift(t, source, n + 1);
    }
  }

  lemma OwnCallbacks(t: Timer, time: nat, source: Source)
    requires Sound(t)
    ensures var o := Advance(t, time, source);
            && (forall i :: 0 <= i < |o.fired| ==> o.fired[i].id == t.id)
            && (o.alive ==> Settled(o.timer) && o.timer.id == t.id)
  {
    hide CatchUp, DelayAt;
    FiringsInOrder(t.(elapsed := t.elapsed + time), source);
  }

  // Catching up, receiving more time and catching up again does what
  // receiving all of it at once does.
  lemma {:induction false} CatchUpAddsUp(t: Timer, b: nat, source: Source)
    requires Sound(t)
    ensures var o, once := CatchUp(t, source), CatchUp(t.(elapsed := t.elapsed + b), source);
            if o.alive then Settled(o.timer) && o.timer.id == t.id
                            && once
                               == Advance(o.timer, b, source).(fired := o.fired + Advance(o.timer, b, source).fired)
            else !once.alive && once.fired == o.fired
    decreases t.elapsed
  {
    hide TimerDelay;
    var o, w := CatchUp(t, source), t.(elapsed := t.elapsed + b);
    if t.elapsed < t.delay {
      assert [] + CatchUp(w, source).fired == CatchUp(w, source).fired;
    } else if t.repeats != 1 {
      var t' := AfterFiring(t, source);
      CatchUpAddsUp(t', b, source);
      assert AfterFiring(w, source) == t'.(elapsed := t'.elapsed + b);
      var o' := CatchUp(t', source);
      if o'.alive {
        var f, more := [Firing(t.id, t.delay, t.repeats)], Advance(o'.timer, b, source).fired;
        assert f + (o'.fired + more) == (f + o'.fired) + more;
      }
    }
  }

  lemma AdvanceAddsUp(t: Timer, a: nat, b: nat, source: Source)
    requires Sound(t)
    ensures var o, once := Advance(t, a, source), Advance(t, a + b, source);
            if o.alive then Settled(o.timer) && o.timer.id == t.id
                            && once
                               == Advance(o.timer, b, source).(fired := o.fired + Advance(o.timer, b, source).fired)
            else !once.alive && once.fired == o.fired
  {
    hide CatchUp;
    var u := t.(elapsed := t.elapsed + a);
    CatchUpAddsUp(u, b, source);
    assert u.(elapsed := u.elapsed + b) == t.(elapsed := t.elapsed + (a + b));
  }

  // ---------------------------------------------------------------------
  // The timer list

  predicate AllSettled(timers: seq<Timer>) {
    forall i :: 0 <= i < |timers| ==> Settled(timers[i])
  }

  predicate DistinctIds(timers: seq<Timer>) {
    forall i, j :: 0 <= i < j < |timers| ==> timers[i].id != timers[j].id
  }

  datatype Round = Round(kept: seq<Timer>, fired: seq<Firing>)

  function TickAll(timers: seq<Timer>, time: nat, source: Source): Round
    requires AllSettled(timers)
  {
    if |timers| == 0 then Round([], [])
    else
      var n := |timers| - 1;
      var r := TickAll(timers[..n], time, source);
      var o := Advance(timers[n], time, source);
      Round(if o.alive then r.kept + [o.timer] else r.kept, r.fired + o.fired)
  }

  // The callbacks of one timer, in order.
  function Of(fired: seq<Firing>, id: nat): seq<Firing> {
    if |fired| == 0 then []
    else Of(fired[..|fired| - 1], id) + if fired[|fired| - 1].id == id then [fired[|fired| - 1]] else []
  }

  lemma {:induction false} OfAppend(a: seq<Firing>, b: seq<Firing>, id: nat)
    ensures Of(a + b, id) == Of(a, id) + Of(b, id)
  {
    if |b| == 0 {
      assert a + b == a;
    } else {
      var n := |b| - 1;
      assert (a + b)[..|a| + n] == a + b[..n];
      OfAppend(a, b[..n], id);
    }
  }

  lemma {:induction false} OfSame(fired: seq<Firing>, owner: nat, id: nat)
    requires forall i :: 0 <= i < |fired| ==> fired[i].id == owner
    ensures Of(fired, id) == if owner == id then fired else []
  {
    if |fired| != 0 {
      OfSame(fired[..|fired| - 1], owner, id);
    }
  }

  ghost predicate Has(timers: seq<Timer>, id: nat) {
    exists i :: 0 <= i < |timers| && timers[i].id == id
  }

  lemma HasStep(timers: seq<Timer>, t: Timer, id: nat)
    ensures Has(timers + [t], id) <==> Has(timers, id) || t.id == id
  {
    if Has(timers, id) {
      var i :| 0 <= i < |timers| && timers[i].id == id;
      assert (timers + [t])[i].id == id;
    }
    if t.id == id {
      assert (timers + [t])[|timers|].id == id;
    }
  }

  // A tick keeps the list in order, and every callback belongs to a timer of it.
  lemma {:induction false} TickKeepsList(timers: seq<Timer>, time: nat, source: Source)
    requires AllSettled(timers) && DistinctIds(timers)
    ensures var r := TickAll(timers, time, source);
            && AllSettled(r.kept) && DistinctIds(r.kept)
            && (forall id :: Has(r.kept, id) ==> Has(timers, id))
            && (forall id :: !Has(timers, id) ==> Of(r.fired, id) == [])
  {
    hide Advance, Sound;
    if |timers| != 0 {
      var n := |timers| - 1;
      var t := timers[n];
      TickKeepsList(timers[..n], time, source);
      var r, o := TickAll(timers[..n], time, source), Advance(t, time, source);
      OwnCallbacks(t, time, source);
      assert timers == timers[..n] + [t];
      assert !Has(timers[..n], t.id);
      forall i | 0 <= i < |r.kept| ensures r.kept[i].id != t.id {
        assert Has(r.kept, r.kept[i].id);
      }
      forall id ensures Has(timers, id) <==> Has(timers[..n], id) || t.id == id {
        HasStep(timers[..n], t, id);
      }
      forall id | Has(if o.alive then r.kept + [o.timer] else r.kept, id) ensures Has(timers, id) {
        HasStep(r.kept, o.timer, id);
      }
      forall id | !Has(timers, id) ensures Of(r.fired + o.fired, id) == [] {
        OfAppend(r.fired, o.fired, id);
        OfSame(o.fired, t.id, id);
      }
    }
  }

  // Among all callbacks of a tick, those of one timer are what it fires alone.
  lemma {:induction false} TickIsPerTimer(timers: seq<Timer>, time: nat, source: Source, k: nat)
    requires AllSettled(timers) && DistinctIds(timers) && k < |timers|
    ensures var r, o := TickAll(timers, time, source), Advance(timers[k], time, source);
            && Of(r.fired, timers[k].id) == o.fired
            && (o.alive ==> o.timer in r.kept)
            && (!o.alive ==> !Has(r.kept, timers[k].id))
  {
    hide Of, Advance;
    var n := |timers| - 1;
    var t, r := timers[n], TickAll(timers[..n], time, source);
    var o := Advance(t, time, source);
    OwnCallbacks(t, time, source);
    OfAppend(r.fired, o.fired, timers[k].id);
    OfSame(o.fired, t.id, timers[k].id);
    TickKeepsList(timers[..n], time, source);
    HasStep(r.kept, o.timer, timers[k].id);
    if k == n {
      assert !Has(timers[..n], t.id);
    } else {
      TickIsPerTimer(timers[..n], time, source, k);
    }
  }

  lemma {:induction false} KeptAddsUp(timers: seq<Timer>, a: nat, b: nat, source: Source)
    requires AllSettled(timers) && DistinctIds(timers)
    ensures var first := TickAll(timers, a, source);
            AllSettled(first.kept) && TickAll(timers, a + b, source).kept == TickAll(first.kept, b, source).kept
  {
    hide Advance;
    TickKeepsList(timers, a, source);
    if |timers| != 0 {
      var n := |timers| - 1;
      var t, f := timers[n], TickAll(timers[..n], a, source);
      KeptAddsUp(timers[..n], a, b, source);
      AdvanceAddsUp(t, a, b, source);
      var o := Advance(t, a, source);
      assert (f.kept + [o.timer])[..|f.kept|] == f.kept;
    }
  }

  // Ticking a and then b leaves the same timers, and gives each timer the same
  // callbacks in the same order, as ticking a + b once.
  lemma TicksAddUp(timers: seq<Timer>, a: nat, b: nat, source: Source)
    requires AllSettled(timers) && DistinctIds(timers)
    ensures var first := TickAll(timers, a, source);
            AllSettled(first.kept) &&
            var second := TickAll(first.kept, b, source);
            var once := TickAll(timers, a + b, source);
            && once.kept == second.kept
            && forall id :: Of(once.fired, id) == Of(first.fired, id) + Of(second.fired, id)
  {
    hide Of, TickAll, Advance;
    KeptAddsUp(timers, a, b, source);
    TickKeepsList(timers, a, source);
    TickKeepsList(timers, a + b, source);
    var first := TickAll(timers, a, source);
    TickKeepsList(first.kept, b, source);
    forall id ensures Of(TickAll(timers, a + b, source).fired, id)
                   == Of(first.fired, id) + Of(TickAll(first.kept, b, source).fired, id)
    {
      if Has(timers, id) {
        var k :| 0 <= k < |timers| && timers[k].id == id;
        var t := timers[k];
        TickIsPerTimer(timers, a, source, k);
        TickIsPerTimer(timers, a + b, source, k);
        AdvanceAddsUp(t, a, b, source);
        var o := Advance(t, a, source);
        if o.alive {
          var j :| 0 <= j < |first.kept| && first.kept[j] == o.timer;
          TickIsPerTimer(first.kept, b, source, j);
        }
      }
    }
  }

  // Timers take their turns in the order of the list, and stay in it.
  lemma TicksInOrder(timers: seq<Timer>, t: Timer, time: nat, source: Source)
    requires AllSettled(timers + [t])
    ensures AllSettled(timers) && TickAll([], time, source) == Round([], [])
    ensures var before, after := TickAll(timers, time, source), TickAll(timers + [t], time, source);
            && after.fired == before.fired + Advance(t, time, source).fired
            && after.kept == before.kept
                             + if Advance(t, time, source).alive then [Advance(t, time, source).timer] else []
  {
    assert (timers + [t])[..|timers|] == timers;
    assert forall i :: 0 <= i < |timers| ==> timers[i] == (timers + [t])[i];
  }

  // ---------------------------------------------------------------------
  // The delays

  // Within the range every delay can be drawn, each firing draws anew, and no
  // timer draws for another: any delays of one timer can come.
  lemma AnyDelaysCanCome(t: Timer, delays: seq<int>) returns (source: Source)
    requires forall k :: 0 <= k < |delays| ==> t.minDelay <= delays[k] <= t.maxDelay
    ensures forall k :: 0 <= k < |delays| ==> DelayAt(t, source, k + 1) == delays[k]
  {
    source := (id: nat, k: nat) =>
        if id == t.id && t.drawn <= k < t.drawn + |delays| && t.minDelay <= delays[k - t.drawn]
        then delays[k - t.drawn] - t.minDelay else 0;
    forall k | 0 <= k < |delays| ensures DelayAt(t, source, k + 1) == delays[k] {
      assert source(t.id, t.drawn + k) == delays[k] - t.minDelay;
      SmallRemainder(delays[k] - t.minDelay, t.maxDelay - t.minDelay + 1);
    }
  }

  lemma SmallRemainder(x: nat, n: nat)
    requires x < n
    ensures x % n == x
  {
  }

  // With a fixed delay d a timer fires once for every d that has passed, at most
  // as often as it repeats, and keeps the rest of the time.
  lemma {:induction false} FixedDelay(t: Timer, time: nat, source: Source)
    requires Sound(t) && t.minDelay == t.maxDelay
    ensures var o, d, e := Advance(t, time, source), t.delay, t.elapsed + time;
            var n := if t.repeats >= 1 && t.repeats <= e / d then t.repeats else e / d;
            && |o.fired| == n
            && (forall i :: 0 <= i < n ==>
                  o.fired[i].id == t.id && o.fired[i].delay == d
                  && o.fired[i].repeats == if t.repeats > 1 then t.repeats - i else t.repeats)
            && (o.alive <==> t.repeats < 1 || e / d < t.repeats)
            && (o.alive ==> o.timer.elapsed == e - n * d && o.timer.delay == d && o.timer.id == t.id)
    decreases t.elapsed + time
  {
    hide Due, DelayAt, TimerDelay;
    var d, e := t.delay, t.elapsed + time;
    FixedDraw(t, source);
    if e < d {
      SmallQuotient(e, d);
    } else {
      OneLess(e, d);
      var u := t.(elapsed := e);
      if t.repeats != 1 {
        var t' := AfterFiring(u, source);
        FixedDelay(t', 0, source);
        assert t'.(elapsed := t'.elapsed + 0) == t';
        assert Advance(t', 0, source) == CatchUp(t', source);
      }
    }
  }

  lemma FixedDraw(t: Timer, source: Source)
    requires Sound(t) && t.minDelay == t.maxDelay
    ensures forall id, k :: TimerDelay(source, id, k, t.minDelay, t.maxDelay) == t.delay
  {
  }

  lemma SmallQuotient(e: nat, d: nat)
    requires e < d
    ensures e / d == 0
  {
  }

  lemma OneLess(e: nat, d: nat)
    requires 0 < d <= e
    ensures e / d == (e - d) / d + 1 && (e / d) * d == ((e - d) / d) * d + d
  {
    var q := (e - d) / d;
    assert (q + 1) * d == q * d + d && (q + 2) * d == q * d + 2 * d;
    QuotientIs(e, d, q + 1);
  }

  // ---------------------------------------------------------------------
  // The runtime's timer fields

  // One turn of the loop, behind the firings l.
  lemma FiresOnce(t: Timer, source: Source, l: seq<Firing>)
    requires Sound(t) && t.elapsed >= t.delay
    ensures var f := Firing(t.id, t.delay, t.repeats);
      CatchUp(t, source).(fired := l + CatchUp(t, source).fired)
        == if t.repeats == 1 then Outcome(false, t.(elapsed := t.elapsed - t.delay), l + [f])
           else var o := CatchUp(AfterFiring(t, source), source); o.(fired := l + [f] + o.fired)
  {
    var f := Firing(t.id, t.delay, t.repeats);
    var o := CatchUp(AfterFiring(t, source), source);
    assert l + ([f] + o.fired) == l + [f] + o.fired;
  }

  lemma NothingFires(t: Timer, source: Source)
    requires Sound(t) && t.elapsed < t.delay
    ensures CatchUp(t, source) == Outcome(true, t, [])
  {
  }

  class TimerList {
    var timers: seq<Timer>
    var nextRef: nat
    const source: Source
    ghost var log: seq<Firing>

    ghost predicate Valid()
      reads this
    {
      && AllSettled(timers) && DistinctIds(timers)
      && (forall i :: 0 <= i < |timers| ==> timers[i].id < nextRef)
    }

    constructor (source: Source)
      ensures Valid() && timers == [] && log == [] && this.source == source
    {
      this.source := source;
      timers, nextRef, log := [], 3, [];
    }

    // Registers a timer unless the delay range is invalid.
    method CreateLuaEvent(minDelay: int, maxDelay: int, repeats: int) returns (ok: bool, id: nat)
      requires Valid()
      modifies this
      ensures Valid() && log == old(log)
      ensures ok <==> 1 <= minDelay <= maxDelay
      ensures !ok ==> timers == old(timers) && nextRef == old(nextRef)
      ensures ok ==> id == old(nextRef) && nextRef == id + 1
      ensures ok ==>
                timers == old(timers)
                  + [Timer(id, minDelay, maxDelay, TimerDelay(source, id, 0, minDelay, maxDelay), repeats, 0, 1)]
    {
      if minDelay < 1 || maxDelay < minDelay {
        return false, 0;
      }
      ok, id := true, nextRef;
      nextRef := nextRef + 1;
      timers := timers + [Timer(id, minDelay, maxDelay, TimerDelay(source, id, 0, minDelay, maxDelay), repeats, 0, 1)];
    }

    method Tick(time: int)
      requires Valid()
      modifies this
      ensures Valid() && nextRef == old(nextRef)
      ensures time < 0 ==> timers == old(timers) && log == old(log)
      ensures time >= 0 ==> timers == TickAll(old(timers), time, source).kept
      ensures time >= 0 ==> log == old(log) + TickAll(old(timers), time, source).fired
    {
      if time < 0 {
        return;
      }
      hide Sound, Advance, Of;
      TickKeepsList(timers, time, source);
      var remaining, i := [], 0;
      ghost var was := log;
      assert timers[..0] == [] && log[|was|..] == [];
      while i < |timers|
        invariant 0 <= i <= |timers| && timers == old(timers) && nextRef == old(nextRef)
        invariant was <= log && Round(remaining, log[|was|..]) == TickAll(timers[..i], time, source)
      {
        ghost var before := log;
        var alive, current := CatchUpInPlace(timers[i], time);
        if alive {
          remaining := remaining + [current];
        }
        assert timers[..i + 1][..i] == timers[..i];
        assert log[|was|..] == before[|was|..] + log[|before|..];
        i := i + 1;
      }
      assert timers[..|timers|] == timers;
      assert log == was + log[|was|..];
      timers := remaining;
      forall k | 0 <= k < |timers| ensures timers[k].id < nextRef {
        assert Has(timers, timers[k].id);
        assert Has(old(timers), timers[k].id);
      }
    }

    // The inner loop of Tick: fire while a whole delay has passed.
    method CatchUpInPlace(t: Timer, time: nat) returns (alive: bool, current: Timer)
      requires Sound(t)
      modifies this`log
      ensures old(log) <= log
      ensures Advance(t, time, source).alive == alive && Advance(t, time, source).fired == log[|old(log)|..]
      ensures alive ==> Advance(t, time, source).timer == current
    {
      hide TimerDelay, CatchUp;
      current := t.(elapsed := t.elapsed + time);
      ghost var before, start := log, current;
      assert log[|before|..] == [];
      while current.elapsed >= current.delay
        invariant Sound(current) && before <= log
        invariant CatchUp(start, source)
               == CatchUp(current, source).(fired := log[|before|..] + CatchUp(current, source).fired)
        decreases current.elapsed
      {
        ghost var l, f := log[|before|..], Firing(current.id, current.delay, current.repeats);
        FiresOnce(current, source, l);
        current := current.(elapsed := current.elapsed - current.delay);
        var remove := current.repeats == 1;
        if current.repeats > 1 {
          current := current.(repeats := current.repeats - 1);
        }
        log := log + [f];
        assert log[|before|..] == l + [f];
        if remove {
          return false, current;
        }
        current := current.(delay := TimerDelay(source, current.id, current.drawn, current.minDelay, current.maxDelay),
                            drawn := current.drawn + 1);
      }
      NothingFires(current, source);
      alive := true;
      assert log[|before|..] + [] == log[|before|..];
    }
  }
}
