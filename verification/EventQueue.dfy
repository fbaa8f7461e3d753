// The timed event queue: container/heap's sift-up and sift-down over a slice of
// event pointers, refined to a table of pending events ordered by (due, id).
module EventQueue {
  import opened Wrappers

  class Event {
    const id: nat
    const due: int
    const runs: bool  // whether it has a function to call
    var cancelled: bool
    var index: int

    constructor (id: nat, due: int, runs: bool)
      ensures this.id == id && this.due == due && this.runs == runs && !cancelled
    {
      this.id, this.due, this.runs, cancelled, index := id, due, runs, false, 0;
    }
  }

  // eventHeap.Less
  predicate Less(a: Event, b: Event) {
    if a.due == b.due then a.id < b.id else a.due < b.due
  }

  // ---------------------------------------------------------------------
  // Heaps as sequences; the order of two events never changes

  ghost predicate DistinctIds(es: seq<Event>) {
    forall i, j :: 0 <= i < j < |es| ==> es[i].id != es[j].id
  }

  function Parent(i: nat): nat
    requires i > 0
  {
    (i - 1) / 2
  }

  ghost predicate Ordered(es: seq<Event>, i: nat)
    requires 0 < i < |es|
  {
    !Less(es[i], es[Parent(i)])
  }

  ghost predicate HeapOrder(es: seq<Event>) {
    forall i :: 0 < i < |es| ==> Ordered(es, i)
  }

  // A heap but for entry j, which may be too small for its place.
  ghost predicate HeapButUp(es: seq<Event>, j: nat) {
    && (forall i :: 0 < i < |es| && i != j ==> Ordered(es, i))
    && (forall i :: 0 < i < |es| && Parent(i) == j && j > 0 ==> !Less(es[i], es[Parent(j)]))
  }

  // The first n entries are a heap but for entry j, which may be too large.
  ghost predicate HeapButDown(es: seq<Event>, n: nat, j: nat)
    requires n <= |es|
  {
    && (forall i :: 0 < i < n && Parent(i) != j ==> Ordered(es, i))
    && (forall i :: 0 < i < n && Parent(i) == j && j > 0 ==> !Less(es[i], es[Parent(j)]))
  }

  lemma {:induction false} RootIsLeast(es: seq<Event>, i: nat)
    requires HeapOrder(es) && i < |es|
    ensures !Less(es[i], es[0])
  {
    if i > 0 {
      assert Ordered(es, i);
      RootIsLeast(es, Parent(i));
    }
  }

  function Swapped(es: seq<Event>, i: nat, j: nat): (r: seq<Event>)
    requires i < |es| && j < |es|
    ensures |r| == |es|
    ensures forall k :: 0 <= k < |es| ==> r[k] == if k == i then es[j] else if k == j then es[i] else es[k]
  {
    es[i := es[j]][j := es[i]]
  }

  // Same events, in another order.
  ghost predicate SameEvents(a: seq<Event>, b: seq<Event>) {
    |a| == |b| && DistinctIds(b) && (forall e | e in a :: e in b) && (forall e | e in b :: e in a)
  }

  lemma SwappedSame(es: seq<Event>, i: nat, j: nat)
    requires i < |es| && j < |es| && DistinctIds(es)
    ensures SameEvents(es, Swapped(es, i, j))
  {
    var r := Swapped(es, i, j);
    forall e | e in es ensures e in r {
      var k :| 0 <= k < |es| && es[k] == e;
      assert r[if k == i then j else if k == j then i else k] == e;
    }
    forall e | e in r ensures e in es {
      var k :| 0 <= k < |es| && r[k] == e;
    }
  }

  // Sifting up by one place.
  lemma SiftedUp(es: seq<Event>, j: nat)
    requires 0 < j < |es| && HeapButUp(es, j) && DistinctIds(es) && Less(es[j], es[Parent(j)])
    ensures HeapButUp(Swapped(es, Parent(j), j), Parent(j))
  {
    var p, r := Parent(j), Swapped(es, Parent(j), j);
    forall i | 0 < i < |r| && i != p ensures Ordered(r, i) {
      if i != j {
        assert Ordered(es, i);
      }
    }
    forall i | 0 < i < |r| && Parent(i) == p && p > 0 ensures !Less(r[i], r[Parent(p)]) {
      assert Ordered(es, p);
      if i != j {
        assert Ordered(es, i);
      }
    }
  }

  // Sifting down by one place, to the smaller child.
  lemma SiftedDown(es: seq<Event>, n: nat, i: nat, j: nat)
    requires i < n <= |es| && 0 < j < n && Parent(j) == i && HeapButDown(es, n, i) && Less(es[j], es[i])
    requires forall c :: 0 < c < n && Parent(c) == i ==> !Less(es[c], es[j])
    ensures HeapButDown(Swapped(es, i, j), n, j)
  {
    var r := Swapped(es, i, j);
    forall c | 0 < c < n && Parent(c) != j ensures Ordered(r, c) {
      if Parent(c) != i {
        assert Ordered(es, c);
      }
    }
    forall c | 0 < c < n && Parent(c) == j && j > 0 ensures !Less(r[c], r[Parent(j)]) {
      assert Ordered(es, c);
    }
  }

  // ---------------------------------------------------------------------
  // The queue as a table of pending events

  datatype Entry = Entry(due: int, runs: bool, cancelled: bool)

  datatype State = State(next: nat, pending: map<nat, Entry>)

  const Empty := State(0, map[])

  datatype Step =
    | Added(due: int, runs: bool, id: nat)
    | Cancelled(id: nat, done: bool)
    | RanDue(now: int, ran: seq<nat>)
    | AskedNext(answer: Option<int>)

  predicate IdLess(p: map<nat, Entry>, a: nat, b: nat)
    requires a in p && b in p
  {
    if p[a].due == p[b].due then a < b else p[a].due < p[b].due
  }

  // The events a RunDue calls: live, due, with a function, in (due, id) order.
  ghost predicate RunsExactly(p: map<nat, Entry>, now: int, ran: seq<nat>) {
    && (forall id :: id in ran <==> id in p && p[id].due <= now && !p[id].cancelled && p[id].runs)
    && (forall i, j :: 0 <= i < j < |ran| ==> IdLess(p, ran[i], ran[j]))
  }

  ghost predicate IsNextDue(p: map<nat, Entry>, due: Option<int>) {
    match due
    case None => forall id :: id in p ==> p[id].cancelled
    case Some(d) =>
      && (exists id :: id in p && !p[id].cancelled && p[id].due == d)
      && (forall id :: id in p && !p[id].cancelled ==> d <= p[id].due)
  }

  // A cancelled event ahead of every live one.
  ghost predicate Stale(p: map<nat, Entry>, id: nat) {
    id in p && p[id].cancelled && forall other :: other in p && !p[other].cancelled ==> IdLess(p, id, other)
  }

  // What each operation does to the table.
  ghost predicate Next(s: State, step: Step, s': State) {
    match step
    case Added(due, runs, id) =>
      id == s.next + 1 && s' == State(id, s.pending[id := Entry(due, runs, false)])
    case Cancelled(id, done) =>
      && (done <==> id in s.pending && !s.pending[id].cancelled)
      && s' == if done then s.(pending := s.pending[id := s.pending[id].(cancelled := true)]) else s
    case RanDue(now, ran) =>
      && RunsExactly(s.pending, now, ran)
      && s' == s.(pending := map id | id in s.pending && s.pending[id].due > now :: s.pending[id])
    case AskedNext(due) =>
      && IsNextDue(s.pending, due)
      && s' == s.(pending := map id | id in s.pending && !Stale(s.pending, id) :: s.pending[id])
  }

  ghost predicate IdsBounded(s: State) {
    forall id :: id in s.pending ==> 1 <= id <= s.next
  }

  // ---------------------------------------------------------------------
  // Over every sequence of operations

  ghost predicate IsRun(states: seq<State>, steps: seq<Step>) {
    && |states| == |steps| + 1
    && states[0] == Empty
    && forall i :: 0 <= i < |steps| ==> Next(states[i], steps[i], states[i + 1])
  }

  lemma {:induction false} RunKeepsBounds(states: seq<State>, steps: seq<Step>, i: nat)
    requires IsRun(states, steps) && i < |states|
    ensures IdsBounded(states[i])
  {
    if i > 0 {
      RunKeepsBounds(states, steps, i - 1);
      assert Next(states[i - 1], steps[i - 1], states[i]);
    }
  }

  // The event has been taken out or cancelled.
  ghost predicate Over(s: State, id: nat) {
    id <= s.next && (id in s.pending ==> s.pending[id].cancelled)
  }

  predicate Touches(step: Step, id: nat) {
    (step.RanDue? && id in step.ran) || (step.Cancelled? && step.id == id && step.done)
  }

  lemma {:induction false} OverStaysOver(states: seq<State>, steps: seq<Step>, i: nat, j: nat, id: nat)
    requires IsRun(states, steps) && i <= j < |states| && Over(states[i], id)
    ensures Over(states[j], id) && forall k :: i <= k < j ==> !Touches(steps[k], id)
    decreases j - i
  {
    if i < j {
      OverStaysOver(states, steps, i, j - 1, id);
      assert Next(states[j - 1], steps[j - 1], states[j]);
    }
  }

  // An event is run at most once, Cancel succeeds for it at most once, and
  // after either it is neither run nor cancelled again.
  lemma TouchedAtMostOnce(states: seq<State>, steps: seq<Step>, i: nat, j: nat, id: nat)
    requires IsRun(states, steps) && i < j < |steps| && Touches(steps[i], id)
    ensures !Touches(steps[j], id)
  {
    RunKeepsBounds(states, steps, i);
    assert Next(states[i], steps[i], states[i + 1]);
    assert Over(states[i + 1], id);
    OverStaysOver(states, steps, i + 1, j + 1, id);
  }

  // Within one RunDue no event is called twice.
  lemma RanIsDistinct(p: map<nat, Entry>, now: int, ran: seq<nat>)
    requires RunsExactly(p, now, ran)
    ensures forall i, j :: 0 <= i < j < |ran| ==> ran[i] != ran[j]
  {
    forall i, j | 0 <= i < j < |ran| ensures ran[i] != ran[j] {
      assert IdLess(p, ran[i], ran[j]);
    }
  }

  // An event that is not cancelled runs in the first RunDue at or after its
  // due time.
  lemma {:induction false} RunsWhenDue(states: seq<State>, steps: seq<Step>, i: nat, j: nat, id: nat)
    requires IsRun(states, steps) && i <= j < |steps|
    requires id in states[i].pending && states[i].pending[id].runs && !states[i].pending[id].cancelled
    requires forall k :: i <= k < j && steps[k].RanDue? ==> steps[k].now < states[i].pending[id].due
    requires forall k :: i <= k < j && steps[k].Cancelled? ==> steps[k].id != id
    requires steps[j].RanDue? && steps[j].now >= states[i].pending[id].due
    ensures id in steps[j].ran
    decreases j - i
  {
    assert Next(states[i], steps[i], states[i + 1]);
    RunKeepsBounds(states, steps, i);
    if i < j {
      if steps[i].AskedNext? {
        assert !Stale(states[i].pending, id);
      }
      RunsWhenDue(states, steps, i + 1, j, id);
    }
  }

  // Ids handed out grow strictly.
  lemma {:induction false} AddedIdsGrow(states: seq<State>, steps: seq<Step>, i: nat, j: nat)
    requires IsRun(states, steps) && i < j < |steps| && steps[i].Added? && steps[j].Added?
    ensures steps[i].id < steps[j].id
  {
    NextGrows(states, steps, i + 1, j);
    assert Next(states[i], steps[i], states[i + 1]) && Next(states[j], steps[j], states[j + 1]);
  }

  lemma {:induction false} NextGrows(states: seq<State>, steps: seq<Step>, i: nat, j: nat)
    requires IsRun(states, steps) && i <= j < |states|
    ensures states[i].next <= states[j].next
    decreases j - i
  {
    if i < j {
      NextGrows(states, steps, i, j - 1);
      assert Next(states[j - 1], steps[j - 1], states[j]);
    }
  }

  // ---------------------------------------------------------------------
  // The queue object

  // The heap slice holds exactly the pending events.
  ghost predicate Tracks(es: seq<Event>, pending: map<nat, Entry>)
    reads es`cancelled
  {
    && (forall e | e in es :: e.id in pending && pending[e.id] == Entry(e.due, e.runs, e.cancelled))
    && (forall id :: id in pending ==> Holds(es, id))
  }

  ghost predicate Holds(es: seq<Event>, id: nat) {
    exists i :: 0 <= i < |es| && es[i].id == id
  }

  ghost predicate Indexed(es: seq<Event>)
    reads es
  {
    forall i :: 0 <= i < |es| ==> es[i].index == i
  }

  class Queue {
    var next: nat
    var events: seq<Event>
    ghost var pending: map<nat, Entry>

    ghost predicate Valid()
      reads this, events
    {
      && DistinctIds(events) && HeapOrder(events) && Indexed(events)
      && Tracks(events, pending) && IdsBounded(Now())
    }

    ghost function Now(): State
      reads this
    {
      State(next, pending)
    }

    constructor ()
      ensures Valid() && Now() == Empty && events == []
    {
      next, events, pending := 0, [], map[];
    }

    method Swap(i: nat, j: nat)
      requires i < |events| && j < |events| && DistinctIds(events) && Indexed(events)
      modifies this`events, {events[i], events[j]}`index
      ensures events == Swapped(old(events), i, j) && Indexed(events)
    {
      events := events[i := events[j]][j := events[i]];
      events[i].index := i;
      events[j].index := j;
    }

    method Up(from: nat)
      requires from < |events| && DistinctIds(events) && Indexed(events) && HeapButUp(events, from)
      modifies this`events, events`index
      ensures HeapOrder(events) && Indexed(events) && SameEvents(old(events), events)
    {
      var j: nat := from;
      while true
        invariant j < |events| && Indexed(events) && SameEvents(old(events), events) && HeapButUp(events, j)
        decreases j
      {
        var i := if j == 0 then 0 else Parent(j);
        if i == j || !Less(events[j], events[i]) {
          break;
        }
        SiftedUp(events, j);
        SwappedSame(events, i, j);
        assert events[i] in old(events) && events[j] in old(events);
        Swap(i, j);
        j := i;
      }
    }

    method Down(from: nat, n: nat)
      requires n <= |events| && DistinctIds(events) && Indexed(events) && HeapButDown(events, n, from)
      modifies this`events, events`index
      ensures SameEvents(old(events), events) && Indexed(events)
      ensures HeapOrder(events[..n]) && SameEvents(old(events)[..n], events[..n]) && events[n..] == old(events)[n..]
    {
      hide SameEvents, HeapButDown, HeapOrder;
      var i: nat := from;
      SameRefl(events);
      SameRefl(events[..n]);
      while true
        invariant Indexed(events) && DistinctIds(events) && |events| == |old(events)| && SameEvents(old(events), events)
        invariant SameEvents(old(events)[..n], events[..n]) && events[n..] == old(events)[n..]
        invariant HeapButDown(events, n, i)
        decreases n - i
      {
        SameIds(old(events), events);
        var j1 := 2 * i + 1;
        if j1 >= n {
          DownDone(events, n, i, i);
          break;
        }
        var j := j1;
        var j2 := j1 + 1;
        if j2 < n && Less(events[j2], events[j1]) {
          j := j2;
        }
        if !Less(events[j], events[i]) {
          DownDone(events, n, i, j);
          break;
        }
        LeastChild(events, n, i, j);
        SiftedDown(events, n, i, j);
        SwappedPrefix(old(events), events, n, i, j);
        assert events[i] in old(events) && events[j] in old(events);
        Swap(i, j);
        i := j;
      }
    }

    // heap.Push
    method Push(item: Event)
      requires DistinctIds(events + [item]) && HeapOrder(events) && Indexed(events)
      modifies this`events, events`index, item`index
      ensures HeapOrder(events) && Indexed(events) && SameEvents(old(events) + [item], events)
    {
      AppendedHeap(events, item);
      item.index := |events|;
      events := events + [item];
      Up(|events| - 1);
    }

    // heap.Pop
    method Pop() returns (item: Event)
      requires |events| > 0 && DistinctIds(events) && HeapOrder(events) && Indexed(events)
      modifies this`events, events`index
      ensures item == old(events)[0] && item.index == -1
      ensures HeapOrder(events) && Indexed(events) && SameEvents(old(events), [item] + events)
    {
      ghost var es := events;
      var n := |events| - 1;
      SwappedSame(events, 0, n);
      LastToRoot(events);
      Swap(0, n);
      Down(0, n);
      item := events[n];
      assert events[n..] == [item] && Swapped(es, 0, n)[n..] == [es[0]];
      PoppedSame(es, events, n);
      item.index := -1;
      events := events[..n];
    }

    method Add(due: int, runs: bool) returns (id: nat)
      requires Valid()
      modifies this, events`index
      ensures Valid() && Next(old(Now()), Added(due, runs, id), Now())
      ensures next == id == old(next) + 1
      ensures exists e: Event ::
        && fresh(e) && e.id == id && e.due == due && e.runs == runs && !e.cancelled
        && forall f :: f in events <==> f in old(events) || f == e
    {
      next := next + 1;
      var item := new Event(next, due, runs);
      FreshId(events, pending, next, item);
      ghost var es := events;
      Push(item);
      TracksAdded(es, events, pending, item);
      pending := pending[item.id := Entry(due, runs, false)];
      id := item.id;
      AppendedIn(es, item, events);
    }

    method Cancel(id: nat) returns (done: bool)
      requires Valid()
      modifies this`pending, events`cancelled
      ensures Valid() && Next(old(Now()), Cancelled(id, done), Now())
      ensures done <==> exists e :: e in events && e.id == id && !old(e.cancelled)
      ensures forall e :: e in events ==> e.cancelled == (old(e.cancelled) || e.id == id)
    {
      var i := 0;
      while i < |events|
        invariant 0 <= i <= |events|
        invariant forall k :: 0 <= k < i ==> events[k].id != id || events[k].cancelled
      {
        var item := events[i];
        if item.id == id && !item.cancelled {
          assert item in events && pending[id] == Entry(item.due, item.runs, false);
          item.cancelled := true;
          pending := pending[id := pending[id].(cancelled := true)];
          return true;
        }
        i := i + 1;
      }
      if id in pending {
        assert Holds(events, id);
        var k :| 0 <= k < |events| && events[k].id == id;
        assert events[k] in events;
      }
      done := false;
    }

    // Pops the root, which is the least pending event.
    method TakeRoot() returns (item: Event)
      requires Valid() && |events| > 0
      modifies this`events, this`pending, events`index
      ensures Valid() && item == old(events)[0] && |events| < |old(events)|
      ensures IsLeast(old(pending), item) && pending == old(pending) - {item.id}
      ensures forall i :: 0 <= i < |events| ==> events[i] in old(events)
    {
      hide HeapOrder, Indexed, DistinctIds, Tracks, IsLeast, SameEvents;
      LeastPending(events, pending);
      ghost var es := events;
      item := Pop();
      TracksPopped(es, events, pending, item);
      pending := pending - {item.id};
    }

    // Takes out everything that is due and returns the ids of the functions
    // called, in calling order.
    method RunDue(now: int) returns (ran: seq<nat>)
      requires Valid()
      modifies this, events`index
      ensures Valid() && Next(old(Now()), RanDue(now, ran), Now())
      ensures forall e :: e in events <==> e in old(events) && e.due > now
      ensures forall id :: id in ran <==>
        exists e :: e in old(events) && e.id == id && e.due <= now && !e.cancelled && e.runs
      ensures forall i, j, a, b | a in old(events) && b in old(events)
                                  && 0 <= i < j < |ran| && a.id == ran[i] && b.id == ran[j] ::
        a.due < b.due || (a.due == b.due && a.id < b.id)
    {
      hide HeapOrder, Indexed, DistinctIds, Tracks, IsLeast, TakenOut, RanSoFar;
      ghost var es, p := events, pending;
      ran := [];
      NoneTaken(p);
      while |events| > 0
        invariant Valid() && next == old(next)
        invariant forall i :: 0 <= i < |events| ==> events[i] in old(events)
        invariant TakenOut(p, pending, now) && RanSoFar(p, pending, ran)
        decreases |events|
      {
        var item := events[0];
        LeastPending(events, pending);
        if item.due > now {
          break;
        }
        ghost var left := pending;
        item := TakeRoot();
        TakenOneMore(p, left, item, now, ran);
        if !item.cancelled && item.runs {
          ran := ran + [item.id];
        }
      }
      AllDueTaken(p, events, pending, now, ran);
      RanFromHeap(es, events, p, pending, now, ran);
    }

    method NextDue() returns (answer: Option<int>)
      requires Valid()
      modifies this, events`index
      ensures Valid() && Next(old(Now()), AskedNext(answer), Now())
      ensures forall e :: e in events ==> e in old(events)
      ensures forall e :: e in old(events) && !e.cancelled ==> e in events && answer.Some? && answer.value <= e.due
      ensures answer.Some? ==> exists e :: e in events && !e.cancelled && e.due == answer.value
    {
      hide HeapOrder, Indexed, DistinctIds, Tracks, IsLeast, OnlyStaleTaken;
      ghost var es, p := events, pending;
      NoStaleTaken(p);
      while |events| > 0 && events[0].cancelled
        invariant Valid() && next == old(next)
        invariant forall i :: 0 <= i < |events| ==> events[i] in old(events)
        invariant OnlyStaleTaken(p, pending)
        decreases |events|
      {
        ghost var left := pending;
        LeastPending(events, pending);
        var item := TakeRoot();
        StaleOneMore(p, left, item);
      }
      answer := if |events| == 0 then None else Some(events[0].due);
      AllStaleTaken(p, events, pending, answer);
      AskedOfHeap(es, events, p, pending, answer);
    }
  }

  ghost predicate IsLeast(p: map<nat, Entry>, e: Event)
    reads e`cancelled
  {
    && e.id in p && p[e.id] == Entry(e.due, e.runs, e.cancelled)
    && forall id :: id in p && id != e.id ==> IdLess(p, e.id, id)
  }

  // What has been taken out is due and came before everything that is left.
  ghost predicate TakenOut(p: map<nat, Entry>, left: map<nat, Entry>, now: int) {
    && (forall id :: id in left ==> id in p && left[id] == p[id])
    && (forall a, b :: a in p && a !in left && b in left ==> IdLess(p, a, b))
    && (forall id :: id in p && id !in left ==> p[id].due <= now)
  }

  ghost predicate RanSoFar(p: map<nat, Entry>, left: map<nat, Entry>, ran: seq<nat>) {
    && (forall id :: id in ran <==> id in p && id !in left && !p[id].cancelled && p[id].runs)
    && (forall i, j :: 0 <= i < j < |ran| ==> IdLess(p, ran[i], ran[j]))
  }

  // What has been taken out is cancelled and came before everything that is left.
  ghost predicate OnlyStaleTaken(p: map<nat, Entry>, left: map<nat, Entry>) {
    && (forall id :: id in left ==> id in p && left[id] == p[id])
    && (forall a, b :: a in p && a !in left && b in left ==> IdLess(p, a, b))
    && (forall id :: id in p && id !in left ==> p[id].cancelled)
  }

  lemma NoneTaken(p: map<nat, Entry>)
    ensures forall now :: TakenOut(p, p, now)
    ensures RanSoFar(p, p, [])
  {
  }

  lemma NoStaleTaken(p: map<nat, Entry>)
    ensures OnlyStaleTaken(p, p)
  {
  }

  lemma TakenOneMore(p: map<nat, Entry>, left: map<nat, Entry>, e: Event, now: int, ran: seq<nat>)
    requires TakenOut(p, left, now) && RanSoFar(p, left, ran) && IsLeast(left, e) && e.due <= now
    ensures TakenOut(p, left - {e.id}, now)
    ensures RanSoFar(p, left - {e.id}, if !e.cancelled && e.runs then ran + [e.id] else ran)
  {
    forall i | 0 <= i < |ran| ensures IdLess(p, ran[i], e.id) {
      assert ran[i] in ran;
    }
  }

  lemma StaleOneMore(p: map<nat, Entry>, left: map<nat, Entry>, e: Event)
    requires OnlyStaleTaken(p, left) && IsLeast(left, e) && e.cancelled
    ensures OnlyStaleTaken(p, left - {e.id})
  {
  }

  lemma AllDueTaken(p: map<nat, Entry>, es: seq<Event>, left: map<nat, Entry>, now: int, ran: seq<nat>)
    requires HeapOrder(es) && DistinctIds(es) && Tracks(es, left)
    requires TakenOut(p, left, now) && RanSoFar(p, left, ran) && (|es| > 0 ==> es[0].due > now)
    ensures RunsExactly(p, now, ran) && left == map id | id in p && p[id].due > now :: p[id]
  {
    hide HeapOrder, DistinctIds, Tracks;
    NothingPending(es, left);
    if |es| > 0 {
      LeastPending(es, left);
    }
    assert forall id :: id in left ==> p[id].due > now;
  }

  lemma AllStaleTaken(p: map<nat, Entry>, es: seq<Event>, left: map<nat, Entry>, answer: Option<int>)
    requires HeapOrder(es) && DistinctIds(es) && Tracks(es, left)
    requires OnlyStaleTaken(p, left) && (|es| > 0 ==> !es[0].cancelled)
    requires answer == if |es| == 0 then None else Some(es[0].due)
    ensures IsNextDue(p, answer) && left == map id | id in p && !Stale(p, id) :: p[id]
  {
    hide HeapOrder, DistinctIds, Tracks;
    NothingPending(es, left);
    if |es| > 0 {
      LeastPending(es, left);
      assert es[0].id in left && es[0].id in p && !p[es[0].id].cancelled;
    }
    forall id | id in p ensures id in left <==> !Stale(p, id) {
      if id in left && |es| > 0 {
        assert es[0].id == id || IdLess(p, es[0].id, id);
      }
    }
  }

  // What the two loops did, told by the events of the heap before.
  lemma RanFromHeap(was: seq<Event>, es: seq<Event>, p: map<nat, Entry>, left: map<nat, Entry>, now: int, ran: seq<nat>)
    requires DistinctIds(was) && Tracks(was, p) && Tracks(es, left) && forall e :: e in es ==> e in was
    requires RunsExactly(p, now, ran) && left == map id | id in p && p[id].due > now :: p[id]
    ensures forall e :: e in es <==> e in was && e.due > now
    ensures forall id :: id in ran <==>
      exists e :: e in was && e.id == id && e.due <= now && !e.cancelled && e.runs
    ensures forall i, j, a, b | 0 <= i < j < |ran| && a in was && b in was && a.id == ran[i] && b.id == ran[j] ::
      a.due < b.due || (a.due == b.due && a.id < b.id)
  {
    forall e | e in was && e.due > now ensures e in es {
      StillHeld(was, es, left, e);
    }
    forall id | id in ran ensures exists e :: e in was && e.id == id && e.due <= now && !e.cancelled && e.runs {
      var e := HeldEvent(was, p, id);
    }
    forall i, j, a, b | 0 <= i < j < |ran| && a in was && b in was && a.id == ran[i] && b.id == ran[j]
      ensures a.due < b.due || (a.due == b.due && a.id < b.id) {
      assert IdLess(p, ran[i], ran[j]);
    }
  }

  lemma AskedOfHeap(was: seq<Event>, es: seq<Event>, p: map<nat, Entry>, left: map<nat, Entry>, answer: Option<int>)
    requires DistinctIds(was) && Tracks(was, p) && Tracks(es, left) && forall e :: e in es ==> e in was
    requires IsNextDue(p, answer) && left == map id | id in p && !Stale(p, id) :: p[id]
    ensures forall e :: e in was && !e.cancelled ==> e in es && answer.Some? && answer.value <= e.due
    ensures answer.Some? ==> exists e :: e in es && !e.cancelled && e.due == answer.value
  {
    forall e | e in was && !e.cancelled ensures e in es && answer.Some? && answer.value <= e.due {
      assert !Stale(p, e.id) && e.id in left;
      StillHeld(was, es, left, e);
    }
    if answer.Some? {
      var id :| id in p && !p[id].cancelled && p[id].due == answer.value;
      var e := HeldEvent(was, p, id);
    }
  }

  lemma HeldEvent(es: seq<Event>, pending: map<nat, Entry>, id: nat) returns (e: Event)
    requires Tracks(es, pending) && id in pending
    ensures e in es && e.id == id && pending[id] == Entry(e.due, e.runs, e.cancelled)
  {
    assert Holds(es, id);
    var i :| 0 <= i < |es| && es[i].id == id;
    e := es[i];
    assert e in es;
  }

  // An event whose entry is left is still in the heap.
  lemma StillHeld(was: seq<Event>, es: seq<Event>, left: map<nat, Entry>, e: Event)
    requires DistinctIds(was) && Tracks(es, left) && (forall f :: f in es ==> f in was)
    requires e in was && e.id in left
    ensures e in es
  {
    var f := HeldEvent(es, left, e.id);
    var i :| 0 <= i < |was| && was[i] == e;
    var j :| 0 <= j < |was| && was[j] == f;
  }

  lemma AppendedIn(was: seq<Event>, item: Event, es: seq<Event>)
    requires SameEvents(was + [item], es)
    ensures forall f :: f in es <==> f in was || f == item
  {
    assert item in was + [item];
    assert forall f :: f in was ==> f in was + [item];
  }

  // The root of the heap is the least pending event.
  lemma LeastPending(es: seq<Event>, pending: map<nat, Entry>)
    requires |es| > 0 && HeapOrder(es) && DistinctIds(es) && Tracks(es, pending)
    ensures IsLeast(pending, es[0])
  {
    assert es[0] in es;
    forall id | id in pending && id != es[0].id ensures IdLess(pending, es[0].id, id) {
      assert Holds(es, id);
      var i :| 0 <= i < |es| && es[i].id == id;
      assert es[i] in es;
      RootIsLeast(es, i);
    }
  }

  lemma NothingPending(es: seq<Event>, pending: map<nat, Entry>)
    requires Tracks(es, pending)
    ensures |es| == 0 ==> pending == map[]
  {
    if |es| == 0 {
      forall id ensures id !in pending {
        assert id in pending ==> Holds(es, id);
      }
    }
  }

  lemma TracksPopped(was: seq<Event>, es: seq<Event>, pending: map<nat, Entry>, item: Event)
    requires Tracks(was, pending) && SameEvents(was, [item] + es)
    ensures Tracks(es, pending - {item.id}) && DistinctIds(es)
    ensures |es| < |was| && forall i :: 0 <= i < |es| ==> es[i] in was
  {
    var r := [item] + es;
    forall i | 0 <= i < |es| ensures es[i] in was {
      assert es[i] == r[i + 1];
    }
    forall e | e in es
      ensures e.id in pending - {item.id} && pending[e.id] == Entry(e.due, e.runs, e.cancelled) && e in was {
      var i :| 0 <= i < |es| && es[i] == e;
      assert r[i + 1] in r && r[0].id != r[i + 1].id;
    }
    forall i, j | 0 <= i < j < |es| ensures es[i].id != es[j].id {
      assert r[i + 1].id != r[j + 1].id;
    }
    forall id | id in pending - {item.id} ensures Holds(es, id) {
      assert Holds(was, id);
      var i :| 0 <= i < |was| && was[i].id == id;
      assert was[i] in r;
      var j :| 0 <= j < |r| && r[j] == was[i];
      assert es[j - 1].id == id;
    }
  }

  lemma AppendedHeap(es: seq<Event>, item: Event)
    requires HeapOrder(es) && DistinctIds(es + [item])
    ensures HeapButUp(es + [item], |es|)
    ensures forall i :: 0 <= i < |es| ==> es[i] != item
  {
    var r := es + [item];
    forall i | 0 < i < |r| && i != |es| ensures Ordered(r, i) {
      assert Ordered(es, i);
    }
    forall i | 0 <= i < |es| ensures es[i] != item {
      assert r[i].id != r[|es|].id;
    }
  }

  lemma FreshId(es: seq<Event>, pending: map<nat, Entry>, id: nat, item: Event)
    requires DistinctIds(es) && Tracks(es, pending) && item.id == id && id !in pending
    ensures DistinctIds(es + [item])
  {
    forall i | 0 <= i < |es| ensures es[i].id != id {
      assert es[i] in es;
    }
  }

  lemma TracksAdded(was: seq<Event>, es: seq<Event>, pending: map<nat, Entry>, item: Event)
    requires Tracks(was, pending) && SameEvents(was + [item], es) && item.id !in pending
    ensures Tracks(es, pending[item.id := Entry(item.due, item.runs, item.cancelled)])
  {
    var p := pending[item.id := Entry(item.due, item.runs, item.cancelled)];
    forall e | e in es ensures e.id in p && p[e.id] == Entry(e.due, e.runs, e.cancelled) {
      assert e in was + [item];
    }
    forall id | id in p ensures Holds(es, id) {
      if id != item.id {
        assert Holds(was, id);
        var i :| 0 <= i < |was| && was[i].id == id;
        assert (was + [item])[i] in es;
      } else {
        assert (was + [item])[|was|] in es;
      }
    }
  }

  lemma LastToRoot(es: seq<Event>)
    requires |es| > 0 && HeapOrder(es)
    ensures HeapButDown(Swapped(es, 0, |es| - 1), |es| - 1, 0)
  {
    var r := Swapped(es, 0, |es| - 1);
    forall i | 0 < i < |es| - 1 && Parent(i) != 0 ensures Ordered(r, i) {
      assert Ordered(es, i);
    }
  }

  lemma PoppedSame(es: seq<Event>, r: seq<Event>, n: nat)
    requires n + 1 == |es| == |r| && DistinctIds(es) && SameEvents(Swapped(es, 0, n), r) && r[n] == es[0]
    ensures SameEvents(es, [r[n]] + r[..n])
  {
    SwappedSame(es, 0, n);
    var q := [r[n]] + r[..n];
    forall e | e in es ensures e in q {
      assert e in Swapped(es, 0, n) && e in r;
      var k :| 0 <= k < |r| && r[k] == e;
      assert q[if k == n then 0 else k + 1] == e;
    }
  }

  lemma SameRefl(es: seq<Event>)
    requires DistinctIds(es)
    ensures SameEvents(es, es)
  {
  }

  lemma SameIds(a: seq<Event>, b: seq<Event>)
    requires SameEvents(a, b)
    ensures forall e | e in b :: e in a
  {
  }

  // The chosen child is the least one.
  lemma LeastChild(es: seq<Event>, n: nat, i: nat, j: nat)
    requires 2 * i + 1 < n <= |es|
    requires j == if 2 * i + 2 < n && Less(es[2 * i + 2], es[2 * i + 1]) then 2 * i + 2 else 2 * i + 1
    ensures forall c :: 0 < c < n && Parent(c) == i ==> !Less(es[c], es[j])
  {
    forall c | 0 < c < n && Parent(c) == i ensures !Less(es[c], es[j]) {
      assert c == 2 * i + 1 || c == 2 * i + 2;
    }
  }

  // Nothing more to sift: i has no child below n, or none smaller than itself.
  lemma DownDone(es: seq<Event>, n: nat, i: nat, j: nat)
    requires n <= |es| && HeapButDown(es, n, i)
    requires 2 * i + 1 < n ==>
               && j == (if 2 * i + 2 < n && Less(es[2 * i + 2], es[2 * i + 1]) then 2 * i + 2 else 2 * i + 1)
               && !Less(es[j], es[i])
    ensures HeapOrder(es[..n])
  {
    if 2 * i + 1 < n {
      LeastChild(es, n, i, j);
    }
    forall c | 0 < c < n ensures Ordered(es[..n], c) {
      if Parent(c) != i {
        assert Ordered(es, c);
      } else {
        assert !Less(es[c], es[j]) && !Less(es[j], es[i]);
      }
    }
  }

  lemma SwappedPrefix(was: seq<Event>, es: seq<Event>, n: nat, i: nat, j: nat)
    requires i < n && j < n && n <= |es| == |was| && SameEvents(was, es)
    requires SameEvents(was[..n], es[..n]) && es[n..] == was[n..]
    ensures var r := Swapped(es, i, j);
            SameEvents(was, r) && SameEvents(was[..n], r[..n]) && r[n..] == was[n..]
  {
    SwappedSame(es, i, j);
    SwappedSame(es[..n], i, j);
    assert Swapped(es, i, j)[..n] == Swapped(es[..n], i, j);
  }
}
