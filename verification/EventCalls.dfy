// The calls of RunDue: it takes out everything due under the lock, unlocks, and
// only then calls the functions, which may use the queue themselves, and run
// beside other users of it. Taking out and every single call are steps of
// their own here, interleaved with all operations in any way.
module EventCalls {
  import opened EventQueue

  // The table; for every RunDue that has unlocked, the ids of the functions it
  // has still to call, in order; and the ids of the functions called so far.
  datatype World = World(queue: State, ready: seq<seq<nat>>, called: seq<nat>)

  const Start := World(Empty, [], [])

  datatype Move =
    | Operates(step: Step)
    | Takes(now: int, ran: seq<nat>)
    | Calls(worker: nat)

  ghost predicate Can(s: World, move: Move, s': World) {
    match move
    case Operates(step) =>
      !step.RanDue? && Next(s.queue, step, s'.queue) && s'.ready == s.ready && s'.called == s.called
    case Takes(now, ran) =>
      Next(s.queue, RanDue(now, ran), s'.queue) && s'.ready == s.ready + [ran] && s'.called == s.called
    case Calls(w) =>
      w < |s.ready| && |s.ready[w]| > 0 && s' == Later(s, w, 1)
  }

  // The next n functions of one RunDue are called.
  function Later(s: World, w: nat, n: nat): World
    requires w < |s.ready| && n <= |s.ready[w]|
  {
    World(s.queue, s.ready[w := s.ready[w][n..]], s.called + s.ready[w][..n])
  }

  ghost predicate IsPath(states: seq<World>, moves: seq<Move>, s: World) {
    && |states| == |moves| + 1
    && states[0] == s
    && forall i :: 0 <= i < |moves| ==> Can(states[i], moves[i], states[i + 1])
  }

  // Taken out, and not called yet.
  ghost predicate Waits(s: World, id: nat) {
    exists w :: 0 <= w < |s.ready| && id in s.ready[w]
  }

  ghost predicate Out(q: State, id: nat) { 1 <= id <= q.next && id !in q.pending }

  ghost predicate Distinct(ids: seq<nat>) {
    forall i, j :: 0 <= i < j < |ids| ==> ids[i] != ids[j]
  }

  // Every function is taken out once: it waits in one place or was called.
  ghost predicate Inv(s: World) {
    && IdsBounded(s.queue)
    && Distinct(s.called)
    && (forall id :: id in s.called ==> Out(s.queue, id))
    && (forall w :: 0 <= w < |s.ready| ==> Distinct(s.ready[w]))
    && (forall w, id :: 0 <= w < |s.ready| && id in s.ready[w] ==> Out(s.queue, id) && id !in s.called)
    && (forall v, w, id :: 0 <= v < w < |s.ready| && id in s.ready[v] ==> id !in s.ready[w])
  }

  lemma OutStaysOut(q: State, step: Step, q': State)
    requires IdsBounded(q) && Next(q, step, q')
    ensures IdsBounded(q') && forall id :: Out(q, id) ==> Out(q', id)
  {
  }

  lemma MoveKeepsInv(s: World, move: Move, s': World)
    requires Inv(s) && Can(s, move, s')
    ensures Inv(s')
  {
    match move
    case Operates(step) =>
      OutStaysOut(s.queue, step, s'.queue);
    case Takes(now, ran) =>
      TakeKeepsInv(s, now, ran, s');
    case Calls(w) =>
      CallKeepsInv(s, w);
  }

  lemma TakeKeepsInv(s: World, now: int, ran: seq<nat>, s': World)
    requires Inv(s) && Can(s, Takes(now, ran), s')
    ensures Inv(s')
  {
    OutStaysOut(s.queue, RanDue(now, ran), s'.queue);
    RanIsDistinct(s.queue.pending, now, ran);
    forall id | id in ran ensures id in s.queue.pending && Out(s'.queue, id) && id !in s.called {
      assert !Out(s.queue, id);
    }
    forall v, id | 0 <= v < |s.ready| && id in s.ready[v] ensures id !in ran {
      assert Out(s.queue, id);
    }
  }

  lemma CallKeepsInv(s: World, w: nat)
    requires Inv(s) && w < |s.ready| && |s.ready[w]| > 0
    ensures Inv(Later(s, w, 1))
  {
    hide Out, IdsBounded;
    var s' := Later(s, w, 1);
    var id, rest := s.ready[w][0], s.ready[w][1..];
    assert s.ready[w] == [id] + rest && s'.called == s.called + [id];
    assert id in s.ready[w] && id !in s.called && id !in rest;
    forall x, i | 0 <= x < |s'.ready| && i in s'.ready[x] ensures i in s.ready[x] && i != id {
      if x == w {
        assert i in rest;
      }
    }
    assert Distinct(rest) by {
      forall i, j | 0 <= i < j < |rest| ensures rest[i] != rest[j] {
        assert rest[i] == s.ready[w][i + 1] && rest[j] == s.ready[w][j + 1];
      }
    }
    assert Distinct(s'.called);
    assert forall x :: x in s'.called <==> x in s.called || x == id;
  }

  lemma {:induction false} PathKeepsInv(states: seq<World>, moves: seq<Move>, s: World, i: nat)
    requires IsPath(states, moves, s) && Inv(s) && i < |states|
    ensures Inv(states[i])
  {
    hide Inv, Can;
    if i > 0 {
      PathKeepsInv(states, moves, s, i - 1);
      MoveKeepsInv(states[i - 1], moves[i - 1], states[i]);
    }
  }

  // In every run, in every interleaving, no function is called twice.
  lemma CalledAtMostOnce(states: seq<World>, moves: seq<Move>)
    requires IsPath(states, moves, Start)
    ensures forall i, j, called :: called == states[|moves|].called && 0 <= i < j < |called| ==> called[i] != called[j]
  {
    PathKeepsInv(states, moves, Start, |moves|);
  }

  // An event that is over and does not wait is not called any more.
  lemma {:induction false} OverIsNotCalled(states: seq<World>, moves: seq<Move>, s: World, id: nat, i: nat)
    requires IsPath(states, moves, s) && i < |states|
    requires Over(s.queue, id) && !Waits(s, id)
    ensures Over(states[i].queue, id) && !Waits(states[i], id) && (id in states[i].called <==> id in s.called)
  {
    if i > 0 {
      OverIsNotCalled(states, moves, s, id, i - 1);
      assert Can(states[i - 1], moves[i - 1], states[i]);
      OverMove(states[i - 1], moves[i - 1], states[i], id);
    }
  }

  lemma OverMove(s: World, move: Move, s': World, id: nat)
    requires Can(s, move, s') && Over(s.queue, id) && !Waits(s, id)
    ensures Over(s'.queue, id) && !Waits(s', id) && (id in s'.called <==> id in s.called)
  {
    match move
    case Operates(step) =>
    case Takes(now, ran) =>
      assert id !in ran;
    case Calls(w) =>
      assert id !in s.ready[w];
  }

  // The functions of one RunDue up to any of them can be called.
  lemma WaitingCanBeCalled(s: World, w: nat, k: nat) returns (states: seq<World>, moves: seq<Move>)
    requires w < |s.ready| && k < |s.ready[w]|
    ensures IsPath(states, moves, s) && states[|moves|].called == s.called + s.ready[w][..k + 1]
  {
    states := seq(k + 2, i requires 0 <= i < k + 2 => Later(s, w, i));
    moves := seq(k + 1, _ => Calls(w));
    assert Later(s, w, 0) == s by {
      assert s.ready[w := s.ready[w]] == s.ready;
    }
    forall i | 0 <= i < k + 1 ensures Can(states[i], moves[i], states[i + 1]) {
      CallsOneMore(s, w, i);
    }
  }

  lemma CallsOneMore(s: World, w: nat, n: nat)
    requires w < |s.ready| && n < |s.ready[w]|
    ensures Can(Later(s, w, n), Calls(w), Later(s, w, n + 1))
  {
    var d := s.ready[w];
    assert d[n..][1..] == d[n + 1..] && d[..n] + d[n..][..1] == d[..n + 1];
    assert s.ready[w := d[n..]][w := d[n + 1..]] == s.ready[w := d[n + 1..]];
  }

  ghost predicate CalledLater(s: World, id: nat) {
    id !in s.called &&
    exists states: seq<World>, moves: seq<Move> :: IsPath(states, moves, s) && id in states[|moves|].called
  }

  // After Cancel of an id that was handed out, whatever it answers, the event is
  // called exactly in the runs that had taken it out before: it can be called
  // if and only if it waits. When Cancel answers true, it is never called.
  lemma CancelStopsUnlessTaken(s: World, id: nat, done: bool, s': World)
    requires Inv(s) && 1 <= id <= s.queue.next && Can(s, Operates(Cancelled(id, done)), s')
    ensures CalledLater(s', id) <==> Waits(s, id)
    ensures done ==> id !in s.called && !CalledLater(s', id)
  {
    if Waits(s, id) {
      var w :| 0 <= w < |s.ready| && id in s.ready[w];
      var k :| 0 <= k < |s.ready[w]| && s.ready[w][k] == id;
      var states, moves := WaitingCanBeCalled(s', w, k);
      assert s.ready[w][..k + 1][k] == id;
    } else {
      forall states: seq<World>, moves: seq<Move> | IsPath(states, moves, s') && id !in s'.called
        ensures id !in states[|moves|].called {
        OverIsNotCalled(states, moves, s', id, |moves|);
      }
    }
  }

  // Cancel answers false for an event that was taken out, and the event runs.
  lemma CancelCanBeTooLate()
    ensures exists states: seq<World>, moves: seq<Move> ::
              && IsPath(states, moves, Start) && |moves| == 4
              && moves[2] == Operates(Cancelled(1, false)) && 1 !in states[3].called && 1 in states[4].called
  {
    var q := State(1, map[1 := Entry(0, true, false)]);
    var q' := State(1, map[]);
    var states := [Start, World(q, [], []), World(q', [[1]], []), World(q', [[1]], []), World(q', [[]], [1])];
    var moves := [Operates(Added(0, true, 1)), Takes(0, [1]), Operates(Cancelled(1, false)), Calls(0)];
    assert RunsExactly(q.pending, 0, [1]);
    assert q.pending.Keys == {1} && q.pending[1].due == 0;
    assert Can(states[0], moves[0], states[1]) && Can(states[1], moves[1], states[2]);
    var one: seq<nat> := [1];
    assert one[1..] == [] && [] + one[..1] == one && states[3].ready[0 := []] == [[]];
    assert Can(states[2], moves[2], states[3]) && Can(states[3], moves[3], states[4]);
    assert IsPath(states, moves, Start);
  }
}
