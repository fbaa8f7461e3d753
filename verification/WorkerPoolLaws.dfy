// What the calls, the workers and the closers of the pool do when nothing is in
// their way, and what stops them, from any state.
module WorkerPoolLaws {
  import opened WorkerPool
  import opened Wrappers

  // A new pool has a worker for every one that was asked for, at least one, and
  // room for as many tasks as were asked for, at least one for every worker.
  lemma FreshExactly(workers: int, queue: int)
    ensures var s := Fresh(workers, queue);
      && |s.workers| >= 1 && (workers >= 1 ==> |s.workers| == workers) && (workers < 1 ==> |s.workers| == 1)
      && (forall w :: 0 <= w < |s.workers| ==> s.workers[w] == Idle)
      && s.capacity >= |s.workers| && (queue >= |s.workers| ==> s.capacity == queue)
      && (queue < |s.workers| ==> s.capacity == |s.workers|)
      && s.queue == [] && !s.closed && !s.queueClosed && !s.parentDone && !s.ctxDone
      && s.readers == {} && s.writer == None && s.callers == map[] && s.closers == map[]
  {
  }

  // On an open pool with room the task goes to the end of the queue and Submit
  // accepts it; its result is left to the worker.
  lemma CallIsQueued(s: State, c: nat)
    requires c !in s.callers && c !in s.readers && s.writer == None && !s.closed && !s.queueClosed
    requires |s.queue| < s.capacity
    ensures var s' := Take(Take(Take(Take(s, Call(c, true)), Call(c, true)), Call(c, true)), Call(c, true));
      && c in s'.callers && s'.callers[c] == Returned(true) && s'.queue == s.queue + [c]
      && s'.readers == s.readers && s'.writer == None && s'.results == s.results && s'.panicked == s.panicked
      && Take(s', Call(c, true)) == s'
  {
    var s1 := Take(s, Call(c, true));
    var s2 := Take(s1, Call(c, true));
    var s3 := Take(s2, Call(c, true));
    assert s1.callers[c] == ReadLocked && s2.callers[c] == Selecting && s3.callers[c] == Releasing(true);
    assert s.readers + {c} - {c} == s.readers;
  }

  // On a closed pool the call is refused, and its one result is the caller's own.
  lemma CallIsRefused(s: State, c: nat, v: bool)
    requires c !in s.callers && c !in s.readers && c !in s.results && s.writer == None && s.closed
    ensures var s' := Take(Take(Take(Take(s, Call(c, v)), Call(c, v)), Call(c, v)), Call(c, v));
      && c in s'.callers && s'.callers[c] == Answered && c in s'.results && s'.results[c] == 1
      && s'.queue == s.queue && s'.readers == s.readers
  {
    var s1 := Take(s, Call(c, v));
    var s2 := Take(s1, Call(c, v));
    var s3 := Take(s2, Call(c, v));
    assert s1.callers[c] == ReadLocked && s2.callers[c] == Releasing(false) && s3.callers[c] == Returned(false);
    assert s.readers + {c} - {c} == s.readers;
  }

  // A call waits for the write lock; with the lock, on an open pool, it waits for
  // room in the queue or the end of the context, which refuses it.
  lemma CallWaits(s: State, c: nat, v: bool)
    ensures c !in s.callers && s.writer.Some? ==> Take(s, Call(c, v)) == s
    ensures c in s.callers && s.callers[c] == Selecting && !s.queueClosed && |s.queue| >= s.capacity && !s.ctxDone ==>
      Take(s, Call(c, v)) == s
    ensures c in s.callers && s.callers[c] == Selecting && s.ctxDone ==>
      var s' := Take(s, Call(c, false));
      c in s'.callers && s'.callers[c] == Releasing(false) && s'.queue == s.queue && s'.results == s.results
  {
  }

  // An idle worker takes the task that has waited longest, runs it and delivers
  // its result; then it is idle again.
  lemma WorkerServes(s: State, w: nat)
    requires w < |s.workers| && s.workers[w] == Idle && |s.queue| > 0
    ensures var c := s.queue[0];
      var s' := Take(Take(s, Work(w, true)), Work(w, true));
      && s'.queue == s.queue[1..] && s'.workers == s.workers
      && c in s'.results && s'.results[c] == (if c in s.results then s.results[c] else 0) + 1
      && (forall d: nat :: d != c ==> (d in s'.results <==> d in s.results))
      && (forall d: nat :: d != c && d in s.results ==> s'.results[d] == s.results[d])
      && s'.callers == s.callers && s'.closers == s.closers
  {
    var c := s.queue[0];
    var s1 := Take(s, Work(w, true));
    assert s1.workers[w] == Running(c) && s1.queue == s.queue[1..];
    assert s.workers[w := Running(c)][w := Idle] == s.workers;
  }

  // It leaves when the queue is closed and empty, or when the context has ended;
  // before that it waits.
  lemma WorkerLeavesExactly(s: State, w: nat, v: bool)
    requires w < |s.workers| && s.workers[w] == Idle && (v ==> s.queue == [])
    ensures Take(s, Work(w, v)) ==
      if (v && s.queueClosed) || (!v && s.ctxDone) then s.(workers := s.workers[w := Exited]) else s
  {
  }

  // The first Close marks the pool closed, then closes the queue, and waits; one
  // that finds the pool closed only waits. When the workers have left, both end.
  lemma CloseGoesThrough(s: State, k: nat)
    requires k !in s.closers && s.writer == None && s.readers == {} && (s.closed <==> s.queueClosed)
    ensures var s3 := Take(Take(Take(s, Close(k)), Close(k)), Close(k));
      var s' := if s.closed then s3 else Take(s3, Close(k));
      && s'.closed && s'.queueClosed && s'.writer == None && k in s'.closers && s'.closers[k] == Waiting
      && s'.panicked == s.panicked && s'.queue == s.queue && s'.workers == s.workers && s'.ctxDone == s.ctxDone
  {
    var s1 := Take(s, Close(k));
    var s2 := Take(s1, Close(k));
    assert s1.closers[k] == WriteLocked && s1.writer == Some(k);
    if s.closed {
      assert s2.closers[k] == Unlocking;
    } else {
      assert s2.closers[k] == ClosedSet && s2.closed && !s2.queueClosed;
    }
  }

  lemma CloseEnds(s: State, k: nat)
    requires k in s.closers && s.closers[k] == Waiting
    ensures (exists w :: 0 <= w < |s.workers| && s.workers[w] != Exited) ==> Take(s, Close(k)) == s
    ensures (forall w :: 0 <= w < |s.workers| ==> s.workers[w] == Exited) ==>
      var s' := Take(Take(s, Close(k)), Close(k));
      s'.ctxDone && k in s'.closers && s'.closers[k] == Finished && Take(s', Close(k)) == s'
  {
    if forall w :: 0 <= w < |s.workers| ==> s.workers[w] == Exited {
      assert Take(s, Close(k)).closers[k] == Cancelling;
    }
  }

  // A Close waits for every reader and for another Close to give the lock back.
  lemma CloseWaits(s: State, k: nat)
    requires k !in s.closers && (s.writer.Some? || s.readers != {})
    ensures Take(s, Close(k)) == s
  {
  }
}
