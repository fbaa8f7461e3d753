// The worker pool cannot get stuck: from every state of every run, without
// cancelling the parent context, every Close can be brought to its end.
module WorkerPoolProgress {
  import opened WorkerPool
  import opened Wrappers

  // ---------------------------------------------------------------------
  // Two more facts of every run

  // The queue holds no more than it can.
  predicate Room(s: State) { s.capacity > 0 && |s.queue| <= s.capacity }

  // When the flag is set the queue is closed, or the writer is about to close it.
  predicate QueueFollows(s: State) {
    s.closed ==> s.queueClosed || (s.writer.Some? && CloserOf(s, s.writer.value) == ClosedSet)
  }

  ghost predicate Good(s: State) { Inv(s) && Room(s) && QueueFollows(s) }

  lemma TakeKeepsInv(s: State, step: Step)
    requires Inv(s)
    ensures Inv(Take(s, step))
  {
    hide Inv;
    match step
    case Call(c, viaQueue) => CallKeepsInv(s, c, viaQueue);
    case Close(k) => CloseKeepsInv(s, k);
    case Work(w, viaQueue) => WorkKeepsInv(s, w, viaQueue);
    case CancelParent => CancelKeepsInv(s);
  }

  lemma CloseKeepsFollowing(s: State, k: nat, pc: Closer)
    requires Good(s) && CloserOf(s, k) == pc
    ensures QueueFollows(CloseStep(s, k))
  {
    WriterListed(s.callers, s.closers, s.readers, s.writer, k);
    hide Inv, Room, CloserIn, PutCloser, AllExited;
    if pc.NotClosing? || pc.WriteLocked? {
      LockKeepsFollowing(s, k);
      return;
    }
    if pc.ClosedSet? { return; }
    if pc.Unlocking? { return; }
    if pc.Waiting? { return; }
  }

  lemma LockKeepsFollowing(s: State, k: nat)
    requires QueueFollows(s) && (s.writer == Some(k) <==> Writing(CloserOf(s, k)))
    requires CloserOf(s, k).NotClosing? || CloserOf(s, k).WriteLocked?
    ensures QueueFollows(CloseStep(s, k))
  {
    hide CloserIn, PutCloser, AllExited;
    if CloserOf(s, k).NotClosing? { return; }
  }

  lemma TakeKeepsGood(s: State, step: Step)
    requires Good(s)
    ensures Good(Take(s, step))
  {
    TakeKeepsInv(s, step);
    hide Inv, CallStep, CloseStep, WorkStep;
    match step
    case Close(k) => CloseKeepsFollowing(s, k, CloserOf(s, k));
    case Call(c, viaQueue) =>
    case Work(w, viaQueue) =>
    case CancelParent =>
  }

  lemma {:induction false} RunIsGood(workers: int, queue: int, steps: seq<Step>)
    ensures Good(Run(Fresh(workers, queue), steps))
  {
    hide Inv, Take;
    if |steps| == 0 {
      FreshInv(workers, queue);
    } else {
      RunIsGood(workers, queue, steps[..|steps| - 1]);
      TakeKeepsGood(Run(Fresh(workers, queue), steps[..|steps| - 1]), steps[|steps| - 1]);
    }
  }

  // ---------------------------------------------------------------------
  // What can be reached without cancelling the parent context

  predicate Uncancelled(steps: seq<Step>) { forall i :: 0 <= i < |steps| ==> steps[i] != CancelParent }

  predicate Leads(s: State, steps: seq<Step>, s': State) { Uncancelled(steps) && Run(s, steps) == s' }

  lemma {:induction false} RunJoin(s: State, a: seq<Step>, b: seq<Step>)
    ensures Run(s, a + b) == Run(Run(s, a), b)
  {
    hide Take;
    if |b| == 0 {
      assert a + b == a;
    } else {
      var n := |b| - 1;
      RunJoin(s, a, b[..n]);
      assert (a + b)[..|a + b| - 1] == a + b[..n];
    }
  }

  lemma LeadsOn(s: State, a: seq<Step>, s1: State, b: seq<Step>, s2: State)
    requires Leads(s, a, s1) && Leads(s1, b, s2)
    ensures Leads(s, a + b, s2)
  {
    hide Run;
    RunJoin(s, a, b);
  }

  lemma LeadsNowhere(s: State)
    ensures Leads(s, [], s)
  {
  }

  lemma Go(s: State, step: Step) returns (steps: seq<Step>, s': State)
    requires Good(s) && step != CancelParent
    ensures s' == Take(s, step) && Leads(s, steps, s') && Good(s')
  {
    hide Take, Good, Inv;
    steps, s' := [step], Take(s, step);
    TakeKeepsGood(s, step);
    assert [step][..0] == [] && Run(s, []) == s;
  }

  // One more step after others.
  lemma GoOn(s: State, before: seq<Step>, s1: State, step: Step) returns (steps: seq<Step>, s': State)
    requires Leads(s, before, s1) && Good(s1) && step != CancelParent
    ensures s' == Take(s1, step) && Leads(s, steps, s') && Good(s')
  {
    hide Take, Good, Leads;
    var one;
    one, s' := Go(s1, step);
    steps := before + one;
    LeadsOn(s, before, s1, one, s');
  }

  // ---------------------------------------------------------------------
  // Readers leave

  // Some worker is left to take from a full queue, or the context has ended.
  lemma MakeRoom(s: State, c: nat) returns (steps: seq<Step>, s': State)
    requires Good(s) && CallerOf(s, c) == Selecting
    ensures Leads(s, steps, s') && Good(s')
    ensures s'.callers == s.callers && s'.closers == s.closers && s'.readers == s.readers && s'.writer == s.writer
    ensures |s'.queue| < s'.capacity || s'.ctxDone
  {
    hide Leads, LockOk, CloseOk, TasksOk, ResultsOk, CallerIn, CloserIn, PutPlace, PutCount;
    LeadsNowhere(s);
    steps, s' := [], s;
    if |s.queue| == s.capacity && !s.ctxDone {
      CloseFacts(s.callers, s.closers, s.closed, s.queueClosed, c, 0);
      SomeWorkerLeft(s);
      var w :| 0 <= w < |s.workers| && s.workers[w] != Exited;
      if s.workers[w].Running? {
        steps, s' := Go(s, Work(w, true));
      }
      assert s'.workers[w] == Idle && s'.queue == s.queue;
      steps, s' := GoOn(s, steps, s', Work(w, true));
    }
  }

  lemma SomeWorkerLeft(s: State)
    requires Inv(s) && !s.ctxDone && !s.queueClosed
    ensures exists w :: 0 <= w < |s.workers| && s.workers[w] != Exited
  {
    hide LockOk, CloseOk, TasksOk, ResultsOk;
    assert s.workers[0] != Exited;
  }

  function ToRelease(pc: Caller): nat {
    if pc.ReadLocked? then 3 else if pc.Selecting? then 2 else if pc.Releasing? then 1 else 0
  }

  lemma {:induction false} ReaderLeaves(s: State, c: nat) returns (steps: seq<Step>, s': State)
    requires Good(s) && c in s.readers
    ensures Leads(s, steps, s') && Good(s')
    ensures s'.readers == s.readers - {c} && s'.closers == s.closers && s'.writer == s.writer
    decreases ToRelease(CallerOf(s, c))
  {
    hide Leads, Good, CallStep, CallerIn;
    ReaderRank(s, c);
    var more;
    if CallerOf(s, c).Releasing? {
      ReaderMoves(s, c, true);
      steps, s' := Go(s, Call(c, true));
    } else if CallerOf(s, c).ReadLocked? {
      ReaderMoves(s, c, true);
      var s1;
      steps, s1 := Go(s, Call(c, true));
      more, s' := ReaderLeaves(s1, c);
      LeadsOn(s, steps, s1, more, s');
      steps := steps + more;
    } else {
      var s1, s2;
      steps, s1 := MakeRoom(s, c);
      assert CallerOf(s1, c) == CallerOf(s, c);
      ReaderMoves(s1, c, |s1.queue| < s1.capacity);
      steps, s2 := GoOn(s, steps, s1, Call(c, |s1.queue| < s1.capacity));
      more, s' := ReaderLeaves(s2, c);
      LeadsOn(s, steps, s2, more, s');
      steps := steps + more;
    }
  }

  lemma ReaderRank(s: State, c: nat)
    requires Good(s) && c in s.readers
    ensures CallerOf(s, c).Releasing? || CallerOf(s, c).ReadLocked? || CallerOf(s, c) == Selecting
  {
    hide CloseOk, TasksOk, ResultsOk, ExitOk, CallerIn;
    ReaderListed(s.callers, s.closers, s.readers, s.writer, c);
  }

  // One step brings a reader nearer to its release, and releasing ends it.
  lemma ReaderMoves(s: State, c: nat, viaQueue: bool)
    requires Good(s) && c in s.readers
    requires CallerOf(s, c) == Selecting ==> if viaQueue then |s.queue| < s.capacity else s.ctxDone
    ensures var s' := CallStep(s, c, viaQueue);
      && s'.closers == s.closers && s'.writer == s.writer
      && ToRelease(CallerOf(s', c)) < ToRelease(CallerOf(s, c))
      && s'.readers == if CallerOf(s, c).Releasing? then s.readers - {c} else s.readers
  {
    ReaderRank(s, c);
    CloseFacts(s.callers, s.closers, s.closed, s.queueClosed, c, 0);
    hide Good, Inv, CallerIn, PutCaller, PutPlace, PutCount;
    if CallerOf(s, c).Releasing? {
    } else if CallerOf(s, c).ReadLocked? {
    } else {
      assert CallerOf(s, c) == Selecting;
    }
  }

  lemma {:induction false} ReadersLeave(s: State) returns (steps: seq<Step>, s': State)
    requires Good(s)
    ensures Leads(s, steps, s') && Good(s') && s'.readers == {} && s'.closers == s.closers && s'.writer == s.writer
    decreases |s.readers|
  {
    hide Leads, Good;
    LeadsNowhere(s);
    steps, s' := [], s;
    if s.readers != {} {
      var c :| c in s.readers;
      var s1, more;
      steps, s1 := ReaderLeaves(s, c);
      more, s' := ReadersLeave(s1);
      LeadsOn(s, steps, s1, more, s');
      steps := steps + more;
    }
  }

  // ---------------------------------------------------------------------
  // The writer leaves

  function ToUnlock(pc: Closer): nat {
    if pc.WriteLocked? then 3 else if pc.ClosedSet? then 2 else if pc.Unlocking? then 1 else 0
  }

  lemma {:induction false} WriterLeaves(s: State, k: nat) returns (steps: seq<Step>, s': State)
    requires Good(s) && s.writer == Some(k)
    ensures Leads(s, steps, s') && Good(s') && s'.writer == None && s'.queueClosed && CloserOf(s', k) == Waiting
    ensures forall j: nat :: j != k ==> CloserOf(s', j) == CloserOf(s, j)
    decreases ToUnlock(CloserOf(s, k))
  {
    hide Leads, LockOk, CloseOk, TasksOk, ResultsOk, ExitOk, CloserIn, PutCloser;
    WriterListed(s.callers, s.closers, s.readers, s.writer, k);
    CloseFacts(s.callers, s.closers, s.closed, s.queueClosed, 0, k);
    steps, s' := Go(s, Close(k));
    if !CloserOf(s, k).Unlocking? {
      var s1 := s';
      var more;
      more, s' := WriterLeaves(s1, k);
      LeadsOn(s, steps, s1, more, s');
      steps := steps + more;
    }
  }

  // ---------------------------------------------------------------------
  // The workers leave

  function ToExit(workers: seq<Worker>): nat {
    if |workers| == 0 then 0
    else ToExit(workers[..|workers| - 1])
         + match workers[|workers| - 1] case Exited => 0 case Idle => 1 case Running(_) => 2
  }

  lemma {:induction false} ToExitPut(workers: seq<Worker>, w: nat, pc: Worker)
    requires w < |workers|
    ensures ToExit(workers[w := pc]) - ToExit(workers)
         == (match pc case Exited => 0 case Idle => 1 case Running(_) => 2)
            - (match workers[w] case Exited => 0 case Idle => 1 case Running(_) => 2)
  {
    var n := |workers| - 1;
    if w == n {
      assert workers[w := pc][..n] == workers[..n];
    } else {
      assert workers[w := pc][..n] == workers[..n][w := pc];
      ToExitPut(workers[..n], w, pc);
    }
  }

  lemma {:induction false} WorkersLeave(s: State) returns (steps: seq<Step>, s': State)
    requires Good(s) && s.queueClosed
    ensures Leads(s, steps, s') && Good(s') && AllExited(s'.workers) && s'.closers == s.closers && s'.writer == s.writer
    decreases 3 * |s.queue| + ToExit(s.workers)
  {
    hide Leads, Good, ToExit, WorkStep;
    LeadsNowhere(s);
    steps, s' := [], s;
    if w :| 0 <= w < |s.workers| && s.workers[w] != Exited {
      WorkerMoves(s, w);
      var s1, more;
      steps, s1 := Go(s, Work(w, true));
      more, s' := WorkersLeave(s1);
      LeadsOn(s, steps, s1, more, s');
      steps := steps + more;
    }
  }

  // With the queue closed, a worker that has not left has something to do.
  lemma WorkerMoves(s: State, w: nat)
    requires s.queueClosed && w < |s.workers| && s.workers[w] != Exited
    ensures var s' := WorkStep(s, w, true);
      3 * |s'.queue| + ToExit(s'.workers) < 3 * |s.queue| + ToExit(s.workers)
  {
    hide ToExit, IdleStep, RunStep;
    match s.workers[w]
    case Running(task) => RunnerMoves(s, w, task);
    case Idle => IdlerMoves(s, w);
  }

  lemma RunnerMoves(s: State, w: nat, task: nat)
    requires w < |s.workers| && s.workers[w] == Running(task)
    ensures ToExit(RunStep(s, w, task).workers) < ToExit(s.workers)
  {
    hide ToExit, PutPlace, PutCount;
    ToExitPut(s.workers, w, Idle);
  }

  lemma IdlerMoves(s: State, w: nat)
    requires s.queueClosed && w < |s.workers| && s.workers[w] == Idle
    ensures var s' := IdleStep(s, w, true);
      3 * |s'.queue| + ToExit(s'.workers) < 3 * |s.queue| + ToExit(s.workers)
  {
    hide ToExit, PutPlace, PutCount;
    if |s.queue| > 0 {
      ToExitPut(s.workers, w, Running(s.queue[0]));
    } else {
      ToExitPut(s.workers, w, Exited);
    }
  }

  // ---------------------------------------------------------------------
  // Close ends

  // Close k has at least released the lock and waits for the workers.
  lemma LockIsReleased(s: State, k: nat) returns (steps: seq<Step>, s': State)
    requires Good(s)
    ensures Leads(s, steps, s') && Good(s') && s'.writer == None
    ensures PastClosing(CloserOf(s', k)) && !CloserOf(s', k).Unlocking?
  {
    hide Leads, LockOk, CloseOk, TasksOk, ResultsOk, ExitOk, CloserIn, PutCloser;
    LeadsNowhere(s);
    steps, s' := [], s;
    if s.writer.Some? {
      WriterListed(s.callers, s.closers, s.readers, s.writer, s.writer.value);
      steps, s' := WriterLeaves(s, s.writer.value);
    }
    WriterListed(s'.callers, s'.closers, s'.readers, s'.writer, k);
    if CloserOf(s', k).NotClosing? {
      var s1, more := s', [];
      more, s' := CloseFromStart(s1, k);
      LeadsOn(s, steps, s1, more, s');
      steps := steps + more;
    }
  }

  lemma CloseFromStart(s: State, k: nat) returns (steps: seq<Step>, s': State)
    requires Good(s) && s.writer == None && CloserOf(s, k) == NotClosing
    ensures Leads(s, steps, s') && Good(s') && s'.writer == None && CloserOf(s', k) == Waiting
  {
    hide Leads, Inv, CloserIn, PutCloser;
    var s1, more;
    steps, s1 := ReadersLeave(s);
    steps, s1 := GoOn(s, steps, s1, Close(k));
    more, s' := WriterLeaves(s1, k);
    LeadsOn(s, steps, s1, more, s');
    steps := steps + more;
  }

  // From every state of every run, and without cancelling the parent context,
  // every Close can still return.
  lemma CloseCanFinish(workers: int, queue: int, steps: seq<Step>, k: nat)
    ensures exists more ::
      Uncancelled(more) && CloserOf(Run(Run(Fresh(workers, queue), steps), more), k) == Finished
  {
    hide Leads, Inv, CloserIn, PutCloser, Run;
    var s0 := Run(Fresh(workers, queue), steps);
    RunIsGood(workers, queue, steps);
    var a, s1 := LockIsReleased(s0, k);
    QueueIsClosed(s1, k);
    var b, s2 := WorkersLeave(s1);
    var c, s3 := LastSteps(s2, k);
    LeadsOn(s0, a, s1, b, s2);
    LeadsOn(s0, a + b, s2, c, s3);
    LeadsMeans(s0, a + b + c, s3);
  }

  lemma LeadsMeans(s: State, steps: seq<Step>, s': State)
    requires Leads(s, steps, s')
    ensures Uncancelled(steps) && Run(s, steps) == s'
  {
  }

  lemma QueueIsClosed(s: State, k: nat)
    requires Good(s) && s.writer == None && PastClosing(CloserOf(s, k))
    ensures s.queueClosed
  {
    hide LockOk, CloseOk, TasksOk, ResultsOk, ExitOk, CloserIn;
    CloseFacts(s.callers, s.closers, s.closed, s.queueClosed, 0, k);
  }

  lemma LastSteps(s: State, k: nat) returns (steps: seq<Step>, s': State)
    requires Good(s) && AllExited(s.workers)
    requires PastClosing(CloserOf(s, k)) && !CloserOf(s, k).Unlocking?
    ensures Leads(s, steps, s') && CloserOf(s', k) == Finished
  {
    hide Leads, Good, CloseStep, CloserIn, AllExited;
    LeadsNowhere(s);
    steps, s' := [], s;
    CloserMoves(s, k);
    CloserMoves(CloseStep(s, k), k);
    if CloserOf(s', k).Waiting? {
      steps, s' := Go(s, Close(k));
    }
    if CloserOf(s', k).Cancelling? {
      steps, s' := GoOn(s, steps, s', Close(k));
    }
  }

  lemma CloserMoves(s: State, k: nat)
    ensures AllExited(s.workers) && CloserOf(s, k).Waiting? ==>
      CloserOf(CloseStep(s, k), k).Cancelling? && CloseStep(s, k).workers == s.workers
    ensures CloserOf(s, k).Cancelling? ==> CloserOf(CloseStep(s, k), k) == Finished
  {
    hide CloserIn, PutCloser, AllExited;
  }
}
