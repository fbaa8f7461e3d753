// The worker pool and its asynchronous query wrapper as a state machine: every
// lock, channel and wait-group operation is one step, and the steps of callers,
// closers and workers interleave in any order. Each Submit carries its own
// task, which delivers one result into the call's own one-place channel.
module WorkerPool {
  import opened Wrappers

  // A call of AsyncPool.Query or Exec: Submit under the read lock, and an error
  // delivered by the caller itself when Submit refuses.
  datatype Caller = NotCalled | ReadLocked | Selecting | Releasing(accepted: bool) | Returned(accepted: bool) | Answered

  datatype Closer = NotClosing | WriteLocked | ClosedSet | Unlocking | Waiting | Cancelling | Finished

  datatype Worker = Idle | Running(task: nat) | Exited

  // Where an accepted task is.
  datatype Place = Unsent | Queued | With(worker: nat) | Ran

  datatype State = State(
    workers: seq<Worker>, capacity: nat,
    closed: bool, queueClosed: bool, queue: seq<nat>,
    readers: set<nat>, writer: Option<nat>,
    parentDone: bool, ctxDone: bool,
    callers: map<nat, Caller>, closers: map<nat, Closer>,
    places: map<nat, Place>, results: map<nat, nat>,
    panicked: bool)

  // NewWorkerPool: at least one worker, and a queue no shorter than that.
  function Fresh(workers: int, queue: int): State {
    var n := if workers < 1 then 1 else workers;
    State(seq(n, _ => Idle), if queue < n then n else queue, false, false, [], {}, None, false, false,
          map[], map[], map[], map[], false)
  }

  function CallerIn(m: map<nat, Caller>, c: nat): Caller { if c in m then m[c] else NotCalled }
  function CloserIn(m: map<nat, Closer>, k: nat): Closer { if k in m then m[k] else NotClosing }
  function PlaceIn(m: map<nat, Place>, c: nat): Place { if c in m then m[c] else Unsent }
  function CountIn(m: map<nat, nat>, c: nat): nat { if c in m then m[c] else 0 }

  function PutCaller(m: map<nat, Caller>, c: nat, pc: Caller): (r: map<nat, Caller>)
    ensures forall d: nat :: CallerIn(r, d) == if d == c then pc else CallerIn(m, d)
  {
    m[c := pc]
  }

  function PutCloser(m: map<nat, Closer>, k: nat, pc: Closer): (r: map<nat, Closer>)
    ensures forall d: nat :: CloserIn(r, d) == if d == k then pc else CloserIn(m, d)
  {
    m[k := pc]
  }

  function PutPlace(m: map<nat, Place>, c: nat, place: Place): (r: map<nat, Place>)
    ensures forall d: nat :: PlaceIn(r, d) == if d == c then place else PlaceIn(m, d)
  {
    m[c := place]
  }

  function PutCount(m: map<nat, nat>, c: nat, n: nat): (r: map<nat, nat>)
    ensures forall d: nat :: CountIn(r, d) == if d == c then n else CountIn(m, d)
  {
    m[c := n]
  }

  function CallerOf(s: State, c: nat): Caller { CallerIn(s.callers, c) }
  function CloserOf(s: State, k: nat): Closer { CloserIn(s.closers, k) }
  function PlaceOf(s: State, c: nat): Place { PlaceIn(s.places, c) }
  function ResultsOf(s: State, c: nat): nat { CountIn(s.results, c) }

  datatype Step =
    | Call(c: nat, viaQueue: bool)  // the next step of caller c; viaQueue picks a ready select case
    | Close(k: nat)                 // the next step of closer k
    | Work(w: nat, viaQueue: bool)  // the next step of worker w
    | CancelParent

  function CallerAt(s: State, c: nat, pc: Caller): State { s.(callers := PutCaller(s.callers, c, pc)) }
  function CloserAt(s: State, k: nat, pc: Closer): State { s.(closers := PutCloser(s.closers, k, pc)) }
  function WorkerAt(s: State, w: nat, pc: Worker): State
    requires w < |s.workers|
  {
    s.(workers := s.workers[w := pc])
  }
  function Delivered(s: State, c: nat): State { s.(results := PutCount(s.results, c, ResultsOf(s, c) + 1)) }

  // The fields that closers change, and no others.
  predicate SameClosing(s: State, s': State) {
    s'.closers == s.closers && s'.writer == s.writer && s'.closed == s.closed && s'.queueClosed == s.queueClosed
  }

  function CallStep(s: State, c: nat, viaQueue: bool): (r: State)
    ensures SameClosing(s, r) && r.capacity == s.capacity
    ensures r.queue == s.queue || (|s.queue| < s.capacity && r.queue == s.queue + [c])
  {
    match CallerOf(s, c)
    case NotCalled => if s.writer.Some? then s else CallerAt(s, c, ReadLocked).(readers := s.readers + {c})
    case ReadLocked => CallerAt(s, c, if s.closed then Releasing(false) else Selecting)
    case Selecting =>
      if viaQueue then
        if s.queueClosed then s.(panicked := true)
        else if |s.queue| < s.capacity then
          CallerAt(s, c, Releasing(true)).(queue := s.queue + [c], places := PutPlace(s.places, c, Queued))
        else s
      else if s.ctxDone then CallerAt(s, c, Releasing(false)) else s
    case Releasing(accepted) => CallerAt(s, c, Returned(accepted)).(readers := s.readers - {c})
    case Returned(accepted) => if accepted then s else Delivered(CallerAt(s, c, Answered), c)
    case Answered => s
  }

  function CloseStep(s: State, k: nat): (r: State)
    ensures r.queue == s.queue && r.capacity == s.capacity
  {
    match CloserOf(s, k)
    case NotClosing => if s.writer.Some? || s.readers != {} then s else CloserAt(s, k, WriteLocked).(writer := Some(k))
    case WriteLocked => if s.closed then CloserAt(s, k, Unlocking) else CloserAt(s, k, ClosedSet).(closed := true)
    case ClosedSet =>
      if s.queueClosed then s.(panicked := true) else CloserAt(s, k, Unlocking).(queueClosed := true)
    case Unlocking => CloserAt(s, k, Waiting).(writer := None)
    case Waiting => if AllExited(s.workers) then CloserAt(s, k, Cancelling) else s
    case Cancelling => CloserAt(s, k, Finished).(ctxDone := true)
    case Finished => s
  }

  function TakeStep(s: State, w: nat): (r: State)
    requires w < |s.workers| && |s.queue| > 0
    ensures SameClosing(s, r) && r.capacity == s.capacity && |r.queue| < |s.queue|
  {
    WorkerAt(s, w, Running(s.queue[0])).(queue := s.queue[1..], places := PutPlace(s.places, s.queue[0], With(w)))
  }

  // The select of an idle worker: the next task, or the end.
  function IdleStep(s: State, w: nat, viaQueue: bool): (r: State)
    requires w < |s.workers|
    ensures SameClosing(s, r) && r.capacity == s.capacity && |r.queue| <= |s.queue|
  {
    if viaQueue then
      if |s.queue| > 0 then TakeStep(s, w) else if s.queueClosed then WorkerAt(s, w, Exited) else s
    else if s.ctxDone then WorkerAt(s, w, Exited) else s
  }

  function RunStep(s: State, w: nat, task: nat): (r: State)
    requires w < |s.workers|
    ensures SameClosing(s, r) && r.capacity == s.capacity && r.queue == s.queue
  {
    Delivered(WorkerAt(s, w, Idle).(places := PutPlace(s.places, task, Ran)), task)
  }

  function WorkStep(s: State, w: nat, viaQueue: bool): (r: State)
    ensures SameClosing(s, r) && r.capacity == s.capacity && |r.queue| <= |s.queue|
  {
    if w >= |s.workers| then s
    else match s.workers[w]
    case Idle => IdleStep(s, w, viaQueue)
    case Running(task) => RunStep(s, w, task)
    case Exited => s
  }

  // A step that cannot be taken changes nothing.
  function Take(s: State, step: Step): State {
    match step
    case Call(c, viaQueue) => CallStep(s, c, viaQueue)
    case Close(k) => CloseStep(s, k)
    case Work(w, viaQueue) => WorkStep(s, w, viaQueue)
    case CancelParent => s.(parentDone := true, ctxDone := true)
  }

  function Run(s: State, steps: seq<Step>): State {
    if |steps| == 0 then s else Take(Run(s, steps[..|steps| - 1]), steps[|steps| - 1])
  }

  // ---------------------------------------------------------------------
  // The invariant, in parts over the fields they speak of

  predicate Reading(pc: Caller) { pc.ReadLocked? || pc.Selecting? || pc.Releasing? }

  predicate Writing(pc: Closer) { pc.WriteLocked? || pc.ClosedSet? || pc.Unlocking? }

  // Past the point where the pool is marked closed.
  predicate PastClosing(pc: Closer) { pc.Unlocking? || pc.Waiting? || pc.Cancelling? || pc.Finished? }

  predicate AboutToSend(pc: Caller) { pc.Selecting? }

  predicate FlagOnly(pc: Closer) { pc.ClosedSet? }

  predicate PastWaiting(pc: Closer) { pc.Cancelling? || pc.Finished? }

  predicate WasAccepted(pc: Caller) { (pc.Releasing? || pc.Returned?) && pc.accepted }

  // Readers and the writer exclude each other.
  ghost predicate LockOk(callers: map<nat, Caller>, closers: map<nat, Closer>, readers: set<nat>, writer: Option<nat>) {
    && (forall c: nat :: c in readers <==> Reading(CallerIn(callers, c)))
    && (forall k: nat :: writer == Some(k) <==> Writing(CloserIn(closers, k)))
    && (writer.Some? ==> readers == {})
  }

  // Closing: the flag first, then the queue, both under the write lock; nobody
  // is about to send once the flag is set.
  ghost predicate CloseOk(callers: map<nat, Caller>, closers: map<nat, Closer>, closed: bool, queueClosed: bool) {
    && (queueClosed ==> closed)
    && (forall k: nat :: FlagOnly(CloserIn(closers, k)) ==> closed && !queueClosed)
    && (forall k: nat :: PastClosing(CloserIn(closers, k)) ==> closed)
    && (forall c: nat :: AboutToSend(CallerIn(callers, c)) ==> !closed)
  }

  predicate WithRight(place: Place, c: nat, workers: seq<Worker>) {
    place.With? ==> place.worker < |workers| && workers[place.worker] == Running(c)
  }

  // Every accepted task is in exactly one place.
  ghost predicate TasksOk(callers: map<nat, Caller>, workers: seq<Worker>, queue: seq<nat>, places: map<nat, Place>) {
    && (forall i, j :: 0 <= i < j < |queue| ==> queue[i] != queue[j])
    && (forall c: nat :: PlaceIn(places, c) == Queued <==> c in queue)
    && (forall w: nat :: w < |workers| && workers[w].Running? ==> PlaceIn(places, workers[w].task) == With(w))
    && (forall c: nat :: WithRight(PlaceIn(places, c), c, workers))
    && (forall c: nat :: PlaceIn(places, c) != Unsent <==> WasAccepted(CallerIn(callers, c)))
  }

  // One result for a task that ran or a call that was refused, none before.
  ghost predicate ResultsOk(callers: map<nat, Caller>, places: map<nat, Place>, results: map<nat, nat>) {
    forall c: nat :: CountIn(results, c) ==
      if PlaceIn(places, c) == Ran || CallerIn(callers, c) == Answered then 1 else 0
  }

  predicate AllExited(workers: seq<Worker>) {
    forall w :: 0 <= w < |workers| ==> workers[w] == Exited
  }

  // Unless the parent context is cancelled, a worker leaves only an empty,
  // closed queue, and the pool's context ends only after all workers left.
  ghost predicate ExitOk(closers: map<nat, Closer>, workers: seq<Worker>, queue: seq<nat>, queueClosed: bool,
                         parentDone: bool, ctxDone: bool) {
    && |workers| > 0
    && (forall k: nat :: PastWaiting(CloserIn(closers, k)) ==> AllExited(workers))
    && (parentDone ==> ctxDone)
    && (ctxDone && !parentDone ==> AllExited(workers))
    && (!parentDone ==> forall w :: 0 <= w < |workers| && workers[w] == Exited ==> queueClosed && queue == [])
  }

  ghost predicate Inv(s: State) {
    && !s.panicked
    && LockOk(s.callers, s.closers, s.readers, s.writer)
    && CloseOk(s.callers, s.closers, s.closed, s.queueClosed)
    && TasksOk(s.callers, s.workers, s.queue, s.places)
    && ResultsOk(s.callers, s.places, s.results)
    && ExitOk(s.closers, s.workers, s.queue, s.queueClosed, s.parentDone, s.ctxDone)
  }

  // -- the lock

  lemma LockCaller(callers: map<nat, Caller>, closers: map<nat, Closer>, readers: set<nat>, writer: Option<nat>,
                   c: nat, pc: Caller)
    requires LockOk(callers, closers, readers, writer) && (Reading(pc) ==> writer.None?)
    ensures LockOk(PutCaller(callers, c, pc), closers, if Reading(pc) then readers + {c} else readers - {c}, writer)
  {
    hide CallerIn, CloserIn, PlaceIn, CountIn, PutCaller, PutCloser, PutPlace, PutCount;
  }

  lemma ReaderListed(callers: map<nat, Caller>, closers: map<nat, Closer>, readers: set<nat>, writer: Option<nat>,
                     c: nat)
    requires LockOk(callers, closers, readers, writer)
    ensures c in readers <==> Reading(CallerIn(callers, c))
    ensures c in readers ==> readers + {c} == readers && writer.None?
    ensures c !in readers ==> readers - {c} == readers
  {
    hide CallerIn, CloserIn, PlaceIn, CountIn, PutCaller, PutCloser, PutPlace, PutCount;
  }

  lemma LockCloser(callers: map<nat, Caller>, closers: map<nat, Closer>, readers: set<nat>, writer: Option<nat>,
                   k: nat, pc: Closer)
    requires LockOk(callers, closers, readers, writer)
    requires Writing(pc) && !Writing(CloserIn(closers, k)) ==> writer.None? && readers == {}
    ensures LockOk(callers, PutCloser(closers, k, pc), readers,
                   if Writing(pc) then Some(k) else if writer == Some(k) then None else writer)
  {
    hide CallerIn, CloserIn, PlaceIn, CountIn, PutCaller, PutCloser, PutPlace, PutCount;
  }

  lemma WriterListed(callers: map<nat, Caller>, closers: map<nat, Closer>, readers: set<nat>, writer: Option<nat>,
                     k: nat)
    requires LockOk(callers, closers, readers, writer)
    ensures writer == Some(k) <==> Writing(CloserIn(closers, k))
    ensures writer == Some(k) ==> forall c: nat :: !Reading(CallerIn(callers, c))
    ensures writer == Some(k) ==> forall x: nat :: x != k ==> !Writing(CloserIn(closers, x))
  {
    hide CallerIn, CloserIn, PlaceIn, CountIn, PutCaller, PutCloser, PutPlace, PutCount;
  }

  // -- closing

  lemma CloseCaller(callers: map<nat, Caller>, closers: map<nat, Closer>, closed: bool, queueClosed: bool, c: nat,
                    pc: Caller)
    requires CloseOk(callers, closers, closed, queueClosed) && (pc.Selecting? ==> !closed)
    ensures CloseOk(PutCaller(callers, c, pc), closers, closed, queueClosed)
  {
    hide CallerIn, CloserIn, PlaceIn, CountIn, PutCaller, PutCloser, PutPlace, PutCount;
  }

  lemma CloseCloser(callers: map<nat, Caller>, closers: map<nat, Closer>, closed: bool, queueClosed: bool, k: nat,
                    pc: Closer)
    requires CloseOk(callers, closers, closed, queueClosed)
    requires !pc.ClosedSet? && (PastClosing(pc) ==> closed)
    ensures CloseOk(callers, PutCloser(closers, k, pc), closed, queueClosed)
  {
    hide CallerIn, CloserIn, PlaceIn, CountIn, PutCaller, PutCloser, PutPlace, PutCount;
  }

  lemma CloseSetFlag(callers: map<nat, Caller>, closers: map<nat, Closer>, k: nat)
    requires CloseOk(callers, closers, false, false)
    requires forall c: nat :: !Reading(CallerIn(callers, c))
    ensures CloseOk(callers, PutCloser(closers, k, ClosedSet), true, false)
  {
    hide CallerIn, CloserIn, PlaceIn, CountIn, PutCaller, PutCloser, PutPlace, PutCount;
  }

  lemma CloseQueue(callers: map<nat, Caller>, closers: map<nat, Closer>, closed: bool, k: nat)
    requires CloseOk(callers, closers, closed, false) && closed
    requires forall x: nat :: x != k ==> !Writing(CloserIn(closers, x))
    ensures CloseOk(callers, PutCloser(closers, k, Unlocking), closed, true)
  {
    hide CallerIn, CloserIn, PlaceIn, CountIn, PutCaller, PutCloser, PutPlace, PutCount;
  }

  lemma CloseFacts(callers: map<nat, Caller>, closers: map<nat, Closer>, closed: bool, queueClosed: bool, c: nat,
                   k: nat)
    requires CloseOk(callers, closers, closed, queueClosed)
    ensures CallerIn(callers, c).Selecting? ==> !closed && !queueClosed
    ensures !closed ==> !queueClosed
    ensures CloserIn(closers, k).ClosedSet? ==> closed && !queueClosed
    ensures PastClosing(CloserIn(closers, k)) ==> closed
  {
    hide CallerIn, CloserIn, PlaceIn, CountIn, PutCaller, PutCloser, PutPlace, PutCount;
  }

  // -- tasks

  lemma TasksCaller(callers: map<nat, Caller>, workers: seq<Worker>, queue: seq<nat>, places: map<nat, Place>, c: nat,
                    pc: Caller)
    requires TasksOk(callers, workers, queue, places) && (WasAccepted(pc) <==> WasAccepted(CallerIn(callers, c)))
    ensures TasksOk(PutCaller(callers, c, pc), workers, queue, places)
    ensures !WasAccepted(pc) ==> PlaceIn(places, c) == Unsent
  {
    hide CallerIn, CloserIn, PlaceIn, CountIn, PutCaller, PutCloser, PutPlace, PutCount;
  }

  lemma TasksSent(callers: map<nat, Caller>, workers: seq<Worker>, queue: seq<nat>, places: map<nat, Place>, c: nat)
    requires TasksOk(callers, workers, queue, places) && !WasAccepted(CallerIn(callers, c))
    ensures TasksOk(PutCaller(callers, c, Releasing(true)), workers, queue + [c], PutPlace(places, c, Queued))
    ensures PlaceIn(places, c) == Unsent
  {
    hide CallerIn, CloserIn, PlaceIn, CountIn, PutCaller, PutCloser, PutPlace, PutCount;
    assert c !in queue;
    assert forall x :: x in queue + [c] <==> x in queue || x == c;
  }

  lemma TasksTaken(callers: map<nat, Caller>, workers: seq<Worker>, queue: seq<nat>, places: map<nat, Place>, w: nat)
    requires TasksOk(callers, workers, queue, places) && w < |workers| && workers[w] == Idle && |queue| > 0
    ensures TasksOk(callers, workers[w := Running(queue[0])], queue[1..], PutPlace(places, queue[0], With(w)))
    ensures PlaceIn(places, queue[0]) == Queued
  {
    hide CallerIn, CloserIn, PlaceIn, CountIn, PutCaller, PutCloser, PutPlace, PutCount;
    var c := queue[0];
    assert queue == [c] + queue[1..];
    assert c !in queue[1..];
    assert forall x :: x in queue <==> x in queue[1..] || x == c;
  }

  lemma TasksRan(callers: map<nat, Caller>, workers: seq<Worker>, queue: seq<nat>, places: map<nat, Place>, w: nat,
                 c: nat)
    requires TasksOk(callers, workers, queue, places) && w < |workers| && workers[w] == Running(c)
    ensures TasksOk(callers, workers[w := Idle], queue, PutPlace(places, c, Ran))
    ensures PlaceIn(places, c) == With(w) && WasAccepted(CallerIn(callers, c))
  {
    hide CallerIn, CloserIn, PlaceIn, CountIn, PutCaller, PutCloser, PutPlace, PutCount;
  }

  lemma TasksLeft(callers: map<nat, Caller>, workers: seq<Worker>, queue: seq<nat>, places: map<nat, Place>, w: nat)
    requires TasksOk(callers, workers, queue, places) && w < |workers| && workers[w] == Idle
    ensures TasksOk(callers, workers[w := Exited], queue, places)
  {
    hide CallerIn, CloserIn, PlaceIn, CountIn, PutCaller, PutCloser, PutPlace, PutCount;
  }

  // -- results

  lemma ResultsSame(callers: map<nat, Caller>, places: map<nat, Place>, results: map<nat, nat>, c: nat, pc: Caller,
                    place: Place)
    requires ResultsOk(callers, places, results)
    requires pc.Answered? <==> CallerIn(callers, c).Answered?
    requires place == Ran <==> PlaceIn(places, c) == Ran
    ensures ResultsOk(PutCaller(callers, c, pc), PutPlace(places, c, place), results)
    ensures ResultsOk(PutCaller(callers, c, pc), places, results)
    ensures ResultsOk(callers, PutPlace(places, c, place), results)
  {
    hide CallerIn, CloserIn, PlaceIn, CountIn, PutCaller, PutCloser, PutPlace, PutCount;
  }

  lemma ResultsRan(callers: map<nat, Caller>, places: map<nat, Place>, results: map<nat, nat>, c: nat)
    requires ResultsOk(callers, places, results) && PlaceIn(places, c).With? && WasAccepted(CallerIn(callers, c))
    ensures ResultsOk(callers, PutPlace(places, c, Ran), PutCount(results, c, CountIn(results, c) + 1))
  {
    hide CallerIn, CloserIn, PlaceIn, CountIn, PutCaller, PutCloser, PutPlace, PutCount;
  }

  lemma ResultsRefused(callers: map<nat, Caller>, places: map<nat, Place>, results: map<nat, nat>, c: nat)
    requires ResultsOk(callers, places, results)
    requires PlaceIn(places, c) == Unsent && CallerIn(callers, c) == Returned(false)
    ensures ResultsOk(PutCaller(callers, c, Answered), places, PutCount(results, c, CountIn(results, c) + 1))
  {
    hide CallerIn, CloserIn, PlaceIn, CountIn, PutCaller, PutCloser, PutPlace, PutCount;
  }

  // -- leaving

  lemma ExitCloser(closers: map<nat, Closer>, workers: seq<Worker>, queue: seq<nat>, queueClosed: bool,
                   parentDone: bool, ctxDone: bool,
                   k: nat, pc: Closer)
    requires ExitOk(closers, workers, queue, queueClosed, parentDone, ctxDone)
    requires pc.Cancelling? || pc.Finished? ==> AllExited(workers)
    ensures ExitOk(PutCloser(closers, k, pc), workers, queue, queueClosed, parentDone, ctxDone)
    ensures ExitOk(PutCloser(closers, k, pc), workers, queue, true, parentDone, ctxDone)
    ensures pc.Finished? ==> ExitOk(PutCloser(closers, k, pc), workers, queue, queueClosed, parentDone, true)
  {
    hide CallerIn, CloserIn, PlaceIn, CountIn, PutCaller, PutCloser, PutPlace, PutCount;
  }

  lemma ExitSent(closers: map<nat, Closer>, workers: seq<Worker>, queue: seq<nat>, parentDone: bool, ctxDone: bool,
                 c: nat)
    requires ExitOk(closers, workers, queue, false, parentDone, ctxDone)
    ensures ExitOk(closers, workers, queue + [c], false, parentDone, ctxDone)
  {
    hide CallerIn, CloserIn, PlaceIn, CountIn, PutCaller, PutCloser, PutPlace, PutCount;
  }

  lemma ExitWorker(closers: map<nat, Closer>, workers: seq<Worker>, queue: seq<nat>, queueClosed: bool,
                   parentDone: bool, ctxDone: bool,
                   w: nat, pc: Worker, queue': seq<nat>)
    requires ExitOk(closers, workers, queue, queueClosed, parentDone, ctxDone) && w < |workers| && workers[w] != Exited
    requires queue' == queue || (|queue| > 0 && queue' == queue[1..])
    requires pc == Exited ==> queue' == queue && (ctxDone || (queueClosed && queue == []))
    ensures ExitOk(closers, workers[w := pc], queue', queueClosed, parentDone, ctxDone)
  {
    hide CallerIn, CloserIn, PlaceIn, CountIn, PutCaller, PutCloser, PutPlace, PutCount;
    assert !AllExited(workers);
  }

  lemma ExitFacts(closers: map<nat, Closer>, workers: seq<Worker>, queue: seq<nat>, queueClosed: bool,
                  parentDone: bool, ctxDone: bool, k: nat)
    requires ExitOk(closers, workers, queue, queueClosed, parentDone, ctxDone)
    ensures PastWaiting(CloserIn(closers, k)) ==> AllExited(workers)
  {
    hide CloserIn;
  }

  // -- one step at a time

  // A caller's step that neither sends nor answers moves only its own counter
  // and its read lock.
  lemma CallerMovesOn(s: State, c: nat, pc: Caller)
    requires Inv(s) && !pc.Answered? && !CallerOf(s, c).Answered?
    requires (WasAccepted(pc) <==> WasAccepted(CallerOf(s, c))) && (pc.Selecting? ==> !s.closed)
    requires Reading(pc) ==> s.writer.None?
    ensures Inv(CallerAt(s, c, pc).(readers := if Reading(pc) then s.readers + {c} else s.readers - {c}))
  {
    hide LockOk, CloseOk, TasksOk, ResultsOk, ExitOk, CallerIn, PlaceIn, CountIn, PutCaller, PutPlace, PutCount;
    LockCaller(s.callers, s.closers, s.readers, s.writer, c, pc);
    CloseCaller(s.callers, s.closers, s.closed, s.queueClosed, c, pc);
    TasksCaller(s.callers, s.workers, s.queue, s.places, c, pc);
    ResultsSame(s.callers, s.places, s.results, c, pc, PlaceOf(s, c));
  }

  lemma CallerSends(s: State, c: nat)
    requires Inv(s) && CallerOf(s, c) == Selecting
    ensures Inv(CallerAt(s, c, Releasing(true)).(queue := s.queue + [c], places := PutPlace(s.places, c, Queued)))
  {
    hide LockOk, CloseOk, TasksOk, ResultsOk, ExitOk, CallerIn, PlaceIn, CountIn, PutCaller, PutPlace, PutCount;
    ReaderListed(s.callers, s.closers, s.readers, s.writer, c);
    CloseFacts(s.callers, s.closers, s.closed, s.queueClosed, c, 0);
    LockCaller(s.callers, s.closers, s.readers, s.writer, c, Releasing(true));
    CloseCaller(s.callers, s.closers, s.closed, s.queueClosed, c, Releasing(true));
    TasksSent(s.callers, s.workers, s.queue, s.places, c);
    ResultsSame(s.callers, s.places, s.results, c, Releasing(true), Queued);
    ExitSent(s.closers, s.workers, s.queue, s.parentDone, s.ctxDone, c);
  }

  lemma CallerAnswers(s: State, c: nat)
    requires Inv(s) && CallerOf(s, c) == Returned(false)
    ensures Inv(Delivered(CallerAt(s, c, Answered), c))
  {
    hide LockOk, CloseOk, TasksOk, ResultsOk, ExitOk, CallerIn, PlaceIn, CountIn, PutCaller, PutPlace, PutCount;
    ReaderListed(s.callers, s.closers, s.readers, s.writer, c);
    LockCaller(s.callers, s.closers, s.readers, s.writer, c, Answered);
    CloseCaller(s.callers, s.closers, s.closed, s.queueClosed, c, Answered);
    TasksCaller(s.callers, s.workers, s.queue, s.places, c, Answered);
    ResultsRefused(s.callers, s.places, s.results, c);
  }

  lemma CallKeepsInv(s: State, c: nat, viaQueue: bool)
    requires Inv(s)
    ensures Inv(CallStep(s, c, viaQueue))
  {
    ReaderListed(s.callers, s.closers, s.readers, s.writer, c);
    CloseFacts(s.callers, s.closers, s.closed, s.queueClosed, c, 0);
    hide Inv, CallerIn, PutCaller;
    match CallerOf(s, c)
    case NotCalled => if s.writer.None? { CallerMovesOn(s, c, ReadLocked); }
    case ReadLocked => CallerMovesOn(s, c, if s.closed then Releasing(false) else Selecting);
    case Selecting =>
      if viaQueue {
        CallerSends(s, c);
      } else {
        CallerMovesOn(s, c, Releasing(false));
      }
    case Releasing(accepted) => CallerMovesOn(s, c, Returned(accepted));
    case Returned(accepted) => if !accepted { CallerAnswers(s, c); }
    case Answered =>
  }

  // A closer's step that changes neither flag nor context.
  lemma CloserMovesOn(s: State, k: nat, pc: Closer)
    requires Inv(s) && !pc.ClosedSet? && (PastClosing(pc) ==> s.closed) && (PastWaiting(pc) ==> AllExited(s.workers))
    requires Writing(pc) && !Writing(CloserOf(s, k)) ==> s.writer.None? && s.readers == {}
    ensures var s' := CloserAt(s, k, pc).(
                writer := if Writing(pc) then Some(k) else if s.writer == Some(k) then None else s.writer);
            Inv(s') && (pc.Finished? ==> Inv(s'.(ctxDone := true)))
  {
    hide LockOk, CloseOk, TasksOk, ResultsOk, ExitOk, CloserIn, PutCloser, AllExited;
    LockCloser(s.callers, s.closers, s.readers, s.writer, k, pc);
    CloseCloser(s.callers, s.closers, s.closed, s.queueClosed, k, pc);
    ExitCloser(s.closers, s.workers, s.queue, s.queueClosed, s.parentDone, s.ctxDone, k, pc);
  }

  lemma CloserCloses(s: State, k: nat)
    requires Inv(s) && ((CloserOf(s, k).WriteLocked? && !s.closed) || CloserOf(s, k).ClosedSet?)
    ensures CloserOf(s, k).WriteLocked? ==> Inv(CloserAt(s, k, ClosedSet).(closed := true))
    ensures CloserOf(s, k).ClosedSet? ==> !s.queueClosed && Inv(CloserAt(s, k, Unlocking).(queueClosed := true))
  {
    hide LockOk, CloseOk, TasksOk, ResultsOk, ExitOk, CloserIn, PutCloser, AllExited;
    WriterListed(s.callers, s.closers, s.readers, s.writer, k);
    CloseFacts(s.callers, s.closers, s.closed, s.queueClosed, 0, k);
    if CloserOf(s, k).WriteLocked? {
      LockCloser(s.callers, s.closers, s.readers, s.writer, k, ClosedSet);
      ExitCloser(s.closers, s.workers, s.queue, s.queueClosed, s.parentDone, s.ctxDone, k, ClosedSet);
      CloseSetFlag(s.callers, s.closers, k);
    } else {
      LockCloser(s.callers, s.closers, s.readers, s.writer, k, Unlocking);
      ExitCloser(s.closers, s.workers, s.queue, s.queueClosed, s.parentDone, s.ctxDone, k, Unlocking);
      CloseQueue(s.callers, s.closers, s.closed, k);
    }
  }

  lemma CloseKeepsInv(s: State, k: nat)
    requires Inv(s)
    ensures Inv(CloseStep(s, k))
  {
    WriterListed(s.callers, s.closers, s.readers, s.writer, k);
    CloseFacts(s.callers, s.closers, s.closed, s.queueClosed, 0, k);
    ExitFacts(s.closers, s.workers, s.queue, s.queueClosed, s.parentDone, s.ctxDone, k);
    hide Inv, CloserIn, PutCloser, AllExited;
    match CloserOf(s, k)
    case NotClosing => if s.writer.None? && s.readers == {} { CloserMovesOn(s, k, WriteLocked); }
    case WriteLocked => if s.closed { CloserMovesOn(s, k, Unlocking); } else { CloserCloses(s, k); }
    case ClosedSet => CloserCloses(s, k);
    case Unlocking => CloserMovesOn(s, k, Waiting);
    case Waiting => if AllExited(s.workers) { CloserMovesOn(s, k, Cancelling); }
    case Cancelling => CloserMovesOn(s, k, Finished);
    case Finished =>
  }

  lemma WorkKeepsInv(s: State, w: nat, viaQueue: bool)
    requires Inv(s)
    ensures Inv(WorkStep(s, w, viaQueue))
  {
    if w < |s.workers| {
      match s.workers[w]
      case Idle =>
        if viaQueue && |s.queue| > 0 {
          WorkerTakes(s, w);
        } else if s.ctxDone || (viaQueue && s.queueClosed) {
          WorkerLeaves(s, w);
        }
      case Running(task) => WorkerRuns(s, w, task);
      case Exited =>
    }
  }

  lemma WorkerTakes(s: State, w: nat)
    requires Inv(s) && w < |s.workers| && s.workers[w] == Idle && |s.queue| > 0
    ensures Inv(WorkerAt(s, w, Running(s.queue[0])).(
                  queue := s.queue[1..], places := PutPlace(s.places, s.queue[0], With(w))))
  {
    hide LockOk, CloseOk, TasksOk, ResultsOk, ExitOk, PlaceIn, PutPlace;
    var c := s.queue[0];
    ExitWorker(s.closers, s.workers, s.queue, s.queueClosed, s.parentDone, s.ctxDone, w, Running(c), s.queue[1..]);
    TasksTaken(s.callers, s.workers, s.queue, s.places, w);
    ResultsSame(s.callers, s.places, s.results, c, CallerOf(s, c), With(w));
  }

  lemma WorkerLeaves(s: State, w: nat)
    requires Inv(s) && w < |s.workers| && s.workers[w] == Idle && (s.ctxDone || (s.queueClosed && s.queue == []))
    ensures Inv(WorkerAt(s, w, Exited))
  {
    hide LockOk, CloseOk, TasksOk, ResultsOk, ExitOk;
    ExitWorker(s.closers, s.workers, s.queue, s.queueClosed, s.parentDone, s.ctxDone, w, Exited, s.queue);
    TasksLeft(s.callers, s.workers, s.queue, s.places, w);
  }

  lemma WorkerRuns(s: State, w: nat, task: nat)
    requires Inv(s) && w < |s.workers| && s.workers[w] == Running(task)
    ensures Inv(Delivered(WorkerAt(s, w, Idle).(places := PutPlace(s.places, task, Ran)), task))
  {
    hide LockOk, CloseOk, TasksOk, ResultsOk, ExitOk, PlaceIn, PutPlace, CountIn, PutCount;
    ExitWorker(s.closers, s.workers, s.queue, s.queueClosed, s.parentDone, s.ctxDone, w, Idle, s.queue);
    TasksRan(s.callers, s.workers, s.queue, s.places, w, task);
    ResultsRan(s.callers, s.places, s.results, task);
  }

  lemma CancelKeepsInv(s: State)
    requires Inv(s)
    ensures Inv(Take(s, CancelParent))
  {
  }

  lemma {:induction false} RunKeepsInv(workers: int, queue: int, steps: seq<Step>)
    ensures Inv(Run(Fresh(workers, queue), steps))
  {
    hide Inv;
    if |steps| == 0 {
      FreshInv(workers, queue);
    } else {
      RunKeepsInv(workers, queue, steps[..|steps| - 1]);
      var s := Run(Fresh(workers, queue), steps[..|steps| - 1]);
      match steps[|steps| - 1]
      case Call(c, viaQueue) => CallKeepsInv(s, c, viaQueue);
      case Close(k) => CloseKeepsInv(s, k);
      case Work(w, viaQueue) => WorkKeepsInv(s, w, viaQueue);
      case CancelParent => CancelKeepsInv(s);
    }
  }

  lemma FreshInv(workers: int, queue: int)
    ensures Inv(Fresh(workers, queue))
  {
  }

  // ---------------------------------------------------------------------
  // In every run

  // Nobody sends on or closes a closed queue; a task is never run twice, and a
  // call never gets more than one result, so delivering it never blocks.
  lemma NeverPanics(workers: int, queue: int, steps: seq<Step>, c: nat)
    ensures var s := Run(Fresh(workers, queue), steps);
            && !s.panicked
            && ResultsOf(s, c) <= 1
            && (forall w :: 0 <= w < |s.workers| && s.workers[w] == Running(c) ==> ResultsOf(s, c) == 0)
  {
    hide LockOk, CloseOk, ExitOk;
    RunKeepsInv(workers, queue, steps);
  }

  // A finished call has exactly one result once Close has returned, unless the
  // parent context was cancelled: every accepted task has run.
  lemma CloseRunsEverything(workers: int, queue: int, steps: seq<Step>, k: nat, c: nat)
    ensures var s := Run(Fresh(workers, queue), steps);
            CloserOf(s, k) == Finished && !s.parentDone ==>
              && s.queue == [] && AllExited(s.workers)
              && (WasAccepted(CallerOf(s, c)) ==> PlaceOf(s, c) == Ran)
              && (CallerOf(s, c) in {Returned(true), Answered} ==> ResultsOf(s, c) == 1)
  {
    hide LockOk, CloseOk;
    RunKeepsInv(workers, queue, steps);
    var s := Run(Fresh(workers, queue), steps);
    if CloserOf(s, k) == Finished && !s.parentDone {
      assert AllExited(s.workers);
      assert s.workers[0] == Exited;
      assert s.queue == [];
      assert WithRight(PlaceOf(s, c), c, s.workers);
    }
  }

  // Once all workers are gone, the accepted calls without a result are exactly
  // those left in the queue, and there are some only if the parent context was
  // cancelled.
  lemma LostCallsAreQueued(workers: int, queue: int, steps: seq<Step>, c: nat)
    ensures var s := Run(Fresh(workers, queue), steps);
            AllExited(s.workers) && CallerOf(s, c) == Returned(true) ==>
              && (ResultsOf(s, c) == 0 <==> c in s.queue)
              && (c in s.queue ==> s.parentDone)
  {
    hide LockOk, CloseOk;
    RunKeepsInv(workers, queue, steps);
    var s := Run(Fresh(workers, queue), steps);
    if AllExited(s.workers) {
      assert s.workers[0] == Exited;
      assert WithRight(PlaceOf(s, c), c, s.workers);
    }
  }

  lemma RunOneMore(s: State, steps: seq<Step>, step: Step)
    ensures Run(s, steps + [step]) == Take(Run(s, steps), step)
  {
    hide Take;
    assert (steps + [step])[..|steps|] == steps;
  }

  // From a fresh pool, four steps of one caller get its task accepted.
  lemma FourCallsAccept()
    ensures var call := Call(0, true);
            var s := Take(Take(Take(Take(Fresh(1, 1), call), call), call), call);
            CallerOf(s, 0) == Returned(true) && ResultsOf(s, 0) == 0 && s.workers == [Idle]
  {
    var s0 := Fresh(1, 1);
    var s1 := CallStep(s0, 0, true);
    assert CallerOf(s1, 0) == ReadLocked && !s1.closed && s1.results == map[] && s1.workers == [Idle];
    var s2 := CallStep(s1, 0, true);
    assert CallerOf(s2, 0) == Selecting && s2.results == map[] && s2.workers == [Idle];
    var s3 := CallStep(s2, 0, true);
    assert CallerOf(s3, 0) == Releasing(true) && s3.results == map[] && s3.workers == [Idle];
  }

  // Such a run exists: its task is accepted, the parent context ends, and the
  // only worker leaves without taking it.
  lemma CancelledCallCanBeLost()
    ensures exists steps ::
              var s := Run(Fresh(1, 1), steps);
              AllExited(s.workers) && CallerOf(s, 0) == Returned(true) && ResultsOf(s, 0) == 0
  {
    hide Take, Fresh, AllExited, CallerIn, CountIn;
    var s0, call := Fresh(1, 1), Call(0, true);
    FourCallsAccept();
    RunFour(s0, call);
    var four := [call] + [call] + [call] + [call];
    var s := Run(s0, four);
    WorkerQuits(s);
    RunOneMore(s0, four, CancelParent);
    RunOneMore(s0, four + [CancelParent], Work(0, false));
    var steps := four + [CancelParent] + [Work(0, false)];
    assert Run(s0, steps) == Take(Take(s, CancelParent), Work(0, false));
  }

  lemma RunFour(s: State, step: Step)
    ensures Run(s, [step] + [step] + [step] + [step]) == Take(Take(Take(Take(s, step), step), step), step)
  {
    hide Take;
    assert [] + [step] == [step];
    RunOneMore(s, [], step);
    RunOneMore(s, [step], step);
    RunOneMore(s, [step] + [step], step);
    RunOneMore(s, [step] + [step] + [step], step);
  }

  lemma WorkerQuits(s: State)
    requires s.workers == [Idle]
    ensures var s' := Take(Take(s, CancelParent), Work(0, false));
      AllExited(s'.workers) && s'.callers == s.callers && s'.results == s.results
  {
  }
}
