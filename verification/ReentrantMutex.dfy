// The re-entrant mutex as a state machine: every atomic load, store, add and
// mutex call of a goroutine is one step, and steps of different goroutines
// interleave in any order. Goroutine ids are positive and distinct, and Unlock
// is called only by a goroutine that holds the lock.
module ReentrantMutex {

  // What a goroutine does next.
  datatype Pc =
    | Ready        // outside any call
    | FastAdd      // Lock found itself the owner: depth.Add(1)
    | WaitMu       // Lock: mu.Lock()
    | StoreOwner   // mu held: owner.Store(gid)
    | StoreDepth   // owner stored: depth.Store(1)
    | ClearOwner   // Unlock brought depth to 0: owner.Store(0)
    | UnlockMu     // mu.Unlock()
    | TryMu        // TryLockFree saw depth 0: mu.TryLock()

  datatype Op = Lock | Unlock | TryLockFree | Continue

  // holder is the goroutine that has mu, or 0; nest counts a goroutine's
  // acquisitions not yet released.
  datatype State = State(holder: int, owner: int, depth: int, pc: map<int, Pc>, nest: map<int, nat>)

  const Initial := State(0, 0, 0, map[], map[])

  function PcOf(s: State, g: int): Pc {
    if g in s.pc then s.pc[g] else Ready
  }

  function NestOf(s: State, g: int): nat {
    if g in s.nest then s.nest[g] else 0
  }

  function At(s: State, g: int, pc: Pc): State {
    s.(pc := s.pc[g := pc])
  }

  function Nested(s: State, g: int, n: nat): State {
    s.(nest := s.nest[g := n])
  }

  // One atomic step of goroutine g; a step that cannot be taken changes nothing.
  function Step(s: State, g: int, op: Op): State {
    if g <= 0 then s
    else match PcOf(s, g)
    case Ready =>
      (match op
       case Lock => if s.owner == g then At(s, g, FastAdd) else At(s, g, WaitMu)
       case Unlock =>
         if NestOf(s, g) == 0 then s
         else
           var s' := Nested(s.(depth := s.depth - 1), g, NestOf(s, g) - 1);
           if s'.depth > 0 then s' else At(s', g, ClearOwner)
       case TryLockFree => if s.depth != 0 then s else At(s, g, TryMu)
       case Continue => s)
    case FastAdd => At(Nested(s.(depth := s.depth + 1), g, NestOf(s, g) + 1), g, Ready)
    case WaitMu => if s.holder != 0 then s else At(s.(holder := g), g, StoreOwner)
    case StoreOwner => At(s.(owner := g), g, StoreDepth)
    case StoreDepth => At(Nested(s.(depth := 1), g, NestOf(s, g) + 1), g, Ready)
    case ClearOwner => At(s.(owner := 0), g, UnlockMu)
    case UnlockMu => At(s.(holder := 0), g, Ready)
    case TryMu => if s.holder != 0 then At(s, g, Ready) else At(s.(holder := g), g, StoreOwner)
  }

  datatype Move = Move(g: int, op: Op)

  function Run(s: State, moves: seq<Move>): State {
    if |moves| == 0 then s
    else
      var m := moves[|moves| - 1];
      Step(Run(s, moves[..|moves| - 1]), m.g, m.op)
  }

  // ---------------------------------------------------------------------
  // The invariant

  // Between taking mu and giving it back.
  predicate Inside(s: State, g: int) {
    NestOf(s, g) > 0 || PcOf(s, g) in {StoreOwner, StoreDepth, ClearOwner, UnlockMu}
  }

  // What the fields are while g has mu, by what g does next.
  predicate HolderOk(s: State, g: int) {
    match PcOf(s, g)
    case Ready => s.owner == g && s.depth == NestOf(s, g) > 0
    case FastAdd => s.owner == g && s.depth == NestOf(s, g) > 0
    case StoreOwner => s.owner == 0 && s.depth == NestOf(s, g) == 0
    case StoreDepth => s.owner == g && s.depth == NestOf(s, g) == 0
    case ClearOwner => s.owner == g && s.depth == NestOf(s, g) == 0
    case UnlockMu => s.owner == 0 && s.depth == NestOf(s, g) == 0
    case WaitMu => false
    case TryMu => false
  }

  ghost predicate Inv(s: State) {
    && s.holder >= 0
    && (s.holder == 0 ==> s.owner == 0 && s.depth == 0)
    && (s.holder > 0 ==> HolderOk(s, s.holder))
    && (forall g :: g != s.holder || g <= 0 ==> NestOf(s, g) == 0 && PcOf(s, g) in {Ready, WaitMu, TryMu})
  }

  lemma StepIsLocal(s: State, g: int, op: Op)
    ensures forall h :: h != g ==> NestOf(Step(s, g, op), h) == NestOf(s, h) && PcOf(Step(s, g, op), h) == PcOf(s, h)
  {
  }

  lemma CallKeepsInv(s: State, g: int, op: Op)
    requires Inv(s) && g > 0 && PcOf(s, g) == Ready
    ensures Inv(Step(s, g, op))
  {
    StepIsLocal(s, g, op);
    assert g != s.holder ==> NestOf(s, g) == 0 && s.owner != g;
  }

  lemma StepKeepsInv(s: State, g: int, op: Op)
    requires Inv(s)
    ensures Inv(Step(s, g, op))
  {
    if g > 0 {
      if PcOf(s, g) == Ready {
        CallKeepsInv(s, g, op);
      } else {
        StepIsLocal(s, g, op);
        assert g != s.holder ==> PcOf(s, g) in {WaitMu, TryMu};
      }
    }
  }

  lemma {:induction false} RunKeepsInv(moves: seq<Move>)
    ensures Inv(Run(Initial, moves))
  {
    if |moves| != 0 {
      RunKeepsInv(moves[..|moves| - 1]);
      var m := moves[|moves| - 1];
      StepKeepsInv(Run(Initial, moves[..|moves| - 1]), m.g, m.op);
    }
  }

  // ---------------------------------------------------------------------
  // In every interleaving

  // At most one goroutine is inside; it is the one that has mu; owner is 0 or
  // that goroutine; once it has acquired, depth is its nesting.
  lemma MutualExclusion(moves: seq<Move>, g: int, h: int)
    ensures var s := Run(Initial, moves);
            && (Inside(s, g) && Inside(s, h) ==> g == h)
            && (Inside(s, g) ==> s.holder == g)
            && (s.owner != 0 ==> s.owner == s.holder)
            && (NestOf(s, g) > 0 ==> s.owner == g && s.depth == NestOf(s, g))
            && ((forall x :: !Inside(s, x)) ==> s == s.(holder := 0, owner := 0, depth := 0))
  {
    RunKeepsInv(moves);
    var s := Run(Initial, moves);
    if s.holder > 0 {
      assert Inside(s, s.holder);
    }
  }

  // The fast path is taken by the holder only, and the holder never waits for mu.
  lemma FastPathOnlyByHolder(moves: seq<Move>, g: int)
    requires g > 0
    ensures var s := Run(Initial, moves);
            && (PcOf(s, g) == FastAdd ==> s.holder == g && NestOf(s, g) > 0)
            && (PcOf(s, g) == Ready ==>
                  (PcOf(Step(s, g, Lock), g) == FastAdd <==> NestOf(s, g) > 0))
  {
    RunKeepsInv(moves);
  }

  // TryLockFree fails whenever anyone, the caller included, is inside at its
  // test of depth after acquiring, or at its TryLock; when it takes mu, nobody
  // is inside.
  lemma TryNeverEntersHeldLock(moves: seq<Move>, g: int, h: int)
    requires g > 0
    ensures var s := Run(Initial, moves);
            && (PcOf(s, g) == Ready && NestOf(s, h) > 0 ==> Step(s, g, TryLockFree) == s)
            && (PcOf(s, g) == TryMu && Inside(s, h) ==>
                  PcOf(Step(s, g, Continue), g) == Ready && !Inside(Step(s, g, Continue), g))
            && (PcOf(s, g) == TryMu && Inside(Step(s, g, Continue), g) ==> !Inside(s, h))
  {
    RunKeepsInv(moves);
  }

  // n nested Locks and Unlocks of one goroutine, run without interruption from
  // a free lock, give it back; one Unlock fewer keeps it.
  function Nesting(g: int, locks: nat): seq<Move> {
    if locks == 0 then []
    else Nesting(g, locks - 1) + [Move(g, Lock), Move(g, Continue), Move(g, Continue), Move(g, Continue)]
  }

  function Unnesting(g: int, unlocks: nat): seq<Move> {
    if unlocks == 0 then [] else Unnesting(g, unlocks - 1) + [Move(g, Unlock)]
  }

  lemma {:induction false} RunAppend(s: State, a: seq<Move>, b: seq<Move>)
    ensures Run(s, a + b) == Run(Run(s, a), b)
  {
    hide Step;
    if |b| == 0 {
      assert a + b == a;
    } else {
      var n := |b| - 1;
      assert (a + b)[..|a| + n] == a + b[..n];
      RunAppend(s, a, b[..n]);
    }
  }

  lemma RunFour(s: State, a: Move, b: Move, c: Move, d: Move)
    ensures Run(s, [a, b, c, d]) == Step(Step(Step(Step(s, a.g, a.op), b.g, b.op), c.g, c.op), d.g, d.op)
  {
    hide Step;
    assert [a, b, c, d][..3] == [a, b, c] && [a, b, c][..2] == [a, b] && [a, b][..1] == [a] && [a][..0] == [];
    assert Run(s, [a]) == Step(s, a.g, a.op);
    assert Run(s, [a, b]) == Step(Run(s, [a]), b.g, b.op);
    assert Run(s, [a, b, c]) == Step(Run(s, [a, b]), c.g, c.op);
  }

  ghost predicate HeldBy(s: State, g: int, n: nat) {
    s.holder == g && s.owner == g && s.depth == n && NestOf(s, g) == n && PcOf(s, g) == Ready
  }

  lemma LockOnce(s: State, g: int, n: nat)
    requires g > 0 && if n == 0 then s == Initial else HeldBy(s, g, n)
    ensures HeldBy(Step(Step(Step(Step(s, g, Lock), g, Continue), g, Continue), g, Continue), g, n + 1)
  {
  }

  lemma {:induction false} NestedLocksHold(g: int, locks: nat)
    requires g > 0 && locks > 0
    ensures var s := Run(Initial, Nesting(g, locks));
            && HeldBy(s, g, locks)
            && s.holder == s.owner == g && s.depth == NestOf(s, g) == locks && PcOf(s, g) == Ready
  {
    hide Step;
    var before := Run(Initial, Nesting(g, locks - 1));
    if locks > 1 {
      NestedLocksHold(g, locks - 1);
    } else {
      assert before == Initial;
    }
    RunAppend(Initial, Nesting(g, locks - 1), [Move(g, Lock), Move(g, Continue), Move(g, Continue), Move(g, Continue)]);
    RunFour(before, Move(g, Lock), Move(g, Continue), Move(g, Continue), Move(g, Continue));
    LockOnce(before, g, locks - 1);
  }

  lemma {:induction false} UnlocksReleaseLast(g: int, locks: nat, unlocks: nat)
    requires g > 0 && 0 < locks && unlocks <= locks
    ensures var s := Run(Run(Initial, Nesting(g, locks)), Unnesting(g, unlocks));
            && s.holder == s.owner == g && s.depth == NestOf(s, g) == locks - unlocks
            && PcOf(s, g) == if unlocks < locks then Ready else ClearOwner
  {
    hide Nesting, Step;
    NestedLocksHold(g, locks);
    var held, u := Run(Initial, Nesting(g, locks)), Unnesting(g, unlocks);
    if unlocks > 0 {
      UnlocksReleaseLast(g, locks, unlocks - 1);
      assert u[..|u| - 1] == Unnesting(g, unlocks - 1) && u[|u| - 1] == Move(g, Unlock);
      assert Run(held, u) == Step(Run(held, Unnesting(g, unlocks - 1)), g, Unlock);
      UnlockOnce(Run(held, Unnesting(g, unlocks - 1)), g, locks - unlocks + 1);
    } else {
      assert Run(held, []) == held;
    }
  }

  lemma UnlockOnce(s: State, g: int, n: nat)
    requires g > 0 && n > 0 && HeldBy(s, g, n)
    ensures var s' := Step(s, g, Unlock);
            if n > 1 then HeldBy(s', g, n - 1)
            else s'.holder == g && s'.owner == g && s'.depth == 0 && NestOf(s', g) == 0 && PcOf(s', g) == ClearOwner
  {
  }

  // The two steps behind the last Unlock give the lock back.
  lemma LastUnlockFrees(g: int, locks: nat)
    requires g > 0 && locks > 0
    ensures var moves := Nesting(g, locks) + (Unnesting(g, locks) + [Move(g, Continue), Move(g, Continue)]);
            var s := Run(Initial, moves);
            s.holder == 0 && s.owner == 0 && s.depth == 0 && NestOf(s, g) == 0 && PcOf(s, g) == Ready
  {
    hide Nesting, Unnesting, Run;
    UnlocksReleaseLast(g, locks, locks);
    var held, two := Run(Initial, Nesting(g, locks)), [Move(g, Continue), Move(g, Continue)];
    RunAppend(Initial, Nesting(g, locks), Unnesting(g, locks) + two);
    RunAppend(held, Unnesting(g, locks), two);
    RunTwo(Run(held, Unnesting(g, locks)), Move(g, Continue), Move(g, Continue));
  }

  lemma RunTwo(s: State, a: Move, b: Move)
    ensures Run(s, [a, b]) == Step(Step(s, a.g, a.op), b.g, b.op)
  {
    hide Step;
    assert [a, b][..1] == [a] && [a][..0] == [];
    assert Run(s, [a]) == Step(s, a.g, a.op);
  }

  // ---------------------------------------------------------------------
  // What a goroutine finishes by its own steps, whatever others do in between

  lemma {:induction false} OthersPass(s: State, moves: seq<Move>, g: int)
    requires Inv(s) && forall m :: m in moves ==> m.g != g
    ensures var s' := Run(s, moves);
            Inv(s') && PcOf(s', g) == PcOf(s, g) && NestOf(s', g) == NestOf(s, g)
            && (s.holder == g > 0 ==> s'.holder == g)
  {
    hide Step, Inv;
    if |moves| > 0 {
      var n := |moves| - 1;
      var t, m := Run(s, moves[..n]), moves[n];
      OthersPass(s, moves[..n], g);
      StepKeepsInv(t, m.g, m.op);
      StepIsLocal(t, m.g, m.op);
      HolderStays(t, m.g, m.op, g);
    }
  }

  lemma HolderStays(s: State, h: int, op: Op, g: int)
    requires Inv(s) && h != g
    ensures s.holder == g > 0 ==> Step(s, h, op).holder == g
  {
  }

  // An Unlock that has brought the depth to 0 frees the lock with its next two
  // steps.
  lemma UnlockFrees(moves: seq<Move>, g: int, between: seq<Move>, between': seq<Move>)
    requires g > 0 && PcOf(Run(Initial, moves), g) == ClearOwner
    requires forall m :: m in between + between' ==> m.g != g
    ensures var s := Step(Run(Run(Initial, moves), between), g, Continue);
            var s' := Step(Run(s, between'), g, Continue);
            && s'.holder == 0 && s'.owner == 0 && s'.depth == 0
            && PcOf(s', g) == Ready && NestOf(s', g) == 0
  {
    hide Run;
    RunKeepsInv(moves);
    var s0 := Run(Initial, moves);
    OthersPass(s0, between, g);
    var s1 := Run(s0, between);
    StepKeepsInv(s1, g, Continue);
    OthersPass(Step(s1, g, Continue), between', g);
    StepKeepsInv(Run(Step(s1, g, Continue), between'), g, Continue);
  }

  // A Lock that waits enters with its next three steps once the lock is free
  // at the first of them.
  lemma LockEnters(moves: seq<Move>, g: int, between: seq<Move>, between': seq<Move>)
    requires g > 0 && PcOf(Run(Initial, moves), g) == WaitMu && Run(Initial, moves).holder == 0
    requires forall m :: m in between + between' ==> m.g != g
    ensures var s1 := Step(Run(Initial, moves), g, Continue);
            var s2 := Step(Run(s1, between), g, Continue);
            var s3 := Step(Run(s2, between'), g, Continue);
            s1.holder == g && s3.holder == s3.owner == g && s3.depth == NestOf(s3, g) == 1 && PcOf(s3, g) == Ready
  {
    hide Run;
    RunKeepsInv(moves);
    StepKeepsInv(Run(Initial, moves), g, Continue);
    Enters(Step(Run(Initial, moves), g, Continue), g, between, between');
  }

  // TryLockFree on a free lock sees depth 0 and, if the lock is still free at
  // its next step, enters like a Lock.
  lemma TryEnters(moves: seq<Move>, g: int, between: seq<Move>, between': seq<Move>)
    requires g > 0 && Run(Initial, moves).holder == 0 && PcOf(Run(Initial, moves), g) in {Ready, TryMu}
    requires forall m :: m in between + between' ==> m.g != g
    ensures var s := Run(Initial, moves);
            var s0 := if PcOf(s, g) == Ready then Step(s, g, TryLockFree) else s;
            var s1 := Step(s0, g, Continue);
            var s2 := Step(Run(s1, between), g, Continue);
            var s3 := Step(Run(s2, between'), g, Continue);
            s1.holder == g && s3.holder == s3.owner == g && s3.depth == NestOf(s3, g) == 1 && PcOf(s3, g) == Ready
  {
    hide Run;
    RunKeepsInv(moves);
    var s := Run(Initial, moves);
    var s0 := if PcOf(s, g) == Ready then Step(s, g, TryLockFree) else s;
    StepKeepsInv(s, g, TryLockFree);
    StepKeepsInv(s0, g, Continue);
    Enters(Step(s0, g, Continue), g, between, between');
  }

  // Having taken mu, a goroutine holds the lock once two steps later.
  lemma Enters(s: State, g: int, between: seq<Move>, between': seq<Move>)
    requires g > 0 && Inv(s) && s.holder == g && PcOf(s, g) == StoreOwner
    requires forall m :: m in between + between' ==> m.g != g
    ensures var s2 := Step(Run(s, between), g, Continue);
            var s3 := Step(Run(s2, between'), g, Continue);
            s3.holder == s3.owner == g && s3.depth == NestOf(s3, g) == 1 && PcOf(s3, g) == Ready
  {
    hide Run;
    OthersPass(s, between, g);
    var s1 := Run(s, between);
    StepKeepsInv(s1, g, Continue);
    OthersPass(Step(s1, g, Continue), between', g);
    StepKeepsInv(Run(Step(s1, g, Continue), between'), g, Continue);
  }
}
