/**
 What holds in every run of MachineLock: one thread at a time has the lock and the registers, each
 thread sees its own register file, a doomed thread never runs lifted code, and a thread that is
 terminated for real is not queued on the lock.
 */
module MachineLockSafety {
  import opened MachineLock

  // ---- the invariant ----

  /** Claims on the lock a thread has. */
  function Claims(th: Thread): nat {
    match th.pc
    case At(i, _) => th.depth + if i >= 4 then 1 else 0
    case Exiting(_, holding) => if holding then 1 else 0
    case Release(_, _, left) => left
    case Join(_, _) => 0
    case Retake(d, left) => if d >= left then d - left else 0
    case Dead(orphaned) => orphaned
    case _ => th.depth
  }

  /** Callbacks in progress less native calls in progress. */
  function Nesting(stack: seq<Frame>): int {
    if stack == [] then 0
    else Nesting(stack[1..]) + match stack[0] case InCallback(_, _) => 1 case InNative => -1
  }

  /** Frames nest: a callback made by lifted code, and a native call, have lifted code below them. */
  predicate Nested(stack: seq<Frame>) {
    stack == [] ||
    (Nested(stack[1..]) &&
     Nesting(stack[1..]) >= if stack[0] == InNative || stack[0].fromLifted then 1 else 0)
  }

  /** The depth the thread's nesting asks for, counting a claim it is about to take (back). */
  function Due(th: Thread): nat {
    match th.pc
    case At(_, Bridge) => th.depth + 1
    case At(_, Yield) => th.depth + 1
    case At(_, Reclaim(d)) => d
    case Release(_, d, _) => d
    case Join(_, d) => d
    case Retake(d, _) => d
    case _ => th.depth
  }

  predicate Terminating(pc: Pc) {
    pc.Doom? || pc.Look? || pc.Kill?
  }

  predicate Local(th: Thread) {
    && (th.pc == Lifted || Terminating(th.pc) ==> th.depth >= 1)
    && (th.pc.At? ==>
        (th.pc.i <= 6 && (2 <= th.pc.i <= 4 ==> th.mark == WAITING)
         && (th.pc.c.Yield? || th.pc.c.Reclaim? ==> th.depth == 0)
         && (th.pc.c.Reclaim? ==> th.pc.c.d >= 1)
         && (th.pc.c == Callback(true) ==> th.depth >= 1)))
    && (th.pc.Exiting? ==> th.depth == 0)
    && (th.pc.Release? ==> th.depth == 0 && th.pc.left < th.pc.d)
    && (th.pc.Join? ==> th.depth == 0 && th.pc.d >= 1)
    && (th.pc.Retake? ==> th.depth == 1 && th.pc.left < th.pc.d)
    && (!th.pc.Dead? && !th.pc.Exiting? ==> Due(th) == Nesting(th.stack) && Nested(th.stack))
    && (th.doomed ==>
        (Claims(th) == 0 || (th.pc.At? && 4 <= th.pc.i <= 5 && th.depth == 0) || th.pc == Exiting(0, true)))
  }

  /** The killer's mark has been seen, or will be at the thread's next look. */
  predicate Marked(th: Thread) {
    th.doomed || th.pc.Exiting? || th.pc.Dead?
  }

  predicate Queued(th: Thread) {
    th.pc.At? && th.pc.i == 3
  }

  predicate KillerOk(s: State, t: nat)
    requires t < |s.ts|
  {
    var pc := s.ts[t].pc;
    && (Terminating(pc) ==> pc.u < |s.ts| && pc.u != t)
    && (pc.Look? ==> Marked(s.ts[pc.u]))
    && (pc.Kill? && pc.doomed ==> Marked(s.ts[pc.u]) && !(s.ts[pc.u].pc.At? && s.ts[pc.u].pc.i >= 3))
  }

  /** The registers the thread sees, or will when it has the lock, are its own. */
  ghost predicate RegsOk(s: State, th: Thread) {
    !th.pc.Dead? ==> th.own == if th.depth > 0 then s.g else th.saved
  }

  predicate LockOk(s: State) {
    && (s.owner == NOBODY ==> s.count == 0)
    && (s.owner != NOBODY ==> 0 <= s.owner < |s.ts| && s.count == Claims(s.ts[s.owner]) && s.count > 0)
    && forall t :: 0 <= t < |s.ts| && t != s.owner ==> Claims(s.ts[t]) == 0
  }

  ghost predicate Inv(s: State) {
    && LockOk(s)
    && (forall t :: 0 <= t < |s.ts| ==> Local(s.ts[t]))
    && (forall t :: 0 <= t < |s.ts| ==> RegsOk(s, s.ts[t]))
    && (forall t :: 0 <= t < |s.ts| ==> KillerOk(s, t))
  }

  /** All threads in native code, none known to the lock yet. */
  ghost predicate Init(s: State) {
    && s.owner == NOBODY && s.count == 0
    && forall t :: 0 <= t < |s.ts| ==>
         var th := s.ts[t]; th == Thread(Native, false, FREE, false, 0, th.saved, [], th.saved)
  }

  lemma InitInv(s: State)
    requires Init(s)
    ensures Inv(s)
  {
    forall t | 0 <= t < |s.ts| ensures Local(s.ts[t]) && KillerOk(s, t) && RegsOk(s, s.ts[t]) && Claims(s.ts[t]) == 0 {
      assert s.ts[t].pc == Native;
    }
  }

  // ---- what a step does to the threads ----

  /** Threads neither come nor go. */
  lemma SameThreads(s: State, w: nat, a: Step)
    requires Enabled(s, w, a)
    ensures |Do(s, w, a).ts| == |s.ts|
  {
    if a.KillerStep? {
      SameUnderKill(s, w);
    } else {
      SameOtherwise(s, w, a);
    }
    hide Do, Enabled;
  }

  lemma SameUnderKill(s: State, w: nat)
    requires Enabled(s, w, KillerStep)
    ensures |Do(s, w, KillerStep).ts| == |s.ts|
  {
  }

  lemma SameOtherwise(s: State, w: nat, a: Step)
    requires Enabled(s, w, a) && !a.KillerStep?
    ensures |Do(s, w, a).ts| == |s.ts|
  {
    hide KillStep;
  }

  /** What thread t is after a step of another thread at pc: as it was, or doomed, or dead. */
  ghost predicate Changed(th: Thread, th': Thread, pc: Pc, t: nat) {
    || th' == th
    || (pc == Doom(t) && th' == th.(doomed := true))
    || (pc == Kill(t, false) && th'.pc.Dead? && th' == th.(pc := th'.pc))
    || (pc == Kill(t, true) && th'.pc.Dead? && th' == th.(pc := th'.pc, doomed := false, mark := FREE))
  }

  lemma OtherThread(s: State, w: nat, a: Step, t: nat)
    requires Enabled(s, w, a) && t < |s.ts| && w != t
    ensures |Do(s, w, a).ts| == |s.ts| && Changed(s.ts[t], Do(s, w, a).ts[t], s.ts[w].pc, t)
  {
    SameThreads(s, w, a);
    if a.KillerStep? {
      OtherUnderKill(s, w, t);
    } else {
      OtherOtherwise(s, w, a, t);
    }
    hide Do, Enabled;
  }

  lemma OtherUnderKill(s: State, w: nat, t: nat)
    requires Enabled(s, w, KillerStep) && t < |s.ts| && w != t && |Do(s, w, KillerStep).ts| == |s.ts|
    ensures Changed(s.ts[t], Do(s, w, KillerStep).ts[t], s.ts[w].pc, t)
  {
  }

  lemma OtherOtherwise(s: State, w: nat, a: Step, t: nat)
    requires Enabled(s, w, a) && t < |s.ts| && w != t && |Do(s, w, a).ts| == |s.ts| && !a.KillerStep?
    ensures Do(s, w, a).ts[t] == s.ts[t]
  {
    hide KillStep;
  }

  // ---- keeping it ----

  /** A step of thread t that changes no other thread and gives no lock to it keeps the invariant
      when the thread itself stays in order. */
  lemma OwnStepKeeps(s: State, s': State, t: nat)
    requires Inv(s) && t < |s.ts|
    requires |s'.ts| == |s.ts| && forall w :: 0 <= w < |s.ts| && w != t ==> s'.ts[w] == s.ts[w]
    requires Local(s'.ts[t]) && RegsOk(s', s'.ts[t]) && KillerOk(s', t)
    requires LockOk(s')
    requires s'.g != s.g ==> s.owner == t
    requires Marked(s.ts[t]) ==> Marked(s'.ts[t])
    requires s'.ts[t].pc.At? && s'.ts[t].pc.i >= 3 ==>
      (s.ts[t].pc.At? && s.ts[t].pc.i >= 3) || !Marked(s.ts[t])
    ensures Inv(s')
  {
    hide Claims, Local, Marked;
    forall w | 0 <= w < |s'.ts| ensures Local(s'.ts[w]) && RegsOk(s', s'.ts[w]) && KillerOk(s', w) {
      if w != t {
        assert Local(s.ts[w]) && RegsOk(s, s.ts[w]) && KillerOk(s, w);
        if s.owner == t && !s.ts[w].pc.Dead? {
          DepthIsClaims(s.ts[w]);
        }
      }
    }
  }

  /** A thread without claims has given back its registers. */
  lemma DepthIsClaims(th: Thread)
    requires Local(th) && Claims(th) == 0 && !th.pc.Dead?
    ensures th.depth == 0
  {
  }

  /** What a change of the owner's claims does to the lock. */
  lemma OwnerChanges(s: State, s': State, t: nat)
    requires LockOk(s) && t < |s.ts|
    requires |s'.ts| == |s.ts| && forall w :: 0 <= w < |s.ts| && w != t ==> s'.ts[w] == s.ts[w]
    requires s.owner == t || (s.owner == NOBODY && Claims(s.ts[t]) == 0)
    requires s'.count == Claims(s'.ts[t])
    requires s'.owner == if s'.count == 0 then NOBODY else t
    ensures LockOk(s')
  {
    hide Claims;
    forall w | 0 <= w < |s'.ts| && w != s'.owner ensures Claims(s'.ts[w]) == 0 {
    }
  }

  lemma SameClaims(s: State, s': State, t: nat)
    requires LockOk(s) && t < |s.ts|
    requires |s'.ts| == |s.ts| && forall w :: 0 <= w < |s.ts| && w != t ==> s'.ts[w] == s.ts[w]
    requires s'.owner == s.owner && s'.count == s.count && Claims(s'.ts[t]) == Claims(s.ts[t])
    ensures LockOk(s')
  {
    hide Claims;
  }

  lemma LiftedOwns(s: State, t: nat)
    requires Inv(s) && t < |s.ts| && Claims(s.ts[t]) > 0
    ensures s.owner == t && s.count == Claims(s.ts[t])
  {
  }

  lemma RunStepKeeps(s: State, t: nat, a: Step)
    requires Inv(s) && Enabled(s, t, a)
    requires a.Compute? || a.CallIn? || a.NativeReturn? || a.Finish? || a.Terminate?
    ensures Inv(Do(s, t, a))
  {
    hide LockOk;
    var s' := Do(s, t, a);
    assert Local(s.ts[t]) && RegsOk(s, s.ts[t]) && KillerOk(s, t);
    if a.Compute? || a.Terminate? {
      LiftedOwns(s, t);
    }
    SameClaims(s, s', t);
    OwnStepKeeps(s, s', t);
  }

  lemma LeaveStepKeeps(s: State, t: nat, a: Step)
    requires Inv(s) && Enabled(s, t, a)
    requires a.CallOut? || a.NativeCall? || a.YieldNow? || a.TerminateSelf?
    ensures Inv(Do(s, t, a))
  {
    hide LockOk;
    var s' := Do(s, t, a);
    assert Local(s.ts[t]) && RegsOk(s, s.ts[t]);
    LiftedOwns(s, t);
    OwnerChanges(s, s', t);
    OwnStepKeeps(s, s', t);
  }

  lemma EnterStepKeeps(s: State, t: nat)
    requires Inv(s) && Enabled(s, t, Enter) && s.ts[t].pc.i < 6
    ensures Inv(Do(s, t, Enter))
  {
    hide LockOk, Nesting, Nested;
    var s' := Do(s, t, Enter);
    var th := s.ts[t];
    assert Local(th) && RegsOk(s, th) && KillerOk(s, t);
    FreeLock(s, t);
    if th.pc.i == 3 {
      OwnerChanges(s, s', t);
    } else {
      SameClaims(s, s', t);
    }
    OwnStepKeeps(s, s', t);
  }

  /** The last access of mach_enter: the claim becomes the thread's, and the first one loads its
      registers. */
  lemma TakeStepKeeps(s: State, t: nat)
    requires Inv(s) && Enabled(s, t, Enter) && s.ts[t].pc.i == 6
    ensures Inv(Do(s, t, Enter))
  {
    hide LockOk;
    var s' := Do(s, t, Enter);
    var th := s.ts[t];
    assert Local(th) && RegsOk(s, th) && KillerOk(s, t);
    LiftedOwns(s, t);
    SameClaims(s, s', t);
    OwnStepKeeps(s, s', t);
  }

  lemma FreeLock(s: State, t: nat)
    requires LockOk(s) && t < |s.ts|
    ensures s.owner != t ==> Claims(s.ts[t]) == 0
    ensures s.owner == NOBODY ==> s.count == 0
    ensures s.owner == t ==> s.count == Claims(s.ts[t])
  {
  }

  lemma ExitStepKeeps(s: State, t: nat)
    requires Inv(s) && Enabled(s, t, Exit)
    ensures Inv(Do(s, t, Exit))
  {
    hide LockOk;
    var s' := Do(s, t, Exit);
    var th := s.ts[t];
    assert Local(th) && RegsOk(s, th) && KillerOk(s, t);
    if th.pc.holding && th.pc.stage == 2 {
      LiftedOwns(s, t);
      OwnerChanges(s, s', t);
    } else {
      SameClaims(s, s', t);
    }
    OwnStepKeeps(s, s', t);
  }

  lemma LookKeeps(s: State, t: nat)
    requires Inv(s) && Enabled(s, t, KillerStep) && s.ts[t].pc.Look?
    ensures Inv(Do(s, t, KillerStep))
  {
    hide LockOk, Nesting, Nested;
    var s' := Do(s, t, KillerStep);
    var u := s.ts[t].pc.u;
    assert Local(s.ts[t]) && RegsOk(s, s.ts[t]) && KillerOk(s, t);
    LiftedOwns(s, t);
    OthersHaveNone(s, t, u);
    assert Local(s.ts[u]);
    OwnerChanges(s, s', t);
    OwnStepKeeps(s, s', t);
  }

  lemma ReleaseKeeps(s: State, t: nat)
    requires Inv(s) && Enabled(s, t, KillerStep) && (s.ts[t].pc.Release? || s.ts[t].pc.Join?)
    ensures Inv(Do(s, t, KillerStep))
  {
    hide LockOk, Nesting, Nested;
    var s' := Do(s, t, KillerStep);
    assert Local(s.ts[t]) && RegsOk(s, s.ts[t]);
    if s.ts[t].pc.Release? && s.ts[t].pc.left > 0 {
      LiftedOwns(s, t);
      OwnerChanges(s, s', t);
    } else {
      SameClaims(s, s', t);
    }
    OwnStepKeeps(s, s', t);
  }

  lemma RetakeKeeps(s: State, t: nat)
    requires Inv(s) && Enabled(s, t, KillerStep) && s.ts[t].pc.Retake?
    ensures Inv(Do(s, t, KillerStep))
  {
    hide LockOk, Nesting, Nested;
    var s' := Do(s, t, KillerStep);
    assert Local(s.ts[t]) && RegsOk(s, s.ts[t]);
    LiftedOwns(s, t);
    OwnerChanges(s, s', t);
    OwnStepKeeps(s, s', t);
  }

  lemma OthersHaveNone(s: State, t: nat, u: nat)
    requires LockOk(s) && s.owner == t && u < |s.ts| && u != t
    ensures Claims(s.ts[u]) == 0
  {
  }

  /** Dooming a thread that has no claims keeps the invariant. */
  lemma DoomKeeps(s: State, t: nat)
    requires Inv(s) && Enabled(s, t, KillerStep) && s.ts[t].pc.Doom?
    ensures Inv(Do(s, t, KillerStep))
  {
    hide Nesting, Nested;
    var s' := Do(s, t, KillerStep);
    var u := s.ts[t].pc.u;
    assert Local(s.ts[t]) && KillerOk(s, t) && RegsOk(s, s.ts[t]);
    LiftedOwns(s, t);
    OthersHaveNone(s, t, u);
    assert Local(s.ts[u]) && RegsOk(s, s.ts[u]);
    forall w | 0 <= w < |s'.ts| ensures Local(s'.ts[w]) && RegsOk(s', s'.ts[w]) && KillerOk(s', w) {
      assert Local(s.ts[w]) && RegsOk(s, s.ts[w]) && KillerOk(s, w);
    }
    forall w | 0 <= w < |s'.ts| && w != s'.owner ensures Claims(s'.ts[w]) == 0 {
      assert Claims(s.ts[w]) == 0;
    }
  }

  /** Terminating a thread for real keeps the invariant. */
  lemma KillKeeps(s: State, t: nat)
    requires Inv(s) && Enabled(s, t, KillerStep) && s.ts[t].pc.Kill?
    ensures Inv(Do(s, t, KillerStep))
  {
    hide Nesting, Nested;
    var s' := Do(s, t, KillerStep);
    var u := s.ts[t].pc.u;
    assert Local(s.ts[t]) && KillerOk(s, t) && RegsOk(s, s.ts[t]);
    LiftedOwns(s, t);
    OthersHaveNone(s, t, u);
    assert Local(s.ts[u]);
    forall w | 0 <= w < |s'.ts| ensures Local(s'.ts[w]) && RegsOk(s', s'.ts[w]) && KillerOk(s', w) {
      assert Local(s.ts[w]) && RegsOk(s, s.ts[w]) && KillerOk(s, w);
      if w != t && w != u {
        OthersHaveNone(s, t, w);
        if !s.ts[w].pc.Dead? {
          DepthIsClaims(s.ts[w]);
        }
      }
    }
    forall w | 0 <= w < |s'.ts| && w != s'.owner ensures Claims(s'.ts[w]) == 0 {
      assert Claims(s.ts[w]) == 0;
    }
  }

  lemma StepKeeps(s: State, t: nat, a: Step)
    requires Inv(s) && Enabled(s, t, a)
    ensures Inv(Do(s, t, a))
  {
    match a
    case Enter =>
      if s.ts[t].pc.i < 6 {
        EnterStepKeeps(s, t);
      } else {
        TakeStepKeeps(s, t);
      }
    case Exit => ExitStepKeeps(s, t);
    case KillerStep =>
      match s.ts[t].pc {
        case Doom(_) => DoomKeeps(s, t);
        case Kill(_, _) => KillKeeps(s, t);
        case Look(_) => LookKeeps(s, t);
        case Retake(_, _) => RetakeKeeps(s, t);
        case _ => ReleaseKeeps(s, t);
      }
    case CallOut => LeaveStepKeeps(s, t, a);
    case NativeCall => LeaveStepKeeps(s, t, a);
    case YieldNow => LeaveStepKeeps(s, t, a);
    case TerminateSelf => LeaveStepKeeps(s, t, a);
    case _ => RunStepKeeps(s, t, a);
  }

  // ---- runs ----

  /** One scheduled step: which thread, and what it does. */
  datatype Move = Move(t: nat, a: Step)

  ghost predicate Run(states: seq<State>, moves: seq<Move>) {
    && |states| == |moves| + 1 && Init(states[0])
    && forall i :: 0 <= i < |moves| ==>
         Enabled(states[i], moves[i].t, moves[i].a) && states[i + 1] == Do(states[i], moves[i].t, moves[i].a)
  }

  lemma {:induction false} RunKeeps(states: seq<State>, moves: seq<Move>, i: nat)
    requires Run(states, moves) && i < |states|
    ensures Inv(states[i])
    decreases i
  {
    hide Inv, Init, Do, Enabled;
    if i == 0 {
      InitInv(states[0]);
    } else {
      RunKeeps(states, moves, i - 1);
      StepKeeps(states[i - 1], moves[i - 1].t, moves[i - 1].a);
    }
  }

  // ---- what it gives ----

  /** Lifted code runs in one thread at a time, and there the lock's recursion count is the thread's
      depth, which is how deeply its callbacks nest. */
  lemma OneThreadRuns(states: seq<State>, moves: seq<Move>, i: nat, t: nat)
    requires Run(states, moves) && i < |states| && t < |states[i].ts| && states[i].ts[t].pc == Lifted
    ensures var s := states[i];
      && s.owner == t && s.count == s.ts[t].depth == Nesting(s.ts[t].stack)
      && forall w :: 0 <= w < |s.ts| && s.ts[w].pc == Lifted ==> w == t
  {
    RunKeeps(states, moves, i);
    var s := states[i];
    assert Local(s.ts[t]);
    LiftedOwns(s, t);
    forall w | 0 <= w < |s.ts| && s.ts[w].pc == Lifted ensures w == t {
      assert Local(s.ts[w]);
      LiftedOwns(s, w);
    }
  }

  /** Register isolation: the one global register file hands over so that every thread sees what it
      would see alone. While a thread has claims the global registers are its own; otherwise its save
      area holds them; in particular what its outermost mach_enter loads is what its last outermost
      mach_leave stored. */
  lemma RegistersAreOwn(states: seq<State>, moves: seq<Move>, i: nat, t: nat)
    requires Run(states, moves) && i < |states| && t < |states[i].ts| && !states[i].ts[t].pc.Dead?
    ensures var s := states[i];
      s.ts[t].own == if s.ts[t].depth > 0 then s.g else s.ts[t].saved
  {
    RunKeeps(states, moves, i);
    assert RegsOk(states[i], states[i].ts[t]);
  }

  /** The hand-over itself: the register file a thread's outermost mach_enter leaves is the one its last
      outermost mach_leave left, whoever ran in between. */
  lemma HandOver(states: seq<State>, moves: seq<Move>, i: nat, j: nat, t: nat)
    requires Run(states, moves) && i < j < |moves|
    requires forall k :: i <= k <= j + 1 ==> t < |states[k].ts|
    requires states[i].ts[t].depth > 0 && states[j + 1].ts[t].depth > 0
    requires forall k :: i < k <= j ==> states[k].ts[t].depth == 0
    ensures states[j + 1].g == states[i + 1].g
  {
    hide Do, Enabled, Inv;
    RunKeeps(states, moves, i);
    Joined(states, moves, i);
    Joined(states, moves, j);
    Leaves(states[i], moves[i].t, moves[i].a, t);
    SavedKept(states, moves, i + 1, j, t);
    RunKeeps(states, moves, j);
    Loads(states[j], moves[j].t, moves[j].a, t);
  }

  lemma Joined(states: seq<State>, moves: seq<Move>, i: nat)
    requires Run(states, moves) && i < |moves|
    ensures Enabled(states[i], moves[i].t, moves[i].a) && states[i + 1] == Do(states[i], moves[i].t, moves[i].a)
  {
    hide Do, Enabled;
  }

  lemma {:induction false} SavedKept(states: seq<State>, moves: seq<Move>, i: nat, j: nat, t: nat)
    requires Run(states, moves) && i <= j < |states|
    requires forall k :: i <= k <= j ==> t < |states[k].ts| && states[k].ts[t].depth == 0
    ensures states[j].ts[t].saved == states[i].ts[t].saved
    decreases j
  {
    hide Do, Enabled, Inv;
    if i < j {
      SavedKept(states, moves, i, j - 1, t);
      RunKeeps(states, moves, j - 1);
      Joined(states, moves, j - 1);
      SavedStays(states[j - 1], moves[j - 1].t, moves[j - 1].a, t);
    }
  }

  /** A thread's last claim stores its registers when it goes. */
  lemma Leaves(s: State, w: nat, a: Step, t: nat)
    requires Inv(s) && Enabled(s, w, a) && t < |s.ts| && s.ts[t].depth > 0
    requires t < |Do(s, w, a).ts| && Do(s, w, a).ts[t].depth == 0
    ensures var s' := Do(s, w, a); s'.ts[t].saved == s'.g
  {
    if w != t {
      OtherThread(s, w, a, t);
    } else {
      OwnLeaves(s, t, a);
    }
    hide Do, Enabled, Inv;
  }

  lemma OwnLeaves(s: State, t: nat, a: Step)
    requires Inv(s) && Enabled(s, t, a) && t < |s.ts| && s.ts[t].depth > 0
    requires t < |Do(s, t, a).ts| && Do(s, t, a).ts[t].depth == 0
    ensures var s' := Do(s, t, a); s'.ts[t].saved == s'.g
  {
    hide LockOk, Nesting, Nested, Claims, RegsOk, KillerOk, Due;
    assert Local(s.ts[t]);
  }

  /** Nobody touches a save area while its thread has no claim. */
  lemma SavedStays(s: State, w: nat, a: Step, t: nat)
    requires Inv(s) && Enabled(s, w, a) && t < |s.ts| && s.ts[t].depth == 0
    requires t < |Do(s, w, a).ts| && Do(s, w, a).ts[t].depth == 0
    ensures Do(s, w, a).ts[t].saved == s.ts[t].saved
  {
    if w != t {
      OtherThread(s, w, a, t);
    } else {
      OwnSavedStays(s, t, a);
    }
    hide Do, Enabled, Inv;
  }

  lemma OwnSavedStays(s: State, t: nat, a: Step)
    requires Inv(s) && Enabled(s, t, a) && t < |s.ts| && s.ts[t].depth == 0
    requires t < |Do(s, t, a).ts| && Do(s, t, a).ts[t].depth == 0
    ensures Do(s, t, a).ts[t].saved == s.ts[t].saved
  {
    hide LockOk, Nesting, Nested, Claims, RegsOk, KillerOk, Due;
    assert Local(s.ts[t]);
  }

  /** A thread's first claim loads them. */
  lemma Loads(s: State, w: nat, a: Step, t: nat)
    requires Inv(s) && Enabled(s, w, a) && t < |s.ts| && s.ts[t].depth == 0
    requires t < |Do(s, w, a).ts| && Do(s, w, a).ts[t].depth > 0
    ensures Do(s, w, a).g == s.ts[t].saved
  {
    if w != t {
      OtherThread(s, w, a, t);
    } else {
      OwnLoads(s, t, a);
    }
    hide Do, Enabled, Inv;
  }

  lemma OwnLoads(s: State, t: nat, a: Step)
    requires Inv(s) && Enabled(s, t, a) && t < |s.ts| && s.ts[t].depth == 0
    requires t < |Do(s, t, a).ts| && Do(s, t, a).ts[t].depth > 0
    ensures Do(s, t, a).g == s.ts[t].saved
  {
    hide LockOk, Nesting, Nested, Claims, RegsOk, KillerOk, Due;
    assert Local(s.ts[t]);
  }

  /** Only a thread's own computing, the end of its callback (which puts back what cb_run saved) and
      the result of its TerminateThread change the registers it sees. */
  lemma OthersChangeNothing(states: seq<State>, moves: seq<Move>, i: nat, t: nat)
    requires Run(states, moves) && i < |moves| && t < |states[i].ts|
    requires moves[i].t != t || !(moves[i].a.Compute? || moves[i].a.CallOut? || moves[i].a.KillerStep?)
    ensures |states[i + 1].ts| == |states[i].ts| && states[i + 1].ts[t].own == states[i].ts[t].own
  {
    hide Do;
    OwnKept(states[i], moves[i].t, moves[i].a, t);
  }

  lemma OwnKept(s: State, w: nat, a: Step, t: nat)
    requires Enabled(s, w, a) && t < |s.ts|
    requires w != t || !(a.Compute? || a.CallOut? || a.KillerStep?)
    ensures var s' := Do(s, w, a); |s'.ts| == |s.ts| && s'.ts[t].own == s.ts[t].own
  {
    if w != t {
      OthersOwnKept(s, w, a, t);
    } else {
      MoverOwnKept(s, w, a);
    }
    hide Do, Enabled;
  }

  lemma OthersOwnKept(s: State, w: nat, a: Step, t: nat)
    requires Enabled(s, w, a) && t < |s.ts| && w != t
    ensures var s' := Do(s, w, a); |s'.ts| == |s.ts| && s'.ts[t].own == s.ts[t].own
  {
    OtherThread(s, w, a, t);
    hide Do, Enabled;
  }

  lemma MoverOwnKept(s: State, w: nat, a: Step)
    requires Enabled(s, w, a) && !(a.Compute? || a.CallOut? || a.KillerStep?)
    ensures var s' := Do(s, w, a); |s'.ts| == |s.ts| && s'.ts[w].own == s.ts[w].own
  {
    hide KillStep;
  }

  /** A doomed thread never runs lifted code: it exits at its next entry of the lock. */
  lemma DoomedNeverRuns(states: seq<State>, moves: seq<Move>, i: nat, t: nat)
    requires Run(states, moves) && i < |states| && t < |states[i].ts| && states[i].ts[t].doomed
    ensures states[i].ts[t].pc != Lifted && !(states[i].ts[t].pc.At? && states[i].ts[t].pc.i == 6)
  {
    RunKeeps(states, moves, i);
    assert Local(states[i].ts[t]);
  }

  /** A thread about to be terminated for real, after being doomed and seen not waiting, is not
      queued on the lock, cannot queue any more, and holds no claim. */
  lemma KilledNeverQueued(states: seq<State>, moves: seq<Move>, i: nat, t: nat, u: nat)
    requires Run(states, moves) && i < |states| && t < |states[i].ts| && states[i].ts[t].pc == Kill(u, true)
    ensures var s := states[i];
      && u < |s.ts| && u != t && !Queued(s.ts[u]) && Claims(s.ts[u]) == 0
      && (s.ts[u].pc.At? ==> s.ts[u].pc.i <= 2 && s.ts[u].doomed)
  {
    RunKeeps(states, moves, i);
    var s := states[i];
    assert KillerOk(s, t) && Local(s.ts[t]);
    LiftedOwns(s, t);
    OthersHaveNone(s, t, u);
  }

  /** A killer that gave up d claims has exactly d again, and its registers with only the result
      changed, when its TerminateThread returns. */
  lemma ClaimsAreRetaken(states: seq<State>, moves: seq<Move>, i: nat, t: nat)
    requires Run(states, moves) && i < |moves| && moves[i] == Move(t, KillerStep)
    requires states[i].ts[t].pc.Retake? && states[i].ts[t].pc.left == 0
    ensures var s, s' := states[i], states[i + 1];
      && s'.ts[t].pc == Lifted && s'.owner == t
      && s'.count == s'.ts[t].depth == s.ts[t].pc.d == Nesting(s'.ts[t].stack)
      && s'.g == s.ts[t].own.(eax := 1)
  {
    hide Inv, Do;
    RunKeeps(states, moves, i);
    RegistersAreOwn(states, moves, i, t);
    RetakeEnds(states[i], t);
    OneThreadRuns(states, moves, i + 1, t);
  }

  lemma RetakeEnds(s: State, t: nat)
    requires Inv(s) && Enabled(s, t, KillerStep) && s.ts[t].pc.Retake? && s.ts[t].pc.left == 0
    ensures var s' := Do(s, t, KillerStep);
      && |s'.ts| == |s.ts| && s'.ts[t].pc == Lifted && s'.ts[t].depth == s.ts[t].pc.d
      && s'.g == s.g.(eax := 1) && s.ts[t].depth == 1
  {
    assert Local(s.ts[t]);
  }

  /** A doomed thread that got the lock before it exited leaves it free. */
  lemma ExitFreesLock(states: seq<State>, moves: seq<Move>, i: nat, t: nat)
    requires Run(states, moves) && i < |moves| && moves[i] == Move(t, Exit) && states[i].ts[t].pc == Exiting(2, true)
    ensures states[i + 1].owner == NOBODY
  {
    RunKeeps(states, moves, i);
    LiftedOwns(states[i], t);
  }

  // ---- where the code falls short ----

  /** A thread that terminates itself gives the lock up exactly when it has one claim: mach_leave
      releases one, and ExitThread none. */
  lemma SelfTerminationFreesLock(states: seq<State>, moves: seq<Move>, i: nat, t: nat)
    requires Run(states, moves) && i < |moves| && moves[i] == Move(t, TerminateSelf)
    ensures states[i + 1].owner == NOBODY <==> states[i].ts[t].depth == 1
    ensures states[i].ts[t].depth > 1 ==>
      states[i + 1].owner == t && states[i + 1].ts[t].pc.Dead? && states[i + 1].count == states[i].ts[t].depth - 1
  {
    OneThreadRuns(states, moves, i, t);
  }

  /** A thread that ends in native code, as ExitThread does inside a native call, frees the lock exactly
      when no callback of it is in progress; otherwise it takes its claims with it. */
  lemma EndFreesLock(states: seq<State>, moves: seq<Move>, i: nat, t: nat)
    requires Run(states, moves) && i < |moves| && moves[i] == Move(t, Finish)
    ensures states[i].ts[t].depth == Nesting(states[i].ts[t].stack)
    ensures states[i + 1].owner == t <==> Nesting(states[i].ts[t].stack) > 0
    ensures Nesting(states[i].ts[t].stack) > 0 ==> states[i + 1].ts[t].pc.Dead?
  {
    hide Nesting, Nested;
    RunKeeps(states, moves, i);
    assert Local(states[i].ts[t]);
    FreeLock(states[i], t);
  }

  /** A lock left with a dead owner stays so for ever: no thread enters it again. */
  lemma {:induction false} OrphanedForEver(states: seq<State>, moves: seq<Move>, i: nat, j: nat, t: nat)
    requires Run(states, moves) && i <= j < |states|
    requires t < |states[i].ts| && states[i].owner == t && states[i].ts[t].pc.Dead?
    ensures |states[j].ts| == |states[i].ts| && states[j].owner == t && states[j].ts[t].pc.Dead?
    decreases j
  {
    if i < j {
      OrphanedForEver(states, moves, i, j - 1, t);
      RunKeeps(states, moves, j - 1);
      OrphanStays(states[j - 1], moves[j - 1].t, moves[j - 1].a, t);
    }
  }

  lemma OrphanStays(s: State, w: nat, a: Step, t: nat)
    requires Inv(s) && Enabled(s, w, a) && t < |s.ts| && s.owner == t && s.ts[t].pc.Dead?
    ensures var s' := Do(s, w, a); |s'.ts| == |s.ts| && s'.owner == t && s'.ts[t].pc.Dead?
  {
    assert Local(s.ts[w]) && KillerOk(s, w);
    if w != t {
      OthersHaveNone(s, t, w);
    }
  }

  lemma Extend(states: seq<State>, moves: seq<Move>, t: nat, a: Step)
    requires Run(states, moves) && Enabled(states[|moves|], t, a)
    ensures Run(states + [Do(states[|moves|], t, a)], moves + [Move(t, a)])
  {
    hide Do, Enabled, Init;
    var states', moves' := states + [Do(states[|moves|], t, a)], moves + [Move(t, a)];
    forall i | 0 <= i < |moves'|
      ensures Enabled(states'[i], moves'[i].t, moves'[i].a)
        && states'[i + 1] == Do(states'[i], moves'[i].t, moves'[i].a)
    {
      if i < |moves| {
        assert states'[i] == states[i] && states'[i + 1] == states[i + 1] && moves'[i] == moves[i];
      }
    }
  }

  lemma Go(states: seq<State>, moves: seq<Move>, t: nat, a: Step) returns (states': seq<State>, moves': seq<Move>)
    requires Run(states, moves) && Enabled(states[|moves|], t, a)
    ensures Run(states', moves') && states'[|moves'|] == Do(states[|moves|], t, a)
    ensures states' == states + [states'[|moves'|]] && moves' == moves + [Move(t, a)]
  {
    hide Do, Enabled;
    Extend(states, moves, t, a);
    states', moves' := states + [Do(states[|moves|], t, a)], moves + [Move(t, a)];
  }
}
