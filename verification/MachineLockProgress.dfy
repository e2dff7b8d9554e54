/**
 What a thread waits for at the machine lock (mach_enter and shim_TerminateThread in
 runtime/native32/native32.c): only for the lock and, in TerminateThread, for a thread that is on its way
 out. Every other step is always possible, and unless the lock's owner is dead somebody can go on.
 */
module MachineLockProgress {
  import opened MachineLock
  import opened MachineLockSafety

  /** A thread that is doomed and has marked itself waiting, or that ends already. */
  predicate Leaving(th: Thread) {
    th.pc.Exiting? || th.pc.Dead? || (th.doomed && th.pc.At? && 2 <= th.pc.i <= 5)
  }

  /** The waiting mark is what it says, and a killer waits for a thread that is leaving. */
  predicate WaitOk(s: State, t: nat)
    requires t < |s.ts|
  {
    var th := s.ts[t];
    && (th.mark == WAITING ==> (th.pc.At? && 2 <= th.pc.i <= 4) || th.pc.Exiting? || th.pc.Dead?)
    && (th.pc.Exiting? ==> th.pc.stage <= 2)
    && (th.pc.Release? || th.pc.Join? ==> th.pc.u < |s.ts| && th.pc.u != t && Leaving(s.ts[th.pc.u]))
  }

  ghost predicate WaitsOk(s: State) {
    forall t :: 0 <= t < |s.ts| ==> WaitOk(s, t)
  }

  /** A thread that is leaving does not turn back. */
  lemma LeavingStays(s: State, w: nat, a: Step, u: nat)
    requires Enabled(s, w, a) && u < |s.ts| && Leaving(s.ts[u])
    ensures |Do(s, w, a).ts| == |s.ts| && Leaving(Do(s, w, a).ts[u])
  {
    if w == u {
      OwnLeaving(s, u, a);
    } else {
      OtherLeaving(s, w, a, u);
    }
    hide Do, Enabled;
  }

  lemma OwnLeaving(s: State, u: nat, a: Step)
    requires Enabled(s, u, a) && Leaving(s.ts[u])
    ensures |Do(s, u, a).ts| == |s.ts| && Leaving(Do(s, u, a).ts[u])
  {
  }

  lemma OtherLeaving(s: State, w: nat, a: Step, u: nat)
    requires Enabled(s, w, a) && u < |s.ts| && w != u && Leaving(s.ts[u])
    ensures |Do(s, w, a).ts| == |s.ts| && Leaving(Do(s, w, a).ts[u])
  {
    OtherThread(s, w, a, u);
    hide Do, Enabled;
  }

  /** A step keeps its own thread's marks. */
  lemma OwnWait(s: State, t: nat, a: Step)
    requires Inv(s) && Enabled(s, t, a) && WaitsOk(s)
    ensures |Do(s, t, a).ts| == |s.ts| && WaitOk(Do(s, t, a), t)
  {
    hide Do, Enabled, Inv;
    assert t < |s.ts| by {
      InRange(s, t, a);
    }
    var pc := s.ts[t].pc;
    assert WaitOk(s, t);
    if a.KillerStep? && pc.Look? {
      LookedAt(s, t);
      assert WaitOk(s, pc.u);
      LookWait(s, t);
    } else if a.KillerStep? && pc.Release? {
      LeavingStays(s, t, a, pc.u);
      ReleaseWait(s, t);
    } else {
      OwnMarks(s, t, a);
    }
  }

  lemma InRange(s: State, t: nat, a: Step)
    requires Enabled(s, t, a)
    ensures t < |s.ts|
  {
  }

  lemma OwnMarks(s: State, t: nat, a: Step)
    requires Enabled(s, t, a) && WaitOk(s, t) && !(a.KillerStep? && (s.ts[t].pc.Look? || s.ts[t].pc.Release?))
    ensures |Do(s, t, a).ts| == |s.ts| && WaitOk(Do(s, t, a), t)
  {
    SameThreads(s, t, a);
    if a.KillerStep? {
      KillerMarks(s, t);
    } else {
      MoverMarks(s, t, a);
    }
    hide Do, Enabled, Leaving;
  }

  lemma KillerMarks(s: State, t: nat)
    requires Enabled(s, t, KillerStep) && !s.ts[t].pc.Look? && !s.ts[t].pc.Release?
    requires |Do(s, t, KillerStep).ts| == |s.ts|
    ensures var th, th' := s.ts[t], Do(s, t, KillerStep).ts[t];
      && (th'.mark == th.mark || th'.mark == FREE)
      && !th.pc.At? && !th.pc.Exiting? && !th.pc.Dead?
      && !th'.pc.Exiting? && !th'.pc.Release? && !th'.pc.Join?
  {
  }

  lemma MoverMarks(s: State, t: nat, a: Step)
    requires Enabled(s, t, a) && !a.KillerStep? && |Do(s, t, a).ts| == |s.ts|
    ensures var th, th' := s.ts[t], Do(s, t, a).ts[t];
      && !th'.pc.Release? && !th'.pc.Join?
      && (th'.mark == WAITING ==>
            if th.mark == WAITING then
              (th.pc.At? && 2 <= th.pc.i <= 4 ==> (th'.pc.At? && 2 <= th'.pc.i <= 4) || th'.pc.Exiting? || th'.pc.Dead?)
              && (th.pc.Exiting? ==> th'.pc.Exiting? || th'.pc.Dead?) && !th.pc.Dead?
            else th'.pc.At? && th'.pc.i == 2)
      && (th'.pc.Exiting? ==> th'.pc.stage <= 2)
  {
    if a.Enter? {
      EnterMarks(s, t);
    } else if a.Exit? {
      ExitMarks(s, t);
    } else {
      PlainMarks(s, t, a);
    }
    hide Do, Enabled;
  }

  lemma EnterMarks(s: State, t: nat)
    requires Enabled(s, t, Enter) && |Do(s, t, Enter).ts| == |s.ts|
    ensures var th, th' := s.ts[t], Do(s, t, Enter).ts[t];
      && th.pc.At? && !th'.pc.Release? && !th'.pc.Join?
      && (th'.mark == WAITING ==>
            if th.mark == WAITING then
              2 <= th.pc.i <= 4 ==> (th'.pc.At? && 2 <= th'.pc.i <= 4) || th'.pc.Exiting?
            else th'.pc.At? && th'.pc.i == 2)
      && (th'.pc.Exiting? ==> th'.pc.stage == 0)
  {
  }

  lemma ExitMarks(s: State, t: nat)
    requires Enabled(s, t, Exit) && |Do(s, t, Exit).ts| == |s.ts|
    ensures var th, th' := s.ts[t], Do(s, t, Exit).ts[t];
      && th.pc.Exiting? && (th'.pc.Dead? || (th'.pc.Exiting? && th'.pc.stage <= 2))
      && (th'.mark == WAITING ==> th.mark == WAITING)
  {
  }

  lemma PlainMarks(s: State, t: nat, a: Step)
    requires Enabled(s, t, a) && !a.KillerStep? && !a.Enter? && !a.Exit? && |Do(s, t, a).ts| == |s.ts|
    ensures var th, th' := s.ts[t], Do(s, t, a).ts[t];
      && !th.pc.At? && !th.pc.Exiting? && !th.pc.Dead? && !th'.pc.Release? && !th'.pc.Join? && !th'.pc.Exiting?
      && (th'.mark == WAITING ==> th.mark == WAITING)
  {
    hide KillStep, EnterStep, ExitStep;
  }

  lemma LookedAt(s: State, t: nat)
    requires Inv(s) && t < |s.ts| && s.ts[t].pc.Look?
    ensures var u := s.ts[t].pc.u; u < |s.ts| && u != t && Marked(s.ts[u])
  {
    assert KillerOk(s, t);
  }

  lemma LookWait(s: State, t: nat)
    requires Enabled(s, t, KillerStep) && s.ts[t].pc.Look? && WaitOk(s, t)
    requires var u := s.ts[t].pc.u; u < |s.ts| && u != t && Marked(s.ts[u]) && WaitOk(s, u)
    ensures |Do(s, t, KillerStep).ts| == |s.ts| && WaitOk(Do(s, t, KillerStep), t)
  {
    var u := s.ts[t].pc.u;
    assert Do(s, t, KillerStep).ts[u] == s.ts[u];
  }

  lemma ReleaseWait(s: State, t: nat)
    requires Enabled(s, t, KillerStep) && s.ts[t].pc.Release? && WaitOk(s, t)
    requires |Do(s, t, KillerStep).ts| == |s.ts| && Leaving(Do(s, t, KillerStep).ts[s.ts[t].pc.u])
    ensures WaitOk(Do(s, t, KillerStep), t)
  {
  }

  /** Another thread's step keeps a thread's marks. */
  lemma OtherWait(s: State, w: nat, a: Step, t: nat)
    requires Enabled(s, w, a) && t < |s.ts| && w != t && WaitOk(s, t)
    ensures |Do(s, w, a).ts| == |s.ts| && WaitOk(Do(s, w, a), t)
  {
    var pc := s.ts[t].pc;
    if pc.Release? || pc.Join? {
      LeavingStays(s, w, a, pc.u);
    }
    OtherMarks(s, w, a, t);
    hide Do, Enabled, Leaving;
  }

  lemma OtherMarks(s: State, w: nat, a: Step, t: nat)
    requires Enabled(s, w, a) && t < |s.ts| && w != t
    ensures |Do(s, w, a).ts| == |s.ts|
    ensures var th, th' := s.ts[t], Do(s, w, a).ts[t];
      (th'.pc == th.pc || th'.pc.Dead?) && (th'.mark == th.mark || th'.mark == FREE)
  {
    OtherThread(s, w, a, t);
    hide Do, Enabled;
  }

  lemma StepKeepsWaits(s: State, w: nat, a: Step)
    requires Inv(s) && WaitsOk(s) && Enabled(s, w, a)
    ensures WaitsOk(Do(s, w, a))
  {
    hide Do, Enabled, Inv, WaitOk;
    SameThreads(s, w, a);
    forall t | 0 <= t < |Do(s, w, a).ts|
      ensures WaitOk(Do(s, w, a), t)
    {
      if t == w {
        OwnWait(s, w, a);
      } else {
        OtherWait(s, w, a, t);
      }
    }
  }

  lemma {:induction false} WaitsKept(states: seq<State>, moves: seq<Move>, i: nat)
    requires Run(states, moves) && i < |states|
    ensures WaitsOk(states[i])
    decreases i
  {
    hide Do, Enabled, Inv, WaitOk;
    if i == 0 {
      WaitsAtStart(states[0]);
    } else {
      WaitsKept(states, moves, i - 1);
      RunKeeps(states, moves, i - 1);
      Joined(states, moves, i - 1);
      StepKeepsWaits(states[i - 1], moves[i - 1].t, moves[i - 1].a);
    }
  }

  lemma WaitsAtStart(s: State)
    requires Init(s)
    ensures WaitsOk(s)
  {
    forall t | 0 <= t < |s.ts| ensures WaitOk(s, t) {
      assert s.ts[t].pc == Native;
    }
  }

  // ---- what a thread can do ----

  /** In every reachable state a thread can do what its place in the code asks for; it waits only for the
      lock, and for the thread it terminates. */
  lemma MovesAre(states: seq<State>, moves: seq<Move>, i: nat, t: nat, a: Step)
    requires Run(states, moves) && i < |states| && t < |states[i].ts|
    ensures var s := states[i]; var th := s.ts[t];
      Enabled(s, t, a) <==>
      match a
      case Compute(_) => th.pc == Lifted
      case CallIn => th.pc == Native || th.pc == Lifted
      case CallOut => th.pc == Lifted && th.stack != [] && th.stack[0].InCallback?
      case NativeCall => th.pc == Lifted
      case NativeReturn => th.pc == Native && th.stack != [] && th.stack[0] == InNative
      case YieldNow => th.pc == Lifted && Nesting(th.stack) == 1
      case Enter => th.pc.At? && (th.pc.i == 3 ==> s.owner == -1 || s.owner == t)
      case Exit => th.pc.Exiting?
      case Finish => th.pc == Native
      case Terminate(u) => th.pc == Lifted && u < |s.ts| && u != t
      case TerminateSelf => th.pc == Lifted
      case KillerStep =>
        || th.pc.Doom? || th.pc.Look? || th.pc.Release? || th.pc.Retake? || th.pc.Kill?
        || (th.pc.Join? && th.pc.u < |s.ts| && s.ts[th.pc.u].pc.Dead?)
  {
    hide Inv, WaitsOk, Nesting;
    RunKeeps(states, moves, i);
    WaitsKept(states, moves, i);
    InOrder(states[i], t);
  }

  /** What the invariants say of a thread at each place. */
  lemma InOrder(s: State, t: nat)
    requires Inv(s) && WaitsOk(s) && t < |s.ts|
    ensures var pc := s.ts[t].pc;
      && (pc == Lifted ==> s.count > 0 && s.ts[t].depth == Nesting(s.ts[t].stack))
      && (pc.At? ==> pc.i <= 6)
      && (pc.Exiting? ==> pc.stage <= 2 && (pc.holding ==> s.count > 0))
      && (Terminating(pc) ==> pc.u < |s.ts| && pc.u != t && s.count > 0)
      && (pc.Release? ==> pc.left > 0 ==> s.count > 0)
      && (pc.Release? || pc.Join? ==> pc.u < |s.ts| && pc.u != t && Leaving(s.ts[pc.u]))
      && (pc.Retake? ==> s.owner == t)
  {
    hide Nesting, Nested, Leaving;
    assert Local(s.ts[t]) && KillerOk(s, t) && WaitOk(s, t);
    FreeLock(s, t);
  }

  // ---- nobody waits for ever for nothing ----

  /** A thread can go on: it has a step that it does not wait for. */
  ghost predicate CanGoOn(s: State, t: nat) {
    exists a :: Enabled(s, t, a)
  }

  /** The only threads that cannot go on are those that have ended, those queued on a lock another thread
      has, and killers whose target has not ended yet. */
  lemma WaitsForOnly(states: seq<State>, moves: seq<Move>, i: nat, t: nat)
    requires Run(states, moves) && i < |states| && t < |states[i].ts|
    ensures var s := states[i]; var pc := s.ts[t].pc;
      !CanGoOn(s, t) <==>
      || pc.Dead?
      || (pc.At? && pc.i == 3 && s.owner != -1 && s.owner != t)
      || (pc.Join? && pc.u < |s.ts| && !s.ts[pc.u].pc.Dead?)
  {
    hide Enabled, Inv, Nesting, Do, Run, WaitsOk, Leaving;
    var s := states[i];
    var pc := s.ts[t].pc;
    AtOrder(states, moves, i, t);
    MovesAre(states, moves, i, t, CallIn);
    MovesAre(states, moves, i, t, Enter);
    MovesAre(states, moves, i, t, Exit);
    MovesAre(states, moves, i, t, KillerStep);
    if CanGoOn(s, t) {
      var a :| Enabled(s, t, a);
      MovesAre(states, moves, i, t, a);
    }
  }

  lemma AtOrder(states: seq<State>, moves: seq<Move>, i: nat, t: nat)
    requires Run(states, moves) && i < |states| && t < |states[i].ts|
    ensures var s := states[i]; var pc := s.ts[t].pc;
      pc.Release? || pc.Join? ==> pc.u < |s.ts| && pc.u != t && Leaving(s.ts[pc.u])
  {
    hide Do, Enabled, Inv, WaitsOk;
    RunKeeps(states, moves, i);
    WaitsKept(states, moves, i);
    InOrder(states[i], t);
  }

  /** A thread that waits does so for a thread that can go on: the lock's owner, or the target of its kill,
      or the owner of the lock that target is queued on; or else the lock's owner is dead. */
  lemma WaitsForSomebody(states: seq<State>, moves: seq<Move>, i: nat, t: nat)
    requires Run(states, moves) && i < |states| && t < |states[i].ts|
    requires !states[i].ts[t].pc.Dead? && !CanGoOn(states[i], t)
    ensures var s := states[i]; var pc := s.ts[t].pc;
      || (pc.Join? && pc.u < |s.ts| && CanGoOn(s, pc.u))
      || (0 <= s.owner < |s.ts| && (CanGoOn(s, s.owner) || s.ts[s.owner].pc.Dead?))
  {
    hide CanGoOn, Inv, Do, Run, WaitsOk;
    var s := states[i];
    var pc := s.ts[t].pc;
    WaitsForOnly(states, moves, i, t);
    OwnerGoesOn(states, moves, i);
    if pc.Join? {
      AtOrder(states, moves, i, t);
      WaitsForOnly(states, moves, i, pc.u);
    }
  }

  lemma OwnerGoesOn(states: seq<State>, moves: seq<Move>, i: nat)
    requires Run(states, moves) && i < |states|
    ensures var s := states[i];
      s.owner != -1 ==> 0 <= s.owner < |s.ts| && (CanGoOn(s, s.owner) || s.ts[s.owner].pc.Dead?)
  {
    hide CanGoOn, Do, Run, WaitsOk, Local, RegsOk;
    RunKeeps(states, moves, i);
    var s := states[i];
    if s.owner != -1 {
      WaitsForOnly(states, moves, i, s.owner);
    }
  }

  // ---- the exit ----

  /** On the way out: doomed before the exit begins, then cleared bit by bit. */
  predicate Clearing(th: Thread) {
    match th.pc
    case At(i, _) => 2 <= i <= 5 && th.doomed
    case Exiting(stage, _) => stage == 0 || (!th.doomed && (stage == 1 || th.mark == FREE))
    case Dead(_) => !th.doomed && th.mark == FREE
    case _ => false
  }

  /** No killer dooms u at this step, or kills it without having found a slot. */
  predicate LeavesAlone(s: State, m: Move, u: nat) {
    m.t < |s.ts| && m.a.KillerStep? ==> s.ts[m.t].pc != Doom(u) && s.ts[m.t].pc != Kill(u, false)
  }

  /** A doomed thread that gets to its exit by itself, or is killed after it was seen doomed, leaves no doom
      and no mark behind, unless another killer comes in between. */
  lemma {:induction false} ExitClears(states: seq<State>, moves: seq<Move>, i: nat, j: nat, u: nat)
    requires Run(states, moves) && i <= j < |states| && u < |states[i].ts|
    requires states[i].ts[u].doomed && states[i].ts[u].pc.At? && 2 <= states[i].ts[u].pc.i
    requires forall k :: i <= k < j ==> LeavesAlone(states[k], moves[k], u)
    ensures u < |states[j].ts| && Clearing(states[j].ts[u])
    decreases j
  {
    hide Do, Enabled, Inv, Clearing;
    if i == j {
      RunKeeps(states, moves, i);
      ClearingStarts(states[i], u);
    } else {
      ExitClears(states, moves, i, j - 1, u);
      Joined(states, moves, j - 1);
      SameThreads(states[j - 1], moves[j - 1].t, moves[j - 1].a);
      if moves[j - 1].t == u {
        OwnClearing(states[j - 1], u, moves[j - 1].a);
      } else {
        OtherClearing(states[j - 1], moves[j - 1], u);
      }
    }
  }

  lemma ClearingStarts(s: State, u: nat)
    requires Inv(s) && u < |s.ts| && s.ts[u].doomed && s.ts[u].pc.At? && 2 <= s.ts[u].pc.i
    ensures Clearing(s.ts[u])
  {
    assert Local(s.ts[u]);
  }

  lemma OwnClearing(s: State, u: nat, a: Step)
    requires Enabled(s, u, a) && Clearing(s.ts[u]) && |Do(s, u, a).ts| == |s.ts|
    ensures Clearing(Do(s, u, a).ts[u])
  {
  }

  lemma OtherClearing(s: State, m: Move, u: nat)
    requires Enabled(s, m.t, m.a) && u < |s.ts| && Clearing(s.ts[u]) && |Do(s, m.t, m.a).ts| == |s.ts|
    requires m.t != u && LeavesAlone(s, m, u)
    ensures Clearing(Do(s, m.t, m.a).ts[u])
  {
    OtherThread(s, m.t, m.a, u);
    hide Do, Enabled;
  }
}
