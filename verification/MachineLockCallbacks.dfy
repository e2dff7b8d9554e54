/**
 What a callback leaves behind (cb_run in runtime/native32/native32.c): whatever lifted code runs in it,
 whatever it calls and whoever else runs meanwhile, the thread that took the callback goes on where it
 was, at the depth it had and with the registers it had.
 */
module MachineLockCallbacks {
  import opened MachineLock
  import opened MachineLockSafety

  /** Between a callback's CallIn by a thread with registers `own`, stack `below` and pc `back`, and its
      end: the thread is on its way into the callback; or in it, with those registers in the frame the
      callback was given; or it is ending and runs nothing more. */
  ghost predicate InCall(th: Thread, own: Regs, below: seq<Frame>, back: Pc) {
    || th.pc.Exiting? || th.pc.Dead?
    || (th.pc.At? && th.pc.c == Callback(back == Lifted) && th.stack == below && th.own == own)
    || Above(th.stack, InCallback(own, back == Lifted), below)
  }

  /** The frame f lies on `below`, with any frames on top of it. */
  predicate Above(stack: seq<Frame>, f: Frame, below: seq<Frame>) {
    |stack| > |below| && stack[|stack| - |below|..] == below && stack[|stack| - |below| - 1] == f
  }

  lemma Pushed(stack: seq<Frame>, f: Frame, below: seq<Frame>, top: Frame)
    requires Above(stack, f, below)
    ensures Above([top] + stack, f, below)
  {
  }

  /** A frame taken off leaves f where it was, or f was the frame. */
  lemma TakenOff(stack: seq<Frame>, f: Frame, below: seq<Frame>)
    requires Above(stack, f, below)
    ensures if |stack| == |below| + 1 then stack[0] == f && stack[1..] == below else Above(stack[1..], f, below)
  {
  }

  // ---- one step of the thread itself ----

  /** Only the end of a callback and the return from a native call take a frame off. */
  lemma StackStep(s: State, t: nat, a: Step)
    requires Enabled(s, t, a) && a != CallOut
    ensures |Do(s, t, a).ts| == |s.ts|
    ensures var th, th' := s.ts[t], Do(s, t, a).ts[t];
      || th'.stack == th.stack
      || (th'.stack != [] && th'.stack[1..] == th.stack)
      || (th.stack != [] && th'.stack == th.stack[1..] && th.stack[0].InNative?)
  {
    SameThreads(s, t, a);
  }

  lemma CallOutStep(s: State, t: nat)
    requires Enabled(s, t, CallOut)
    ensures |Do(s, t, CallOut).ts| == |s.ts|
    ensures var th, th' := s.ts[t], Do(s, t, CallOut).ts[t];
      && th.stack != [] && th.stack[0].InCallback? && th'.stack == th.stack[1..] && th'.own == th.stack[0].saved
      && th'.pc == if th.stack[0].fromLifted then Lifted else Native
  {
  }

  lemma CallInStep(s: State, t: nat)
    requires Enabled(s, t, CallIn)
    ensures |Do(s, t, CallIn).ts| == |s.ts|
    ensures var th, th' := s.ts[t], Do(s, t, CallIn).ts[t];
      (th.pc == Native || th.pc == Lifted) && th'.pc == At(0, Callback(th.pc == Lifted))
      && th'.stack == th.stack && th'.own == th.own
  {
  }

  /** On the way in, mach_enter ends in the callback with the thread's own registers saved, or in its exit. */
  lemma WayIn(s: State, t: nat, a: Step)
    requires Enabled(s, t, a) && s.ts[t].pc.At? && s.ts[t].pc.c.Callback? && RegsOk(s, s.ts[t]) && Local(s.ts[t])
    ensures |Do(s, t, a).ts| == |s.ts|
    ensures var th, th' := s.ts[t], Do(s, t, a).ts[t];
      || th'.pc.Exiting?
      || (th'.pc.At? && th'.pc.c == th.pc.c && th'.stack == th.stack && th'.own == th.own)
      || th'.stack == [InCallback(th.own, th.pc.c.fromLifted)] + th.stack
  {
  }

  lemma OverStays(s: State, t: nat, a: Step)
    requires Enabled(s, t, a) && (s.ts[t].pc.Exiting? || s.ts[t].pc.Dead?)
    ensures |Do(s, t, a).ts| == |s.ts| && var pc := Do(s, t, a).ts[t].pc; pc.Exiting? || pc.Dead?
  {
  }

  /** Another thread's step leaves a thread's stack and registers alone, and its place but for ending it. */
  lemma OtherStep(s: State, w: nat, a: Step, t: nat)
    requires Enabled(s, w, a) && t < |s.ts| && w != t
    ensures |Do(s, w, a).ts| == |s.ts|
    ensures var th, th' := s.ts[t], Do(s, w, a).ts[t];
      th'.stack == th.stack && th'.own == th.own && (th'.pc == th.pc || th'.pc.Dead?)
  {
    OtherThread(s, w, a, t);
    hide Do, Enabled;
  }

  // ---- the whole callback ----

  /** A callback goes on, or this step is the CallOut that ends it. */
  lemma InCallStep(s: State, w: nat, a: Step, t: nat, own: Regs, below: seq<Frame>, back: Pc)
    requires Inv(s) && Enabled(s, w, a) && t < |s.ts| && InCall(s.ts[t], own, below, back)
    ensures |Do(s, w, a).ts| == |s.ts|
    ensures (w == t && a == CallOut && Do(s, w, a).ts[t].stack == below) || InCall(Do(s, w, a).ts[t], own, below, back)
  {
    hide Do, Enabled, Nested, Nesting, LockOk, KillerOk;
    var th := s.ts[t];
    assert Local(th) && RegsOk(s, th);
    hide Local, RegsOk, Inv;
    if w != t {
      OtherStep(s, w, a, t);
    } else if th.pc.Exiting? || th.pc.Dead? {
      OverStays(s, t, a);
    } else if Above(th.stack, InCallback(own, back == Lifted), below) {
      AboveStep(s, t, a, InCallback(own, back == Lifted), below);
    } else {
      WayIn(s, t, a);
    }
  }

  lemma AboveStep(s: State, t: nat, a: Step, f: Frame, below: seq<Frame>)
    requires Enabled(s, t, a) && t < |s.ts| && Above(s.ts[t].stack, f, below) && f.InCallback?
    ensures |Do(s, t, a).ts| == |s.ts|
    ensures (a == CallOut && Do(s, t, a).ts[t].stack == below) || Above(Do(s, t, a).ts[t].stack, f, below)
  {
    hide Do, Enabled, Above;
    var stack := s.ts[t].stack;
    TakenOff(stack, f, below);
    if a == CallOut {
      CallOutStep(s, t);
    } else {
      StackStep(s, t, a);
      var stack' := Do(s, t, a).ts[t].stack;
      if stack' != stack && stack' != [] && stack'[1..] == stack {
        Pushed(stack, f, below, stack'[0]);
        assert [stack'[0]] + stack == stack';
      }
    }
  }

  /** The step at j is the first CallOut by which t has its stack of i again. */
  ghost predicate Returns(states: seq<State>, moves: seq<Move>, i: nat, j: nat, t: nat) {
    && i < j < |moves| < |states| && moves[j] == Move(t, CallOut)
    && (forall k :: i <= k <= j + 1 ==> t < |states[k].ts|)
    && states[j + 1].ts[t].stack == states[i].ts[t].stack
    && forall k :: i < k < j && moves[k] == Move(t, CallOut) ==> states[k + 1].ts[t].stack != states[i].ts[t].stack
  }

  lemma {:induction false} InCallUntil(states: seq<State>, moves: seq<Move>, i: nat, j: nat, k: nat, t: nat)
    requires Run(states, moves) && i < |moves| && moves[i] == Move(t, CallIn) && Returns(states, moves, i, j, t)
    requires i < k <= j
    ensures var th := states[i].ts[t]; InCall(states[k].ts[t], th.own, th.stack, th.pc)
    decreases k
  {
    hide Do, Enabled, Inv, InCall;
    Joined(states, moves, k - 1);
    if k == i + 1 {
      CallInStep(states[i], t);
      Begun(states[i + 1].ts[t], states[i].ts[t]);
    } else {
      InCallUntil(states, moves, i, j, k - 1, t);
      RunKeeps(states, moves, k - 1);
      var th := states[i].ts[t];
      InCallStep(states[k - 1], moves[k - 1].t, moves[k - 1].a, t, th.own, th.stack, th.pc);
    }
  }

  lemma Begun(th: Thread, before: Thread)
    requires th.pc == At(0, Callback(before.pc == Lifted)) && th.stack == before.stack && th.own == before.own
    ensures InCall(th, before.own, before.stack, before.pc)
  {
  }

  /** In every run: when a callback of a thread returns, the thread is where it was when the callback
      came, with the registers and the claims it had then, and if that was in lifted code the machine has
      its registers. */
  lemma CallbackGivesBack(states: seq<State>, moves: seq<Move>, i: nat, j: nat, t: nat)
    requires Run(states, moves) && i < |moves| && moves[i] == Move(t, CallIn) && Returns(states, moves, i, j, t)
    ensures var th, th' := states[i].ts[t], states[j + 1].ts[t];
      th'.own == th.own && th'.pc == th.pc && th'.depth == th.depth
    ensures states[i].ts[t].pc == Lifted ==> states[j + 1].g == states[i].g
  {
    hide Do, Enabled, Inv;
    Joined(states, moves, i);
    Joined(states, moves, j);
    InCallUntil(states, moves, i, j, j, t);
    CallInStep(states[i], t);
    CallOutStep(states[j], t);
    LiftedNow(states[j], t);
    var th := states[i].ts[t];
    TakenOff(states[j].ts[t].stack, InCallback(th.own, th.pc == Lifted), th.stack);
    DepthIsNesting(states, moves, i, t);
    DepthIsNesting(states, moves, j + 1, t);
    RegistersAreOwn(states, moves, i, t);
    RegistersAreOwn(states, moves, j + 1, t);
  }

  lemma LiftedNow(s: State, t: nat)
    requires Enabled(s, t, CallOut)
    ensures s.ts[t].pc == Lifted
  {
  }

  lemma DepthIsNesting(states: seq<State>, moves: seq<Move>, i: nat, t: nat)
    requires Run(states, moves) && i < |states| && t < |states[i].ts|
    requires states[i].ts[t].pc == Lifted || states[i].ts[t].pc == Native
    ensures states[i].ts[t].depth == Nesting(states[i].ts[t].stack)
    ensures states[i].ts[t].pc == Lifted ==> states[i].ts[t].depth > 0
  {
    RunKeeps(states, moves, i);
    assert Local(states[i].ts[t]);
  }

  // ---- TerminateThread ----

  /** A killer's registers change only when its TerminateThread returns, and then by the result alone. */
  lemma TerminateReturns(states: seq<State>, moves: seq<Move>, i: nat, t: nat)
    requires Run(states, moves) && i < |moves| && moves[i] == Move(t, KillerStep) && t < |states[i].ts|
    ensures |states[i + 1].ts| == |states[i].ts|
    ensures var th, th' := states[i].ts[t], states[i + 1].ts[t];
      th'.own == (if th'.pc == Lifted then th.own.(eax := 1) else th.own) && th'.stack == th.stack
    ensures states[i + 1].ts[t].pc == Lifted ==> states[i + 1].g == states[i + 1].ts[t].own
  {
    RunKeeps(states, moves, i);
    KillerOwn(states[i], t);
  }

  lemma KillerOwn(s: State, t: nat)
    requires Inv(s) && Enabled(s, t, KillerStep)
    ensures |Do(s, t, KillerStep).ts| == |s.ts|
    ensures var th, th' := s.ts[t], Do(s, t, KillerStep).ts[t];
      && th'.own == (if th'.pc == Lifted then th.own.(eax := 1) else th.own) && th'.stack == th.stack
      && (th'.pc == Lifted ==> Do(s, t, KillerStep).g == th'.own)
  {
    assert Local(s.ts[t]) && RegsOk(s, s.ts[t]);
  }

  /** When it returns from a kill the target is dead and nothing else has happened to any thread. */
  lemma TargetIsDead(states: seq<State>, moves: seq<Move>, i: nat, t: nat, u: nat, doomed: bool)
    requires Run(states, moves) && i < |moves| && moves[i] == Move(t, KillerStep)
    requires t < |states[i].ts| && states[i].ts[t].pc == Kill(u, doomed)
    ensures |states[i + 1].ts| == |states[i].ts| && u < |states[i].ts|
    ensures states[i + 1].ts[u].pc.Dead? && states[i + 1].ts[t].pc == Lifted
    ensures forall w :: 0 <= w < |states[i].ts| && w != t && w != u ==> states[i + 1].ts[w] == states[i].ts[w]
  {
    RunKeeps(states, moves, i);
  }
}
