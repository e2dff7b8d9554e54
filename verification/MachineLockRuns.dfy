/**
 Runs of MachineLock that show where the protocol stops: a target that had no slot when it was looked
 up can be terminated while it is queued on the lock, and a thread that terminates itself inside a
 nested callback takes the lock with it. Both are shown from every reachable state they can start in.
 */
module MachineLockRuns {
  import opened MachineLock
  import opened MachineLockSafety

  // ---- slots ----

  /** A thread without a slot has not been past its first look for one, and nobody has doomed it. */
  predicate SlotOk(s: State, t: nat)
    requires t < |s.ts|
  {
    var th := s.ts[t];
    && (!th.slot ==> !th.doomed && (th.pc == Native || th.pc.Dead? || (th.pc.At? && th.pc.i == 0)))
    && (th.pc.Doom? && th.pc.u < |s.ts| ==> s.ts[th.pc.u].slot)
  }

  ghost predicate SlotsOk(s: State) {
    forall t :: 0 <= t < |s.ts| ==> SlotOk(s, t)
  }

  lemma SlotStep(s: State, w: nat, a: Step)
    requires SlotsOk(s) && Enabled(s, w, a)
    ensures SlotsOk(Do(s, w, a))
  {
    assert w < |s.ts|;
    hide Do, Enabled, SlotOk;
    SameThreads(s, w, a);
    var s' := Do(s, w, a);
    forall t | 0 <= t < |s'.ts|
      ensures SlotOk(s', t)
    {
      assert SlotOk(s, t) && SlotOk(s, w);
      if t == w {
        SlotOfMover(s, w, a);
      } else {
        SlotOfOther(s, w, a, t);
      }
    }
  }

  lemma SlotOfMover(s: State, w: nat, a: Step)
    requires Enabled(s, w, a) && w < |Do(s, w, a).ts| && SlotOk(s, w)
    ensures SlotOk(Do(s, w, a), w)
  {
    hide Left;
    SameThreads(s, w, a);
    if a.CallOut? || a.NativeCall? || a.YieldNow? || a.TerminateSelf? || a.KillerStep? {
      assert s.ts[w].slot;
      SlotStays(s, w, a);
    }
  }

  lemma SlotStays(s: State, w: nat, a: Step)
    requires Enabled(s, w, a) && w < |Do(s, w, a).ts| && SlotOk(s, w)
    requires a.CallOut? || a.NativeCall? || a.YieldNow? || a.TerminateSelf? || a.KillerStep?
    ensures SlotOk(Do(s, w, a), w)
  {
    SameThreads(s, w, a);
    hide Left;
    var pc := Do(s, w, a).ts[w].pc;
    NotDooming(s, w, a);
  }

  lemma NotDooming(s: State, w: nat, a: Step)
    requires Enabled(s, w, a) && w < |Do(s, w, a).ts|
    requires a.CallOut? || a.NativeCall? || a.YieldNow? || a.TerminateSelf? || a.KillerStep?
    ensures !Do(s, w, a).ts[w].pc.Doom?
  {
  }

  lemma SlotOfOther(s: State, w: nat, a: Step, t: nat)
    requires Enabled(s, w, a) && t < |s.ts| && t < |Do(s, w, a).ts| && t != w && SlotOk(s, t) && SlotOk(s, w)
    ensures SlotOk(Do(s, w, a), t)
  {
    hide Do, Enabled;
    SameThreads(s, w, a);
    var s' := Do(s, w, a);
    OtherChanges(s, w, a, t);
    var pc := s.ts[t].pc;
    if pc.Doom? && pc.u < |s.ts| {
      SlotKept(s, w, a, pc.u);
    }
  }

  /** Nobody loses a slot. */
  lemma SlotKept(s: State, w: nat, a: Step, t: nat)
    requires Enabled(s, w, a) && t < |s.ts| && s.ts[t].slot
    ensures |Do(s, w, a).ts| == |s.ts| && Do(s, w, a).ts[t].slot
  {
    SameThreads(s, w, a);
    if t == w {
      OwnSlotKept(s, t, a);
    } else {
      OtherThread(s, w, a, t);
    }
    hide Do, Enabled;
  }

  lemma OwnSlotKept(s: State, t: nat, a: Step)
    requires Enabled(s, t, a) && s.ts[t].slot && |Do(s, t, a).ts| == |s.ts|
    ensures Do(s, t, a).ts[t].slot
  {
  }

  /** What a step does to another thread: nothing, or doom, or death. */
  lemma OtherChanges(s: State, w: nat, a: Step, t: nat)
    requires Enabled(s, w, a) && t < |s.ts| && t < |Do(s, w, a).ts| && t != w
    ensures var v, v' := s.ts[t], Do(s, w, a).ts[t];
      && v'.slot == v.slot
      && (v'.pc == v.pc || v'.pc.Dead?)
      && (v'.doomed && !v.doomed ==> s.ts[w].pc == Doom(t))
  {
    OtherThread(s, w, a, t);
    hide Do, Enabled;
  }

  lemma {:induction false} SlotsKept(states: seq<State>, moves: seq<Move>, i: nat)
    requires Run(states, moves) && i < |states|
    ensures SlotsOk(states[i])
    decreases i
  {
    hide SlotsOk, Do, Enabled;
    if i == 0 {
      SlotsAtStart(states[0]);
    } else {
      SlotsKept(states, moves, i - 1);
      assert Enabled(states[i - 1], moves[i - 1].t, moves[i - 1].a);
      SlotStep(states[i - 1], moves[i - 1].t, moves[i - 1].a);
    }
  }

  lemma SlotsAtStart(s: State)
    requires Init(s)
    ensures SlotsOk(s)
  {
    forall t | 0 <= t < |s.ts|
      ensures SlotOk(s, t)
    {
      assert s.ts[t].pc == Native;
    }
  }

  // ---- continuing a run ----

  /** The run goes on from `states` to `states'` by steps of thread t alone. */
  ghost predicate Continues(states: seq<State>, moves: seq<Move>, states': seq<State>, moves': seq<Move>, t: nat) {
    && Run(states, moves) && Run(states', moves') && states <= states' && moves <= moves'
    && forall k :: |moves| <= k < |moves'| ==> moves'[k].t == t
  }

  lemma Next(states: seq<State>, moves: seq<Move>, mid: seq<State>, steps: seq<Move>, t: nat, a: Step)
    returns (states': seq<State>, moves': seq<Move>)
    requires Continues(states, moves, mid, steps, t) && Enabled(mid[|steps|], t, a)
    ensures Continues(states, moves, states', moves', t)
    ensures states'[|moves'|] == Do(mid[|steps|], t, a) && |moves'| == |steps| + 1
    ensures states' == mid + [states'[|moves'|]] && moves' == steps + [Move(t, a)]
  {
    hide Do, Enabled, Run;
    LengthOf(mid, steps);
    states', moves' := Go(mid, steps, t, a);
  }

  lemma LengthOf(states: seq<State>, moves: seq<Move>)
    requires Run(states, moves)
    ensures |states| == |moves| + 1
  {
  }

  /** From state i on only thread u has changed. */
  ghost predicate Alone(states: seq<State>, i: nat, u: nat) {
    forall k :: i <= k < |states| ==> OthersSame(states[i], states[k], u)
  }

  ghost predicate OthersSame(s: State, s': State, u: nat) {
    |s'.ts| == |s.ts| && forall w :: 0 <= w < |s.ts| && w != u ==> s'.ts[w] == s.ts[w]
  }

  lemma AloneNext(mid: seq<State>, states: seq<State>, i: nat, u: nat)
    requires i < |mid| && Alone(mid, i, u)
    requires |states| == |mid| + 1 && states == mid + [states[|mid|]] && OthersSame(mid[|mid| - 1], states[|mid|], u)
    ensures Alone(states, i, u)
  {
    forall k | i <= k < |states|
      ensures OthersSame(states[i], states[k], u)
    {
      assert OthersSame(mid[i], mid[|mid| - 1], u);
      assert k < |mid| ==> states[k] == mid[k] && OthersSame(mid[i], mid[k], u);
    }
  }

  /** One more look of mach_enter, by a thread that is not doomed and has the lock if it needs it. */
  lemma Step1(states: seq<State>, moves: seq<Move>, mid: seq<State>, steps: seq<Move>, u: nat, a: Step)
    returns (states': seq<State>, moves': seq<Move>)
    requires Continues(states, moves, mid, steps, u) && Alone(mid, |moves|, u) && Enabled(mid[|steps|], u, a)
    requires a == CallIn || a == Enter
    ensures Continues(states, moves, states', moves', u) && Alone(states', |moves|, u)
    ensures states'[|moves'|] == Do(mid[|steps|], u, a)
  {
    LengthOf(mid, steps);
    LengthOf(states, moves);
    states', moves' := Next(states, moves, mid, steps, u, a);
    LengthOf(states', moves');
    LooksAlone(mid[|steps|], u, a);
    hide Do, Enabled, Alone, OthersSame, Run;
    AloneNext(mid, states', |moves|, u);
  }

  lemma LooksAlone(s: State, u: nat, a: Step)
    requires Enabled(s, u, a) && (a == CallIn || a == Enter)
    ensures OthersSame(s, Do(s, u, a), u)
  {
  }

  /** A thread that looks for a slot, marks itself and finds no doom queues on the lock. */
  lemma Queues(states: seq<State>, moves: seq<Move>, u: nat) returns (states': seq<State>, moves': seq<Move>)
    requires Run(states, moves)
    requires var s := states[|moves|]; u < |s.ts| && !s.ts[u].pc.Dead? && !s.ts[u].slot && SlotOk(s, u)
    ensures Continues(states, moves, states', moves', u) && Alone(states', |moves|, u)
    ensures u < |states'[|moves'|].ts| && Queued(states'[|moves'|].ts[u])
  {
    LengthOf(states, moves);
    states', moves' := states, moves;
    if states[|moves|].ts[u].pc == Native {
      states', moves' := Step1(states, moves, states', moves', u, CallIn);
    }
    states', moves' := Step1(states, moves, states', moves', u, Enter);
    states', moves' := Step1(states, moves, states', moves', u, Enter);
    states', moves' := Step1(states, moves, states', moves', u, Enter);
  }

  // ---- killing a thread ----

  /** Some continuation of the run begins with t's TerminateThread on u, which goes through to the real
      kill with u queued on the lock. */
  ghost predicate CanKillQueued(states: seq<State>, moves: seq<Move>, t: nat, u: nat) {
    exists states', moves' ::
      && Run(states', moves') && states <= states' && moves <= moves' && |moves| < |moves'|
      && moves'[|moves|] == Move(t, Terminate(u)) && Within(states', |moves|, |moves'|, t)
      && KillsQueued(states'[|moves'|], t, u)
  }

  /** Thread t has been in the course of a TerminateThread since the step at i. */
  ghost predicate Within(states: seq<State>, i: nat, j: nat, t: nat) {
    forall k :: i < k <= j < |states| ==> t < |states[k].ts| && Terminating(states[k].ts[t].pc)
  }

  ghost predicate KillsQueued(s: State, t: nat, u: nat) {
    t < |s.ts| && u < |s.ts| && s.ts[t].pc.Kill? && s.ts[t].pc.u == u && Queued(s.ts[u])
  }

  /** Within one TerminateThread the kind of kill stays what the lookup made it. */
  lemma {:induction false} LookupDecides(states: seq<State>, moves: seq<Move>, i: nat, j: nat, t: nat, u: nat)
    requires Run(states, moves) && i < j < |states| && moves[i] == Move(t, Terminate(u)) && Within(states, i, j, t)
    requires u < |states[i].ts| && t < |states[i].ts|
    ensures t < |states[j].ts|
    ensures var pc := states[j].ts[t].pc;
      pc.u == u && if states[i].ts[u].slot then pc.Doom? || pc.Look? || pc == Kill(u, true) else pc == Kill(u, false)
    decreases j
  {
    hide Do, Enabled, Inv;
    Joined(states, moves, j - 1);
    if j == i + 1 {
      Begins(states[i], t, u);
    } else {
      LookupDecides(states, moves, i, j - 1, t, u);
      RunKeeps(states, moves, j - 1);
      GoesOn(states[j - 1], moves[j - 1].t, moves[j - 1].a, t);
    }
  }

  lemma Begins(s: State, t: nat, u: nat)
    requires Enabled(s, t, Terminate(u)) && u < |s.ts|
    ensures var s' := Do(s, t, Terminate(u));
      |s'.ts| == |s.ts| && s'.ts[t].pc == if s.ts[u].slot then Doom(u) else Kill(u, false)
  {
  }

  lemma GoesOn(s: State, w: nat, a: Step, t: nat)
    requires Inv(s) && Enabled(s, w, a) && t < |s.ts| && Terminating(s.ts[t].pc)
    requires t < |Do(s, w, a).ts| && Terminating(Do(s, w, a).ts[t].pc)
    ensures var pc, pc' := s.ts[t].pc, Do(s, w, a).ts[t].pc;
      && pc'.u == pc.u
      && (pc.Kill? ==> pc' == pc) && (pc'.Kill? ==> pc' == pc || pc' == Kill(pc.u, true))
      && (!pc.Kill? ==> pc' == pc || pc'.Look? || pc' == Kill(pc.u, true))
  {
    if w != t {
      OtherChanges(s, w, a, t);
    }
  }

  /** In every reachable state in which a thread runs lifted code and another is alive: a TerminateThread
      of the first on the second can come to kill it while it is queued on the lock exactly when the
      second has no slot at the lookup. */
  lemma SlotDecides(states: seq<State>, moves: seq<Move>, t: nat, u: nat)
    requires Run(states, moves)
    requires var s := states[|moves|];
      t < |s.ts| && s.ts[t].pc == Lifted && u < |s.ts| && u != t && !s.ts[u].pc.Dead?
    ensures CanKillQueued(states, moves, t, u) <==> !states[|moves|].ts[u].slot
  {
    if CanKillQueued(states, moves, t, u) {
      var states', moves' :|
        && Run(states', moves') && states <= states' && moves <= moves' && |moves| < |moves'|
        && moves'[|moves|] == Move(t, Terminate(u)) && Within(states', |moves|, |moves'|, t)
        && KillsQueued(states'[|moves'|], t, u);
      NotWithSlot(states', moves', |moves|, t, u);
    }
    if !states[|moves|].ts[u].slot {
      LateSlotQueued(states, moves, t, u);
    }
  }

  lemma NotWithSlot(states: seq<State>, moves: seq<Move>, i: nat, t: nat, u: nat)
    requires Run(states, moves) && i < |moves| && moves[i] == Move(t, Terminate(u)) && Within(states, i, |moves|, t)
    requires t < |states[i].ts| && u < |states[i].ts| && KillsQueued(states[|moves|], t, u)
    ensures !states[i].ts[u].slot
  {
    LengthOf(states, moves);
    LookupDecides(states, moves, i, |moves|, t, u);
    if states[i].ts[u].slot {
      KilledNeverQueued(states, moves, |moves|, t, u);
    }
  }

  /** The protocol covers threads that had a slot when the killer looked them up. A thread is looked up
      by its id, and before its first claim has no slot: it is then terminated at once, and can by then
      be queued on the lock. */
  lemma LateSlotQueued(states: seq<State>, moves: seq<Move>, t: nat, u: nat)
    requires Run(states, moves)
    requires var s := states[|moves|];
      t < |s.ts| && s.ts[t].pc == Lifted && u < |s.ts| && u != t && !s.ts[u].pc.Dead? && !s.ts[u].slot
    ensures CanKillQueued(states, moves, t, u)
  {
    hide Enabled, Do, Inv, Queued;
    LengthOf(states, moves);
    var s := states[|moves|];
    TerminateBegins(s, t, u);
    var mid, steps := Go(states, moves, t, Terminate(u));
    LengthOf(mid, steps);
    SlotsKept(mid, steps, |steps|);
    assert SlotOk(mid[|steps|], u);
    var states', moves' := Queues(mid, steps, u);
    LengthOf(states', moves');
    assert states'[|moves|] == s;
    forall k | |moves| < k <= |moves'|
      ensures t < |states'[k].ts| && states'[k].ts[t].pc == Kill(u, false)
    {
      assert OthersSame(states'[|steps|], states'[k], u) && states'[|steps|] == mid[|steps|];
    }
    assert KillsQueued(states'[|moves'|], t, u);
  }

  lemma TerminateBegins(s: State, t: nat, u: nat)
    requires t < |s.ts| && u < |s.ts| && u != t && s.ts[t].pc == Lifted && !s.ts[u].slot
    ensures Enabled(s, t, Terminate(u))
    ensures var s' := Do(s, t, Terminate(u));
      |s'.ts| == |s.ts| && s'.ts[t].pc == Kill(u, false) && s'.ts[u] == s.ts[u]
  {
  }

  // ---- terminating oneself ----

  /** From every reachable state in which a thread runs lifted code there is a run in which it takes a
      callback and terminates itself in it: the lock is left with a dead owner, and by OrphanedForEver
      stays so. */
  lemma SelfTerminationOrphans(states: seq<State>, moves: seq<Move>, t: nat) returns (states': seq<State>,
                               moves': seq<Move>)
    requires Run(states, moves) && t < |states[|moves|].ts| && states[|moves|].ts[t].pc == Lifted
    ensures Continues(states, moves, states', moves', t)
    ensures var s' := states'[|moves'|]; t < |s'.ts| && s'.owner == t && s'.ts[t].pc.Dead?
  {
    LengthOf(states, moves);
    OneThreadRuns(states, moves, |moves|, t);
    RunKeeps(states, moves, |moves|);
    assert Local(states[|moves|].ts[t]);
    if states[|moves|].ts[t].doomed {
      DoomedNeverRuns(states, moves, |moves|, t);
    }
    states', moves' := Nest(states, moves, t);
    LengthOf(states', moves');
    hide Do;
    OneThreadRuns(states', moves', |moves'|, t);
    var mid, steps := Next(states, moves, states', moves', t, TerminateSelf);
    LengthOf(mid, steps);
    SelfTerminationFreesLock(mid, steps, |moves'|, t);
    states', moves' := mid, steps;
  }

  /** A thread that runs lifted code and has the lock runs a callback. */
  lemma Nest(states: seq<State>, moves: seq<Move>, t: nat) returns (states': seq<State>, moves': seq<Move>)
    requires Run(states, moves)
    requires var s := states[|moves|];
      t < |s.ts| && s.ts[t].pc == Lifted && s.owner == t && s.count > 0 && s.ts[t].depth > 0
    requires !states[|moves|].ts[t].doomed
    ensures Continues(states, moves, states', moves', t)
    ensures var s, s' := states[|moves|], states'[|moves'|];
      |s'.ts| == |s.ts| && s'.ts[t].pc == Lifted && s'.ts[t].depth == s.ts[t].depth + 1
  {
    LengthOf(states, moves);
    states', moves' := Step1(states, moves, states, moves, t, CallIn);
    states', moves' := Step1(states, moves, states', moves', t, Enter);
    states', moves' := Step1(states, moves, states', moves', t, Enter);
    states', moves' := Step1(states, moves, states', moves', t, Enter);
    states', moves' := Step1(states, moves, states', moves', t, Enter);
    states', moves' := Step1(states, moves, states', moves', t, Enter);
    states', moves' := Step1(states, moves, states', moves', t, Enter);
    states', moves' := Step1(states, moves, states', moves', t, Enter);
  }
}
