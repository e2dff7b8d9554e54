/**
 The machine lock of runtime/native32/native32.c as interleaved steps. All guest threads share one
 register file; a thread runs lifted code only while it holds a recursive lock, takes its registers
 out of its own save area when its first claim succeeds and puts them back when its last one goes.
 shim_TerminateThread adds a protocol in the style of Dekker's: a thread marks itself waiting before
 it looks whether it is doomed, and the killer dooms before it looks at that mark.

 Each thread has one slot for the whole run. One step is one access to a shared variable, or a piece
 of code that runs under the lock and touches nothing a thread without the lock can see.
 */
module MachineLock {

  /** The register file; eax apart because TerminateThread's result goes there. */
  datatype Regs = Regs(eax: int, rest: int)

  datatype Mark = FREE | NATIVE | WAITING

  /** What a thread does once its mach_enter has succeeded: run a callback for native code or for
      lifted code, go on after a native call, go on after a yield, or take back d claims. */
  datatype Cont = Callback(fromLifted: bool) | Bridge | Yield | Reclaim(d: nat)

  /** Native: in native code. Lifted: running lifted code. At(i, c): before the i-th access of
      mach_enter - 0 claim a slot, 1 mark waiting, 2 look at doom, 3 EnterCriticalSection (queued here), 4 mark not
      waiting, 5 look at doom, 6 take the registers. Exiting: in tslot_exit. Doom .. Retake: in
      shim_TerminateThread. */
  datatype Pc =
    | Native
    | Lifted
    | At(i: nat, c: Cont)
    | Exiting(stage: nat, holding: bool)
    | Doom(u: nat)
    | Look(u: nat)
    | Release(u: nat, d: nat, left: nat)
    | Join(u: nat, d: nat)
    | Retake(d: nat, left: nat)
    | Kill(u: nat, doomed: bool)
    | Dead(orphaned: nat)

  /** A callback in progress, with the registers cb_run saved; or a native call in progress. */
  datatype Frame = InCallback(saved: Regs, fromLifted: bool) | InNative

  /** depth and saved are the thread's mstate. `own` is the register file the thread itself would
      have if no other thread existed: it changes only by what the thread does. */
  datatype Thread = Thread(pc: Pc, slot: bool, mark: Mark, doomed: bool, depth: nat, saved: Regs,
                           stack: seq<Frame>, ghost own: Regs)

  /** owner and count are the critical section, g the global register file. */
  datatype State = State(ts: seq<Thread>, owner: int, count: nat, g: Regs)

  const NOBODY := -1

  datatype Step =
    | Compute(g: Regs)                // lifted code changes its registers
    | CallIn                          // a callback begins
    | CallOut                         // it ends
    | NativeCall | NativeReturn       // native_bridge
    | YieldNow                        // native32_yield
    | Enter                           // the next access of mach_enter
    | Exit                            // the next access of tslot_exit
    | Finish                          // a thread ends by itself in native code, also inside a native call
    | Terminate(u: nat)               // shim_TerminateThread begins
    | TerminateSelf                   // ... on the calling thread
    | KillerStep                      // ... its next access

  // ---- steps ----

  function Set(s: State, t: nat, th: Thread): State
    requires t < |s.ts|
  {
    s.(ts := s.ts[t := th])
  }

  /** mach_leave, then go on at pc. */
  function Left(s: State, t: nat, pc: Pc): State
    requires t < |s.ts| && s.count > 0
  {
    var th := s.ts[t];
    var d := if th.depth > 0 then th.depth - 1 else 0;
    Set(s, t, th.(pc := pc, depth := d, saved := if d == 0 then s.g else th.saved))
      .(count := s.count - 1, owner := if s.count == 1 then NOBODY else s.owner)
  }

  predicate MayEnter(s: State, t: nat) {
    s.owner == NOBODY || s.owner == t
  }

  /** The lock taken once more. */
  function Entered(s: State, t: nat): State {
    s.(owner := t, count := s.count + 1)
  }

  predicate Enabled(s: State, t: nat, a: Step) {
    t < |s.ts| &&
    var th := s.ts[t];
    match a
    case Compute(_) => th.pc == Lifted
    case CallIn => th.pc == Native || th.pc == Lifted
    case CallOut => th.pc == Lifted && th.stack != [] && th.stack[0].InCallback? && s.count > 0
    case NativeCall => th.pc == Lifted && s.count > 0
    case NativeReturn => th.pc == Native && th.stack != [] && th.stack[0].InNative?
    case YieldNow => th.pc == Lifted && th.depth == 1 && s.count > 0
    case Enter => th.pc.At? && th.pc.i <= 6 && (th.pc.i == 3 ==> MayEnter(s, t))
    case Exit => th.pc.Exiting? && th.pc.stage <= 2 && (th.pc.holding ==> s.count > 0)
    case Finish => th.pc == Native
    case Terminate(u) => th.pc == Lifted && u < |s.ts| && u != t
    case TerminateSelf => th.pc == Lifted && s.count > 0
    case KillerStep =>
      match th.pc
      case Doom(u) => u < |s.ts|
      case Look(u) => u < |s.ts| && s.count > 0
      case Release(u, _, left) => left > 0 ==> s.count > 0
      case Join(u, _) => u < |s.ts| && s.ts[u].pc.Dead?
      case Retake(_, left) => left > 0 ==> MayEnter(s, t)
      case Kill(u, _) => u < |s.ts| && u != t
      case _ => false
  }

  function AfterEnter(s: State, t: nat): State
    requires t < |s.ts| && s.ts[t].pc.At?
  {
    var th := s.ts[t];
    var g := if th.depth == 0 then th.saved else s.g;
    var th' := th.(depth := th.depth + 1);
    var s' := s.(g := g);
    match th.pc.c
    case Callback(fromLifted) => Set(s', t, th'.(pc := Lifted, stack := [InCallback(g, fromLifted)] + th.stack))
    case Bridge => Set(s', t, th'.(pc := Lifted))
    case Yield => Set(s', t, th'.(pc := Lifted))
    case Reclaim(d) => Set(s', t, th'.(pc := Retake(d, if d > 0 then d - 1 else 0)))
  }

  function EnterStep(s: State, t: nat): State
    requires t < |s.ts| && s.ts[t].pc.At?
  {
    var th := s.ts[t];
    var c := th.pc.c;
    match th.pc.i
    case 0 => Set(s, t, th.(pc := At(1, c), slot := true))
    case 1 => Set(s, t, th.(pc := At(2, c), mark := WAITING))
    case 2 => Set(s, t, th.(pc := if th.doomed then Exiting(0, false) else At(3, c)))
    case 3 => Entered(Set(s, t, th.(pc := At(4, c))), t)
    case 4 => Set(s, t, th.(pc := At(5, c), mark := NATIVE))
    case 5 => Set(s, t, th.(pc := if th.doomed then Exiting(0, true) else At(6, c)))
    case _ => AfterEnter(s, t)
  }

  function ExitStep(s: State, t: nat): State
    requires t < |s.ts| && s.ts[t].pc.Exiting? && (s.ts[t].pc.holding ==> s.count > 0)
  {
    var th := s.ts[t];
    var h := th.pc.holding;
    match th.pc.stage
    case 0 => Set(s, t, th.(pc := Exiting(1, h), doomed := false))
    case 1 => Set(s, t, th.(pc := Exiting(2, h), mark := FREE))
    case _ =>
      var s' := Set(s, t, th.(pc := Dead(0)));
      if h then s'.(count := s.count - 1, owner := if s.count == 1 then NOBODY else s.owner) else s'
  }

  function KillStep(s: State, t: nat): State
    requires Enabled(s, t, KillerStep)
  {
    var th := s.ts[t];
    match th.pc
    case Doom(u) =>
      var s' := Set(s, t, th.(pc := Look(u)));
      Set(s', u, s'.ts[u].(doomed := true))
    case Look(u) =>
      if s.ts[u].mark == WAITING then
        Left(Set(s, t, th.(depth := 1)), t, Release(u, th.depth, if th.depth > 0 then th.depth - 1 else 0))
      else Set(s, t, th.(pc := Kill(u, true)))
    case Release(u, d, left) =>
      if left == 0 then Set(s, t, th.(pc := Join(u, d)))
      else Set(s, t, th.(pc := Release(u, d, left - 1)))
        .(count := s.count - 1, owner := if s.count == 1 then NOBODY else s.owner)
    case Join(u, d) => Set(s, t, th.(pc := At(0, Reclaim(d))))
    case Retake(d, left) =>
      if left == 0 then
        var g := s.g.(eax := 1);
        Set(s, t, th.(pc := Lifted, depth := d, own := g)).(g := g)
      else Entered(Set(s, t, th.(pc := Retake(d, left - 1))), t)
    case Kill(u, doomed) =>
      var g := s.g.(eax := 1);
      var v := s.ts[u];
      var v' := if doomed then v.(doomed := false, mark := FREE) else v;
      var s' := Set(s, u, if v.pc.Dead? then v' else v'.(pc := Dead(0)));
      Set(s', t, th.(pc := Lifted, own := g)).(g := g)
  }

  function Do(s: State, t: nat, a: Step): State
    requires Enabled(s, t, a)
  {
    var th := s.ts[t];
    match a
    case Compute(g) => Set(s, t, th.(own := g)).(g := g)
    case CallIn => Set(s, t, th.(pc := At(0, Callback(th.pc == Lifted))))
    case CallOut =>
      var f := th.stack[0];
      Left(Set(s, t, th.(stack := th.stack[1..], own := f.saved)).(g := f.saved), t,
           if f.fromLifted then Lifted else Native)
    case NativeCall => Left(Set(s, t, th.(stack := [InNative] + th.stack)), t, Native)
    case NativeReturn => Set(s, t, th.(pc := At(0, Bridge), stack := th.stack[1..]))
    case YieldNow => Left(s, t, At(0, Yield))
    case Enter => EnterStep(s, t)
    case Exit => ExitStep(s, t)
    case Finish => Set(s, t, th.(pc := Dead(th.depth), doomed := false, mark := FREE))
    case Terminate(u) => Set(s, t, th.(pc := if s.ts[u].slot then Doom(u) else Kill(u, false)))
    case TerminateSelf => Left(s, t, Dead(if th.depth > 0 then th.depth - 1 else 0))
    case KillerStep => KillStep(s, t)
  }
}
