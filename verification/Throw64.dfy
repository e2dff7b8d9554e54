/**
 A throw in runtime/recomp64_cpu/eh64.c: es3_eh_throw walks the guest's frames with unwind_one,
 asking each function's C++ tables whether it catches. The walk is proved against the call chain
 that is really on the stack: at every depth the CPU has that frame's own registers, and the throw
 stops at the innermost frame that catches, with that frame's base.

 Whether a catch clause takes the thrown type is a given relation here; what happens after the
 landing frame is known (the funclet and the longjmp) is not part of this model.
 */
module Throw64 {
  import opened Words
  import opened Unwind64
  import opened Prologue64
  import opened Frame64

  // ---- the C++ tables of one function ----

  datatype Handler = Handler(td: u32, funclet: u32)

  datatype Try = Try(lo: int, hi: int, handlers: seq<Handler>)

  /** FuncInfo: the ip-to-state map and the try blocks. */
  datatype FuncInfo = FuncInfo(ips: seq<(u32, int)>, tries: seq<Try>)

  type Matches = u32 -> bool

  /** The state of the last entry at or below rva; -1 before the first. */
  function StateAt(ips: seq<(u32, int)>, rva: u32): int {
    if ips == [] then -1
    else if ips[0].0 > rva then -1
    else if |ips| > 1 && ips[1].0 <= rva then StateAt(ips[1..], rva)
    else ips[0].1
  }

  /** On a sorted map, StateAt is the state whose range holds rva. */
  lemma {:induction false} StateAtIsRange(ips: seq<(u32, int)>, rva: u32, i: nat)
    requires forall a, b :: 0 <= a < b < |ips| ==> ips[a].0 < ips[b].0
    requires i < |ips| && ips[i].0 <= rva && (i + 1 < |ips| ==> rva < ips[i + 1].0)
    ensures StateAt(ips, rva) == ips[i].1
    decreases |ips|
  {
    if i == 0 {
    } else {
      assert ips[0].0 < ips[i].0 && (1 < i ==> ips[1].0 < ips[i].0);
      StateAtIsRange(ips[1..], rva, i - 1);
    }
  }

  /** state_at */
  method FindState(ips: seq<(u32, int)>, rva: u32) returns (st: int)
    ensures st == StateAt(ips, rva)
  {
    st := -1;
    var i := 0;
    while i < |ips|
      invariant 0 <= i <= |ips|
      invariant i > 0 ==> ips[i - 1].0 <= rva && st == ips[i - 1].1
      invariant i > 0 ==> StateAt(ips, rva) == StateAt(ips[i - 1..], rva)
      invariant i == 0 ==> st == -1
    {
      if ips[i].0 > rva {
        break;
      }
      st := ips[i].1;
      if i > 0 {
        assert ips[i - 1..][1..] == ips[i..];
      } else {
        assert ips[0..] == ips;
      }
      i := i + 1;
    }
  }

  /** The first handler of a try that takes the thrown type, or |handlers|. */
  function FirstMatch(hs: seq<Handler>, m: Matches): (k: nat)
    ensures k <= |hs|
    ensures k < |hs| ==> m(hs[k].td)
    ensures forall j :: 0 <= j < k ==> !m(hs[j].td)
  {
    if hs == [] || m(hs[0].td) then 0 else 1 + FirstMatch(hs[1..], m)
  }

  /** The try covers the state and has a matching handler. */
  predicate Catching(t: Try, st: int, m: Matches) {
    t.lo <= st <= t.hi && t.lo >= 0 && FirstMatch(t.handlers, m) < |t.handlers|
  }

  /** Which try and handler catch in a state. */
  datatype Landing = NoCatch | Catch(try_: nat, handler: nat)

  /** The catching try is the one with the highest low state, the first of those: the innermost. */
  predicate IsLanding(l: Landing, tries: seq<Try>, st: int, m: Matches) {
    match l
    case NoCatch => forall t :: 0 <= t < |tries| ==> !Catching(tries[t], st, m)
    case Catch(t, k) =>
      && t < |tries| && Catching(tries[t], st, m) && k == FirstMatch(tries[t].handlers, m)
      && (forall s :: 0 <= s < |tries| && Catching(tries[s], st, m) ==> tries[s].lo <= tries[t].lo)
      && (forall s :: 0 <= s < t && Catching(tries[s], st, m) ==> tries[s].lo < tries[t].lo)
  }

  lemma LandingUnique(l: Landing, l': Landing, tries: seq<Try>, st: int, m: Matches)
    requires IsLanding(l, tries, st, m)
    ensures IsLanding(l', tries, st, m) ==> l == l'
  {
  }

  /** The two loops over try blocks and their handlers. */
  method SelectTry(tries: seq<Try>, st: int, m: Matches) returns (l: Landing)
    ensures IsLanding(l, tries, st, m)
  {
    var bestLow := -1;
    l := NoCatch;
    for t := 0 to |tries|
      invariant IsLanding(l, tries[..t], st, m)
      invariant bestLow == match l case NoCatch => -1 case Catch(b, _) => tries[b].lo
    {
      var y := tries[t];
      assert tries[..t + 1] == tries[..t] + [y];
      if st < y.lo || st > y.hi || y.lo <= bestLow {
        continue;
      }
      var k := 0;
      while k < |y.handlers|
        invariant 0 <= k <= |y.handlers|
        invariant forall j :: 0 <= j < k ==> !m(y.handlers[j].td)
      {
        if m(y.handlers[k].td) {
          break;
        }
        k := k + 1;
      }
      if k < |y.handlers| {
        bestLow := y.lo;
        l := Catch(t, k);
      }
    }
    assert tries[..|tries|] == tries;
  }

  predicate Inside(a: Try, b: Try) {
    b.lo <= a.lo && a.hi <= b.hi
  }

  /** The tables as the compiler writes them: of two tries one lies inside the other and comes first, or
      no state is in both. */
  predicate InnerFirst(tries: seq<Try>) {
    forall s, t :: 0 <= s < t < |tries| ==>
                     Inside(tries[s], tries[t]) || tries[s].hi < tries[t].lo || tries[t].hi < tries[s].lo
  }

  /** With inner tries first, the landing try is the first that catches, and lies inside every other one
      that catches in this state, also inside one that starts at the same state. */
  lemma LandingIsInnermost(tries: seq<Try>, st: int, m: Matches, t: nat, k: nat)
    requires InnerFirst(tries) && IsLanding(Catch(t, k), tries, st, m)
    ensures forall s :: 0 <= s < |tries| && Catching(tries[s], st, m) ==> t <= s && Inside(tries[t], tries[s])
  {
    forall s | 0 <= s < |tries| && Catching(tries[s], st, m)
      ensures t <= s && Inside(tries[t], tries[s])
    {
      OfTwo(tries, s, t);
      OfTwo(tries, t, s);
    }
  }

  lemma OfTwo(tries: seq<Try>, s: nat, t: nat)
    requires InnerFirst(tries) && s < |tries| && t < |tries|
    ensures s < t ==> Inside(tries[s], tries[t]) || tries[s].hi < tries[t].lo || tries[t].hi < tries[s].lo
  {
  }

  /** Without that order the first of two tries that start at the same state lands, even if it is the
      outer one. */
  lemma OuterFirstLands(outer: Try, inner: Try, st: int, m: Matches)
    requires Catching(outer, st, m) && Catching(inner, st, m) && inner.lo == outer.lo && inner.hi < outer.hi
    ensures IsLanding(Catch(0, FirstMatch(outer.handlers, m)), [outer, inner], st, m)
    ensures !Inside(outer, inner)
  {
  }

  // ---- the walk ----

  /** C++ tables by function, for the functions that have them. */
  type Tables = map<nat, FuncInfo>

  ghost predicate LandsAt(p: Program, eh: Tables, pc: u64, m: Matches, l: Landing) {
    var f := IndexOf(p.pdata, Rva(p, pc));
    if f < 0 || f !in eh then l == NoCatch
    else IsLanding(l, eh[f].tries, StateAt(eh[f].ips, (Rva(p, pc) as int - 1) % 0x1_0000_0000), m)
  }

  /** A catch clause of the tables takes the object thrown in state st. */
  predicate ClauseTakes(y: Try, h: nat, st: int, m: Matches) {
    0 <= y.lo <= st <= y.hi && h < |y.handlers| && m(y.handlers[h].td)
  }

  /** The clause asked for is one for the call's own state and not for the return address's: that of the
      entry of the sorted map whose range holds the byte before pc. Of those it is the first clause of the
      try with the highest low state. In front of the first entry nothing is caught. */
  lemma CallStateCatches(p: Program, eh: Tables, m: Matches, rva: u32, f: nat, k: nat, l: Landing)
    requires Loadable(p) && f < |p.pdata| && p.pdata[f].begin <= rva < p.pdata[f].end && f in eh && rva > 0
    requires var ips := eh[f].ips; forall a, b :: 0 <= a < b < |ips| ==> ips[a].0 < ips[b].0
    requires LandsAt(p, eh, Plus(p.base, rva), m, l)
    ensures var ips, ts := eh[f].ips, eh[f].tries;
      k < |ips| && ips[k].0 < rva && (k + 1 < |ips| ==> rva <= ips[k + 1].0) ==>
        match l
        case NoCatch => forall t, h :: 0 <= t < |ts| ==> !ClauseTakes(ts[t], h, ips[k].1, m)
        case Catch(t, h) =>
          && t < |ts| && ClauseTakes(ts[t], h, ips[k].1, m)
          && (forall j: nat :: j < h ==> !ClauseTakes(ts[t], j, ips[k].1, m))
          && (forall s, j :: 0 <= s < |ts| && ClauseTakes(ts[s], j, ips[k].1, m) ==>
                ts[s].lo < ts[t].lo || (ts[s].lo == ts[t].lo && t <= s))
    ensures (forall j :: 0 <= j < |eh[f].ips| ==> eh[f].ips[j].0 >= rva) ==> l == NoCatch
  {
    hide Rva, Plus, Loadable;
    RvaOf(p, rva);
    PdataSorted(p);
    OnlyOne(p.pdata, rva, f);
    var ips, ts := eh[f].ips, eh[f].tries;
    Remainder(rva - 1, 0x1_0000_0000, 0, rva - 1);
    if k < |ips| && ips[k].0 < rva && (k + 1 < |ips| ==> rva <= ips[k + 1].0) {
      StateAtIsRange(ips, rva - 1, k);
      if l.Catch? {
        SpelledOut(ts, l.try_, l.handler, ips[k].1, m);
      } else {
        forall t, h: nat | 0 <= t < |ts| ensures !ClauseTakes(ts[t], h, ips[k].1, m) {
          assert !Catching(ts[t], ips[k].1, m);
        }
      }
    }
  }

  lemma PdataSorted(p: Program)
    requires Loadable(p)
    ensures Sorted(p.pdata)
  {
  }

  lemma SpelledOut(ts: seq<Try>, t: nat, k: nat, st: int, m: Matches)
    requires IsLanding(Catch(t, k), ts, st, m)
    ensures ClauseTakes(ts[t], k, st, m)
    ensures forall j: nat :: j < k ==> !ClauseTakes(ts[t], j, st, m)
    ensures forall s, j :: 0 <= s < |ts| && ClauseTakes(ts[s], j, st, m) ==>
              ts[s].lo < ts[t].lo || (ts[s].lo == ts[t].lo && t <= s)
  {
    forall s, j: nat | 0 <= s < |ts| && ClauseTakes(ts[s], j, st, m)
      ensures ts[s].lo < ts[t].lo || (ts[s].lo == ts[t].lo && t <= s)
    {
      assert FirstMatch(ts[s].handlers, m) <= j;
      assert Catching(ts[s], st, m);
    }
  }

  /** Where a walk of at most n frames from (g, pc) stops. */
  datatype Outcome = Lost | Found(depth: nat, pc: u64, landing: Landing, establisher: u64, g: Gprs)

  ghost predicate Stops(p: Program, eh: Tables, m: Matches, mem: Memory, pc: u64, g: Gprs, n: nat, depth: nat,
                        o: Outcome)
    requires Loadable(p)
    decreases n
  {
    if n == 0 || pc == 0 then o == Lost
    else if !LandsAt(p, eh, pc, m, NoCatch) then
      o.Found? && o.landing.Catch? && LandsAt(p, eh, pc, m, o.landing)
      && o == Found(depth, pc, o.landing, EstablisherAt(p, pc, g), g)
    else
      var g' := Unwound(p, pc, g, mem);
      Stops(p, eh, m, mem, Rd64(mem, g'[RSP]), Popped(g'), n - 1, depth + 1, o)
  }

  lemma StopsLost(p: Program, eh: Tables, m: Matches, mem: Memory, pc: u64, g: Gprs, n: nat, depth: nat)
    requires Loadable(p) && (n == 0 || pc == 0)
    ensures Stops(p, eh, m, mem, pc, g, n, depth, Lost)
  {
  }

  lemma StopsFound(p: Program, eh: Tables, m: Matches, mem: Memory, pc: u64, g: Gprs, n: nat, depth: nat, l: Landing)
    requires Loadable(p) && n > 0 && pc != 0 && l.Catch? && LandsAt(p, eh, pc, m, l)
    ensures Stops(p, eh, m, mem, pc, g, n, depth, Found(depth, pc, l, EstablisherAt(p, pc, g), g))
  {
    hide EstablisherAt, IndexOf;
    var f := IndexOf(p.pdata, Rva(p, pc));
    LandingUnique(l, NoCatch, eh[f].tries, StateAt(eh[f].ips, (Rva(p, pc) as int - 1) % 0x1_0000_0000), m);
  }

  lemma StopsFurther(p: Program, eh: Tables, m: Matches, mem: Memory, pc: u64, g: Gprs, n: nat, depth: nat)
    requires Loadable(p) && n > 0 && pc != 0 && LandsAt(p, eh, pc, m, NoCatch)
    ensures var g' := Unwound(p, pc, g, mem);
      forall o :: (Stops(p, eh, m, mem, Rd64(mem, g'[RSP]), Popped(g'), n - 1, depth + 1, o)
        ==> Stops(p, eh, m, mem, pc, g, n, depth, o))
  {
    hide LandsAt, Unwound, Rd64;
  }

  /** es3_eh_throw up to the frame that catches: 512 frames at most. */
  method EhThrow(p: Program, eh: Tables, m: Matches, cpu: Cpu, retPc: u64) returns (o: Outcome)
    requires Loadable(p) && cpu.Valid()
    requires forall f :: f in eh ==> f < |p.pdata|
    modifies cpu.gpr
    ensures Stops(p, eh, m, cpu.mem, retPc, old(cpu.Regs()), 512, 0, o)
  {
    hide Stops, Unwound, Rd64, IsLanding, StateAt, Establisher;
    var pc, depth := retPc, 0;
    while depth < 512 && pc != 0
      invariant 0 <= depth <= 512
      invariant forall o' :: (Stops(p, eh, m, cpu.mem, pc, cpu.Regs(), 512 - depth, depth, o')
        ==> Stops(p, eh, m, cpu.mem, retPc, old(cpu.Regs()), 512, 0, o'))
      decreases 512 - depth
    {
      var rva := Rva(p, pc);
      var f := PdataFind(p.pdata, rva);
      if f >= 0 && f in eh {
        var base := cpu.FrameEstablisher(p, f);
        var st := FindState(eh[f].ips, (rva as int - 1) % 0x1_0000_0000);
        var l := SelectTry(eh[f].tries, st, m);
        if l.Catch? {
          StopsFound(p, eh, m, cpu.mem, pc, cpu.Regs(), 512 - depth, depth, l);
          o := Found(depth, pc, l, base, cpu.Regs());
          return;
        }
      }
      StopsFurther(p, eh, m, cpu.mem, pc, cpu.Regs(), 512 - depth, depth);
      var ok, pc', _ := cpu.UnwindOne(p, pc);
      pc, depth := pc', depth + 1;
      if !ok {
        break;
      }
    }
    StopsLost(p, eh, m, cpu.mem, pc, cpu.Regs(), 512 - depth, depth);
    o := Lost;
  }

  // ---- the call chain really on the stack ----

  /** The registers a callee must preserve: rbx, rbp, rsi, rdi, r12 .. r15. */
  const NONVOLATILE: set<int> := {3, 5, 6, 7, 12, 13, 14, 15}

  /** A function that has been entered and has not returned: the machine at its entry, the prologue
      it ran, and its registers where it is stopped (just before the call's push of pc). */
  datatype Activation = Activation(entry: Machine, ops: seq<Op>, fp: Fp, pc: u64, call: Gprs)

  function Sp(a: Activation): u64 {
    a.entry.g[RSP]
  }

  /** The frame is as its own code left it, with `mem` the memory when the throw happens: the tables
      describe it, its slots are laid out and still intact, and its body has kept every nonvolatile
      register its prologue did not save. */
  ghost predicate Live(p: Program, a: Activation, mem: Memory)
    requires Loadable(p)
  {
    && Describes(p, a.pc, a.ops, a.fp)
    && Laid(a.ops, Sp(a), FrameBase(a.ops, Sp(a)))
    && Body(a.ops, a.fp, a.entry, a.call, mem)
    && (a.fp.reg != 0 ==> a.fp.reg in NONVOLATILE)
    && forall r :: r in NONVOLATILE && r !in SavedRegs(a.ops) ==> a.call[r] == a.entry.g[r]
  }

  /** `caller` called `callee`: the call pushed the caller's pc, and changed no nonvolatile register. */
  predicate Called(caller: Activation, callee: Activation) {
    && Sp(callee) == Plus(caller.call[RSP], -8)
    && Rd64(callee.entry.mem, Sp(callee)) == caller.pc
    && forall r :: r in NONVOLATILE ==> callee.entry.g[r] == caller.call[r]
  }

  /** A stack, innermost frame first; the outermost returns to 0. */
  ghost predicate Stack(p: Program, frames: seq<Activation>, mem: Memory)
    requires Loadable(p)
  {
    && frames != []
    && (forall d :: 0 <= d < |frames| ==> Live(p, frames[d], mem) && frames[d].pc != 0)
    && (forall d :: 0 <= d < |frames| - 1 ==> Called(frames[d + 1], frames[d]))
    && Rd64(frames[|frames| - 1].entry.mem, Sp(frames[|frames| - 1])) == 0
  }

  /** The CPU has the frame's registers, as far as a caller may count on them. */
  predicate Agrees(g: Gprs, a: Activation) {
    g[RSP] == a.call[RSP] && forall r :: r in NONVOLATILE ==> g[r] == a.call[r]
  }

  /** What unwinding a live frame gives, from any registers that agree with it. */
  lemma UnwindLive(p: Program, a: Activation, g: Gprs, mem: Memory)
    requires Loadable(p) && Live(p, a, mem) && Agrees(g, a)
    ensures var g' := Unwound(p, a.pc, g, mem);
      && g'[RSP] == Sp(a) && Rd64(mem, g'[RSP]) == Rd64(a.entry.mem, Sp(a))
      && forall r :: r in NONVOLATILE ==> g'[r] == a.entry.g[r]
    ensures EstablisherAt(p, a.pc, g) == FrameBase(a.ops, Sp(a))
  {
    hide Plus, Rd64, Describes;
    if HasSetFp(a.ops) {
      WellFormedOf(p, a);
    }
    PrologueBodyUnwind(p, a.pc, a.ops, a.fp, a.entry, g, mem);
    var g' := Unwound(p, a.pc, g, mem);
    forall r | r in NONVOLATILE ensures g'[r] == a.entry.g[r] {
      assert 0 <= r < 16 && r != RSP;
    }
  }

  lemma WellFormedOf(p: Program, a: Activation)
    requires Loadable(p) && Describes(p, a.pc, a.ops, a.fp) && HasSetFp(a.ops)
    ensures a.fp.reg != 0
  {
  }

  lemma StepUp(p: Program, callee: Activation, caller: Activation, g: Gprs, mem: Memory)
    requires Loadable(p) && Live(p, callee, mem) && Called(caller, callee) && Agrees(g, callee)
    ensures var g' := Unwound(p, callee.pc, g, mem);
      Agrees(Popped(g'), caller) && Rd64(mem, g'[RSP]) == caller.pc
  {
    hide Rd64, Plus, Live;
    UnwindLive(p, callee, g, mem);
    PlusPlus(caller.call[RSP], -8, 8, 0);
  }

  ghost predicate Catches(p: Program, eh: Tables, m: Matches, a: Activation) {
    !LandsAt(p, eh, a.pc, m, NoCatch)
  }

  /** The throw lands in the innermost frame that catches, with the frame's own base and registers. */
  ghost predicate LandsIn(p: Program, eh: Tables, m: Matches, frames: seq<Activation>, d: nat, depth: nat, o: Outcome) {
    && d < |frames| && Catches(p, eh, m, frames[d])
    && (forall e :: 0 <= e < d ==> !Catches(p, eh, m, frames[e]))
    && o.Found? && o.depth == depth + d && o.pc == frames[d].pc
    && o.landing.Catch? && LandsAt(p, eh, frames[d].pc, m, o.landing)
    && o.establisher == FrameBase(frames[d].ops, Sp(frames[d]))
    && Agrees(o.g, frames[d])
  }

  /** Every walk over a real stack: it finds the innermost catching frame if there is one among the
      n it may look at, and otherwise nothing. */
  lemma {:induction false} WalkFindsInnermost(p: Program, eh: Tables, m: Matches, mem: Memory, frames: seq<Activation>,
                                              g: Gprs, n: nat, depth: nat, o: Outcome)
    requires Loadable(p) && Stack(p, frames, mem) && Agrees(g, frames[0])
    requires Stops(p, eh, m, mem, frames[0].pc, g, n, depth, o)
    ensures forall d :: (0 <= d < |frames| && d < n && Catches(p, eh, m, frames[d])
      && (forall e :: 0 <= e < d ==> !Catches(p, eh, m, frames[e]))
      ==> LandsIn(p, eh, m, frames, d, depth, o))
    ensures (forall d :: 0 <= d < |frames| && d < n ==> !Catches(p, eh, m, frames[d])) ==> o == Lost
    decreases |frames|
  {
    hide Live, Called, Agrees, LandsAt, Rd64, Describes, Laid, Body, FrameBase;
    if n == 0 {
    } else if Catches(p, eh, m, frames[0]) {
      assert Live(p, frames[0], mem);
      UnwindLive(p, frames[0], g, mem);
    } else {
      var g' := Unwound(p, frames[0].pc, g, mem);
      assert Live(p, frames[0], mem);
      if |frames| == 1 {
        UnwindLive(p, frames[0], g, mem);
      } else {
        var rest := frames[1..];
        assert Called(frames[0 + 1], frames[0]);
        StepUp(p, frames[0], frames[1], g, mem);
        forall d | 0 <= d < |rest| - 1 ensures Called(rest[d + 1], rest[d]) {
          assert Called(frames[(d + 1) + 1], frames[d + 1]);
        }
        assert Stack(p, rest, mem);
        WalkFindsInnermost(p, eh, m, mem, rest, Popped(g'), n - 1, depth + 1, o);
        forall d | 0 <= d < |frames| && d < n && Catches(p, eh, m, frames[d])
          && (forall e :: 0 <= e < d ==> !Catches(p, eh, m, frames[e]))
          ensures LandsIn(p, eh, m, frames, d, depth, o)
        {
          assert forall e :: 0 <= e < d - 1 ==> rest[e] == frames[e + 1];
          assert LandsIn(p, eh, m, rest, d - 1, depth + 1, o);
        }
        if forall d :: 0 <= d < |frames| && d < n ==> !Catches(p, eh, m, frames[d]) {
          assert forall d :: 0 <= d < |rest| && d < n - 1 ==> rest[d] == frames[d + 1];
        }
      }
    }
  }
}
