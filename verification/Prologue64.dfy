/**
 What the unwinder of Unwind64 undoes. A prologue is run forwards here, as the machine runs it
 ("Prolog code" and "struct UNWIND_CODE" in Microsoft's description of x64 exception handling);
 then, after any body that keeps its save slots and its rsp or frame register, interpreting the
 codes backwards gives back the caller's rsp and every saved register.
 */
module Prologue64 {
  import opened Words
  import opened Unwind64

  // ---- memory ----

  function ByteOf(v: nat, k: nat): u8 {
    if k == 0 then v % 256 else ByteOf(v / 256, k - 1)
  }

  function Wr64(mem: Memory, a: u64, v: u64): Memory {
    (x: u64) => var k := (x as int - a as int) % WORD64; if k < 8 then ByteOf(v, k) else mem(x)
  }

  /** Two 8-byte cells that do not overlap, on the address circle. */
  predicate Apart(a: u64, b: u64) {
    8 <= (b as int - a as int) % WORD64 <= WORD64 - 8
  }

  predicate ByteIs(mem: Memory, a: int, i: nat, v: nat) {
    mem(At(a + i)) == ByteOf(v, i)
  }

  predicate SameByte(m1: Memory, m2: Memory, a: int, i: nat) {
    m1(At(a + i)) == m2(At(a + i))
  }

  lemma {:induction false} ReadBytes(mem: Memory, a: int, v: nat, n: nat)
    requires v < Pow256(n)
    requires forall i: nat :: i < n ==> ByteIs(mem, a, i, v)
    ensures ReadLe(mem, a, n) == v
    decreases n
  {
    if n > 0 {
      var a', v' := a + 1, v / 256;
      forall i: nat | i < n - 1
        ensures ByteIs(mem, a', i, v')
      {
        assert ByteIs(mem, a, i + 1, v);
      }
      ReadBytes(mem, a', v', n - 1);
      assert ByteIs(mem, a, 0, v);
    }
  }

  lemma {:induction false} ReadSame(m1: Memory, m2: Memory, a: int, n: nat)
    requires forall i: nat :: i < n ==> SameByte(m1, m2, a, i)
    ensures ReadLe(m1, a, n) == ReadLe(m2, a, n)
    decreases n
  {
    if n > 0 {
      assert SameByte(m1, m2, a, 0);
      var a' := a + 1;
      forall i: nat | i < n - 1
        ensures SameByte(m1, m2, a', i)
      {
        assert SameByte(m1, m2, a, i + 1);
      }
      ReadSame(m1, m2, a', n - 1);
    }
  }

  lemma Offset(b: u64, a: u64, i: nat)
    requires i < 8
    ensures a == b ==> (At(b as int + i) as int - a as int) % WORD64 == i
    ensures Apart(a, b) ==> (At(b as int + i) as int - a as int) % WORD64 >= 8
  {
  }

  lemma WriteRead(mem: Memory, a: u64, v: u64)
    ensures Rd64(Wr64(mem, a, v), a) == v
  {
    var m := Wr64(mem, a, v);
    forall i: nat | i < 8
      ensures ByteIs(m, a, i, v)
    {
      Offset(a, a, i);
    }
    assert Pow256(8) == WORD64;
    ReadBytes(m, a, v, 8);
  }

  lemma WriteElsewhere(mem: Memory, a: u64, v: u64, b: u64)
    requires Apart(a, b)
    ensures Rd64(Wr64(mem, a, v), b) == Rd64(mem, b)
  {
    var m := Wr64(mem, a, v);
    forall i: nat | i < 8
      ensures SameByte(m, mem, b, i)
    {
      Offset(b, a, i);
    }
    ReadSame(m, mem, b, 8);
  }

  // ---- running a prologue ----

  /** The machine while a prologue runs. */
  datatype Machine = Machine(g: Gprs, mem: Memory)

  /** One prologue instruction. `base` is where the frame's save offsets are measured from. */
  function Do(op: Op, m: Machine, base: u64, fp: Fp): Machine {
    match op
    case Push(r) =>
      var sp := Plus(m.g[RSP], -8);
      Machine(m.g[RSP := sp], Wr64(m.mem, sp, m.g[r]))
    case Alloc(n) => m.(g := m.g[RSP := Plus(m.g[RSP], -(n as int))])
    case SetFp => m.(g := m.g[fp.reg := Plus(m.g[RSP], 16 * fp.off as int)])
    case Save(r, o) => m.(mem := Wr64(m.mem, Plus(base, o), m.g[r]))
    case Ignored => m
  }

  function DoAll(ops: seq<Op>, m: Machine, base: u64, fp: Fp): Machine {
    if ops == [] then m else Do(Last(ops), DoAll(Init(ops), m, base, fp), base, fp)
  }

  function Last(ops: seq<Op>): Op
    requires ops != []
  {
    ops[|ops| - 1]
  }

  function Init(ops: seq<Op>): seq<Op>
    requires ops != []
  {
    ops[..|ops| - 1]
  }

  /** How far the stack pointer has gone down. */
  function Depth(ops: seq<Op>): nat {
    if ops == [] then 0
    else Depth(Init(ops)) + match Last(ops) case Push(_) => 8 case Alloc(n) => n case _ => 0
  }

  predicate HasSetFp(ops: seq<Op>) {
    SetFp in ops
  }

  /** The stack pointer a prologue entered at sp measures its saves from: where the frame register
      points, or with no frame register the fixed part of the frame's lower end. */
  function FrameBase(ops: seq<Op>, sp: u64): u64 {
    if ops == [] then sp
    else if Last(ops) == SetFp then Plus(sp, -(Depth(Init(ops)) as int))
    else if HasSetFp(Init(ops)) then FrameBase(Init(ops), sp)
    else Plus(sp, -(Depth(ops) as int))
  }

  /** Where the last instruction of ops, if it saves, saves to. */
  function Slot(ops: seq<Op>, sp: u64, base: u64): u64
    requires ops != []
  {
    match Last(ops)
    case Push(_) => Plus(sp, -(Depth(ops) as int))
    case Save(_, o) => Plus(base, o)
    case _ => sp
  }

  predicate Saves(op: Op) {
    op.Push? || op.Save?
  }

  /** A well-formed prologue: rsp is never saved as a register; the frame register is set at most
      once and to a register other than rsp, after it has been saved; once it is set nothing is
      pushed and it is not saved again. */
  predicate WellFormed(ops: seq<Op>, fp: Fp) {
    ops == [] ||
    (WellFormed(Init(ops), fp) &&
     match Last(ops)
     case Push(r) => r != RSP && !HasSetFp(Init(ops))
     case Save(r, _) => r != RSP && (HasSetFp(Init(ops)) ==> r != fp.reg)
     case SetFp => fp.reg != 0 && fp.reg != RSP && !HasSetFp(Init(ops)) && fp.reg in SavedRegs(Init(ops))
     case _ => true)
  }

  function SavedRegs(ops: seq<Op>): set<int> {
    if ops == [] then {}
    else SavedRegs(Init(ops)) + match Last(ops) case Push(r) => {r as int} case Save(r, _) => {r as int} case _ => {}
  }

  /** The cell at a overlaps neither the return address nor a slot of ops. */
  predicate Fresh(a: u64, ops: seq<Op>, sp: u64, base: u64) {
    if ops == [] then Apart(a, sp)
    else Fresh(a, Init(ops), sp, base) && (Saves(Last(ops)) ==> Apart(a, Slot(ops, sp, base)))
  }

  /** The save slots overlap neither each other nor the return address. */
  predicate Laid(ops: seq<Op>, sp: u64, base: u64) {
    ops != [] ==>
      Laid(Init(ops), sp, base) && (Saves(Last(ops)) ==> Fresh(Slot(ops, sp, base), Init(ops), sp, base))
  }

  /** Every save slot of ops holds its register's value in g, and the return address is ret. */
  predicate Holds(ops: seq<Op>, sp: u64, base: u64, g: Gprs, ret: u64, mem: Memory) {
    if ops == [] then Rd64(mem, sp) == ret
    else
      Holds(Init(ops), sp, base, g, ret, mem) &&
      match Last(ops)
      case Push(r) => Rd64(mem, Slot(ops, sp, base)) == g[r]
      case Save(r, _) => Rd64(mem, Slot(ops, sp, base)) == g[r]
      case _ => true
  }

  // ---- what a prologue leaves ----

  lemma {:induction false} HoldsFrame(ops: seq<Op>, sp: u64, base: u64, g: Gprs, ret: u64, mem: Memory, a: u64, v: u64)
    requires Holds(ops, sp, base, g, ret, mem) && Fresh(a, ops, sp, base)
    ensures Holds(ops, sp, base, g, ret, Wr64(mem, a, v))
    decreases |ops|
  {
    if ops == [] {
      WriteElsewhere(mem, a, v, sp);
    } else {
      HoldsFrame(Init(ops), sp, base, g, ret, mem, a, v);
      if Saves(Last(ops)) {
        WriteElsewhere(mem, a, v, Slot(ops, sp, base));
      }
    }
  }

  lemma PlusPlus(a: u64, x: int, y: int, z: int)
    requires z == x + y
    ensures Plus(Plus(a, x), y) == Plus(a, z)
    ensures Plus(a, 0) == a
  {
  }

  /** After a prologue: rsp is down by its depth, the frame register points where it should, every
      other register is as on entry, and the slots hold the entry registers. */
  lemma {:induction false} PrologueLeaves(ops: seq<Op>, m: Machine, base: u64, fp: Fp)
    requires WellFormed(ops, fp) && Laid(ops, m.g[RSP], base)
    requires HasSetFp(ops) ==> base == FrameBase(ops, m.g[RSP])
    ensures var m' := DoAll(ops, m, base, fp); var sp := m.g[RSP];
      && m'.g[RSP] == Plus(sp, -(Depth(ops) as int))
      && (HasSetFp(ops) ==> m'.g[fp.reg] == Plus(base, 16 * fp.off as int))
      && (forall r :: 0 <= r < 16 && r != RSP && (HasSetFp(ops) ==> r != fp.reg) ==> m'.g[r] == m.g[r])
      && Holds(ops, sp, base, m.g, Rd64(m.mem, sp), m'.mem)
    decreases |ops|
  {
    hide Wr64, Rd64, Plus, Apart, Fresh;
    var sp := m.g[RSP];
    if ops == [] {
      PlusPlus(sp, 0, 0, 0);
    } else {
      var front, m1 := Init(ops), DoAll(Init(ops), m, base, fp);
      SetFpSplit(ops);
      if HasSetFp(front) {
        FpIsSaved(front, fp);
      }
      PrologueLeaves(front, m, base, fp);
      var d := Depth(front);
      match Last(ops)
      case Push(r) =>
        PlusPlus(sp, -(d as int), -8, -(Depth(ops) as int));
        WriteRead(m1.mem, Slot(ops, sp, base), m1.g[r]);
        HoldsFrame(front, sp, base, m.g, Rd64(m.mem, sp), m1.mem, Slot(ops, sp, base), m1.g[r]);
      case Alloc(n) =>
        PlusPlus(sp, -(d as int), -(n as int), -(Depth(ops) as int));
      case SetFp =>
      case Save(r, o) =>
        WriteRead(m1.mem, Slot(ops, sp, base), m1.g[r]);
        HoldsFrame(front, sp, base, m.g, Rd64(m.mem, sp), m1.mem, Slot(ops, sp, base), m1.g[r]);
      case Ignored =>
    }
  }

  lemma SetFpSplit(ops: seq<Op>)
    requires ops != []
    ensures HasSetFp(ops) <==> HasSetFp(Init(ops)) || Last(ops) == SetFp
  {
    assert ops == Init(ops) + [Last(ops)];
  }

  lemma {:induction false} FpIsSaved(ops: seq<Op>, fp: Fp)
    requires WellFormed(ops, fp) && HasSetFp(ops)
    ensures fp.reg != 0 && fp.reg != RSP && fp.reg in SavedRegs(ops)
    decreases |ops|
  {
    SetFpSplit(ops);
    if HasSetFp(Init(ops)) {
      FpIsSaved(Init(ops), fp);
    }
  }

  // ---- and what undoing it restores ----

  /** The codes of a prologue: its operations, last first, all behind the point `off`. */
  predicate CodesOf(cs: seq<Code>, ops: seq<Op>, off: nat) {
    if ops == [] then cs == []
    else cs != [] && cs[0].op == Last(ops) && cs[0].at <= off && CodesOf(cs[1..], Init(ops), off)
  }

  /** What a body, and every callee's unwinding, must leave of the machine. */
  predicate Anchored(ops: seq<Op>, sp: u64, base: u64, g: Gprs, fp: Fp) {
    if HasSetFp(ops) then g[fp.reg] == Plus(base, 16 * fp.off as int)
    else g[RSP] == Plus(sp, -(Depth(ops) as int))
  }

  /** Interpreting the codes undoes the prologue: rsp is back at the return address, every saved
      register has the value it had on entry, and no other register has changed. */
  lemma {:induction false} UndoRestores(cs: seq<Code>, ops: seq<Op>, g0: Gprs, g: Gprs, ret: u64, mem: Memory,
                                        off: nat, base: u64, fp: Fp)
    requires WellFormed(ops, fp) && CodesOf(cs, ops, off)
    requires HasSetFp(ops) ==> base == FrameBase(ops, g0[RSP])
    requires Holds(ops, g0[RSP], base, g0, ret, mem)
    requires Anchored(ops, g0[RSP], base, g, fp)
    ensures var g' := Run(cs, g, mem, off, base, fp);
      && g'[RSP] == g0[RSP] && Rd64(mem, g'[RSP]) == ret
      && forall r :: 0 <= r < 16 && r != RSP ==> g'[r] == if r in SavedRegs(ops) then g0[r] else g[r]
    decreases |ops|
  {
    if ops == [] {
      PlusPlus(g0[RSP], 0, 0, 0);
    } else {
      var g1 := Undo(cs[0], g, mem, off, base, fp);
      UndoLast(cs[0], ops, g0, g, ret, mem, off, base, fp);
      UndoRestores(cs[1..], Init(ops), g0, g1, ret, mem, off, base, fp);
    }
  }

  lemma UndoLast(c: Code, ops: seq<Op>, g0: Gprs, g: Gprs, ret: u64, mem: Memory, off: nat, base: u64, fp: Fp)
    requires ops != [] && WellFormed(ops, fp) && c.op == Last(ops) && c.at <= off
    requires HasSetFp(ops) ==> base == FrameBase(ops, g0[RSP])
    requires Holds(ops, g0[RSP], base, g0, ret, mem)
    requires Anchored(ops, g0[RSP], base, g, fp)
    ensures var g1 := Undo(c, g, mem, off, base, fp);
      && Anchored(Init(ops), g0[RSP], base, g1, fp)
      && (HasSetFp(Init(ops)) ==> base == FrameBase(Init(ops), g0[RSP]))
      && forall r :: 0 <= r < 16 && r != RSP ==>
        g1[r] == match Last(ops)
                 case Push(q) => if r == q then g0[r] else g[r]
                 case Save(q, _) => if r == q then g0[r] else g[r]
                 case _ => g[r]
  {
    hide Wr64, Rd64, Plus, Apart, Fresh;
    var sp, d := g0[RSP], Depth(ops) as int;
    SetFpSplit(ops);
    if HasSetFp(Init(ops)) {
      FpIsSaved(Init(ops), fp);
    }
    match Last(ops)
    case Push(r) => PlusPlus(sp, -d, 8, -(Depth(Init(ops)) as int));
    case Alloc(n) => PlusPlus(sp, -d, n, -(Depth(Init(ops)) as int));
    case SetFp => PlusPlus(base, 16 * fp.off as int, -16 * fp.off as int, 0);
    case Save(_, _) =>
    case Ignored =>
  }
}
