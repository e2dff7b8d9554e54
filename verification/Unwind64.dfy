/**
 The x64 virtual unwinder of runtime/recomp64_cpu/eh64.c: it reads the unwind codes the compiler
 left for a function and undoes, on the guest registers and the guest stack, a prologue it never
 sees. This module is the interpreter: the tables as bytes of the image, the codes as values, and
 unwind_one as a method on the CPU, proved to compute Unwound. Prologue64 proves what that means.
 */
module Unwind64 {
  import opened Words

  const WORD64 := 0x1_0000_0000_0000_0000
  const RSP: nat := 4

  type u64 = x: int | 0 <= x < 0x1_0000_0000_0000_0000

  /** A register file: rax, rcx, rdx, rbx, rsp, rbp, rsi, rdi, r8 .. r15. */
  type Gprs = g: seq<u64> | |g| == 16 witness seq(16, i => 0)
  type Reg = r: int | 0 <= r < 16

  /** Guest memory, and the loaded image by RVA: a byte at every address. */
  type Memory = u64 -> u8
  type Image = int -> u8

  /** Addresses wrap at 64 bits. */
  function At(x: int): u64 {
    x % WORD64
  }

  function Plus(a: int, b: int): u64 {
    At(a + b)
  }

  function ReadLe(mem: Memory, a: int, n: nat): nat
    decreases n
  {
    if n == 0 then 0 else mem(At(a)) as nat + 256 * ReadLe(mem, a + 1, n - 1)
  }

  function Pow256(n: nat): nat {
    if n == 0 then 1 else 256 * Pow256(n - 1)
  }

  lemma {:induction false} ReadLeBound(mem: Memory, a: int, n: nat)
    ensures ReadLe(mem, a, n) < Pow256(n)
    decreases n
  {
    if n > 0 {
      ReadLeBound(mem, a + 1, n - 1);
    }
  }

  function Rd64(mem: Memory, a: int): u64 {
    ReadLeBound(mem, a, 8);
    ReadLe(mem, a, 8)
  }

  function U16(img: Image, rva: int): nat {
    img(rva) + 0x100 * img(rva + 1)
  }

  function U32(img: Image, rva: int): u32 {
    img(rva) + 0x100 * img(rva + 1) + 0x1_0000 * img(rva + 2) + 0x100_0000 * img(rva + 3)
  }

  // ---- unwind codes ----

  datatype Op =
    | Push(reg: Reg)
    | Alloc(size: nat)
    | SetFp
    | Save(reg: Reg, off: nat)
    | Ignored                       // XMM saves, machine frames

  /** An operation, and how far into the prologue it had happened. */
  datatype Code = Code(at: u8, op: Op)

  /** How many 16-bit slots the code at slot i takes. */
  function Slots(img: Image, codes: int, i: nat): (n: nat)
    ensures n >= 1
  {
    var opinfo := img(codes + 2 * i + 1);
    match opinfo % 16
    case 1 => if opinfo / 16 == 0 then 2 else 3
    case 4 => 2
    case 5 => 3
    case 8 => 2
    case 9 => 3
    case _ => 1
  }

  function Decode(img: Image, codes: int, i: nat): Code {
    var opinfo := img(codes + 2 * i + 1);
    var info := opinfo / 16;
    var op :=
      match opinfo % 16
      case 0 => Push(info)
      case 1 => Alloc(if info == 0 then 8 * U16(img, codes + 2 * (i + 1)) else U32(img, codes + 2 * (i + 1)))
      case 2 => Alloc(8 * info + 8)
      case 3 => SetFp
      case 4 => Save(info, 8 * U16(img, codes + 2 * (i + 1)))
      case 5 => Save(info, U32(img, codes + 2 * (i + 1)))
      case _ => Ignored;
    Code(img(codes + 2 * i), op)
  }

  function Codes(img: Image, codes: int, i: nat, n: nat): seq<Code>
    decreases n - i
  {
    if i >= n then [] else [Decode(img, codes, i)] + Codes(img, codes, i + Slots(img, codes, i), n)
  }

  // ---- the interpreter, on values ----

  /** A frame register and its scaled offset, from an UNWIND_INFO header; register 0 means none. */
  datatype Fp = Fp(reg: Reg, off: nat)

  function FpBase(g: Gprs, fp: Fp): u64 {
    Plus(g[fp.reg], -16 * fp.off as int)
  }

  function Undo(c: Code, g: Gprs, mem: Memory, off: nat, base: u64, fp: Fp): Gprs {
    if c.at > off then g
    else match c.op
      case Push(r) => var g1 := g[r := Rd64(mem, g[RSP])]; g1[RSP := Plus(g1[RSP], 8)]
      case Alloc(n) => g[RSP := Plus(g[RSP], n)]
      case SetFp => g[RSP := FpBase(g, fp)]
      case Save(r, o) => g[r := Rd64(mem, Plus(base, o))]
      case Ignored => g
  }

  function Run(cs: seq<Code>, g: Gprs, mem: Memory, off: nat, base: u64, fp: Fp): Gprs
    decreases |cs|
  {
    if cs == [] then g else Run(cs[1..], Undo(cs[0], g, mem, off, base, fp), mem, off, base, fp)
  }

  lemma RunOne(img: Image, codes: int, i: nat, n: nat, g: Gprs, mem: Memory, off: nat, base: u64, fp: Fp)
    requires i < n
    ensures Run(Codes(img, codes, i, n), g, mem, off, base, fp)
      == Run(Codes(img, codes, i + Slots(img, codes, i), n), Undo(Decode(img, codes, i), g, mem, off, base, fp),
             mem, off, base, fp)
  {
    hide Undo, Slots, Decode;
    var cs := Codes(img, codes, i, n);
    assert cs[0] == Decode(img, codes, i);
    assert cs[1..] == Codes(img, codes, i + Slots(img, codes, i), n);
  }

  lemma RunNone(img: Image, codes: int, i: nat, n: nat, g: Gprs, mem: Memory, off: nat, base: u64, fp: Fp)
    requires i >= n
    ensures Run(Codes(img, codes, i, n), g, mem, off, base, fp) == g
  {
  }

  /** The codes of what had happened at offset `off` of the function. */
  function Happened(cs: seq<Code>, off: nat): seq<Code> {
    if cs == [] then [] else (if off < cs[0].at then [] else [cs[0]]) + Happened(cs[1..], off)
  }

  /** At a point inside the prologue exactly what had happened by then is undone, the code at the point
      itself included. */
  lemma {:induction false} RunIsOfHappened(cs: seq<Code>, g: Gprs, mem: Memory, off: nat, base: u64, fp: Fp)
    ensures Run(cs, g, mem, off, base, fp) == Run(Happened(cs, off), g, mem, 0xFF, base, fp)
    decreases |cs|
  {
    if cs != [] {
      var g1 := Undo(cs[0], g, mem, off, base, fp);
      RunIsOfHappened(cs[1..], g1, mem, off, base, fp);
      var rest := Happened(cs[1..], off);
      assert ([cs[0]] + rest)[1..] == rest && [] + rest == rest;
      UndoneAlike(cs[0], g, mem, off, base, fp);
      hide Undo;
    }
  }

  lemma UndoneAlike(c: Code, g: Gprs, mem: Memory, off: nat, base: u64, fp: Fp)
    ensures Undo(c, g, mem, off, base, fp) == if off < c.at then g else Undo(c, g, mem, 0xFF, base, fp)
  {
    hide Rd64, Plus, FpBase;
  }

  function NCodes(img: Image, u: int): u8 {
    img(u + 2)
  }

  function Header(img: Image, u: int): Fp {
    Fp(img(u + 3) % 16, img(u + 3) / 16)
  }

  function Level(img: Image, u: int): seq<Code> {
    Codes(img, u + 4, 0, NCodes(img, u))
  }

  /** UNW_FLAG_CHAININFO */
  predicate Chained(img: Image, u: int) {
    img(u) / 0x20 % 2 == 1
  }

  /** The UNWIND_INFO the chained RUNTIME_FUNCTION after the codes points at. */
  function Parent(img: Image, u: int): int {
    U32(img, u + 4 + (NCodes(img, u) + 1) / 2 * 2 * 2 + 8)
  }

  /** The chain from u ends after at most k more levels; a chain that does not end makes the source
      loop for ever. */
  predicate ChainEnds(img: Image, u: int, k: nat)
    decreases k
  {
    Chained(img, u) ==> k > 0 && ChainEnds(img, Parent(img, u), k - 1)
  }

  function BaseAt(img: Image, u: int, g: Gprs, base: u64): u64 {
    if Header(img, u).reg != 0 then FpBase(g, Header(img, u)) else base
  }

  function RunChain(img: Image, u: int, k: nat, g: Gprs, mem: Memory, off: nat, base: u64): Gprs
    requires ChainEnds(img, u, k)
    decreases k
  {
    var base' := BaseAt(img, u, g, base);
    var g' := Run(Level(img, u), g, mem, off, base', Header(img, u));
    if Chained(img, u) then RunChain(img, Parent(img, u), k - 1, g', mem, 0xFFFF_FFFF, base') else g'
  }

  // ---- the function table ----

  datatype Function = Function(begin: u32, end: u32, unwind: u32)

  predicate Within(f: Function, rva: int) {
    f.begin <= rva < f.end
  }

  /** .pdata is sorted and its entries do not overlap. */
  predicate Sorted(pdata: seq<Function>) {
    forall i, j :: 0 <= i < j < |pdata| ==> pdata[i].end <= pdata[j].begin
  }

  /** The entry that contains rva, or -1. */
  function IndexOf(pdata: seq<Function>, rva: int): (i: int)
    ensures -1 <= i < |pdata|
    ensures i >= 0 ==> Within(pdata[i], rva)
    ensures i < 0 ==> forall k :: 0 <= k < |pdata| ==> !Within(pdata[k], rva)
  {
    if pdata == [] then -1
    else if Within(pdata[|pdata| - 1], rva) then |pdata| - 1
    else IndexOf(pdata[..|pdata| - 1], rva)
  }

  method PdataFind(pdata: seq<Function>, rva: u32) returns (r: int)
    requires Sorted(pdata)
    requires forall f :: f in pdata ==> f.begin < f.end
    ensures r == IndexOf(pdata, rva)
  {
    var lo, hi := 0, |pdata| - 1;
    while lo <= hi
      invariant 0 <= lo <= |pdata| && -1 <= hi < |pdata|
      invariant forall k :: 0 <= k < lo ==> pdata[k].end <= rva
      invariant forall k :: hi < k < |pdata| ==> rva < pdata[k].begin
      decreases hi - lo + 1
    {
      var m := (lo + hi) / 2;
      assert pdata[m] in pdata;
      if rva < pdata[m].begin {
        hi := m - 1;
      } else if rva >= pdata[m].end {
        lo := m + 1;
      } else {
        OnlyOne(pdata, rva, m);
        return m;
      }
    }
    r := -1;
  }

  lemma OnlyOne(pdata: seq<Function>, rva: int, m: nat)
    requires Sorted(pdata) && m < |pdata| && Within(pdata[m], rva)
    ensures IndexOf(pdata, rva) == m
  {
    forall k | 0 <= k < |pdata| && k != m
      ensures !Within(pdata[k], rva)
    {
      assert k < m ==> pdata[k].end <= pdata[m].begin;
    }
  }

  /** What the unwinder reads: the image, where it is loaded, and its function table; depth bounds
      the unwind chains. */
  datatype Program = Program(base: u64, img: Image, pdata: seq<Function>, ghost depth: nat)

  ghost predicate Loadable(p: Program) {
    && Sorted(p.pdata)
    && forall f :: f in p.pdata ==> f.begin < f.end && ChainEnds(p.img, f.unwind, p.depth)
  }

  function Rva(p: Program, pc: u64): u32 {
    (pc as int - p.base as int) % 0x1_0000_0000
  }

  /** The registers unwind_one leaves before it pops the return address. */
  ghost function Unwound(p: Program, pc: u64, g: Gprs, mem: Memory): Gprs
    requires Loadable(p)
  {
    var rva := Rva(p, pc);
    var i := IndexOf(p.pdata, rva);
    if i < 0 then g
    else RunChain(p.img, p.pdata[i].unwind, p.depth, g, mem, rva - p.pdata[i].begin, g[RSP])
  }

  function Popped(g: Gprs): Gprs {
    g[RSP := Plus(g[RSP], 8)]
  }

  /** Where a frame's locals are measured from. */
  function Establisher(img: Image, u: int, k: nat, g: Gprs): u64
    requires ChainEnds(img, u, k)
    decreases k
  {
    if Header(img, u).reg != 0 then FpBase(g, Header(img, u))
    else if Chained(img, u) then Establisher(img, Parent(img, u), k - 1, g)
    else g[RSP]
  }

  class Cpu {
    const gpr: array<u64>
    const mem: Memory

    constructor (regs: Gprs, mem: Memory)
      ensures Valid() && fresh(gpr) && Regs() == regs && this.mem == mem
    {
      var a := new u64[16](i requires 0 <= i < 16 => regs[i]);
      gpr, this.mem := a, mem;
      new;
      assert gpr[..] == regs;
    }

    predicate Valid() {
      gpr.Length == 16
    }

    function Regs(): Gprs
      requires Valid()
      reads gpr
    {
      gpr[..]
    }

    /** One code, as the switch in unwind_one applies it. */
    method UndoCode(img: Image, codes: int, i: nat, off: nat, base: u64, fp: Fp) returns (slots: nat)
      requires Valid()
      modifies gpr
      ensures Regs() == Undo(Decode(img, codes, i), old(Regs()), mem, off, base, fp)
      ensures slots == Slots(img, codes, i)
    {
      var coff, opinfo := img(codes + 2 * i), img(codes + 2 * i + 1);
      var op, info := opinfo % 16, opinfo / 16;
      var apply := coff <= off;
      slots := 1;
      match op {
        case 0 =>
          if apply {
            gpr[info] := Rd64(mem, gpr[RSP]);
            gpr[RSP] := Plus(gpr[RSP], 8);
          }
        case 1 =>
          if info == 0 {
            slots := 2;
            if apply { gpr[RSP] := Plus(gpr[RSP], U16(img, codes + 2 * (i + 1)) * 8); }
          } else {
            slots := 3;
            if apply { gpr[RSP] := Plus(gpr[RSP], U32(img, codes + 2 * (i + 1))); }
          }
        case 2 =>
          if apply { gpr[RSP] := Plus(gpr[RSP], info * 8 + 8); }
        case 3 =>
          if apply { gpr[RSP] := FpBase(gpr[..], fp); }
        case 4 =>
          slots := 2;
          if apply { gpr[info] := Rd64(mem, Plus(base, U16(img, codes + 2 * (i + 1)) * 8)); }
        case 5 =>
          slots := 3;
          if apply { gpr[info] := Rd64(mem, Plus(base, U32(img, codes + 2 * (i + 1)))); }
        case 8 => slots := 2;
        case 9 => slots := 3;
        case _ =>
      }
    }

    /** The loop over one UNWIND_INFO's codes. */
    method UndoLevel(img: Image, u: int, off: nat, base: u64)
      requires Valid()
      modifies gpr
      ensures Regs() == Run(Level(img, u), old(Regs()), mem, off, base, Header(img, u))
    {
      hide Undo, Slots, Decode, Codes, Run;
      var n: int, fp, i: int := NCodes(img, u), Header(img, u), 0;
      while i < n
        invariant Run(Codes(img, u + 4, i, n), Regs(), mem, off, base, fp)
          == Run(Level(img, u), old(Regs()), mem, off, base, fp)
        decreases n - i
      {
        RunOne(img, u + 4, i, n, Regs(), mem, off, base, fp);
        var slots := UndoCode(img, u + 4, i, off, base, fp);
        i := i + slots;
      }
      RunNone(img, u + 4, i, n, Regs(), mem, off, base, fp);
    }

    /** unwind_one: undo the frame's prologue, then pop the return address. The establisher is where the
        return address was. */
    method UnwindOne(p: Program, pc: u64) returns (ok: bool, pc': u64, establisher: u64)
      requires Valid() && Loadable(p)
      modifies gpr
      ensures var g := Unwound(p, pc, old(Regs()), mem);
        Regs() == Popped(g) && pc' == Rd64(mem, g[RSP]) && ok == (pc' != 0) && establisher == g[RSP]
    {
      ghost var g0 := Regs();
      var rva := Rva(p, pc);
      var f := PdataFind(p.pdata, rva);
      if f >= 0 {
        assert p.pdata[f] in p.pdata;
        var u, off, base := p.pdata[f].unwind as int, (rva as int - p.pdata[f].begin as int) as nat, gpr[RSP];
        ghost var k := p.depth;
        while true
          invariant ChainEnds(p.img, u, k)
          invariant RunChain(p.img, u, k, Regs(), mem, off, base) == Unwound(p, pc, g0, mem)
          decreases k
        {
          if Header(p.img, u).reg != 0 {
            base := FpBase(Regs(), Header(p.img, u));
          }
          UndoLevel(p.img, u, off, base);
          if !Chained(p.img, u) {
            break;
          }
          u, off, k := Parent(p.img, u), 0xFFFF_FFFF, k - 1;
        }
      }
      establisher := gpr[RSP];
      pc' := Rd64(mem, gpr[RSP]);
      gpr[RSP] := Plus(gpr[RSP], 8);
      ok := pc' != 0;
    }

    /** frame_establisher */
    method FrameEstablisher(p: Program, f: int) returns (base: u64)
      requires Valid() && Loadable(p) && -1 <= f < |p.pdata|
      ensures base == if f < 0 then Regs()[RSP] else Establisher(p.img, p.pdata[f].unwind, p.depth, Regs())
    {
      if f < 0 {
        return gpr[RSP];
      }
      assert p.pdata[f] in p.pdata;
      var u := p.pdata[f].unwind as int;
      ghost var k := p.depth;
      while true
        invariant ChainEnds(p.img, u, k)
        invariant Establisher(p.img, u, k, Regs()) == Establisher(p.img, p.pdata[f].unwind, p.depth, Regs())
        decreases k
      {
        var fp := Header(p.img, u);
        if fp.reg != 0 {
          return FpBase(Regs(), fp);
        }
        if !Chained(p.img, u) {
          break;
        }
        u, k := Parent(p.img, u), k - 1;
      }
      base := gpr[RSP];
    }
  }
}
