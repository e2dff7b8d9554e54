/**
 unwind_one on a whole frame: the function table, the unwind tables with their chained infos, and
 the encoding of the codes as bytes, put together with Prologue64. The result is stated for a
 prologue run forwards, then any body, then unwind_one.
 */
module Frame64 {
  import opened Words
  import opened Unwind64
  import opened Prologue64
  import opened Wrappers

  /** The codes of all chained infos, innermost first. */
  ghost function AllCodes(img: Image, u: int, k: nat): seq<Code>
    requires ChainEnds(img, u, k)
    decreases k
  {
    Level(img, u) + if Chained(img, u) then AllCodes(img, Parent(img, u), k - 1) else []
  }

  predicate SavesReg(op: Op, r: int) {
    (op.Push? || op.Save?) && op.reg == r
  }

  /** Every info of the chain names the same frame register, and none but the last saves it. */
  predicate Uniform(img: Image, u: int, k: nat, fp: Fp)
    requires ChainEnds(img, u, k)
    decreases k
  {
    Header(img, u) == fp &&
    (Chained(img, u) ==>
      (fp.reg != 0 ==> forall c :: c in Level(img, u) ==> !SavesReg(c.op, fp.reg))
      && Uniform(img, Parent(img, u), k - 1, fp))
  }

  const EVERYWHERE: nat := 0xFFFF_FFFF

  /** The tables say that a function stopped at pc has run the prologue ops. */
  ghost predicate Describes(p: Program, pc: u64, ops: seq<Op>, fp: Fp)
    requires Loadable(p)
  {
    var i := IndexOf(p.pdata, Rva(p, pc));
    WellFormed(ops, fp) && (fp.reg != 0 <==> HasSetFp(ops)) &&
    if i < 0 then ops == []
    else
      assert p.pdata[i] in p.pdata;
      var u := p.pdata[i].unwind;
      && Uniform(p.img, u, p.depth, fp)
      && CodesOf(AllCodes(p.img, u, p.depth), ops, EVERYWHERE)
      && forall c :: c in Level(p.img, u) ==> c.at <= Rva(p, pc) - p.pdata[i].begin
  }

  // ---- chained infos are one list of codes ----

  lemma {:induction false} RunAppend(a: seq<Code>, b: seq<Code>, g: Gprs, mem: Memory, off: nat, base: u64, fp: Fp)
    ensures Run(a + b, g, mem, off, base, fp) == Run(b, Run(a, g, mem, off, base, fp), mem, off, base, fp)
    decreases |a|
  {
    hide Undo;
    if a == [] {
      assert a + b == b;
    } else {
      assert (a + b)[1..] == a[1..] + b;
      RunAppend(a[1..], b, Undo(a[0], g, mem, off, base, fp), mem, off, base, fp);
    }
  }

  /** Codes all behind the current point all apply. */
  lemma {:induction false} RunAnywhere(cs: seq<Code>, g: Gprs, mem: Memory, off: nat, off': nat, base: u64, fp: Fp)
    requires forall c :: c in cs ==> c.at <= off && c.at <= off'
    ensures Run(cs, g, mem, off, base, fp) == Run(cs, g, mem, off', base, fp)
    decreases |cs|
  {
    if cs != [] {
      var g1 := Undo(cs[0], g, mem, off, base, fp);
      assert cs[0] in cs;
      assert g1 == Undo(cs[0], g, mem, off', base, fp);
      hide Undo;
      RunAnywhere(cs[1..], g1, mem, off, off', base, fp);
    }
  }

  lemma {:induction false} RunKeepsFp(cs: seq<Code>, g: Gprs, mem: Memory, off: nat, base: u64, fp: Fp)
    requires fp.reg != RSP
    requires forall c :: c in cs ==> !SavesReg(c.op, fp.reg)
    ensures Run(cs, g, mem, off, base, fp)[fp.reg] == g[fp.reg]
    decreases |cs|
  {
    if cs != [] {
      var g1 := Undo(cs[0], g, mem, off, base, fp);
      assert cs[0] in cs;
      assert g1[fp.reg] == g[fp.reg];
      hide Undo;
      RunKeepsFp(cs[1..], g1, mem, off, base, fp);
    }
  }

  /** Running a chain is running all its codes from one base. */
  lemma {:induction false} ChainIsRun(img: Image, u: int, k: nat, g: Gprs, mem: Memory, off: nat, base0: u64,
                                      base: u64, fp: Fp)
    requires ChainEnds(img, u, k) && Uniform(img, u, k, fp)
    requires fp.reg != RSP
    requires if fp.reg != 0 then FpBase(g, fp) == base else base0 == base
    requires forall c :: c in Level(img, u) ==> c.at <= off
    ensures RunChain(img, u, k, g, mem, off, base0) == Run(AllCodes(img, u, k), g, mem, EVERYWHERE, base, fp)
    decreases k
  {
    hide Undo, Level, Run;
    var cs := Level(img, u);
    RunAnywhere(cs, g, mem, off, EVERYWHERE, base, fp);
    if Chained(img, u) {
      var g' := Run(cs, g, mem, off, base, fp);
      if fp.reg != 0 {
        RunKeepsFp(cs, g, mem, off, base, fp);
      }
      ChainIsRun(img, Parent(img, u), k - 1, g', mem, EVERYWHERE, base, base, fp);
      RunAppend(cs, AllCodes(img, Parent(img, u), k - 1), g, mem, EVERYWHERE, base, fp);
    } else {
      assert AllCodes(img, u, k) == cs;
    }
  }

  lemma {:induction false} EstablisherIsBase(img: Image, u: int, k: nat, g: Gprs, fp: Fp)
    requires ChainEnds(img, u, k) && Uniform(img, u, k, fp)
    ensures Establisher(img, u, k, g) == if fp.reg != 0 then FpBase(g, fp) else g[RSP]
    decreases k
  {
    if fp.reg == 0 && Chained(img, u) {
      EstablisherIsBase(img, Parent(img, u), k - 1, g, fp);
    }
  }

  // ---- a frame ----

  /** The registers the caller gets back: rsp at the return address, saved registers as on entry,
      the rest as the body left them. */
  predicate Restored(ops: seq<Op>, g0: Gprs, g: Gprs, g': Gprs) {
    && g'[RSP] == g0[RSP]
    && forall r :: 0 <= r < 16 && r != RSP ==> g'[r] == if r in SavedRegs(ops) then g0[r] else g[r]
  }

  lemma BaseOfAnchored(ops: seq<Op>, sp: u64, g: Gprs, fp: Fp)
    requires WellFormed(ops, fp) && (fp.reg != 0 <==> HasSetFp(ops))
    requires Anchored(ops, sp, FrameBase(ops, sp), g, fp)
    ensures fp.reg != RSP
    ensures FrameBase(ops, sp) == if fp.reg != 0 then FpBase(g, fp) else g[RSP]
  {
    hide Plus;
    if HasSetFp(ops) {
      FpIsSaved(ops, fp);
      PlusPlus(FrameBase(ops, sp), 16 * fp.off as int, -16 * fp.off as int, 0);
    } else {
      BaseWithoutFp(ops, sp);
    }
  }

  lemma BaseWithoutFp(ops: seq<Op>, sp: u64)
    requires !HasSetFp(ops)
    ensures FrameBase(ops, sp) == Plus(sp, -(Depth(ops) as int))
  {
    if ops != [] {
      SetFpSplit(ops);
    } else {
      PlusPlus(sp, 0, 0, 0);
    }
  }

  /** unwind_one restores, and frame_establisher finds the body's base, wherever the slots still hold
      the entry registers and the frame register or rsp is where the prologue put it. */
  lemma UnwindRestores(p: Program, pc: u64, ops: seq<Op>, fp: Fp, g0: Gprs, g: Gprs, ret: u64, mem: Memory)
    requires Loadable(p) && Describes(p, pc, ops, fp)
    requires Holds(ops, g0[RSP], FrameBase(ops, g0[RSP]), g0, ret, mem)
    requires Anchored(ops, g0[RSP], FrameBase(ops, g0[RSP]), g, fp)
    ensures Restored(ops, g0, g, Unwound(p, pc, g, mem)) && Rd64(mem, Unwound(p, pc, g, mem)[RSP]) == ret
    ensures EstablisherAt(p, pc, g) == FrameBase(ops, g0[RSP])
  {
    hide Plus, Rd64;
    var base := FrameBase(ops, g0[RSP]);
    var i := IndexOf(p.pdata, Rva(p, pc));
    BaseOfAnchored(ops, g0[RSP], g, fp);
    if i < 0 {
      PlusPlus(g0[RSP], 0, 0, 0);
    } else {
      assert p.pdata[i] in p.pdata;
      var u := p.pdata[i].unwind;
      var off := Rva(p, pc) - p.pdata[i].begin;
      ChainIsRun(p.img, u, p.depth, g, mem, off, g[RSP], base, fp);
      UndoRestores(AllCodes(p.img, u, p.depth), ops, g0, g, ret, mem, EVERYWHERE, base, fp);
      EstablisherIsBase(p.img, u, p.depth, g, fp);
    }
  }

  ghost function EstablisherAt(p: Program, pc: u64, g: Gprs): u64
    requires Loadable(p)
  {
    var i := IndexOf(p.pdata, Rva(p, pc));
    if i < 0 then g[RSP]
    else
      assert p.pdata[i] in p.pdata;
      Establisher(p.img, p.pdata[i].unwind, p.depth, g)
  }

  /** The body left the save slots and the return address as the prologue left them. */
  predicate SlotsKept(ops: seq<Op>, sp: u64, base: u64, before: Memory, after: Memory) {
    if ops == [] then Rd64(after, sp) == Rd64(before, sp)
    else
      SlotsKept(Init(ops), sp, base, before, after)
      && (Saves(Last(ops)) ==> Rd64(after, Slot(ops, sp, base)) == Rd64(before, Slot(ops, sp, base)))
  }

  lemma {:induction false} HoldsKept(ops: seq<Op>, sp: u64, base: u64, g: Gprs, ret: u64, before: Memory, after: Memory)
    requires Holds(ops, sp, base, g, ret, before) && SlotsKept(ops, sp, base, before, after)
    ensures Holds(ops, sp, base, g, ret, after)
    decreases |ops|
  {
    hide Rd64;
    if ops != [] {
      HoldsKept(Init(ops), sp, base, g, ret, before, after);
    }
  }

  /** A body: any registers and memory that keep the slots, and the frame register if the function
      has one, else rsp. */
  predicate Body(ops: seq<Op>, fp: Fp, m: Machine, g: Gprs, mem: Memory) {
    var sp := m.g[RSP];
    var base := FrameBase(ops, sp);
    var m1 := DoAll(ops, m, base, fp);
    SlotsKept(ops, sp, base, m1.mem, mem) &&
    if HasSetFp(ops) then g[fp.reg] == m1.g[fp.reg] else g[RSP] == m1.g[RSP]
  }

  /** Prologue, body, unwind_one: the caller's rsp, return address and every saved register. */
  lemma PrologueBodyUnwind(p: Program, pc: u64, ops: seq<Op>, fp: Fp, m: Machine, g: Gprs, mem: Memory)
    requires Loadable(p) && Describes(p, pc, ops, fp)
    requires Laid(ops, m.g[RSP], FrameBase(ops, m.g[RSP]))
    requires Body(ops, fp, m, g, mem)
    ensures var g' := Unwound(p, pc, g, mem);
      Restored(ops, m.g, g, g') && Rd64(mem, g'[RSP]) == Rd64(m.mem, m.g[RSP])
    ensures EstablisherAt(p, pc, g) == FrameBase(ops, m.g[RSP])
  {
    hide Rd64, Plus, Wr64;
    var sp := m.g[RSP];
    var base := FrameBase(ops, sp);
    PrologueLeaves(ops, m, base, fp);
    HoldsKept(ops, sp, base, m.g, Rd64(m.mem, sp), DoAll(ops, m, base, fp).mem, mem);
    UnwindRestores(p, pc, ops, fp, m.g, g, Rd64(m.mem, sp), mem);
  }

  // ---- the codes as bytes ----

  /** A code the compiler can emit. */
  predicate Encodable(c: Code) {
    match c.op
    case Alloc(n) => n > 0 && n < 0x1_0000_0000
    case Save(_, o) => o < 0x1_0000_0000
    case Ignored => false
    case _ => true
  }

  function Le16(n: nat): seq<u8> {
    [n % 0x100, n / 0x100 % 0x100]
  }

  function Le32(n: nat): seq<u8> {
    [n % 0x100, n / 0x100 % 0x100, n / 0x1_0000 % 0x100, n / 0x100_0000 % 0x100]
  }

  /** One code in the shortest form that holds it. */
  function Encode(c: Code): seq<u8>
    requires Encodable(c)
  {
    match c.op
    case Push(r) => [c.at, 16 * r]
    case Alloc(n) =>
      if n % 8 == 0 && n <= 128 then [c.at, 2 + 16 * (n / 8 - 1)]
      else if n % 8 == 0 && n / 8 < 0x1_0000 then [c.at, 1] + Le16(n / 8)
      else [c.at, 17] + Le32(n)
    case SetFp => [c.at, 3]
    case Save(r, o) =>
      if o % 8 == 0 && o / 8 < 0x1_0000 then [c.at, 4 + 16 * r] + Le16(o / 8)
      else [c.at, 5 + 16 * r] + Le32(o)
  }

  function EncodeAll(cs: seq<Code>): seq<u8>
    requires forall c :: c in cs ==> Encodable(c)
  {
    if cs == [] then [] else Encode(cs[0]) + EncodeAll(cs[1..])
  }

  predicate Stores(img: Image, at: int, bytes: seq<u8>) {
    forall j :: 0 <= j < |bytes| ==> img(at + j) == bytes[j]
  }

  lemma Le32Value(n: nat)
    requires n < 0x1_0000_0000
    ensures n % 0x100 + 0x100 * (n / 0x100 % 0x100) + 0x1_0000 * (n / 0x1_0000 % 0x100)
      + 0x100_0000 * (n / 0x100_0000 % 0x100) == n
  {
  }

  lemma ReadLe32(img: Image, at: int, n: nat)
    requires n < 0x1_0000_0000 && Stores(img, at, Le32(n))
    ensures U32(img, at) == n
  {
    var b := Le32(n);
    assert img(at + 0) == b[0] && img(at + 1) == b[1] && img(at + 2) == b[2] && img(at + 3) == b[3];
    Le32Value(n);
  }

  lemma ReadLe16(img: Image, at: int, n: nat)
    requires n < 0x1_0000 && Stores(img, at, Le16(n))
    ensures U16(img, at) == n
  {
    var b := Le16(n);
    assert img(at + 0) == b[0] && img(at + 1) == b[1];
  }

  lemma StoresTail(img: Image, at: int, head: seq<u8>, tail: seq<u8>)
    requires Stores(img, at, head + tail)
    ensures Stores(img, at, head) && Stores(img, at + |head|, tail)
  {
    var all := head + tail;
    forall j | 0 <= j < |head| ensures img(at + j) == head[j] {
      assert img(at + j) == all[j];
    }
    forall j | 0 <= j < |tail| ensures img(at + |head| + j) == tail[j] {
      assert img(at + (|head| + j)) == all[|head| + j];
    }
  }

  /** The two bytes every code starts with. */
  lemma Opcode(img: Image, codes: int, i: nat, at: u8, opinfo: u8)
    requires Stores(img, codes + 2 * i, [at, opinfo])
    ensures img(codes + 2 * i) == at && img(codes + 2 * i + 1) == opinfo
  {
    assert img(codes + 2 * i + 0) == [at, opinfo][0] && img(codes + 2 * i + 1) == [at, opinfo][1];
  }

  lemma DecodeEncode(img: Image, codes: int, i: nat, c: Code)
    requires Encodable(c) && Stores(img, codes + 2 * i, Encode(c))
    ensures Decode(img, codes, i) == c && |Encode(c)| == 2 * Slots(img, codes, i)
  {
    hide U16, U32, Le16, Le32, Stores;
    var a := codes + 2 * i;
    match c.op
    case Push(r) => Opcode(img, codes, i, c.at, 16 * r);
    case SetFp => Opcode(img, codes, i, c.at, 3);
    case Alloc(n) =>
      if n % 8 == 0 && n <= 128 {
        Opcode(img, codes, i, c.at, 2 + 16 * (n / 8 - 1));
      } else if n % 8 == 0 && n / 8 < 0x1_0000 {
        WithWord(img, codes, i, c.at, 1, n / 8);
      } else {
        WithDword(img, codes, i, c.at, 17, n);
      }
    case Save(r, o) =>
      if o % 8 == 0 && o / 8 < 0x1_0000 {
        WithWord(img, codes, i, c.at, 4 + 16 * r, o / 8);
      } else {
        WithDword(img, codes, i, c.at, 5 + 16 * r, o);
      }
  }

  lemma WithWord(img: Image, codes: int, i: nat, at: u8, opinfo: u8, n: nat)
    requires n < 0x1_0000 && Stores(img, codes + 2 * i, [at, opinfo] + Le16(n))
    ensures img(codes + 2 * i) == at && img(codes + 2 * i + 1) == opinfo
    ensures U16(img, codes + 2 * (i + 1)) == n && |Le16(n)| == 2
  {
    StoresTail(img, codes + 2 * i, [at, opinfo], Le16(n));
    Opcode(img, codes, i, at, opinfo);
    ReadLe16(img, codes + 2 * (i + 1), n);
  }

  lemma WithDword(img: Image, codes: int, i: nat, at: u8, opinfo: u8, n: nat)
    requires n < 0x1_0000_0000 && Stores(img, codes + 2 * i, [at, opinfo] + Le32(n))
    ensures img(codes + 2 * i) == at && img(codes + 2 * i + 1) == opinfo
    ensures U32(img, codes + 2 * (i + 1)) == n && |Le32(n)| == 4
  {
    StoresTail(img, codes + 2 * i, [at, opinfo], Le32(n));
    Opcode(img, codes, i, at, opinfo);
    ReadLe32(img, codes + 2 * (i + 1), n);
  }

  /** Tables round trip: the interpreter reads back exactly the codes that were encoded. */
  lemma {:induction false} DecodeEncodeAll(img: Image, codes: int, i: nat, cs: seq<Code>, slots: nat)
    requires forall c :: c in cs ==> Encodable(c)
    requires Stores(img, codes + 2 * i, EncodeAll(cs)) && |EncodeAll(cs)| == 2 * slots
    ensures Codes(img, codes, i, i + slots) == cs
    decreases |cs|
  {
    hide Decode, Slots, Encode, Encodable, Stores;
    if cs == [] {
    } else {
      var n := Slots(img, codes, i);
      StoresTail(img, codes + 2 * i, Encode(cs[0]), EncodeAll(cs[1..]));
      DecodeEncode(img, codes, i, cs[0]);
      DecodeEncodeAll(img, codes, i + n, cs[1..], slots - n);
      assert cs == [cs[0]] + cs[1..];
    }
  }

  // ---- a whole table, with its chained infos ----

  /** An UNWIND_INFO: its version and flags, the size of the prologue, the frame register, the codes, and the
      function it is chained to. */
  datatype Info = Info(version: nat, flags: nat, size: u8, fp: Fp, codes: seq<Code>, parent: Option<Function>)

  const CHAININFO := 4

  predicate WellInfo(i: Info) {
    && i.version < 8 && i.flags < 32 && (i.parent.Some? <==> i.flags / CHAININFO % 2 == 1) && i.fp.off <= 15
    && (forall c :: c in i.codes ==> Encodable(c)) && |EncodeAll(i.codes)| <= 2 * 255
  }

  function FunctionBytes(f: Function): seq<u8> {
    Le32(f.begin) + Le32(f.end) + Le32(f.unwind)
  }

  /** The bytes of an UNWIND_INFO ("struct UNWIND_INFO"): the version under the flags, the prologue's size,
      the count of 16-bit slots, the frame register under its scaled offset, the codes, a slot of padding
      if their number is odd, and the chained RUNTIME_FUNCTION. */
  function InfoBytes(i: Info): seq<u8>
    requires WellInfo(i)
  {
    [i.version + 8 * i.flags, i.size, |EncodeAll(i.codes)| / 2, i.fp.reg + 16 * i.fp.off]
    + EncodeAll(i.codes)
    + Padding(|EncodeAll(i.codes)|)
    + if i.parent.Some? then FunctionBytes(i.parent.value) else []
  }

  function Padding(n: nat): seq<u8> {
    if n % 4 == 2 then [0, 0] else []
  }

  lemma {:induction false} EncodeEven(cs: seq<Code>)
    requires forall c :: c in cs ==> Encodable(c)
    ensures |EncodeAll(cs)| % 2 == 0
    decreases |cs|
  {
    hide Encode, Encodable;
    if cs != [] {
      EncodeEven(cs[1..]);
      OneEven(cs[0]);
      Remainder(|EncodeAll(cs)|, 2, |Encode(cs[0])| / 2 + |EncodeAll(cs[1..])| / 2, 0);
    }
  }

  lemma OneEven(c: Code)
    requires Encodable(c)
    ensures |Encode(c)| % 2 == 0
  {
  }

  lemma HeadBytes(img: Image, u: int, i: Info)
    requires WellInfo(i) && Stores(img, u, InfoBytes(i))
    ensures img(u) == i.version + 8 * i.flags && img(u + 2) == |EncodeAll(i.codes)| / 2
    ensures img(u + 3) == i.fp.reg + 16 * i.fp.off
  {
    var b := InfoBytes(i);
    hide EncodeAll, FunctionBytes;
    assert b[0] == i.version + 8 * i.flags && b[2] == |EncodeAll(i.codes)| / 2 && b[3] == i.fp.reg + 16 * i.fp.off;
    assert img(u + 0) == b[0] && img(u + 2) == b[2] && img(u + 3) == b[3];
  }

  /** The parts behind the header. */
  lemma BodyBytes(img: Image, u: int, i: Info)
    requires WellInfo(i) && Stores(img, u, InfoBytes(i))
    ensures Stores(img, u + 4, EncodeAll(i.codes))
    ensures i.parent.Some? ==>
              Stores(img, u + 4 + |EncodeAll(i.codes)| + |Padding(|EncodeAll(i.codes)|)|, FunctionBytes(i.parent.value))
  {
    var head := [i.version + 8 * i.flags, i.size, |EncodeAll(i.codes)| / 2, i.fp.reg + 16 * i.fp.off];
    hide EncodeAll, FunctionBytes, Stores, Padding, Encodable;
    var codes, pad := EncodeAll(i.codes), Padding(|EncodeAll(i.codes)|);
    var tail := if i.parent.Some? then FunctionBytes(i.parent.value) else [];
    assert InfoBytes(i) == head + codes + pad + tail;
    hide InfoBytes;
    FourParts(img, u, head, codes, pad, tail);
  }

  lemma FourParts(img: Image, u: int, head: seq<u8>, codes: seq<u8>, pad: seq<u8>, tail: seq<u8>)
    requires |head| == 4 && Stores(img, u, head + codes + pad + tail)
    ensures Stores(img, u + 4, codes) && Stores(img, u + 4 + |codes| + |pad|, tail)
  {
    hide Stores;
    StoresTail(img, u, head + codes + pad, tail);
    StoresTail(img, u, head + codes, pad);
    StoresTail(img, u, head, codes);
  }

  /** What its header is read as. */
  lemma HeaderRead(img: Image, u: int, i: Info)
    requires WellInfo(i) && Stores(img, u, InfoBytes(i))
    ensures Header(img, u) == i.fp && NCodes(img, u) == |EncodeAll(i.codes)| / 2
    ensures Chained(img, u) <==> i.parent.Some?
  {
    HeadBytes(img, u, i);
    hide EncodeAll, InfoBytes, Stores, Encodable;
    FourAndRest(i.fp.reg, i.fp.off);
    FlagBit(i.version, i.flags);
  }

  /** An UNWIND_INFO is read as what it was written from. */
  lemma InfoRead(img: Image, u: int, i: Info)
    requires WellInfo(i) && Stores(img, u, InfoBytes(i))
    ensures Header(img, u) == i.fp && Level(img, u) == i.codes && (Chained(img, u) <==> i.parent.Some?)
    ensures i.parent.Some? ==> Parent(img, u) == i.parent.value.unwind
  {
    HeaderRead(img, u, i);
    BodyBytes(img, u, i);
    EncodeEven(i.codes);
    hide *;
    var n := |EncodeAll(i.codes)| / 2;
    LevelRead(img, u, i.codes, n);
    if i.parent.Some? {
      ParentRead(img, u, n, i.parent.value);
    }
  }

  lemma LevelRead(img: Image, u: int, codes: seq<Code>, n: u8)
    requires NCodes(img, u) == n && (forall c :: c in codes ==> Encodable(c)) && |EncodeAll(codes)| == 2 * n
    requires Stores(img, u + 4, EncodeAll(codes))
    ensures Level(img, u) == codes
  {
    hide EncodeAll, Stores, Codes, Encodable;
    DecodeEncodeAll(img, u + 4, 0, codes, n);
  }

  lemma ParentRead(img: Image, u: int, n: u8, parent: Function)
    requires NCodes(img, u) == n && Stores(img, u + 4 + 2 * n + |Padding(2 * n)|, FunctionBytes(parent))
    ensures Parent(img, u) == parent.unwind
  {
    hide Stores, U32, FunctionBytes;
    Padded(n);
    Unwind(img, u + 4 + 2 * n + |Padding(2 * n)|, parent);
  }

  /** Padded to an even number of slots. */
  lemma Padded(n: nat)
    ensures (n + 1) / 2 * 2 * 2 == 2 * n + |Padding(2 * n)|
  {
    var q, r := n / 2, n % 2;
    assert n == 2 * q + r && (n + 1) / 2 == q + r;
    Remainder(2 * n, 4, q, 2 * r);
  }

  lemma FourAndRest(r: nat, o: nat)
    requires r < 16 && o < 16
    ensures (r + 16 * o) % 16 == r && (r + 16 * o) / 16 == o
  {
  }

  lemma FlagBit(version: nat, flags: nat)
    requires version < 8 && flags < 32
    ensures (version + 8 * flags) / 0x20 == flags / CHAININFO
  {
  }

  /** The unwind field of a RUNTIME_FUNCTION. */
  lemma Unwind(img: Image, at: int, f: Function)
    requires Stores(img, at, FunctionBytes(f))
    ensures U32(img, at + 8) == f.unwind
  {
    hide U32;
    var front := Le32(f.begin) + Le32(f.end);
    assert FunctionBytes(f) == front + Le32(f.unwind) && |front| == 8;
    hide FunctionBytes, Le32;
    StoresTail(img, at, front, Le32(f.unwind));
    ReadLe32(img, at + 8, f.unwind);
  }

  // ---- tables in bytes ----

  /** An UNWIND_INFO in bytes: push rbp; push rdi; sub rsp, 100h; lea rbp, [rsp+20h]; mov [rsp+30h], rbx;
      movaps [rsp+40h], xmm6. */
  lemma TableInBytes(img: Image, u: int)
    requires Stores(img, u, [0x01, 0x1B, 0x09, 0x25,
                             0x1B, 0x68, 0x04, 0x00, 0x16, 0x34, 0x06, 0x00, 0x11, 0x03, 0x09, 0x01, 0x20, 0x00,
                             0x02, 0x70, 0x01, 0x50, 0x00, 0x00])
    ensures Header(img, u) == Fp(5, 2) && !Chained(img, u)
    ensures Level(img, u) ==
            [Code(0x1B, Ignored), Code(0x16, Save(3, 0x30)), Code(0x11, SetFp), Code(0x09, Alloc(0x100)),
             Code(0x02, Push(7)), Code(0x01, Push(5))]
    ensures forall g: Gprs :: FpBase(g, Header(img, u)) == ((g[5] as int) - 0x20) % 0x1_0000_0000_0000_0000
  {
    var c := u + 4;
    TableBytes(img, u);
    hide Stores;
    UpperCodes(img, u);
    LowerCodes(img, u);
    CodeThen(img, c, 8, 9);
    CodeThen(img, c, 7, 9);
    CodeThen(img, c, 5, 9);
    CodeThen(img, c, 4, 9);
    CodeThen(img, c, 2, 9);
    CodeThen(img, c, 0, 9);
    hide Decode, Slots, Codes;
  }

  lemma CodeThen(img: Image, codes: int, i: nat, n: nat)
    requires i < n
    ensures Codes(img, codes, i, n) == [Decode(img, codes, i)] + Codes(img, codes, i + Slots(img, codes, i), n)
    ensures Codes(img, codes, n, n) == []
  {
  }

  lemma UpperCodes(img: Image, u: int)
    requires img(u + 4) == 0x1B && img(u + 5) == 0x68
    requires img(u + 8) == 0x16 && img(u + 9) == 0x34 && img(u + 10) == 6 && img(u + 11) == 0
    requires img(u + 12) == 0x11 && img(u + 13) == 0x03
    ensures Decode(img, u + 4, 0) == Code(0x1B, Ignored) && Slots(img, u + 4, 0) == 2
    ensures Decode(img, u + 4, 2) == Code(0x16, Save(3, 0x30)) && Slots(img, u + 4, 2) == 2
    ensures Decode(img, u + 4, 4) == Code(0x11, SetFp) && Slots(img, u + 4, 4) == 1
  {
  }

  lemma LowerCodes(img: Image, u: int)
    requires img(u + 14) == 0x09 && img(u + 15) == 0x01 && img(u + 16) == 0x20 && img(u + 17) == 0
    requires img(u + 18) == 0x02 && img(u + 19) == 0x70 && img(u + 20) == 0x01 && img(u + 21) == 0x50
    ensures Decode(img, u + 4, 5) == Code(0x09, Alloc(0x100)) && Slots(img, u + 4, 5) == 2
    ensures Decode(img, u + 4, 7) == Code(0x02, Push(7)) && Slots(img, u + 4, 7) == 1
    ensures Decode(img, u + 4, 8) == Code(0x01, Push(5)) && Slots(img, u + 4, 8) == 1
  {
  }

  lemma TableBytes(img: Image, u: int)
    requires Stores(img, u, [0x01, 0x1B, 0x09, 0x25,
                             0x1B, 0x68, 0x04, 0x00, 0x16, 0x34, 0x06, 0x00, 0x11, 0x03, 0x09, 0x01, 0x20, 0x00,
                             0x02, 0x70, 0x01, 0x50, 0x00, 0x00])
    ensures img(u) == 0x01 && img(u + 2) == 9 && img(u + 3) == 0x25
    ensures img(u + 4) == 0x1B && img(u + 5) == 0x68
    ensures img(u + 8) == 0x16 && img(u + 9) == 0x34 && img(u + 10) == 6 && img(u + 11) == 0
    ensures img(u + 12) == 0x11 && img(u + 13) == 0x03
    ensures img(u + 14) == 0x09 && img(u + 15) == 0x01 && img(u + 16) == 0x20 && img(u + 17) == 0
    ensures img(u + 18) == 0x02 && img(u + 19) == 0x70 && img(u + 20) == 0x01 && img(u + 21) == 0x50
  {
    var b := [0x01, 0x1B, 0x09, 0x25,
              0x1B, 0x68, 0x04, 0x00, 0x16, 0x34, 0x06, 0x00, 0x11, 0x03, 0x09, 0x01, 0x20, 0x00,
              0x02, 0x70, 0x01, 0x50, 0x00, 0x00];
    assert img(u + 0) == b[0] && img(u + 2) == b[2] && img(u + 3) == b[3] && img(u + 4) == b[4] && img(u + 5) == b[5];
    assert img(u + 8) == b[8] && img(u + 9) == b[9] && img(u + 10) == b[10] && img(u + 11) == b[11];
    assert img(u + 12) == b[12] && img(u + 13) == b[13] && img(u + 14) == b[14] && img(u + 15) == b[15];
    assert img(u + 16) == b[16] && img(u + 17) == b[17] && img(u + 18) == b[18] && img(u + 19) == b[19];
    assert img(u + 20) == b[20] && img(u + 21) == b[21];
  }

  /** The short allocation and the forms with a 32-bit operand. */
  lemma OtherForms(img: Image, codes: int)
    requires img(codes + 1) in {0x42, 0x11, 0x65, 0x69}
    ensures var d := img(codes + 2) + 0x100 * img(codes + 3) + 0x1_0000 * img(codes + 4) + 0x100_0000 * img(codes + 5);
      Decode(img, codes, 0).op ==
        (if img(codes + 1) == 0x42 then Alloc(0x28)
         else if img(codes + 1) == 0x11 then Alloc(d)
         else if img(codes + 1) == 0x65 then Save(6, d)
         else Ignored)
    ensures Slots(img, codes, 0) == if img(codes + 1) == 0x42 then 1 else 3
  {
  }

  /** The image holds these infos, each chained to the next, under one frame register that only the last
      one saves. */
  ghost predicate Written(img: Image, u: int, infos: seq<Info>, fp: Fp)
    decreases |infos|
  {
    && infos != [] && WellInfo(infos[0]) && infos[0].fp == fp && Stores(img, u, InfoBytes(infos[0]))
    && (infos[0].parent.Some? <==> |infos| > 1)
    && (|infos| > 1 ==>
          && (fp.reg != 0 ==> forall c :: c in infos[0].codes ==> !SavesReg(c.op, fp.reg))
          && Written(img, infos[0].parent.value.unwind, infos[1..], fp))
  }

  /** The codes of a chain of infos, in the order they are undone. */
  function Concat(infos: seq<Info>): seq<Code> {
    if infos == [] then [] else infos[0].codes + Concat(infos[1..])
  }

  lemma {:induction false} WrittenIsRead(img: Image, u: int, infos: seq<Info>, fp: Fp, k: nat)
    requires Written(img, u, infos, fp) && ChainEnds(img, u, k)
    ensures Level(img, u) == infos[0].codes && AllCodes(img, u, k) == Concat(infos) && Uniform(img, u, k, fp)
    decreases |infos|
  {
    hide Level, Chained, Parent, Header, Stores, WellInfo, InfoBytes;
    InfoRead(img, u, infos[0]);
    if |infos| > 1 {
      WrittenIsRead(img, Parent(img, u), infos[1..], fp, k - 1);
    } else {
      assert infos[1..] == [];
      assert Concat(infos[1..]) == [];
    }
  }

  /** The address of an RVA is read back as that RVA, also when the image wraps around the address
      space. */
  lemma RvaOf(p: Program, rva: u32)
    ensures Rva(p, Plus(p.base, rva)) == rva
  {
    var pc := Plus(p.base, rva);
    var q := (p.base as int + rva as int) / WORD64;
    assert pc == p.base as int + rva as int - WORD64 * q;
    Remainder(pc as int - p.base as int, 0x1_0000_0000, -0x1_0000_0000 * q, rva);
  }

  /** A table written for a prologue, in one info or split over chained ones, describes every body point
      of the function: the byte-level premise of PrologueBodyUnwind. */
  lemma TableDescribes(p: Program, rva: u32, f: nat, ops: seq<Op>, fp: Fp, infos: seq<Info>)
    requires Loadable(p) && f < |p.pdata| && p.pdata[f].begin <= rva < p.pdata[f].end
    requires WellFormed(ops, fp) && (fp.reg != 0 <==> HasSetFp(ops))
    requires Written(p.img, p.pdata[f].unwind, infos, fp) && CodesOf(Concat(infos), ops, EVERYWHERE)
    requires forall c :: c in infos[0].codes ==> c.at <= rva - p.pdata[f].begin
    ensures Describes(p, Plus(p.base, rva), ops, fp)
  {
    RvaOf(p, rva);
    hide Written, CodesOf, Uniform, Level, AllCodes, WellFormed, HasSetFp, Rva, Plus;
    OnlyOne(p.pdata, rva, f);
    assert p.pdata[f] in p.pdata;
    WrittenIsRead(p.img, p.pdata[f].unwind, infos, fp, p.depth);
  }
}
