/**
 The eager runtime: every flag helper of runtime/recomp32_cpu/cpu.h computes its flags at once and
 stores them in the CPU. Each helper is proved to leave exactly the flags Intel defines for the
 operation, at all three widths. Masking with mask_sz is taking the remainder by the modulus.
 */
module EagerFlags {
  import opened Words
  import opened FlagWords

  class Cpu {
    var cf: bool
    var pf: bool
    var af: bool
    var zf: bool
    var sf: bool
    var of: bool

    function Flags(): Flags
      reads this
    {
      FlagWords.Flags.Flags(cf, pf, af, zf, sf, of)
    }

    method FlagsSub(a0: u32, b0: u32, w: Width) returns (r: u32)
      modifies this
      ensures Flags() == DifferenceFlags(a0, b0, false, w)
      ensures r == Difference(a0, b0, false, w)
    {
      hide DifferenceFlags, EvenParity;
      var a: int, b: int := Low(a0, w), Low(b0, w);
      r := Low(a - b, w);
      cf := a < b;
      zf := r == 0;
      sf := SignFlag(r, w);
      of := DifferenceOverflowFlag(a, b, r, w);
      af := AuxFlag(a, b, r);
      pf := ParityFlag(r);
      DifferenceTests(a0, b0, false, w);
    }

    method FlagsAdd(a0: u32, b0: u32, w: Width) returns (r: u32)
      modifies this
      ensures Flags() == SumFlags(a0, b0, false, w)
      ensures r == Sum(a0, b0, false, w)
    {
      hide SumFlags, EvenParity;
      var a: int, b: int := Low(a0, w), Low(b0, w);
      r := Low(a + b, w);
      cf := r < a;
      zf := r == 0;
      sf := SignFlag(r, w);
      of := SumOverflowFlag(a, b, r, w);
      af := AuxFlag(a, b, r);
      pf := ParityFlag(r);
      SumTests(a0, b0, false, w);
    }

    method FlagsLogic(r0: u32, w: Width) returns (r: u32)
      modifies this
      ensures Flags() == LogicFlags(old(Flags()), r0, w)
      ensures r == Unsigned(r0, w)
    {
      r := Low(r0, w);
      cf := false;
      of := false;
      sf := SignFlag(r, w);
      zf := r == 0;
      pf := ParityFlag(r);
    }

    method FlagsInc(a: u32, w: Width) returns (r: u32)
      modifies this
      ensures Flags() == SumFlags(a, 1, false, w).(cf := old(cf))
      ensures r == Sum(a, 1, false, w)
    {
      var keep := cf;
      r := FlagsAdd(a, 1, w);
      cf := keep;
    }

    method FlagsDec(a: u32, w: Width) returns (r: u32)
      modifies this
      ensures Flags() == DifferenceFlags(a, 1, false, w).(cf := old(cf))
      ensures r == Difference(a, 1, false, w)
    {
      var keep := cf;
      r := FlagsSub(a, 1, w);
      cf := keep;
    }

    method FlagsAdc(a0: u32, b0: u32, w: Width) returns (r: u32)
      modifies this
      ensures Flags() == SumFlags(a0, b0, old(cf), w)
      ensures r == Sum(a0, b0, old(cf), w)
    {
      hide SumFlags, EvenParity;
      var cin := One(cf);
      var a: int, b: int := Low(a0, w), Low(b0, w);
      var full := a + b + cin;
      r := Low(full, w);
      cf := BitAbove(full, w) == 1;
      zf := r == 0;
      sf := SignFlag(r, w);
      of := SumOverflowFlag(a, b, r, w);
      af := AuxFlag(a, b, r);
      pf := ParityFlag(r);
      SumTests(a0, b0, cin == 1, w);
    }

    method FlagsSbb(a0: u32, b0: u32, w: Width) returns (r: u32)
      modifies this
      ensures Flags() == DifferenceFlags(a0, b0, old(cf), w)
      ensures r == Difference(a0, b0, old(cf), w)
    {
      hide DifferenceFlags, EvenParity;
      var bin := One(cf);
      var a: int, b: int := Low(a0, w), Low(b0, w);
      var full := (a - b - bin) % 0x1_0000_0000_0000_0000;
      r := Low(full, w);
      cf := BitAbove(full, w) == 1;
      zf := r == 0;
      sf := SignFlag(r, w);
      of := DifferenceOverflowFlag(a, b, r, w);
      af := AuxFlag(a, b, r);
      pf := ParityFlag(r);
      WrappedBorrow(a, b, bin, w);
      DifferenceTests(a0, b0, bin == 1, w);
    }

    /** popfd */
    method EflagsUnpack(v: u32)
      modifies this
      ensures Flags() == FlagsOfWord(v)
    {
      cf := v % 2 == 1;
      pf := v / 4 % 2 == 1;
      af := v / 0x10 % 2 == 1;
      zf := v / 0x40 % 2 == 1;
      sf := v / 0x80 % 2 == 1;
      of := v / 0x800 % 2 == 1;
    }
  }

  /** (full >> (sz * 8)) & 1 */
  function BitAbove(full: nat, w: Width): nat {
    match w
    case W8 => full / 0x100 % 2
    case W16 => full / 0x1_0000 % 2
    case W32 => full / 0x1_0000_0000 % 2
  }

  /** The six flags of an EFLAGS word. */
  function FlagsOfWord(v: u32): Flags {
    Flags.Flags(v % 2 == 1, v / 4 % 2 == 1, v / 0x10 % 2 == 1, v / 0x40 % 2 == 1, v / 0x80 % 2 == 1,
                v / 0x800 % 2 == 1)
  }

  /** pushfd: the six flags at their places over bits 1 and 9, which always read as set. */
  function EflagsPack(f: Flags): u32 {
    0x202 + One(f.cf) + 4 * One(f.pf) + 0x10 * One(f.af) + 0x40 * One(f.zf) + 0x80 * One(f.sf)
      + 0x800 * One(f.of)
  }

  /** popfd takes back exactly what pushfd gave. */
  lemma PackUnpack(f: Flags)
    ensures FlagsOfWord(EflagsPack(f)) == f
  {
    var v := EflagsPack(f);
    assert v / 0x80 == 4 + One(f.sf) + 16 * One(f.of);
    assert v / 0x40 == 8 + One(f.zf) + 2 * One(f.sf) + 32 * One(f.of);
    assert v / 0x10 == 32 + One(f.af) + 4 * (One(f.zf) + 2 * One(f.sf) + 32 * One(f.of));
    assert v / 4 == 128 + One(f.pf) + 4 * (One(f.af) + 4 * (One(f.zf) + 2 * One(f.sf) + 32 * One(f.of)));
  }

  // The bit tests every helper repeats, one method each, as cpu.h writes them.

  method SignFlag(r: u32, w: Width) returns (sf: bool)
    requires r < Modulus(w)
    ensures sf <==> r >= Sign(w)
  {
    sf := And(r, Sign(w)) != 0;
    SignTest(r, w);
  }

  method SumOverflowFlag(a: u32, b: u32, r: u32, w: Width) returns (of: bool)
    requires a < Modulus(w) && b < Modulus(w) && r < Modulus(w)
    ensures var s := Sign(w); of <==> (a >= s) == (b >= s) && (a >= s) != (r >= s)
  {
    of := And(And(Not32(Xor32Of(a, b)), Xor(a, r)), Sign(w)) != 0;
    LikeSigns(a, b, r, w);
    SignMask(And(Not32(Xor32Of(a, b)), Xor(a, r)), w);
  }

  method DifferenceOverflowFlag(a: u32, b: u32, r: u32, w: Width) returns (of: bool)
    requires a < Modulus(w) && b < Modulus(w) && r < Modulus(w)
    ensures var s := Sign(w); of <==> (a >= s) != (b >= s) && (a >= s) != (r >= s)
  {
    of := And(And(Xor(a, b), Xor(a, r)), Sign(w)) != 0;
    UnlikeSigns(a, b, r, w);
    SignMask(And(Xor(a, b), Xor(a, r)), w);
  }

  method AuxFlag(a: u32, b: u32, r: u32) returns (af: bool)
    ensures af <==> (a / 16 % 2 + b / 16 % 2 + r / 16 % 2) % 2 == 1
  {
    af := And(Xor(Xor(a, b), r), 0x10) != 0;
    Bit4OfXor(a, b, r);
  }

  method ParityFlag(r: u32) returns (pf: bool)
    ensures pf == EvenParity(r)
  {
    pf := Parity8(r % 256);
    ParityFold(r);
  }

  /** The flags of a sum, in the terms cpu.h tests them in. */
  lemma SumTests(a0: u32, b0: u32, c: bool, w: Width)
    ensures var s := Sign(w); var a, b, r := Unsigned(a0, w), Unsigned(b0, w), Sum(a0, b0, c, w);
      var f := SumFlags(a0, b0, c, w);
      && (!c ==> (r < a) == f.cf)
      && (BitAbove(a + b + One(c), w) == 1) == f.cf
      && f == FlagWords.Flags.Flags(
        f.cf, EvenParity(r), (a / 16 % 2 + b / 16 % 2 + r / 16 % 2) % 2 == 1, r == 0, r >= s,
        (a >= s) == (b >= s) && (a >= s) != (r >= s))
  {
    SumCarry(a0, b0, c, w);
    SumOverflow(a0, b0, c, w);
    NibbleCarry(a0, b0, c, w);
  }

  lemma DifferenceTests(a0: u32, b0: u32, c: bool, w: Width)
    ensures var s := Sign(w); var a, b, r := Unsigned(a0, w), Unsigned(b0, w), Difference(a0, b0, c, w);
      DifferenceFlags(a0, b0, c, w) == FlagWords.Flags.Flags(
        a < b + One(c), EvenParity(r), (a / 16 % 2 + b / 16 % 2 + r / 16 % 2) % 2 == 1, r == 0, r >= s,
        (a >= s) != (b >= s) && (a >= s) != (r >= s))
  {
    DifferenceOverflow(a0, b0, c, w);
    NibbleBorrow(a0, b0, c, w);
  }

  /** The carry out, three ways. */
  lemma SumCarry(a0: u32, b0: u32, c: bool, w: Width)
    ensures var a, b, r := Unsigned(a0, w), Unsigned(b0, w), Sum(a0, b0, c, w);
      && (!c ==> (r < a <==> a + b >= Modulus(w)))
      && (c ==> (r <= a <==> a + b + 1 >= Modulus(w)))
      && (BitAbove(a + b + One(c), w) == 1 <==> a + b + One(c) >= Modulus(w))
  {
    SumCases(a0, b0, c, w);
  }

  /** A 64-bit subtraction that borrows has every bit above the width set. */
  lemma WrappedBorrow(a: u32, b: u32, bin: nat, w: Width)
    requires a < Modulus(w) && b < Modulus(w) && bin <= 1
    ensures var full := (a - b - bin) % 0x1_0000_0000_0000_0000;
      Low(full, w) == Low(a - b - bin, w) && (BitAbove(full, w) == 1 <==> a < b + bin)
  {
    match w
    case W8 =>
    case W16 =>
    case W32 =>
  }
}
