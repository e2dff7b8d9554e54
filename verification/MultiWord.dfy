/**
 Carry chains of 16-bit code (flags_adc, flags_sbb, bcd_daa and bcd_das in runtime/recomp16/cpu.h).
 A long number is a list of limbs, lowest first; adding two such numbers limb by limb with the carry
 flag in between is to be adding the numbers, in binary and in packed decimal.
 */
module MultiWord {
  import opened Words
  import opened FlagWords
  import EagerFlags

  class Cpu {
    var flags: Flags
    var al: u8

    method FlagsAdc(a0: u32, b0: u32, w: Width) returns (r: u32)
      modifies this`flags
      ensures r == Sum(a0, b0, old(flags.cf), w)
      ensures flags == SumFlags(a0, b0, old(flags.cf), w)
    {
      hide SumFlags, EvenParity;
      var c := One(flags.cf);
      var a: int, b: int := Low(a0, w), Low(b0, w);
      var wide := a + b + c;
      r := Low(wide, w);
      var of := EagerFlags.SumOverflowFlag(a, b, r, w);
      var af := EagerFlags.AuxFlag(a, b, r);
      var sf := EagerFlags.SignFlag(r, w);
      var pf := EagerFlags.ParityFlag(r);
      EagerFlags.SumTests(a0, b0, c == 1, w);
      CarryOut(a0, b0, c == 1, w);
      flags := Flags.Flags(wide >= Modulus(w), pf, af, r == 0, sf, of);
    }

    method FlagsSbb(a0: u32, b0: u32, w: Width) returns (r: u32)
      modifies this`flags
      ensures r == Difference(a0, b0, old(flags.cf), w)
      ensures flags == DifferenceFlags(a0, b0, old(flags.cf), w)
    {
      hide DifferenceFlags, EvenParity;
      var c := One(flags.cf);
      var a: int, b: int := Low(a0, w), Low(b0, w);
      r := Low((a - b - c) % 0x1_0000_0000_0000_0000, w);
      EagerFlags.WrappedBorrow(a, b, c, w);
      var of := EagerFlags.DifferenceOverflowFlag(a, b, r, w);
      var af := EagerFlags.AuxFlag(a, b, r);
      var sf := EagerFlags.SignFlag(r, w);
      var pf := EagerFlags.ParityFlag(r);
      EagerFlags.DifferenceTests(a0, b0, c == 1, w);
      flags := Flags.Flags(a < b + c, pf, af, r == 0, sf, of);
    }

    method SetSzp8(v: u8)
      modifies this`flags
      ensures flags == old(flags).(sf := v >= 0x80, zf := v == 0, pf := EvenParity(v))
    {
      var sf := EagerFlags.SignFlag(v, W8);
      var pf := EagerFlags.ParityFlag(v);
      flags := flags.(sf := sf, zf := v == 0, pf := pf);
    }

    /** DAA */
    method BcdDaa()
      modifies this
      ensures Digits(al, flags.cf, flags.af) == Daa(Digits(old(al), old(flags.cf), old(flags.af)))
      ensures flags.af == (old(al) % 16 > 9 || old(flags.af)) && flags.cf == (old(al) > 0x99 || old(flags.cf))
      ensures al == (old(al) as int + (if flags.af then 6 else 0) + (if flags.cf then 0x60 else 0)) % 256
      ensures flags.sf == (al >= 0x80) && flags.zf == (al == 0) && flags.pf == EvenParity(al)
      ensures flags.of == old(flags.of)
    {
      hide EvenParity, Byte, Nibble;
      var oldAl, oldCf := al, flags.cf;
      var low, high := Nibble(al) > 9 || flags.af, oldAl > 0x99 || oldCf;
      if low {
        al := Byte(al + 6);
      }
      if high {
        al := Byte(al + 0x60);
      }
      AddTwice(oldAl, if low then 6 else 0, if high then 0x60 else 0);
      InBytes(oldAl, (if low then 6 else 0) + if high then 0x60 else 0);
      flags := flags.(af := low, cf := high);
      SetSzp8(al);
    }

    /** DAS */
    method BcdDas()
      modifies this
      ensures Digits(al, flags.cf, flags.af) == Das(Digits(old(al), old(flags.cf), old(flags.af)))
      ensures flags.af == (old(al) % 16 > 9 || old(flags.af))
      ensures flags.cf == (old(al) > 0x99 || old(flags.cf) || (flags.af && old(al) < 6))
      ensures al == (old(al) as int - (if flags.af then 6 else 0)
                     - (if old(al) > 0x99 || old(flags.cf) then 0x60 else 0)) % 256
      ensures flags.sf == (al >= 0x80) && flags.zf == (al == 0) && flags.pf == EvenParity(al)
      ensures flags.of == old(flags.of)
    {
      hide EvenParity, Byte, Nibble;
      var oldAl, oldCf := al, flags.cf;
      var low, high := Nibble(al) > 9 || flags.af, oldAl > 0x99 || oldCf;
      var borrow := low && (oldAl < 6 || oldCf);
      if low {
        al := Byte((al as int) - 6);
      }
      if high {
        al := Byte((al as int) - 0x60);
      }
      AddTwice(oldAl, if low then -6 else 0, if high then -0x60 else 0);
      InBytes(oldAl, (if low then -6 else 0) + if high then -0x60 else 0);
      flags := flags.(af := low, cf := borrow || high);
      SetSzp8(al);
    }
  }

  /** v & 0x0F */
  function Nibble(v: u8): nat {
    v % 16
  }

  /** (uint8_t)v */
  function Byte(v: int): u8 {
    v % 256
  }

  lemma InBytes(v: u8, n: int)
    ensures Nibble(v) == v % 16 && Byte(v as int + n) == (v as int + n) % 256
  {
  }

  lemma AddTwice(v: u8, x: int, y: int)
    ensures Byte(v) == v
    ensures Byte(Byte(v as int + x) as int + y) == Byte(v as int + x + y)
  {
  }

  /** What the decimal adjustments read and write. */
  datatype Digits = Digits(al: u8, cf: bool, af: bool)

  function Daa(d: Digits): Digits {
    var low := Nibble(d.al) > 9 || d.af;
    var high := d.al > 0x99 || d.cf;
    Digits(Byte(d.al as int + (if low then 6 else 0) + (if high then 0x60 else 0)), high, low)
  }

  function Das(d: Digits): Digits {
    var low := Nibble(d.al) > 9 || d.af;
    var high := d.al > 0x99 || d.cf;
    Digits(Byte((d.al as int) - (if low then 6 else 0) - (if high then 0x60 else 0)), high || (low && d.al < 6), low)
  }

  lemma CarryOut(a: u32, b: u32, c: bool, w: Width)
    ensures SumFlags(a, b, c, w).cf == (Unsigned(a, w) + Unsigned(b, w) + One(c) >= Modulus(w))
  {
  }

  // ---- binary numbers ----

  /** x times the modulus. */
  function Scale(x: int, w: Width): int {
    match w
    case W8 => 0x100 * x
    case W16 => 0x1_0000 * x
    case W32 => 0x1_0000_0000 * x
  }

  /** The modulus to the n. */
  function Power(n: nat, w: Width): (p: nat)
    ensures p >= 1
  {
    if n == 0 then 1 else Scale(Power(n - 1, w), w)
  }

  predicate Limbs(s: seq<u32>, w: Width) {
    forall i :: 0 <= i < |s| ==> s[i] < Modulus(w)
  }

  /** The number with these limbs. */
  function Value(s: seq<u32>, w: Width): nat
    requires Limbs(s, w)
  {
    if s == [] then 0 else s[0] as int + Scale(Value(s[1..], w), w)
  }

  /** Limbs and a carry. */
  datatype Long = Long(limbs: seq<u32>, carry: bool)

  /** The results of flags_adc along two numbers, and the carry it leaves. */
  function AddChain(a: seq<u32>, b: seq<u32>, c: bool, w: Width): (r: Long)
    requires |a| == |b| && Limbs(a, w) && Limbs(b, w)
    ensures |r.limbs| == |a| && Limbs(r.limbs, w)
    decreases |a|
  {
    if a == [] then Long([], c)
    else
      var rest := AddChain(a[1..], b[1..], SumFlags(a[0], b[0], c, w).cf, w);
      Long([Sum(a[0], b[0], c, w)] + rest.limbs, rest.carry)
  }

  function SubChain(a: seq<u32>, b: seq<u32>, c: bool, w: Width): (r: Long)
    requires |a| == |b| && Limbs(a, w) && Limbs(b, w)
    ensures |r.limbs| == |a| && Limbs(r.limbs, w)
    decreases |a|
  {
    if a == [] then Long([], c)
    else
      var rest := SubChain(a[1..], b[1..], DifferenceFlags(a[0], b[0], c, w).cf, w);
      Long([Difference(a[0], b[0], c, w)] + rest.limbs, rest.carry)
  }

  lemma AddOne(a: u32, b: u32, c: bool, w: Width)
    requires a < Modulus(w) && b < Modulus(w)
    ensures Sum(a, b, c, w) as int + (if SumFlags(a, b, c, w).cf then Modulus(w) else 0) == a as int + b as int + One(c)
  {
    hide EvenParity, SumOverflows, NibbleCarries;
    SumCases(a, b, c, w);
    LowSame(a, w);
    LowSame(b, w);
    hide Low;
  }

  lemma LowSame(a: u32, w: Width)
    requires a < Modulus(w)
    ensures Unsigned(a, w) == a
  {
  }

  lemma SubOne(a: u32, b: u32, c: bool, w: Width)
    requires a < Modulus(w) && b < Modulus(w)
    ensures Difference(a, b, c, w) as int - (if DifferenceFlags(a, b, c, w).cf then Modulus(w) else 0)
      == (a as int) - (b as int) - One(c)
  {
    hide EvenParity, DifferenceOverflows, NibbleBorrows;
    DifferenceCases(a, b, c, w);
    LowSame(a, w);
    LowSame(b, w);
    hide Low;
  }

  /** The chain adds: its limbs and its carry are the sum of the numbers and the carry in. */
  lemma {:induction false} ChainAdds(a: seq<u32>, b: seq<u32>, c: bool, w: Width)
    requires |a| == |b| && Limbs(a, w) && Limbs(b, w)
    ensures var r := AddChain(a, b, c, w);
      Value(r.limbs, w) + (if r.carry then Power(|a|, w) else 0) == Value(a, w) + Value(b, w) + One(c)
    decreases |a|
  {
    hide SumFlags, Sum;
    if a != [] {
      AddOne(a[0], b[0], c, w);
      ChainAdds(a[1..], b[1..], SumFlags(a[0], b[0], c, w).cf, w);
      assert AddChain(a, b, c, w).limbs[1..] == AddChain(a[1..], b[1..], SumFlags(a[0], b[0], c, w).cf, w).limbs;
    }
  }

  /** The chain subtracts: if the difference is negative it is left as the difference plus the modulus
      of the whole, with a borrow. */
  lemma {:induction false} ChainSubtracts(a: seq<u32>, b: seq<u32>, c: bool, w: Width)
    requires |a| == |b| && Limbs(a, w) && Limbs(b, w)
    ensures var r := SubChain(a, b, c, w);
      Value(r.limbs, w) - (if r.carry then Power(|a|, w) else 0) == Value(a, w) - Value(b, w) - One(c)
    decreases |a|
  {
    hide DifferenceFlags, Difference;
    if a != [] {
      var cf := DifferenceFlags(a[0], b[0], c, w).cf;
      SubOne(a[0], b[0], c, w);
      ChainSubtracts(a[1..], b[1..], cf, w);
      var r, rest := SubChain(a, b, c, w), SubChain(a[1..], b[1..], cf, w);
      assert r.limbs[0] == Difference(a[0], b[0], c, w) && r.limbs[1..] == rest.limbs && r.carry == rest.carry;
      hide SubChain;
    }
  }

  lemma {:induction false} ValueBound(s: seq<u32>, w: Width)
    requires Limbs(s, w)
    ensures Value(s, w) < Power(|s|, w)
    decreases |s|
  {
    if s != [] {
      ValueBound(s[1..], w);
    }
  }

  /** A number has one list of limbs of each length. */
  lemma {:induction false} OneForm(s: seq<u32>, t: seq<u32>, w: Width)
    requires |s| == |t| && Limbs(s, w) && Limbs(t, w) && Value(s, w) == Value(t, w)
    ensures s == t
    decreases |s|
  {
    if s != [] {
      FirstLimb(s[0], Value(s[1..], w), t[0], Value(t[1..], w), w);
      OneForm(s[1..], t[1..], w);
      assert s == [s[0]] + s[1..] && t == [t[0]] + t[1..];
    }
  }

  lemma FirstLimb(x: u32, p: nat, y: u32, q: nat, w: Width)
    requires x < Modulus(w) && y < Modulus(w)
    requires x as int + Scale(p, w) == y as int + Scale(q, w)
    ensures x == y && p == q
  {
  }

  /** Subtracting what was added gives the first number back, and the borrow is the carry. */
  lemma SubUndoesAdd(a: seq<u32>, b: seq<u32>, c: bool, w: Width)
    requires |a| == |b| && Limbs(a, w) && Limbs(b, w)
    ensures SubChain(AddChain(a, b, c, w).limbs, b, c, w) == Long(a, AddChain(a, b, c, w).carry)
  {
    var s := AddChain(a, b, c, w);
    var d := SubChain(s.limbs, b, c, w);
    ChainAdds(a, b, c, w);
    ChainSubtracts(s.limbs, b, c, w);
    ValueBound(a, w);
    ValueBound(d.limbs, w);
    OneForm(d.limbs, a, w);
  }

  // ---- packed decimal ----

  predicate Packed(x: nat) {
    x < 256 && x % 16 <= 9 && x / 16 <= 9
  }

  function Decimal(x: nat): nat {
    10 * (x / 16) + x % 16
  }

  function DaaOf(x: u8, y: u8, c: bool): Digits {
    Daa(Digits(Sum(x, y, c, W8), SumFlags(x, y, c, W8).cf, SumFlags(x, y, c, W8).af))
  }

  function DasOf(x: u8, y: u8, c: bool): Digits {
    Das(Digits(Difference(x, y, c, W8), DifferenceFlags(x, y, c, W8).cf, DifferenceFlags(x, y, c, W8).af))
  }

  /** The digits of 16 * h + l, adjusted up. */
  lemma Adjusted(x: nat, y: nat, c: nat, s: u8, cf: bool)
    requires Packed(x) && Packed(y) && c <= 1 && s as int + (if cf then 256 else 0) == x + y + c
    ensures var d := Daa(Digits(s, cf, x % 16 + y % 16 + c >= 16));
      Packed(d.al) && Decimal(d.al) + (if d.cf then 100 else 0) == Decimal(x) + Decimal(y) + c
  {
    var h, l := x / 16 + y / 16, x % 16 + y % 16 + c;
    assert x + y + c == 16 * h + l && 0 <= h <= 18 && 0 <= l <= 19;
    assert Decimal(x) + Decimal(y) + c == 10 * h + l;
    hide Packed, Decimal;
    var carry, over := if l > 9 then 1 else 0, if cf then 16 else 0;
    var low, high := s % 16 > 9 || l >= 16, s > 0x99 || cf;
    LowDigit(s, h - over, l);
    assert low <==> l > 9;
    assert high <==> h + carry > 9;
    var p, q := h + carry - (if high then 10 else 0), l - 10 * carry;
    var sum := s as int + (if low then 6 else 0) + (if high then 0x60 else 0);
    Remainder(sum, 256, if high && !cf then 1 else 0, 16 * p + q);
    IsPacked(p, q);
  }

  /** And adjusted down. */
  lemma AdjustedDown(x: nat, y: nat, c: nat, s: u8, cf: bool)
    requires Packed(x) && Packed(y) && c <= 1 && s as int - (if cf then 256 else 0) == x - y - c
    ensures var d := Das(Digits(s, cf, x % 16 < y % 16 + c));
      Packed(d.al) && Decimal(d.al) - (if d.cf then 100 else 0) == Decimal(x) - Decimal(y) - c
  {
    var h, l := x / 16 - y / 16, x % 16 - y % 16 - c;
    assert x - y - c == 16 * h + l && -9 <= h <= 9 && -10 <= l <= 9;
    assert Decimal(x) - Decimal(y) - c == 10 * h + l;
    assert l < 0 <==> x % 16 < y % 16 + c;
    hide Packed, Decimal;
    DigitsDown(h, l, s, cf);
  }

  /** The same in digits: h tens and l ones, one of them or both negative. */
  lemma DigitsDown(h: int, l: int, s: u8, cf: bool)
    requires -9 <= h <= 9 && -10 <= l <= 9 && s as int - (if cf then 256 else 0) == 16 * h + l
    ensures var d := Das(Digits(s, cf, l < 0));
      Packed(d.al) && Decimal(d.al) - (if d.cf then 100 else 0) == 10 * h + l
  {
    hide Packed, Decimal;
    var borrow, under := if l < 0 then 1 else 0, if cf then 16 else 0;
    assert cf <==> h - borrow < 0;
    assert 0 <= h + under - borrow <= 15;
    LowDigit(s, h + under - borrow, l + 16 * borrow);
    var low, high := s % 16 > 9 || l < 0, s > 0x99 || cf;
    assert low <==> l < 0;
    assert high <==> cf;
    hide Nibble;
    var p, q := h - borrow + (if high then 10 else 0), l + 10 * borrow;
    var sum := s as int - (if low then 6 else 0) - (if high then 0x60 else 0);
    Remainder(sum, 256, 0, 16 * p + q);
    IsPacked(p, q);
  }

  lemma LowDigit(s: u8, h: int, l: int)
    requires s == 16 * h + l && 0 <= l < 32
    ensures s % 16 == if l < 16 then l else l - 16
  {
    Remainder(s, 16, if l < 16 then h else h + 1, if l < 16 then l else l - 16);
  }

  lemma IsPacked(p: nat, q: nat)
    requires p <= 9 && q <= 9
    ensures Packed(16 * p + q) && Decimal(16 * p + q) == 10 * p + q
  {
    Remainder(16 * p + q, 16, p, q);
  }

  /** An addition of packed bytes, adjusted, is the decimal addition. */
  lemma DaaCorrects(x: u8, y: u8, c: bool)
    requires Packed(x) && Packed(y)
    ensures var d := DaaOf(x, y, c);
      Packed(d.al) && Decimal(d.al) + (if d.cf then 100 else 0) == Decimal(x) + Decimal(y) + One(c)
  {
    var s, f := Sum(x, y, c, W8), SumFlags(x, y, c, W8);
    AddOne(x, y, c, W8);
    assert f.af == NibbleCarries(x, y, c);
    hide Sum, SumFlags;
    Adjusted(x, y, One(c), s, f.cf);
  }

  lemma DasCorrects(x: u8, y: u8, c: bool)
    requires Packed(x) && Packed(y)
    ensures var d := DasOf(x, y, c);
      Packed(d.al) && Decimal(d.al) - (if d.cf then 100 else 0) == Decimal(x) - Decimal(y) - One(c)
  {
    var s, f := Difference(x, y, c, W8), DifferenceFlags(x, y, c, W8);
    SubOne(x, y, c, W8);
    assert f.af == NibbleBorrows(x, y, c);
    hide Difference, DifferenceFlags;
    AdjustedDown(x, y, One(c), s, f.cf);
  }

  predicate AllPacked(s: seq<u8>) {
    forall i :: 0 <= i < |s| ==> Packed(s[i])
  }

  /** The number with these pairs of digits. */
  function DecimalValue(s: seq<u8>): nat {
    if s == [] then 0 else Decimal(s[0]) + 100 * DecimalValue(s[1..])
  }

  function Hundreds(n: nat): (p: nat)
    ensures p >= 1
  {
    if n == 0 then 1 else 100 * Hundreds(n - 1)
  }

  datatype Pairs = Pairs(bytes: seq<u8>, carry: bool)

  function DaaChain(x: seq<u8>, y: seq<u8>, c: bool): (r: Pairs)
    requires |x| == |y|
    ensures |r.bytes| == |x|
    decreases |x|
  {
    if x == [] then Pairs([], c)
    else
      var d := DaaOf(x[0], y[0], c);
      var rest := DaaChain(x[1..], y[1..], d.cf);
      Pairs([d.al] + rest.bytes, rest.carry)
  }

  function DasChain(x: seq<u8>, y: seq<u8>, c: bool): (r: Pairs)
    requires |x| == |y|
    ensures |r.bytes| == |x|
    decreases |x|
  {
    if x == [] then Pairs([], c)
    else
      var d := DasOf(x[0], y[0], c);
      var rest := DasChain(x[1..], y[1..], d.cf);
      Pairs([d.al] + rest.bytes, rest.carry)
  }

  /** adc and daa along two packed numbers add them in decimal. */
  lemma {:induction false} DecimalChainAdds(x: seq<u8>, y: seq<u8>, c: bool)
    requires |x| == |y| && AllPacked(x) && AllPacked(y)
    ensures var r := DaaChain(x, y, c);
      && AllPacked(r.bytes)
      && DecimalValue(r.bytes) + (if r.carry then Hundreds(|x|) else 0) == DecimalValue(x) + DecimalValue(y) + One(c)
    decreases |x|
  {
    hide DaaOf, Packed;
    if x != [] {
      DaaCorrects(x[0], y[0], c);
      DecimalChainAdds(x[1..], y[1..], DaaOf(x[0], y[0], c).cf);
      assert DaaChain(x, y, c).bytes[1..] == DaaChain(x[1..], y[1..], DaaOf(x[0], y[0], c).cf).bytes;
    }
  }

  /** sbb and das along two packed numbers subtract them in decimal. */
  lemma {:induction false} DecimalChainSubtracts(x: seq<u8>, y: seq<u8>, c: bool)
    requires |x| == |y| && AllPacked(x) && AllPacked(y)
    ensures var r := DasChain(x, y, c);
      && AllPacked(r.bytes)
      && DecimalValue(r.bytes) - (if r.carry then Hundreds(|x|) else 0) == DecimalValue(x) - DecimalValue(y) - One(c)
    decreases |x|
  {
    hide DasOf, Packed;
    if x != [] {
      DasCorrects(x[0], y[0], c);
      DecimalChainSubtracts(x[1..], y[1..], DasOf(x[0], y[0], c).cf);
      assert DasChain(x, y, c).bytes[1..] == DasChain(x[1..], y[1..], DasOf(x[0], y[0], c).cf).bytes;
    }
  }
}
