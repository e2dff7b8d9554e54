/**
 The lazy runtime of runtime/recomp32/recomp_types.h: an instruction stores its operands and what
 kind of instruction it was, and a flag is derived only when something asks. Narrow operands are
 kept left-aligned, so that the sign and the carry of an 8- or 16-bit operation are those of the
 32-bit word; the width is needed only to find the low byte again.

 Derive, Eflags, FlagsAdc and FlagsSbb are the C expressions; the lemmas say what they mean.
 */
module LazyFlags {
  import opened Words
  import opened FlagWords
  import opened EagerFlags

  datatype Kind = CMP | ADD | TEST | BT | INC | DEC | EFLAGS

  /** _flag_k (kind and shift), _flag_a, _flag_b and _cf. */
  datatype Lazy = Lazy(kind: Kind, w: Width, a: u32, b: u32, cf: u32)

  /** A value shifted up so that its top bit lands on bit 31. */
  function Align(a: u32, w: Width): u32 {
    match w
    case W8 => a * 0x100_0000 % 0x1_0000_0000
    case W16 => a * 0x1_0000 % 0x1_0000_0000
    case W32 => a
  }

  /** 2 to the shift of a left-aligned operand. */
  function Scale(w: Width): (s: nat)
    ensures s >= 1
  {
    match w
    case W8 => 0x100_0000
    case W16 => 0x1_0000
    case W32 => 1
  }

  /** r >> shift */
  function Unalign(r: u32, w: Width): u32 {
    match w
    case W8 => r / 0x100_0000
    case W16 => r / 0x1_0000
    case W32 => r
  }

  function Add32(a: u32, b: u32): u32 {
    (a + b) % 0x1_0000_0000
  }

  function Sub32(a: int, b: int): u32 {
    (a - b) % 0x1_0000_0000
  }

  /** x >> 31 */
  function Top(x: u32): nat {
    x / 0x8000_0000
  }

  function AddOf(a: u32, b: u32, r: u32): nat {
    Top(And(Not32(Xor32Of(a, b)), Xor(a, r)))
  }

  function SubOf(a: u32, b: u32, r: u32): nat {
    Xor32(a, b);
    Top(And(Xor(a, b), Xor(a, r)))
  }

  /** (a >> (b & 31)) & 1 */
  function BitTest(a: u32, b: u32): (r: nat)
    ensures r <= 1
  {
    Bit(a, b % 32)
  }

  /** The five flags recomp_cond reads conditions from (AF is not among them). */
  function Derive(l: Lazy): Flags {
    match l.kind
    case EFLAGS => FlagsOfWord(l.a)
    case ADD => DeriveSum(l.a, l.b, l.w)
    case INC => DeriveSum(l.a, l.b, l.w)
    case TEST =>
      var r := And(l.a, l.b);
      Flags.Flags(false, Parity8(Unalign(r, l.w) % 256), false, r == 0, Top(r) == 1, false)
    case BT => Flags.Flags(BitTest(l.a, l.b) == 1, Parity8(0), false, true, false, false)
    case CMP => DeriveDifference(l.a, l.b, l.w)
    case DEC => DeriveDifference(l.a, l.b, l.w)
  }

  function DeriveSum(a: u32, b: u32, w: Width): Flags {
    var r := Add32(a, b);
    Flags.Flags(r < a, Parity8(Unalign(r, w) % 256), false, r == 0, Top(r) == 1, AddOf(a, b, r) == 1)
  }

  function DeriveDifference(a: u32, b: u32, w: Width): Flags {
    var r := Sub32(a, b);
    Flags.Flags(a < b, Parity8(Unalign(r, w) % 256), false, r == 0, Top(r) == 1, SubOf(a, b, r) == 1)
  }

  function Cond(l: Lazy, cc: Condition): bool {
    Decide(Derive(l), cc)
  }

  /** recomp_cond_cf: after inc and dec the conditions on the carry read the carry kept in _cf. */
  function CondCf(l: Lazy, cc: Condition): bool {
    if l.kind != INC && l.kind != DEC then Cond(l, cc)
    else match cc
      case B => l.cf != 0
      case AE => l.cf == 0
      case A => l.cf == 0 && !Cond(l, E)
      case BE => l.cf != 0 || Cond(l, E)
      case _ => Cond(l, cc)
  }

  /** recomp_carry: the carry adc and sbb take in. */
  function Carry(l: Lazy): u32 {
    match l.kind
    case ADD => One(Add32(l.a, l.b) < l.a)
    case CMP => One(l.a < l.b)
    case _ => l.cf
  }

  /** recomp_flags_pack; its ORs are of bits that do not meet. */
  function FlagsPack(r: u32, cf: nat, af: nat, of: nat): nat {
    0x202 + cf % 2 + 0x10 * (af % 2) + 0x800 * (of % 2)
      + (if r == 0 then 0x40 else 0) + 0x80 * Top(r) + 4 * One(Parity8(r % 256))
  }

  function FlagsAdc(a: u32, b: u32, c: u32): nat {
    var r := Add32(Add32(a, b), c);
    FlagsPack(r, One(if c != 0 then r <= a else r < a), Xor(Xor(a, b), r) / 16 % 2, AddOf(a, b, r))
  }

  function FlagsSbb(a: u32, b: u32, c: u32): nat {
    var r := Sub32(Sub32(a, b), c);
    FlagsPack(r, One(if c != 0 then a <= b else a < b), Xor(Xor(a, b), r) / 16 % 2, SubOf(a, b, r))
  }

  /** Bit 4 + shift of x. */
  function AuxBit(x: nat, w: Width): nat {
    match w
    case W8 => x / 0x1000_0000 % 2
    case W16 => x / 0x10_0000 % 2
    case W32 => x / 0x10 % 2
  }

  /** The narrow fix-up of PF in a packed word. */
  function WithParity(e: nat, pf: bool): nat {
    e - 4 * (e / 4 % 2) + 4 * One(pf)
  }

  function PackNarrow(r: u32, w: Width, cf: nat, af: nat, of: nat): nat {
    var e := FlagsPack(r, cf, af, of);
    if w == W32 then e else WithParity(e, Parity8(Unalign(r, w) % 256))
  }

  /** The bits of a popfd word that pushfd hands back: the six flags, AC and ID. */
  function KeptBits(a: u32): nat {
    a % 2 + 4 * (a / 4 % 2) + 0x10 * (a / 0x10 % 2) + 0x40 * (a / 0x40 % 2) + 0x80 * (a / 0x80 % 2)
      + 0x800 * (a / 0x800 % 2) + 0x4_0000 * (a / 0x4_0000 % 2) + 0x20_0000 * (a / 0x20_0000 % 2)
  }

  /** recomp_eflags, with the direction flag as a boolean. */
  function Eflags(l: Lazy, down: bool): nat {
    var cf := l.cf % 2;
    (if down then 0x400 else 0) +
    match l.kind
    case EFLAGS => KeptBits(l.a) + 0x202
    case ADD =>
      var r := Add32(l.a, l.b);
      PackNarrow(r, l.w, One(r < l.a), AuxBit(Xor(Xor(l.a, l.b), r), l.w), AddOf(l.a, l.b, r))
    case INC =>
      var r := Add32(l.a, l.b);
      PackNarrow(r, l.w, cf, AuxBit(Xor(Xor(l.a, l.b), r), l.w), AddOf(l.a, l.b, r))
    case TEST => PackNarrow(And(l.a, l.b), l.w, cf, 0, 0)
    case BT => PackNarrow(0, l.w, BitTest(l.a, l.b), 0, 0)
    case CMP =>
      var r := Sub32(l.a, l.b);
      PackNarrow(r, l.w, One(l.a < l.b), AuxBit(Xor(Xor(l.a, l.b), r), l.w), SubOf(l.a, l.b, r))
    case DEC =>
      var r := Sub32(l.a, l.b);
      PackNarrow(r, l.w, cf, AuxBit(Xor(Xor(l.a, l.b), r), l.w), SubOf(l.a, l.b, r))
  }

  // ---- left alignment ----

  lemma Aligned(a: u32, w: Width)
    ensures Align(a, w) == Unsigned(a, w) * Scale(w)
    ensures Align(a, w) >= 0x8000_0000 <==> Unsigned(a, w) >= Sign(w)
  {
    match w
    case W8 => Remainder(a * 0x100_0000, 0x1_0000_0000, a / 0x100, (a % 0x100) * 0x100_0000);
    case W16 => Remainder(a * 0x1_0000, 0x1_0000_0000, a / 0x1_0000, (a % 0x1_0000) * 0x1_0000);
    case W32 =>
  }

  lemma AlignedSum(a: u32, b: u32, w: Width)
    ensures Add32(Align(a, w), Align(b, w)) == Sum(a, b, false, w) * Scale(w)
    ensures Add32(Align(a, w), Align(b, w)) < Align(a, w)
      <==> Unsigned(a, w) + Unsigned(b, w) >= Modulus(w)
  {
    Aligned(a, w);
    Aligned(b, w);
    SumCases(a, b, false, w);
    match w
    case W8 =>
    case W16 =>
    case W32 =>
  }

  lemma AlignedDifference(a: u32, b: u32, w: Width)
    ensures Sub32(Align(a, w), Align(b, w)) == Difference(a, b, false, w) * Scale(w)
    ensures Align(a, w) < Align(b, w) <==> Unsigned(a, w) < Unsigned(b, w)
  {
    Aligned(a, w);
    Aligned(b, w);
    DifferenceCases(a, b, false, w);
    match w
    case W8 =>
    case W16 =>
    case W32 =>
  }

  /** What is read off an aligned result. */
  lemma AlignedResult(v: u32, w: Width)
    requires v < Modulus(w)
    ensures v * Scale(w) < 0x1_0000_0000
    ensures Unalign(v * Scale(w), w) == v
    ensures Top(v * Scale(w)) == One(v >= Sign(w))
    ensures v * Scale(w) == 0 <==> v == 0
    ensures v * Scale(w) >= 0x8000_0000 <==> v >= Sign(w)
  {
  }

  lemma TopIsBit(x: u32)
    ensures Top(x) == Bit(x, Bits(W32) - 1)
  {
    SignOf(x, W32);
  }

  lemma AddOfSigns(a: u32, b: u32, r: u32)
    ensures var s := 0x8000_0000;
      AddOf(a, b, r) == One((a >= s) == (b >= s) && (a >= s) != (r >= s))
  {
    LikeSigns(a, b, r, W32);
    TopIsBit(And(Not32(Xor32Of(a, b)), Xor(a, r)));
  }

  lemma SubOfSigns(a: u32, b: u32, r: u32)
    ensures var s := 0x8000_0000;
      SubOf(a, b, r) == One((a >= s) != (b >= s) && (a >= s) != (r >= s))
  {
    Xor32(a, b);
    UnlikeSigns(a, b, r, W32);
    TopIsBit(And(Xor(a, b), Xor(a, r)));
  }

  lemma AlignedAnd(a: u32, b: u32, w: Width)
    ensures And(Align(a, w), Align(b, w)) == Low(And(a, b), w) * Scale(w)
  {
    Aligned(a, w);
    Aligned(b, w);
    WidthBits(w);
    AndLow(a, b, Bits(w));
    LowIsRemainder(a, w);
    LowIsRemainder(b, w);
    LowIsRemainder(And(a, b), w);
    ScalePower(w);
    AndShift(Unsigned(a, w), Unsigned(b, w), 32 - Bits(w));
  }

  lemma LowIsRemainder(a: int, w: Width)
    ensures Low(a, w) == a % Modulus(w)
  {
  }

  lemma ScalePower(w: Width)
    ensures Pow2(32 - Bits(w)) == Scale(w)
  {
    WidthBits(W8);
    WidthBits(W16);
    Pow2Add(8, 16);
  }

  lemma AlignedAux(a: u32, b: u32, r: u32, w: Width)
    requires r < Modulus(w)
    ensures AuxBit(Xor(Xor(Align(a, w), Align(b, w)), r * Scale(w)), w)
      == (Unsigned(a, w) / 16 % 2 + Unsigned(b, w) / 16 % 2 + r / 16 % 2) % 2
  {
    Aligned(a, w);
    Aligned(b, w);
    Pow2Add(4, 32 - Bits(w));
    ScalePower(w);
    ShiftedXor3(Align(a, w), Align(b, w), r * Scale(w), 4 + (32 - Bits(w)), 16 * Scale(w));
    AuxOfScaled(Unsigned(a, w), w);
    AuxOfScaled(Unsigned(b, w), w);
    AuxOfScaled(r, w);
  }

  lemma AuxOfScaled(v: u32, w: Width)
    requires v < Modulus(w)
    ensures v * Scale(w) / (16 * Scale(w)) == v / 16
    ensures forall x: nat :: AuxBit(x, w) == x / (16 * Scale(w)) % 2
  {
  }
}
