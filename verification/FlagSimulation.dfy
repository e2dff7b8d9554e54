/**
 The two 32-bit runtimes simulate each other on the flags: every condition read from the lazy tuple
 is the one read from the eager CPU, the carries are the same, and pushfd gives the same word. After
 bt and narrow adc and sbb that is so under exact conditions on the operands.
 */
module FlagSimulation {
  import opened Words
  import opened FlagWords
  import opened EagerFlags
  import opened LazyFlags

  datatype Insn =
    | Add(a: u32, b: u32, w: Width)
    | Sub(a: u32, b: u32, w: Width)       // and cmp
    | AndTest(a: u32, b: u32, w: Width)   // and, test
    | OrXor(r: u32, w: Width)             // or, xor: r is the result
    | Inc(a: u32, w: Width)
    | Dec(a: u32, w: Width)
    | Adc(a: u32, b: u32, w: Width)
    | Sbb(a: u32, b: u32, w: Width)
    | Bt(a: u32, b: u32)

  /** What the lifter emits for the flags of one instruction. `precise` is its precise_carry option,
      which chooses where adc and sbb take the carry from. A narrow adc or sbb is handed to the 32-bit
      helper as it is, not left-aligned; bt stores no carry. */
  function LazyStep(l: Lazy, i: Insn, precise: bool): Lazy {
    match i
    case Add(a, b, w) =>
      Lazy.Lazy(ADD, w, Align(a, w), Align(b, w), One(Add32(Align(a, w), Align(b, w)) < Align(a, w)))
    case Sub(a, b, w) => Lazy.Lazy(CMP, w, Align(a, w), Align(b, w), One(Align(a, w) < Align(b, w)))
    case AndTest(a, b, w) => Lazy.Lazy(TEST, w, Align(a, w), Align(b, w), 0)
    case OrXor(r, w) => Lazy.Lazy(TEST, w, Align(r, w), Align(r, w), 0)
    case Inc(a, w) => Lazy.Lazy(INC, w, Align(a, w), Align(1, w), l.cf)
    case Dec(a, w) => Lazy.Lazy(DEC, w, Align(a, w), Align(1, w), l.cf)
    case Adc(a, b, w) => Word(FlagsAdc(Low(a, w), Low(b, w), if precise then Carry(l) else l.cf))
    case Sbb(a, b, w) => Word(FlagsSbb(Low(a, w), Low(b, w), if precise then Carry(l) else l.cf))
    case Bt(a, b) => Lazy.Lazy(BT, W32, a, b, l.cf)
  }

  /** The tuple that holds a finished flag word. */
  function Word(e: nat): Lazy {
    Lazy.Lazy(EFLAGS, W32, e % 0x1_0000_0000, 0, e % 2)
  }

  function EagerStep(f: Flags, i: Insn): Flags {
    match i
    case Add(a, b, w) => SumFlags(a, b, false, w)
    case Sub(a, b, w) => DifferenceFlags(a, b, false, w)
    case AndTest(a, b, w) => LogicFlags(f, And(a, b), w)
    case OrXor(r, w) => LogicFlags(f, r, w)
    case Inc(a, w) => SumFlags(a, 1, false, w).(cf := f.cf)
    case Dec(a, w) => DifferenceFlags(a, 1, false, w).(cf := f.cf)
    case Adc(a, b, w) => SumFlags(a, b, f.cf, w)
    case Sbb(a, b, w) => DifferenceFlags(a, b, f.cf, w)
    case Bt(a, b) => f.(cf := BitTest(a, b) == 1)
  }

  /** The eager CPU steps by its own helpers. */
  method Execute(cpu: Cpu, i: Insn)
    modifies cpu
    ensures cpu.Flags() == EagerStep(old(cpu.Flags()), i)
  {
    match i {
      case Add(a, b, w) => var _ := cpu.FlagsAdd(a, b, w);
      case Sub(a, b, w) => var _ := cpu.FlagsSub(a, b, w);
      case AndTest(a, b, w) => var _ := cpu.FlagsLogic(And(a, b), w);
      case OrXor(r, w) => var _ := cpu.FlagsLogic(r, w);
      case Inc(a, w) => var _ := cpu.FlagsInc(a, w);
      case Dec(a, w) => var _ := cpu.FlagsDec(a, w);
      case Adc(a, b, w) => var _ := cpu.FlagsAdc(a, b, w);
      case Sbb(a, b, w) => var _ := cpu.FlagsSbb(a, b, w);
      case Bt(a, b) => cpu.cf := BitTest(a, b) == 1;
    }
  }

  function LazyRun(l: Lazy, prog: seq<Insn>, precise: bool): Lazy
    decreases |prog|
  {
    if prog == [] then l else LazyRun(LazyStep(l, prog[0], precise), prog[1..], precise)
  }

  function EagerRun(f: Flags, prog: seq<Insn>): Flags
    decreases |prog|
  {
    if prog == [] then f else EagerRun(EagerStep(f, prog[0]), prog[1..])
  }

  /** The carries of the two runtimes agree, wherever the lazy one is read. */
  predicate SameCarry(l: Lazy, f: Flags) {
    l.cf == One(f.cf) && Carry(l) == One(f.cf)
  }

  predicate SameAnswers(l: Lazy, f: Flags) {
    SameCarry(l, f) && forall cc: Condition :: CondCf(l, cc) == Decide(f, cc)
  }

  // ---- the kinds, one by one ----

  predicate SameButAux(d: Flags, f: Flags) {
    d.pf == f.pf && d.zf == f.zf && d.sf == f.sf && d.of == f.of
  }

  lemma DeriveSumMeaning(a: u32, b: u32, w: Width)
    ensures var d, f := DeriveSum(Align(a, w), Align(b, w), w), SumFlags(a, b, false, w);
      SameButAux(d, f) && d.cf == f.cf == (Add32(Align(a, w), Align(b, w)) < Align(a, w))
  {
    var r := Sum(a, b, false, w);
    AlignedSum(a, b, w);
    AlignedResult(r, w);
    Aligned(a, w);
    Aligned(b, w);
    AddOfSigns(Align(a, w), Align(b, w), Add32(Align(a, w), Align(b, w)));
    SumOverflow(a, b, false, w);
    ParityFold(r);
  }

  lemma DeriveDifferenceMeaning(a: u32, b: u32, w: Width)
    ensures var d, f := DeriveDifference(Align(a, w), Align(b, w), w), DifferenceFlags(a, b, false, w);
      SameButAux(d, f) && d.cf == f.cf == (Align(a, w) < Align(b, w))
  {
    var r := Difference(a, b, false, w);
    AlignedDifference(a, b, w);
    AlignedResult(r, w);
    Aligned(a, w);
    Aligned(b, w);
    SubOfSigns(Align(a, w), Align(b, w), Sub32(Align(a, w), Align(b, w)));
    DifferenceOverflow(a, b, false, w);
    ParityFold(r);
  }

  lemma DeriveTestMeaning(a: u32, b: u32, w: Width, cf: u32, before: Flags)
    ensures var d, f := Derive(Lazy.Lazy(TEST, w, Align(a, w), Align(b, w), cf)), LogicFlags(before, And(a, b), w);
      SameButAux(d, f) && d.cf == f.cf == false
  {
    var r := Low(And(a, b), w);
    AlignedAnd(a, b, w);
    AlignedResult(r, w);
    ParityFold(r);
  }

  /** A finished word read back is the six flags it was packed from. */
  lemma WordMeaning(f: Flags)
    ensures Derive(Word(EflagsPack(f))) == f && Word(EflagsPack(f)).cf == One(f.cf)
  {
    hide EflagsPack, FlagsOfWord;
    PackIsSmall(f);
    PackUnpack(f);
  }

  lemma AdcMeaning(a: u32, b: u32, c: bool)
    ensures FlagsAdc(a, b, One(c)) == EflagsPack(SumFlags(a, b, c, W32))
  {
    hide And, Xor, AddOf, Parity8, EvenParity, SumOverflows, NibbleCarries, EflagsPack, FlagsPack,
         Add32, Sum;
    var r := Sum(a, b, c, W32);
    AddTwice(a, b, c);
    AddBits(a, b, c);
    PackMeaning(r, SumFlags(a, b, c, W32));
  }

  /** recomp_flags_pack packs the flags it is told. */
  lemma PackMeaning(r: u32, f: Flags)
    requires f.zf == (r == 0) && One(f.sf) == Top(r) && f.pf == Parity8(r % 256)
    ensures FlagsPack(r, One(f.cf), One(f.af), One(f.of)) == EflagsPack(f)
  {
    hide Parity8;
  }

  lemma AddTwice(a: u32, b: u32, c: bool)
    ensures Add32(Add32(a, b), One(c)) == Sum(a, b, c, W32)
  {
    SumCases(a, b, c, W32);
    var s := Add32(a, b);
    assert s == if a + b >= 0x1_0000_0000 then a + b - 0x1_0000_0000 else a + b;
  }

  lemma SubTwice(a: u32, b: u32, c: bool)
    ensures Sub32(Sub32(a, b), One(c)) == Difference(a, b, c, W32)
    ensures (if c then a <= b else a < b) == DifferenceFlags(a, b, c, W32).cf
  {
    hide EvenParity, NibbleBorrows, DifferenceOverflows;
    DifferenceCases(a, b, c, W32);
  }

  lemma AddBits(a: u32, b: u32, c: bool)
    ensures var r := Sum(a, b, c, W32);
      && (if c then r <= a else r < a) == SumFlags(a, b, c, W32).cf
      && AddOf(a, b, r) == One(SumOverflows(a, b, c, W32))
      && Xor(Xor(a, b), r) / 16 % 2 == One(NibbleCarries(a, b, c))
      && Top(r) == One(r >= Sign(W32)) && Parity8(r % 256) == EvenParity(r)
  {
    hide And, Xor, AddOf, Parity8, EvenParity, SumOverflows, NibbleCarries, Sum, Top, Low;
    var r := Sum(a, b, c, W32);
    SumCases(a, b, c, W32);
    AddOfSigns(a, b, r);
    SumOverflow(a, b, c, W32);
    TopOfSign(r);
    LowIsWord(a);
    LowIsWord(b);
    Bit4OfXor(a, b, r);
    NibbleCarry(a, b, c, W32);
    ParityFold(r);
  }

  lemma TopOfSign(r: u32)
    ensures Top(r) == One(r >= Sign(W32))
  {
  }

  lemma LowIsWord(a: u32)
    ensures Unsigned(a, W32) == a
  {
  }

  lemma SbbMeaning(a: u32, b: u32, c: bool)
    ensures FlagsSbb(a, b, One(c)) == EflagsPack(DifferenceFlags(a, b, c, W32))
  {
    hide And, Xor, SubOf, Parity8, EvenParity, DifferenceOverflows, NibbleBorrows, EflagsPack, FlagsPack,
         Sub32, Difference;
    var r := Difference(a, b, c, W32);
    SubTwice(a, b, c);
    SubBits(a, b, c);
    PackMeaning(r, DifferenceFlags(a, b, c, W32));
  }

  lemma SubBits(a: u32, b: u32, c: bool)
    ensures var r := Difference(a, b, c, W32);
      && SubOf(a, b, r) == One(DifferenceOverflows(a, b, c, W32))
      && Xor(Xor(a, b), r) / 16 % 2 == One(NibbleBorrows(a, b, c))
      && Top(r) == One(r >= Sign(W32)) && Parity8(r % 256) == EvenParity(r)
  {
    hide And, Xor, SubOf, Parity8, EvenParity, DifferenceOverflows, NibbleBorrows, Difference, Top, Low;
    var r := Difference(a, b, c, W32);
    SubOfSigns(a, b, r);
    DifferenceOverflow(a, b, c, W32);
    TopOfSign(r);
    LowIsWord(a);
    LowIsWord(b);
    Bit4OfXor(a, b, r);
    NibbleBorrow(a, b, c, W32);
    ParityFold(r);
  }

  // ---- one instruction ----

  /** An arithmetic kind answers as the flags it derives, except that inc and dec answer the carry
      from _cf. */
  lemma AnswersOf(l: Lazy, f: Flags)
    requires SameButAux(Derive(l), f)
    requires l.kind != INC && l.kind != DEC ==> Derive(l).cf == f.cf
    requires SameCarry(l, f)
    ensures SameAnswers(l, f)
  {
    hide Derive, Carry;
  }

  // ---- narrow adc and sbb ----

  /** A sum of narrow operands at 32 bits and at their own width: PF and AF are the same, the carry
      exactly when the sum does not carry, and all six flags exactly when it does not even reach the
      sign bit. */
  lemma NarrowSum(a: u32, b: u32, c: bool, w: Width)
    requires w != W32
    ensures var x, y := Low(a, w), Low(b, w);
      var n, f := SumFlags(x, y, c, W32), SumFlags(a, b, c, w);
      && n.pf == f.pf && n.af == f.af
      && (n.cf == f.cf <==> x as int + y as int + One(c) < Modulus(w))
      && (n == f <==> x as int + y as int + One(c) < Sign(w))
  {
    hide EvenParity, SumOverflows, NibbleCarries;
    var x: int, y: int := Low(a, w), Low(b, w);
    var s := x + y + One(c);
    SumCases(x, y, c, W32);
    SumCases(a, b, c, w);
    LowIsWord(x);
    LowIsWord(y);
    SumOverflow(x, y, c, W32);
    SumOverflow(a, b, c, w);
    SameLowByte(s, Sum(a, b, c, w), w);
    SameNibble(a, b, c, w);
    assert Modulus(w) == 2 * Sign(w) && Modulus(w) <= 0x1_0000;
    hide Low, Sum, Modulus, Sign;
  }

  lemma SameLowByte(s: nat, r: u32, w: Width)
    requires s < 0x1_0000_0000 && (r == s || r == s - Modulus(w))
    ensures EvenParity(r) == EvenParity(s)
  {
    assert r % 256 == s % 256;
  }

  lemma SameNibble(a: u32, b: u32, c: bool, w: Width)
    ensures NibbleCarries(Low(a, w), Low(b, w), c) == NibbleCarries(a, b, c)
    ensures NibbleBorrows(Low(a, w), Low(b, w), c) == NibbleBorrows(a, b, c)
  {
    LowNibble(a, w);
    LowNibble(b, w);
  }

  /** A difference of narrow operands at 32 bits and at their own width: the borrow, PF and AF are the
      same, and all six flags exactly when the operands have the same sign. */
  lemma NarrowDifference(a: u32, b: u32, c: bool, w: Width)
    requires w != W32
    ensures var x, y := Low(a, w), Low(b, w);
      var n, f := DifferenceFlags(x, y, c, W32), DifferenceFlags(a, b, c, w);
      && n.cf == f.cf && n.pf == f.pf && n.af == f.af
      && (n == f <==> (x >= Sign(w)) == (y >= Sign(w)))
  {
    hide EvenParity, DifferenceOverflows, NibbleBorrows;
    var x: int, y: int := Low(a, w), Low(b, w);
    var d := x - y - One(c);
    DifferenceCases(x, y, c, W32);
    DifferenceCases(a, b, c, w);
    LowIsWord(x);
    LowIsWord(y);
    DifferenceOverflow(x, y, c, W32);
    DifferenceOverflow(a, b, c, w);
    SameLowByteDown(d, Difference(x, y, c, W32), Difference(a, b, c, w), w);
    SameNibble(a, b, c, w);
    assert Modulus(w) == 2 * Sign(w) && Modulus(w) <= 0x1_0000;
    hide Low, Difference, Modulus, Sign;
  }

  lemma SameLowByteDown(d: int, n: u32, r: u32, w: Width)
    requires n == if d < 0 then d + 0x1_0000_0000 else d
    requires r == if d < 0 then d + Modulus(w) else d
    ensures EvenParity(n) == EvenParity(r)
  {
    assert n % 256 == r % 256;
  }

  // ---- the simulation ----

  /** When the carries still agree after an instruction. A narrow adc is added at 32 bits, where a carry
      out of the narrow operand is not seen; bt leaves the stored carry as it was. */
  predicate CarryKept(f: Flags, i: Insn) {
    match i
    case Adc(a, b, w) => w == W32 || Unsigned(a, w) as int + Unsigned(b, w) as int + One(f.cf) < Modulus(w)
    case Bt(a, b) => f.cf == (BitTest(a, b) == 1)
    case _ => true
  }

  /** When all conditions agree after an instruction, and the carries. */
  predicate AnswersKept(f: Flags, i: Insn) {
    match i
    case Adc(a, b, w) => w == W32 || Unsigned(a, w) as int + Unsigned(b, w) as int + One(f.cf) < Sign(w)
    case Sbb(a, b, w) => w == W32 || (Unsigned(a, w) >= Sign(w)) == (Unsigned(b, w) >= Sign(w))
    case Bt(a, b) => CarryKept(f, i) && f.zf && f.pf && !f.sf && !f.of
    case _ => true
  }

  /** A finished word answers as the eager flags exactly when it holds the same five. */
  lemma WordAnswers(n: Flags, f: Flags)
    requires n.pf == f.pf && n.af == f.af
    ensures SameCarry(Word(EflagsPack(n)), f) <==> n.cf == f.cf
    ensures SameAnswers(Word(EflagsPack(n)), f) <==> n == f
  {
    WordMeaning(n);
    hide EflagsPack, FlagsOfWord, Decide;
    var l := Word(EflagsPack(n));
    assert forall cc: Condition :: CondCf(l, cc) == Decide(n, cc);
    SameConditions(n, f);
    if SameAnswers(l, f) {
      forall cc: Condition ensures Decide(n, cc) == Decide(f, cc) {
        assert CondCf(l, cc) == Decide(f, cc);
      }
    }
  }

  /** bt writes only CF, and the eager CPU leaves the other flags as they were; the lazy tuple has room
      for the tested bit alone, which the conditions read, and answers the rest as for a zero result.
      The carry adc and sbb read stays the stored one. */
  lemma BitTestAnswers(l: Lazy, f: Flags, a: u32, b: u32)
    requires SameCarry(l, f)
    ensures var l', f' := Lazy.Lazy(BT, W32, a, b, l.cf), f.(cf := BitTest(a, b) == 1);
      && CondCf(l', B) == Decide(f', B) && CondCf(l', AE) == Decide(f', AE)
      && ((forall cc: Condition :: CondCf(l', cc) == Decide(f', cc)) <==> f.zf && f.pf && !f.sf && !f.of)
      && (SameCarry(l', f') <==> BitTest(a, b) == l.cf)
  {
    hide BitTest;
    var l', f' := Lazy.Lazy(BT, W32, a, b, l.cf), f.(cf := BitTest(a, b) == 1);
    var d := Derive(l');
    ParityOfZero();
    SameConditions(d, f');
    assert forall cc: Condition :: CondCf(l', cc) == Decide(d, cc);
    if forall cc: Condition :: CondCf(l', cc) == Decide(f', cc) {
      forall cc: Condition ensures Decide(d, cc) == Decide(f', cc) {
        assert CondCf(l', cc) == Decide(f', cc);
      }
    }
  }

  /** The bit that is tested: after `bt a, b` the carry condition and the carry bit of pushfd are bit
      b mod 32 of a in both runtimes. */
  lemma BitTestReads(l: Lazy, f: Flags, a: u32, b: u32, precise: bool, down: bool)
    ensures var bit := a / Pow2(b % 32) % 2;
      var l', f' := LazyStep(l, Bt(a, b), precise), EagerStep(f, Bt(a, b));
      && (Decide(f', B) <==> bit == 1) && (CondCf(l', B) <==> bit == 1)
      && EflagsPack(f') % 2 == bit && Eflags(l', down) % 2 == bit
  {
    hide PackNarrow, SumFlags, DifferenceFlags, FlagsAdc, FlagsSbb, Align, EflagsPack, And, Xor;
    BitIsShift(a, b % 32);
    var f' := EagerStep(f, Bt(a, b));
    PackedBit(BitTest(a, b));
    PackIsSmall(f');
    ParityOfZero();
    hide Bit, Pow2, Parity8;
  }

  lemma PackedBit(bit: nat)
    requires bit <= 1
    ensures PackNarrow(0, W32, bit, 0, 0) % 2 == bit && (0x400 + PackNarrow(0, W32, bit, 0, 0)) % 2 == bit
  {
    hide Parity8;
  }

  /** The direction flag is bit 10 of every pushfd word, whatever the flags come from. */
  lemma DirectionBit(l: Lazy, down: bool)
    ensures Eflags(l, down) / 0x400 % 2 == One(down)
  {
    hide FlagsPack, KeptBits, Parity8, Unalign, AuxBit, Xor, And, AddOf, SubOf, Add32, Sub32;
    var e := Eflags(l, false);
    match l.kind {
      case EFLAGS => KeptLow(l.a);
      case ADD => NarrowLow(Add32(l.a, l.b), l.w, One(Add32(l.a, l.b) < l.a),
                            AuxBit(Xor(Xor(l.a, l.b), Add32(l.a, l.b)), l.w), AddOf(l.a, l.b, Add32(l.a, l.b)));
      case INC => NarrowLow(Add32(l.a, l.b), l.w, l.cf % 2,
                            AuxBit(Xor(Xor(l.a, l.b), Add32(l.a, l.b)), l.w), AddOf(l.a, l.b, Add32(l.a, l.b)));
      case TEST => NarrowLow(And(l.a, l.b), l.w, l.cf % 2, 0, 0);
      case BT => NarrowLow(0, l.w, BitTest(l.a, l.b), 0, 0);
      case CMP => NarrowLow(Sub32(l.a, l.b), l.w, One(l.a < l.b),
                            AuxBit(Xor(Xor(l.a, l.b), Sub32(l.a, l.b)), l.w), SubOf(l.a, l.b, Sub32(l.a, l.b)));
      case DEC => NarrowLow(Sub32(l.a, l.b), l.w, l.cf % 2,
                            AuxBit(Xor(Xor(l.a, l.b), Sub32(l.a, l.b)), l.w), SubOf(l.a, l.b, Sub32(l.a, l.b)));
    }
    hide Eflags, PackNarrow, BitTest;
    SetBit10(e, down);
    assert Eflags(l, down) == e + if down then 0x400 else 0 by {
      EflagsDown(l, down);
    }
  }

  lemma EflagsDown(l: Lazy, down: bool)
    ensures Eflags(l, down) == Eflags(l, false) + if down then 0x400 else 0
  {
    hide PackNarrow, KeptBits, BitTest, AuxBit, Xor, And, AddOf, SubOf, Add32, Sub32;
  }

  /** Bits 0 to 10 of e hold less than 0x400. */
  predicate Bit10Clear(e: nat) {
    e % 0x800 < 0x400
  }

  lemma SetBit10(e: nat, down: bool)
    requires Bit10Clear(e)
    ensures (e + if down then 0x400 else 0) / 0x400 % 2 == One(down)
  {
    var d := One(down);
    assert e == 0x800 * (e / 0x800) + e % 0x800;
    Remainder(e + 0x400 * d, 0x400, 2 * (e / 0x800) + d, e % 0x800);
    Remainder(2 * (e / 0x800) + d, 2, e / 0x800, d);
  }

  lemma KeptLow(a: u32)
    ensures Bit10Clear(KeptBits(a) + 0x202)
  {
    var low := a % 2 + 4 * (a / 4 % 2) + 0x10 * (a / 0x10 % 2) + 0x40 * (a / 0x40 % 2) + 0x80 * (a / 0x80 % 2) + 0x202;
    var high := a / 0x800 % 2 + 0x80 * (a / 0x4_0000 % 2) + 0x400 * (a / 0x20_0000 % 2);
    Remainder(KeptBits(a) + 0x202, 0x800, high, low);
  }

  lemma NarrowLow(r: u32, w: Width, cf: nat, af: nat, of: nat)
    ensures Bit10Clear(PackNarrow(r, w, cf, af, of))
  {
    hide Parity8, Unalign;
    var e := FlagsPack(r, cf, af, of);
    var low := 0x202 + cf % 2 + 0x10 * (af % 2) + (if r == 0 then 0x40 else 0) + 0x80 * Top(r)
               + 4 * One(Parity8(r % 256));
    assert e == low + 0x800 * (of % 2);
    var bit, pf := e / 4 % 2, One(Parity8(Unalign(r, w) % 256));
    Remainder(e, 0x800, of % 2, low);
    Remainder(e - 4 * bit + 4 * pf, 0x800, of % 2, low - 4 * bit + 4 * pf);
  }

  /** popfd v, then pushfd: bits 18 and 21, which a program can toggle, are v's, and bits 1 and 9 read as
      set. */
  lemma ToggledBitsKept(v: u32, w: Width, b: u32, cf: u32, down: bool)
    ensures var e := Eflags(Lazy.Lazy(EFLAGS, w, v, b, cf), down);
      && e / 0x4_0000 % 2 == v / 0x4_0000 % 2 && e / 0x20_0000 % 2 == v / 0x20_0000 % 2
      && e / 2 % 2 == 1 && e / 0x200 % 2 == 1
  {
    var ac, id, high := v / 0x4_0000 % 2, v / 0x20_0000 % 2, 2 * One(down) + 4 * (v / 0x800 % 2);
    var even := 2 * (v / 4 % 2) + 8 * (v / 0x10 % 2) + 0x20 * (v / 0x40 % 2) + 0x40 * (v / 0x80 % 2);
    var e := Eflags(Lazy.Lazy(EFLAGS, w, v, b, cf), down);
    assert e == v % 2 + 2 * even + 0x202 + 0x200 * high + 0x4_0000 * ac + 0x20_0000 * id;
    hide Eflags, KeptBits;
    FourBits(e, v % 2, even, high, ac, id);
  }

  lemma FourBits(e: nat, low: nat, even: nat, high: nat, ac: nat, id: nat)
    requires low <= 1 && even % 2 == 0 && even <= 0x6A && high <= 6 && ac <= 1 && id <= 1
    requires e == low + 2 * even + 0x202 + 0x200 * high + 0x4_0000 * ac + 0x20_0000 * id
    requires high % 2 == 0
    ensures e / 0x4_0000 % 2 == ac && e / 0x20_0000 % 2 == id && e / 2 % 2 == 1 && e / 0x200 % 2 == 1
  {
    Remainder(e, 0x20_0000, id, low + 2 * even + 0x202 + 0x200 * high + 0x4_0000 * ac);
    Remainder(e, 0x4_0000, ac + 8 * id, low + 2 * even + 0x202 + 0x200 * high);
    Remainder(ac + 8 * id, 2, 4 * id, ac);
    var top := 1 + high + 0x200 * ac + 0x1000 * id;
    Remainder(e, 0x200, top, low + 2 * even + 2);
    Remainder(top, 2, high / 2 + 0x100 * ac + 0x800 * id, 1);
    var up := even + 1 + 0x100 * top;
    Remainder(e, 2, up, low);
    Remainder(up, 2, even / 2 + 0x80 * top, 1);
  }

  lemma ParityOfZero()
    ensures Parity8(0)
  {
  }

  /** Whatever the tuple held before, once the carries agree, one instruction makes every condition
      agree, and the carries go on agreeing; after a narrow adc or sbb, or bt, exactly under the
      conditions above. */
  lemma StepSimulates(l: Lazy, f: Flags, i: Insn, precise: bool)
    requires SameCarry(l, f)
    ensures SameCarry(LazyStep(l, i, precise), EagerStep(f, i)) <==> CarryKept(f, i)
    ensures SameAnswers(LazyStep(l, i, precise), EagerStep(f, i)) <==> AnswersKept(f, i)
  {
    hide And, Xor, DeriveSum, DeriveDifference, FlagsAdc, FlagsSbb, EflagsPack, FlagsOfWord,
         SumFlags, DifferenceFlags, LogicFlags, Align, SameAnswers, Decide, BitTest;
    var l', f' := LazyStep(l, i, precise), EagerStep(f, i);
    match i {
      case Add(a, b, w) => DeriveSumMeaning(a, b, w); AnswersOf(l', f');
      case Sub(a, b, w) => DeriveDifferenceMeaning(a, b, w); AnswersOf(l', f');
      case AndTest(a, b, w) => DeriveTestMeaning(a, b, w, 0, f); AnswersOf(l', f');
      case OrXor(r, w) =>
        DeriveTestMeaning(r, r, w, 0, f);
        AndSelf(r);
        AnswersOf(l', f');
      case Inc(a, w) => DeriveSumMeaning(a, 1, w); AnswersOf(l', f');
      case Dec(a, w) => DeriveDifferenceMeaning(a, 1, w); AnswersOf(l', f');
      case Adc(a, b, w) => AdcSimulates(l, f, a, b, w, precise);
      case Sbb(a, b, w) => SbbSimulates(l, f, a, b, w, precise);
      case Bt(a, b) => BtSimulates(l, f, a, b);
    }
  }

  lemma BtSimulates(l: Lazy, f: Flags, a: u32, b: u32)
    requires SameCarry(l, f)
    ensures var l', f' := Lazy.Lazy(BT, W32, a, b, l.cf), f.(cf := BitTest(a, b) == 1);
      && (SameCarry(l', f') <==> CarryKept(f, Bt(a, b)))
      && (SameAnswers(l', f') <==> AnswersKept(f, Bt(a, b)))
  {
    BitTestAnswers(l, f, a, b);
    hide BitTest, Decide, CondCf;
  }

  lemma AdcSimulates(l: Lazy, f: Flags, a: u32, b: u32, w: Width, precise: bool)
    requires SameCarry(l, f)
    ensures var l', f' := LazyStep(l, Adc(a, b, w), precise), SumFlags(a, b, f.cf, w);
      && (SameCarry(l', f') <==> CarryKept(f, Adc(a, b, w)))
      && (SameAnswers(l', f') <==> AnswersKept(f, Adc(a, b, w)))
  {
    var n := SumFlags(Low(a, w), Low(b, w), f.cf, W32);
    AdcMeaning(Low(a, w), Low(b, w), f.cf);
    if w == W32 {
      LowIsWord(a);
      LowIsWord(b);
    } else {
      NarrowSum(a, b, f.cf, w);
    }
    hide SumFlags, SameAnswers, EflagsPack, FlagsAdc;
    WordAnswers(n, SumFlags(a, b, f.cf, w));
  }

  lemma SbbSimulates(l: Lazy, f: Flags, a: u32, b: u32, w: Width, precise: bool)
    requires SameCarry(l, f)
    ensures var l', f' := LazyStep(l, Sbb(a, b, w), precise), DifferenceFlags(a, b, f.cf, w);
      && SameCarry(l', f')
      && (SameAnswers(l', f') <==> AnswersKept(f, Sbb(a, b, w)))
  {
    var n := DifferenceFlags(Low(a, w), Low(b, w), f.cf, W32);
    SbbMeaning(Low(a, w), Low(b, w), f.cf);
    if w == W32 {
      LowIsWord(a);
      LowIsWord(b);
    } else {
      NarrowDifference(a, b, f.cf, w);
    }
    hide DifferenceFlags, SameAnswers, EflagsPack, FlagsSbb;
    WordAnswers(n, DifferenceFlags(a, b, f.cf, w));
  }

  /** The carries agree after every instruction of prog. */
  predicate CarriesKept(f: Flags, prog: seq<Insn>)
    decreases |prog|
  {
    prog == [] || (CarryKept(f, prog[0]) && CarriesKept(EagerStep(f, prog[0]), prog[1..]))
  }

  /** Over any non-empty instruction sequence, from any states with the same carry (both runtimes start
      with it clear), as long as the carries are kept on the way: the two runtimes give the same answer
      to all sixteen conditions and the same carry to adc and sbb, with either source of the carry,
      exactly when the last instruction keeps them. */
  lemma {:induction false} RunSimulates(l: Lazy, f: Flags, prog: seq<Insn>, precise: bool)
    requires SameCarry(l, f) && prog != [] && CarriesKept(f, prog[..|prog| - 1])
    ensures var before, last := EagerRun(f, prog[..|prog| - 1]), prog[|prog| - 1];
      && (SameAnswers(LazyRun(l, prog, precise), EagerRun(f, prog)) <==> AnswersKept(before, last))
      && (SameCarry(LazyRun(l, prog, precise), EagerRun(f, prog)) <==> CarryKept(before, last))
    decreases |prog|
  {
    hide LazyStep, EagerStep, SameAnswers, SameCarry, AnswersKept, CarryKept;
    StepSimulates(l, f, prog[0], precise);
    var l', f' := LazyStep(l, prog[0], precise), EagerStep(f, prog[0]);
    var front, rest := prog[..|prog| - 1], prog[1..];
    if |prog| == 1 {
      assert rest == [] && front == [];
      assert LazyRun(l', rest, precise) == l' && EagerRun(f', rest) == f' && EagerRun(f, front) == f;
    } else {
      assert front[0] == prog[0] && front[1..] == rest[..|rest| - 1] && rest[|rest| - 1] == prog[|prog| - 1];
      assert EagerRun(f, front) == EagerRun(f', front[1..]);
      RunSimulates(l', f', rest, precise);
    }
  }

  /** Neither bt nor a narrow adc or sbb. */
  predicate Plain(i: Insn) {
    match i
    case Adc(_, _, w) => w == W32
    case Sbb(_, _, w) => w == W32
    case Bt(_, _) => false
    case _ => true
  }

  /** Without bt and narrow adc and sbb the two runtimes agree after every run. */
  lemma {:induction false} PlainRunSimulates(l: Lazy, f: Flags, prog: seq<Insn>, precise: bool)
    requires SameCarry(l, f) && prog != [] && forall k :: 0 <= k < |prog| ==> Plain(prog[k])
    ensures SameAnswers(LazyRun(l, prog, precise), EagerRun(f, prog))
  {
    hide SameAnswers, SameCarry, LazyRun, EagerRun;
    PlainKeeps(f, prog[..|prog| - 1]);
    assert Plain(prog[|prog| - 1]);
    RunSimulates(l, f, prog, precise);
  }

  lemma {:induction false} PlainKeeps(f: Flags, prog: seq<Insn>)
    requires forall k :: 0 <= k < |prog| ==> Plain(prog[k])
    ensures CarriesKept(f, prog)
    decreases |prog|
  {
    hide EagerStep;
    if prog != [] {
      assert Plain(prog[0]);
      PlainKeeps(EagerStep(f, prog[0]), prog[1..]);
    }
  }

  /** `adc al, bl` with al = 0xFF, bl = 1: the eager CPU has a carry and a zero, the lazy tuple neither. */
  lemma NarrowAdcDiffers(l: Lazy, f: Flags, precise: bool)
    requires SameCarry(l, f) && !f.cf
    ensures var i := Adc(0xFF, 1, W8); var l', f' := LazyStep(l, i, precise), EagerStep(f, i);
      f'.cf && f'.zf && !SameCarry(l', f') && !SameAnswers(l', f')
  {
    hide LazyStep, SameCarry, SameAnswers, SumFlags;
    StepSimulates(l, f, Adc(0xFF, 1, W8), precise);
    FullByte();
  }

  lemma FullByte()
    ensures SumFlags(0xFF, 1, false, W8).cf && SumFlags(0xFF, 1, false, W8).zf
  {
    hide EvenParity, SumOverflows, NibbleCarries;
  }

  // ---- freezing the tuple into a word ----

  /** pushfd's view of a tuple: for every kind but TEST the word answers all sixteen conditions as
      the tuple did; after a logical operation, exactly when the carry it is handed is clear (the
      lifter stores 0 there, but a shift leaves its last bit in _cf under the same kind). */
  lemma FreezeKeepsAnswers(l: Lazy, down: bool)
    requires l.cf <= 1
    ensures var frozen := Lazy.Lazy(EFLAGS, W32, Eflags(l, down) % 0x1_0000_0000, 0, l.cf);
      (forall cc: Condition :: CondCf(frozen, cc) == CondCf(l, cc)) <==> (l.kind == TEST ==> l.cf == 0)
  {
    hide Derive, Eflags;
    var e := Eflags(l, down);
    var frozen := Lazy.Lazy(EFLAGS, W32, e % 0x1_0000_0000, 0, l.cf);
    FrozenFlags(l, down);
    DeriveOfWord(frozen);
    var d, g := Derive(l), FlagsOfWord(e % 0x1_0000_0000);
    var d' := if l.kind == INC || l.kind == DEC then d.(cf := l.cf == 1) else d;
    assert forall cc: Condition :: CondCf(frozen, cc) == Decide(g, cc);
    assert forall cc: Condition :: CondCf(l, cc) == Decide(d', cc);
    SameConditions(g, d');
    if forall cc: Condition :: CondCf(frozen, cc) == CondCf(l, cc) {
      forall cc: Condition ensures Decide(g, cc) == Decide(d', cc) {
        assert CondCf(frozen, cc) == CondCf(l, cc);
      }
    }
  }

  lemma DeriveOfWord(l: Lazy)
    requires l.kind == EFLAGS
    ensures Derive(l) == FlagsOfWord(l.a)
  {
  }

  /** The flags of the frozen word: those derived from the tuple, except that the carry of inc, dec
      and the logical kind is the one handed in. */
  lemma FrozenFlags(l: Lazy, down: bool)
    requires l.cf <= 1
    ensures Eflags(l, down) < 0x1_0000_0000
    ensures var g := FlagsOfWord(Eflags(l, down) % 0x1_0000_0000);
      && SameButAux(g, Derive(l))
      && g.cf == if l.kind == INC || l.kind == DEC || l.kind == TEST then l.cf == 1 else Derive(l).cf
    ensures Derive(l).cf && l.kind == TEST ==> false
  {
    hide FlagsOfWord, DeriveSum, DeriveDifference, And, Xor, AddOf, SubOf, PackNarrow, AuxBit, KeptBits, Parity8,
         Unalign, BitTest, Add32, Sub32, Top;
    UnalignZero(l.w);
    match l.kind
    case EFLAGS => KeptFlags(l.a, down);
    case ADD => FrozenSum(l.a, l.b, l.w, Add32(l.a, l.b) < l.a, down);
    case INC => FrozenSum(l.a, l.b, l.w, l.cf == 1, down);
    case TEST => PackedFlags(And(l.a, l.b), l.w, l.cf, 0, 0, down);
    case BT => PackedFlags(0, l.w, BitTest(l.a, l.b), 0, 0, down);
    case CMP => FrozenDifference(l.a, l.b, l.w, l.a < l.b, down);
    case DEC => FrozenDifference(l.a, l.b, l.w, l.cf == 1, down);
  }

  lemma FrozenSum(a: u32, b: u32, w: Width, cf: bool, down: bool)
    ensures var r := Add32(a, b);
      var e := (if down then 0x400 else 0) + PackNarrow(r, w, One(cf), AuxBit(Xor(Xor(a, b), r), w), AddOf(a, b, r));
      && e < 0x1_0000_0000
      && SameButAux(FlagsOfWord(e), DeriveSum(a, b, w)) && FlagsOfWord(e).cf == cf
      && DeriveSum(a, b, w).cf == (r < a)
  {
    hide And, Xor, AddOf, AuxBit, Parity8, FlagsOfWord, PackNarrow, Unalign, Top;
    var r := Add32(a, b);
    AddOfSigns(a, b, r);
    AuxIsBit(Xor(Xor(a, b), r), w);
    PackedFlags(r, w, One(cf), AuxBit(Xor(Xor(a, b), r), w), AddOf(a, b, r), down);
  }

  lemma FrozenDifference(a: u32, b: u32, w: Width, cf: bool, down: bool)
    ensures var r := Sub32(a, b);
      var e := (if down then 0x400 else 0) + PackNarrow(r, w, One(cf), AuxBit(Xor(Xor(a, b), r), w), SubOf(a, b, r));
      && e < 0x1_0000_0000
      && SameButAux(FlagsOfWord(e), DeriveDifference(a, b, w)) && FlagsOfWord(e).cf == cf
      && DeriveDifference(a, b, w).cf == (a < b)
  {
    hide And, Xor, SubOf, AuxBit, Parity8, FlagsOfWord, PackNarrow, Unalign, Top;
    var r := Sub32(a, b);
    SubOfSigns(a, b, r);
    AuxIsBit(Xor(Xor(a, b), r), w);
    PackedFlags(r, w, One(cf), AuxBit(Xor(Xor(a, b), r), w), SubOf(a, b, r), down);
  }

  lemma UnalignZero(w: Width)
    ensures Unalign(0, w) == 0 && Top(0) == 0
  {
  }

  lemma AuxIsBit(x: nat, w: Width)
    ensures AuxBit(x, w) <= 1
  {
  }

  /** A word given by its bits below 12, and whatever lies above. */
  lemma WordOfBits(f: Flags, down: bool, above: nat)
    requires above < 0x1000
    ensures var e := EflagsPack(f) + (if down then 0x400 else 0) + 0x1000 * above;
      && e < 0x1_0000_0000 && FlagsOfWord(e) == f && e / 4 % 2 == One(f.pf)
  {
    hide FlagsOfWord;
    var d := if down then 1 else 0;
    var e := EflagsPack(f) + (if down then 0x400 else 0) + 0x1000 * above;
    var h11 := One(f.of) + 2 * above;
    var h7 := One(f.sf) + 4 + 8 * d + 16 * h11;
    var h6 := One(f.zf) + 2 * h7;
    var h4 := One(f.af) + 4 * h6;
    var h2 := One(f.pf) + 4 * h4;
    Quotients(e, One(f.cf) + 2, h2, h4, h6, h7, h11, One(f.pf), One(f.af), One(f.zf), One(f.sf) + 4 + 8 * d);
    FlagsFrom(e, f);
  }

  lemma Quotients(e: nat, low: nat, h2: nat, h4: nat, h6: nat, h7: nat, h11: nat, pf: nat, af: nat, zf: nat, mid: nat)
    requires e == low + 4 * h2 && low < 4
    requires h2 == pf + 4 * h4 && pf < 4 && h4 == af + 4 * h6 && af < 4
    requires h6 == zf + 2 * h7 && zf < 2 && h7 == mid + 16 * h11 && mid < 16
    ensures e / 4 == h2 && e / 0x10 == h4 && e / 0x40 == h6 && e / 0x80 == h7 && e / 0x800 == h11
    ensures e % 2 == low % 2 && h2 % 2 == pf % 2 && h4 % 2 == af % 2 && h6 % 2 == zf && h7 % 2 == mid % 2
  {
  }

  lemma FlagsFrom(e: u32, f: Flags)
    requires e % 2 == One(f.cf) && e / 4 % 2 == One(f.pf) && e / 0x10 % 2 == One(f.af)
    requires e / 0x40 % 2 == One(f.zf) && e / 0x80 % 2 == One(f.sf) && e / 0x800 % 2 == One(f.of)
    ensures FlagsOfWord(e) == f
  {
  }

  lemma KeptFlags(a: u32, down: bool)
    ensures var e := (if down then 0x400 else 0) + (KeptBits(a) + 0x202);
      e < 0x1_0000_0000 && FlagsOfWord(e) == FlagsOfWord(a)
  {
    var f := FlagsOfWord(a);
    var above := 0x40 * (a / 0x4_0000 % 2) + 0x200 * (a / 0x20_0000 % 2);
    WordOfBits(f, down, above);
    KeptSum(a, f);
  }

  lemma KeptSum(a: u32, f: Flags)
    requires f == FlagsOfWord(a)
    ensures KeptBits(a) + 0x202
      == EflagsPack(f) + 0x1000 * (0x40 * (a / 0x4_0000 % 2) + 0x200 * (a / 0x20_0000 % 2))
  {
  }

  lemma PackedFlags(r: u32, w: Width, cf: nat, af: nat, of: nat, down: bool)
    requires cf <= 1 && af <= 1 && of <= 1
    ensures var e := (if down then 0x400 else 0) + PackNarrow(r, w, cf, af, of);
      && e < 0x1_0000_0000
      && FlagsOfWord(e)
        == Flags.Flags(cf == 1, Parity8(Unalign(r, w) % 256), af == 1, r == 0, Top(r) == 1, of == 1)
  {
    hide Parity8, FlagsOfWord, Unalign, EflagsPack, PackNarrow;
    var g := Flags.Flags(cf == 1, Parity8(Unalign(r, w) % 256), af == 1, r == 0, Top(r) == 1, of == 1);
    NarrowPack(r, w, cf, af, of);
    WordOfBits(g, down, 0);
  }

  /** The narrow fix-up replaces PF by the parity of the narrow result's low byte. */
  lemma NarrowPack(r: u32, w: Width, cf: nat, af: nat, of: nat)
    requires cf <= 1 && af <= 1 && of <= 1
    ensures PackNarrow(r, w, cf, af, of) == EflagsPack(
      Flags.Flags(cf == 1, Parity8(Unalign(r, w) % 256), af == 1, r == 0, Top(r) == 1, of == 1))
  {
    hide Parity8, FlagsOfWord, Unalign, FlagsPack, EflagsPack;
    var f := Flags.Flags(cf == 1, Parity8(r % 256), af == 1, r == 0, Top(r) == 1, of == 1);
    PackMeaning(r, f);
    WordOfBits(f, false, 0);
    UnalignWord(r);
    ParityField(f, Parity8(Unalign(r, w) % 256));
  }

  lemma ParityField(f: Flags, p: bool)
    ensures EflagsPack(f.(pf := p)) == EflagsPack(f) - 4 * One(f.pf) + 4 * One(p)
  {
  }

  lemma UnalignWord(r: u32)
    ensures Unalign(r, W32) == r
  {
  }

  // ---- pushfd ----

  predicate IsLogic(i: Insn) {
    i.AndTest? || i.OrXor?
  }

  /** When pushfd agrees: after a narrow adc or sbb as the answers do, after bt if the flags bt leaves
      alone are those of a zero, AF included. */
  predicate WordKept(f: Flags, i: Insn) {
    match i
    case Bt(a, b) => f.zf && f.pf && !f.sf && !f.of && !f.af
    case _ => AnswersKept(f, i)
  }

  /** After any other instruction pushfd stores the same word in both runtimes, AF included, up to the
      AF the hardware leaves undefined after a logical operation (the lazy word has 0 there). */
  lemma PushfdAgrees(l: Lazy, f: Flags, i: Insn, precise: bool)
    requires SameCarry(l, f)
    ensures var f' := EagerStep(f, i);
      Eflags(LazyStep(l, i, precise), false) == EflagsPack(if IsLogic(i) then f'.(af := false) else f')
      <==> WordKept(f, i)
  {
    hide And, Xor, AddOf, SubOf, AuxBit, PackNarrow, EflagsPack, SumFlags, DifferenceFlags, LogicFlags,
         Align, FlagsAdc, FlagsSbb, Add32, Sub32, Decide, KeptBits;
    match i {
      case Add(a, b, w) => SumWord(a, b, w, SumFlags(a, b, false, w).cf);
      case Sub(a, b, w) => DifferenceWord(a, b, w, DifferenceFlags(a, b, false, w).cf);
      case AndTest(a, b, w) => LogicWord(a, b, w, f);
      case OrXor(r, w) =>
        LogicWord(r, r, w, f);
        AndSelf(r);
      case Inc(a, w) => SumWord(a, 1, w, f.cf);
      case Dec(a, w) => DifferenceWord(a, 1, w, f.cf);
      case Adc(a, b, w) => AdcWord(f, a, b, w);
      case Sbb(a, b, w) => SbbWord(f, a, b, w);
      case Bt(a, b) => BtWord(f, a, b);
    }
  }

  lemma AdcWord(f: Flags, a: u32, b: u32, w: Width)
    ensures var n := FlagsAdc(Low(a, w), Low(b, w), One(f.cf));
      n < 0x1_0000_0000
      && (KeptBits(n) + 0x202 == EflagsPack(SumFlags(a, b, f.cf, w)) <==> AnswersKept(f, Adc(a, b, w)))
  {
    var n := SumFlags(Low(a, w), Low(b, w), f.cf, W32);
    AdcMeaning(Low(a, w), Low(b, w), f.cf);
    if w == W32 {
      LowIsWord(a);
      LowIsWord(b);
    } else {
      NarrowSum(a, b, f.cf, w);
    }
    hide SumFlags, FlagsAdc, KeptBits, EflagsPack;
    PackedWord(n);
    SamePack(n, SumFlags(a, b, f.cf, w));
  }

  lemma SbbWord(f: Flags, a: u32, b: u32, w: Width)
    ensures var n := FlagsSbb(Low(a, w), Low(b, w), One(f.cf));
      n < 0x1_0000_0000
      && (KeptBits(n) + 0x202 == EflagsPack(DifferenceFlags(a, b, f.cf, w)) <==> AnswersKept(f, Sbb(a, b, w)))
  {
    var n := DifferenceFlags(Low(a, w), Low(b, w), f.cf, W32);
    SbbMeaning(Low(a, w), Low(b, w), f.cf);
    if w == W32 {
      LowIsWord(a);
      LowIsWord(b);
    } else {
      NarrowDifference(a, b, f.cf, w);
    }
    hide DifferenceFlags, FlagsSbb, KeptBits, EflagsPack;
    PackedWord(n);
    SamePack(n, DifferenceFlags(a, b, f.cf, w));
  }

  lemma BtWord(f: Flags, a: u32, b: u32)
    ensures var f' := f.(cf := BitTest(a, b) == 1);
      PackNarrow(0, W32, BitTest(a, b), 0, 0) == EflagsPack(f') <==> f.zf && f.pf && !f.sf && !f.of && !f.af
  {
    hide BitTest, Parity8, EflagsPack;
    ParityOfZero();
    var z := Flags.Flags(BitTest(a, b) == 1, true, false, true, false, false);
    PackMeaning(0, z);
    SamePack(z, f.(cf := BitTest(a, b) == 1));
  }

  /** Different flags are packed differently. */
  lemma SamePack(f: Flags, g: Flags)
    ensures EflagsPack(f) == EflagsPack(g) <==> f == g
  {
    PackUnpack(f);
    PackUnpack(g);
  }

  lemma PackedWord(f: Flags)
    ensures EflagsPack(f) < 0x1_0000_0000 && KeptBits(EflagsPack(f)) + 0x202 == EflagsPack(f)
  {
    hide EflagsPack, KeptBits;
    PackUnpack(f);
    KeptSum(EflagsPack(f), f);
    PackIsSmall(f);
  }

  lemma PackIsSmall(f: Flags)
    ensures EflagsPack(f) < 0x1000 && EflagsPack(f) % 2 == One(f.cf)
  {
  }

  lemma SumWord(a: u32, b: u32, w: Width, cf: bool)
    ensures var x, y := Align(a, w), Align(b, w); var r := Add32(x, y);
      && PackNarrow(r, w, One(cf), AuxBit(Xor(Xor(x, y), r), w), AddOf(x, y, r))
        == EflagsPack(SumFlags(a, b, false, w).(cf := cf))
      && (r < x) == SumFlags(a, b, false, w).cf
  {
    hide And, Xor, AddOf, AuxBit, PackNarrow, EflagsPack, EvenParity, Parity8, Align, Unalign, Top;
    var x, y := Align(a, w), Align(b, w);
    var r, v := Add32(x, y), Sum(a, b, false, w);
    DeriveSumMeaning(a, b, w);
    AlignedSum(a, b, w);
    AlignedAux(a, b, v, w);
    NibbleCarry(a, b, false, w);
    AddOfSigns(x, y, r);
    NarrowPack(r, w, One(cf), AuxBit(Xor(Xor(x, y), r), w), AddOf(x, y, r));
  }

  lemma DifferenceWord(a: u32, b: u32, w: Width, cf: bool)
    ensures var x, y := Align(a, w), Align(b, w); var r := Sub32(x, y);
      && PackNarrow(r, w, One(cf), AuxBit(Xor(Xor(x, y), r), w), SubOf(x, y, r))
        == EflagsPack(DifferenceFlags(a, b, false, w).(cf := cf))
      && (x < y) == DifferenceFlags(a, b, false, w).cf
  {
    hide And, Xor, SubOf, AuxBit, PackNarrow, EflagsPack, EvenParity, Parity8, Align, Unalign, Top;
    var x, y := Align(a, w), Align(b, w);
    var r, v := Sub32(x, y), Difference(a, b, false, w);
    DeriveDifferenceMeaning(a, b, w);
    AlignedDifference(a, b, w);
    AlignedAux(a, b, v, w);
    NibbleBorrow(a, b, false, w);
    SubOfSigns(x, y, r);
    NarrowPack(r, w, One(cf), AuxBit(Xor(Xor(x, y), r), w), SubOf(x, y, r));
  }

  lemma LogicWord(a: u32, b: u32, w: Width, f: Flags)
    ensures PackNarrow(And(Align(a, w), Align(b, w)), w, 0, 0, 0)
      == EflagsPack(LogicFlags(f, And(a, b), w).(af := false))
  {
    hide And, PackNarrow, EflagsPack, EvenParity, Parity8, Align, Unalign, Top;
    DeriveTestMeaning(a, b, w, 0, f);
    NarrowPack(And(Align(a, w), Align(b, w)), w, 0, 0, 0);
  }
}
