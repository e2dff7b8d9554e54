/**
 The x86 status flags, as both 32-bit runtimes see them: six flags, the sixteen conditions read off
 them, and the meaning Intel gives each flag (section 3.4.3.1 of the Intel SDM, Volume 1), written
 over unbounded integers. The runtimes compute the same flags with bit tricks on 32-bit words;
 those are in EagerFlags and LazyFlags, and the lemmas at the end of this module relate the two.
 */
module FlagWords {
  import opened Words

  datatype Flags = Flags(cf: bool, pf: bool, af: bool, zf: bool, sf: bool, of: bool)

  datatype Width = W8 | W16 | W32

  datatype Condition = E | NE | S | NS | G | GE | L | LE | A | AE | B | BE | O | NO | P | NP

  function Bits(w: Width): (n: nat)
    ensures 8 <= n <= 32
  {
    match w
    case W8 => 8
    case W16 => 16
    case W32 => 32
  }

  /** 2 to the width. */
  function Modulus(w: Width): (m: nat)
    ensures m >= 256
  {
    match w
    case W8 => 0x100
    case W16 => 0x1_0000
    case W32 => 0x1_0000_0000
  }

  function Sign(w: Width): nat {
    match w
    case W8 => 0x80
    case W16 => 0x8000
    case W32 => 0x8000_0000
  }

  /** The low w bits of a number: v & mask_sz(w) once v has wrapped. */
  function Low(v: int, w: Width): (r: u32)
    ensures r < Modulus(w)
  {
    match w
    case W8 => v % 0x100
    case W16 => v % 0x1_0000
    case W32 => v % 0x1_0000_0000
  }

  /** The low w bits of a, as an unsigned number. */
  function Unsigned(a: u32, w: Width): u32 {
    Low(a, w)
  }

  /** The low w bits of a, as a two's complement number. */
  function Signed(a: u32, w: Width): int {
    if Unsigned(a, w) < Sign(w) then Unsigned(a, w) else Unsigned(a, w) - Modulus(w)
  }

  function One(v: bool): nat {
    if v then 1 else 0
  }

  predicate Overflows(v: int, w: Width) {
    v < -(Sign(w) as int) || v >= Sign(w)
  }

  function Sum(a: u32, b: u32, c: bool, w: Width): u32 {
    Low(Unsigned(a, w) + Unsigned(b, w) + One(c), w)
  }

  function Difference(a: u32, b: u32, c: bool, w: Width): u32 {
    Low(Unsigned(a, w) - Unsigned(b, w) - One(c), w)
  }

  /** PF looks at the low byte only, whatever the width. */
  function EvenParity(r: u32): bool {
    Ones(r % 256, 8) % 2 == 0
  }

  predicate SumOverflows(a: u32, b: u32, c: bool, w: Width) {
    Overflows(Signed(a, w) + Signed(b, w) + One(c), w)
  }

  predicate DifferenceOverflows(a: u32, b: u32, c: bool, w: Width) {
    Overflows(Signed(a, w) - Signed(b, w) - One(c), w)
  }

  predicate NibbleCarries(a: u32, b: u32, c: bool) {
    a % 16 + b % 16 + One(c) >= 16
  }

  predicate NibbleBorrows(a: u32, b: u32, c: bool) {
    a % 16 < b % 16 + One(c)
  }

  /** What an addition a + b + c at width w leaves in the flags. */
  function SumFlags(a: u32, b: u32, c: bool, w: Width): Flags {
    var r := Sum(a, b, c, w);
    Flags(Unsigned(a, w) + Unsigned(b, w) + One(c) >= Modulus(w), EvenParity(r), NibbleCarries(a, b, c),
          r == 0, r >= Sign(w), SumOverflows(a, b, c, w))
  }

  /** What a subtraction a - b - c at width w leaves in the flags. */
  function DifferenceFlags(a: u32, b: u32, c: bool, w: Width): Flags {
    var r := Difference(a, b, c, w);
    Flags(Unsigned(a, w) < Unsigned(b, w) + One(c), EvenParity(r), NibbleBorrows(a, b, c),
          r == 0, r >= Sign(w), DifferenceOverflows(a, b, c, w))
  }

  /** What and/or/xor/test leave: CF and OF cleared, AF as it was. */
  function LogicFlags(before: Flags, r: u32, w: Width): Flags {
    var v := Unsigned(r, w);
    Flags(false, EvenParity(v), before.af, v == 0, v >= Sign(w), false)
  }

  /** The conditions as functions of the flags. */
  function Decide(f: Flags, cc: Condition): bool {
    match cc
    case E => f.zf
    case NE => !f.zf
    case S => f.sf
    case NS => !f.sf
    case G => !f.zf && f.sf == f.of
    case GE => f.sf == f.of
    case L => f.sf != f.of
    case LE => f.zf || f.sf != f.of
    case A => !f.cf && !f.zf
    case AE => !f.cf
    case B => f.cf
    case BE => f.cf || f.zf
    case O => f.of
    case NO => !f.of
    case P => f.pf
    case NP => !f.pf
  }

  /** Two flag sets answer every condition alike exactly when they agree on the five flags the
      conditions read. */
  lemma SameConditions(f: Flags, g: Flags)
    ensures (forall cc: Condition :: Decide(f, cc) == Decide(g, cc))
       <==> f.cf == g.cf && f.pf == g.pf && f.zf == g.zf && f.sf == g.sf && f.of == g.of
  {
    if forall cc: Condition :: Decide(f, cc) == Decide(g, cc) {
      assert Decide(f, B) == Decide(g, B);
      assert Decide(f, P) == Decide(g, P);
      assert Decide(f, E) == Decide(g, E);
      assert Decide(f, S) == Decide(g, S);
      assert Decide(f, O) == Decide(g, O);
    }
  }

  /** After `cmp a, b` the sixteen conditions are what their names say: comparisons of a with b, unsigned
      or signed, and for the rest the result's sign and parity and whether the signed difference fits. */
  lemma CompareConditions(a: u32, b: u32, w: Width)
    ensures var f := DifferenceFlags(a, b, false, w);
      && (Decide(f, E) <==> Unsigned(a, w) == Unsigned(b, w))
      && (Decide(f, B) <==> Unsigned(a, w) < Unsigned(b, w))
      && (Decide(f, A) <==> Unsigned(a, w) > Unsigned(b, w))
      && (Decide(f, L) <==> Signed(a, w) < Signed(b, w))
      && (Decide(f, G) <==> Signed(a, w) > Signed(b, w))
      && (Decide(f, LE) <==> Signed(a, w) <= Signed(b, w))
      && (Decide(f, S) <==> Difference(a, b, false, w) >= Sign(w))
      && (Decide(f, O) <==> !(-(Sign(w) as int) <= Signed(a, w) - Signed(b, w) < Sign(w)))
      && (Decide(f, P) <==> Ones(Difference(a, b, false, w) % 256, 8) % 2 == 0)
      && Decide(f, NE) == !Decide(f, E) && Decide(f, AE) == !Decide(f, B) && Decide(f, BE) == !Decide(f, A)
      && Decide(f, GE) == !Decide(f, L) && Decide(f, NS) == !Decide(f, S) && Decide(f, NO) == !Decide(f, O)
      && Decide(f, NP) == !Decide(f, P)
  {
    DifferenceCases(a, b, false, w);
    hide Ones;
  }

  /** A difference wraps at most once, and Difference has no other multiple of the modulus. */
  lemma DifferenceCases(a: u32, b: u32, c: bool, w: Width)
    ensures var d := Unsigned(a, w) - Unsigned(b, w) - One(c);
      Difference(a, b, c, w) == if d < 0 then d + Modulus(w) else d
    ensures Modulus(w) == 2 * Sign(w)
  {
  }

  lemma SumCases(a: u32, b: u32, c: bool, w: Width)
    ensures var d := Unsigned(a, w) + Unsigned(b, w) + One(c);
      Sum(a, b, c, w) == if d >= Modulus(w) then d - Modulus(w) else d
    ensures Modulus(w) == 2 * Sign(w)
  {
  }

  // ---- the bit tricks, read as arithmetic ----

  lemma WidthBits(w: Width)
    ensures Pow2(Bits(w)) == Modulus(w) && Pow2(Bits(w) - 1) == Sign(w)
  {
    assert Pow2(8) == 256;
    Pow2Add(8, 8);
    Pow2Add(16, 16);
    match w
    case W8 =>
    case W16 => assert Pow2(16) == 2 * Pow2(15);
    case W32 => assert Pow2(32) == 2 * Pow2(31);
  }

  lemma {:induction false} Pow2Add(a: nat, b: nat)
    ensures Pow2(a + b) == Pow2(a) * Pow2(b)
  {
    if a > 0 {
      Pow2Add(a - 1, b);
    }
  }

  /** (x & s) != 0 for the sign mask s. */
  lemma SignTest(x: nat, w: Width)
    requires x < Modulus(w)
    ensures And(x, Sign(w)) != 0 <==> x >= Sign(w)
  {
    hide And, Bit, Pow2;
    WidthBits(w);
    AndPow2(x, Bits(w) - 1);
    TopBit(x, Bits(w));
  }

  lemma SignOf(x: nat, w: Width)
    requires x < Modulus(w)
    ensures Bit(x, Bits(w) - 1) == One(x >= Sign(w))
  {
    WidthBits(w);
    TopBit(x, Bits(w));
  }

  /** The top bit of (a ^ b) & (a ^ r). */
  lemma UnlikeSigns(a: nat, b: nat, r: nat, w: Width)
    requires a < Modulus(w) && b < Modulus(w) && r < Modulus(w)
    ensures var s := Sign(w);
      Bit(And(Xor(a, b), Xor(a, r)), Bits(w) - 1)
        == One((a >= s) != (b >= s) && (a >= s) != (r >= s))
  {
    hide And, Xor;
    var k := Bits(w) - 1;
    SignOf(a, w);
    SignOf(b, w);
    SignOf(r, w);
    XorBit(a, b, k);
    XorBit(a, r, k);
    AndBit(Xor(a, b), Xor(a, r), k);
  }

  lemma Xor32(a: nat, b: nat)
    requires a < Modulus(W32) && b < Modulus(W32)
    ensures Xor(a, b) < 0x1_0000_0000
  {
    WidthBits(W32);
    XorBound(a, b, Bits(W32));
  }

  function Xor32Of(a: u32, b: u32): u32 {
    Xor32(a, b);
    Xor(a, b)
  }

  /** The top bit of ~(a ^ b) & (a ^ r). */
  lemma LikeSigns(a: u32, b: u32, r: u32, w: Width)
    requires a < Modulus(w) && b < Modulus(w) && r < Modulus(w)
    ensures var s := Sign(w);
      Bit(And(Not32(Xor32Of(a, b)), Xor(a, r)), Bits(w) - 1)
        == One((a >= s) == (b >= s) && (a >= s) != (r >= s))
  {
    hide And, Xor, Bit, Pow2;
    var k := Bits(w) - 1;
    SignOf(a, w);
    SignOf(b, w);
    SignOf(r, w);
    XorBit(a, b, k);
    XorBit(a, r, k);
    WidthBits(W32);
    NotBit(Xor32Of(a, b), Bits(W32), k);
    AndBit(Not32(Xor32Of(a, b)), Xor(a, r), k);
  }

  /** (x & s) != 0 reads the top bit of any x, however wide. */
  lemma SignMask(x: nat, w: Width)
    ensures And(x, Sign(w)) != 0 <==> Bit(x, Bits(w) - 1) == 1
  {
    hide And, Bit, Pow2;
    WidthBits(w);
    AndPow2(x, Bits(w) - 1);
  }

  lemma BitIsShift(x: nat, k: nat)
    ensures Bit(x, k) == (x / Pow2(k)) % 2
  {
    ShrDivides(x, k, Pow2(k));
    ShiftBit(x, k, 0);
  }

  /** Bit 4 of a ^ b ^ r, by shifting or by masking. */
  lemma Bit4OfXor(a: nat, b: nat, r: nat)
    ensures Xor(Xor(a, b), r) / 16 % 2 == (a / 16 % 2 + b / 16 % 2 + r / 16 % 2) % 2
    ensures And(Xor(Xor(a, b), r), 0x10) != 0 <==> Xor(Xor(a, b), r) / 16 % 2 == 1
  {
    ShiftedXor3(a, b, r, 4, 16);
  }

  lemma ShiftedXor3(a: nat, b: nat, r: nat, k: nat, p: nat)
    requires p == Pow2(k)
    ensures Xor(Xor(a, b), r) / p % 2 == (a / p % 2 + b / p % 2 + r / p % 2) % 2
    ensures And(Xor(Xor(a, b), r), p) != 0 <==> Xor(Xor(a, b), r) / p % 2 == 1
  {
    BitIsShift(a, k);
    BitIsShift(b, k);
    BitIsShift(r, k);
    BitIsShift(Xor(Xor(a, b), r), k);
    BitOfXor3(a, b, r, k);
    AndPow2(Xor(Xor(a, b), r), k);
  }

  lemma BitOfXor3(a: nat, b: nat, r: nat, k: nat)
    ensures Bit(Xor(Xor(a, b), r), k) == (Bit(a, k) + Bit(b, k) + Bit(r, k)) % 2
  {
    hide Xor, Bit;
    XorBit(Xor(a, b), r, k);
    XorBit(a, b, k);
  }

  /** Bit 4 of a ^ b ^ r is the carry out of bit 3. */
  lemma NibbleCarry(a: u32, b: u32, c: bool, w: Width)
    ensures (Unsigned(a, w) / 16 % 2 + Unsigned(b, w) / 16 % 2 + Sum(a, b, c, w) / 16 % 2) % 2
      == One(NibbleCarries(a, b, c))
  {
    hide Unsigned, Sum, Low, Modulus, Sign;
    SumCases(a, b, c, w);
    LowNibble(a, w);
    LowNibble(b, w);
    var x, y := Unsigned(a, w), Unsigned(b, w);
    AddNibbles(x, y, One(c));
    DropModulus(x + y + One(c), w);
    Parity3(x / 16, y / 16, (x + y + One(c)) / 16);
  }

  lemma NibbleBorrow(a: u32, b: u32, c: bool, w: Width)
    ensures (Unsigned(a, w) / 16 % 2 + Unsigned(b, w) / 16 % 2 + Difference(a, b, c, w) / 16 % 2) % 2
      == One(NibbleBorrows(a, b, c))
  {
    hide Unsigned, Difference, Low, Modulus, Sign;
    DifferenceCases(a, b, c, w);
    LowNibble(a, w);
    LowNibble(b, w);
    var x, y, r := Unsigned(a, w), Unsigned(b, w), Difference(a, b, c, w);
    AddNibbles(r, y, One(c));
    DropModulus(r + y + One(c), w);
    Parity3(r / 16, y / 16, (r + y + One(c)) / 16);
  }

  lemma Parity3(p: nat, q: nat, r: nat)
    requires r == p + q || r == p + q + 1
    ensures (p % 2 + q % 2 + r % 2) % 2 == r - p - q
  {
  }

  /** The runtimes' parity fold is PF. */
  lemma ParityFold(r: u32)
    ensures Parity8(r % 256) == EvenParity(r)
  {
    Parity8IsEvenOnes(r % 256);
  }

  lemma LowNibble(a: u32, w: Width)
    ensures Unsigned(a, w) % 16 == a % 16
  {
    match w
    case W8 => Remainder(a, 16, 16 * (a / 0x100) + a % 0x100 / 16, a % 0x100 % 16);
    case W16 => Remainder(a, 16, 0x1000 * (a / 0x1_0000) + a % 0x1_0000 / 16, a % 0x1_0000 % 16);
    case W32 =>
  }

  lemma AddNibbles(x: nat, y: nat, c: nat)
    requires c <= 1
    ensures (x + y + c) / 16 == x / 16 + y / 16 + if x % 16 + y % 16 + c >= 16 then 1 else 0
    ensures x % 16 + y % 16 + c >= 16 <==> (x + y + c) % 16 < y % 16 + c
  {
  }

  lemma DropModulus(d: nat, w: Width)
    ensures d >= Modulus(w) ==>
      (d - Modulus(w)) / 16 % 2 == d / 16 % 2 && (d - Modulus(w)) % 16 == d % 16
  {
  }

  /** Overflow of a sum is: equal signs in, the other sign out. */
  lemma SumOverflow(a: u32, b: u32, c: bool, w: Width)
    ensures var s := Sign(w); var x, y, r := Unsigned(a, w), Unsigned(b, w), Sum(a, b, c, w);
      SumOverflows(a, b, c, w) <==> ((x >= s) == (y >= s) && (x >= s) != (r >= s))
  {
    SumCases(a, b, c, w);
  }

  lemma DifferenceOverflow(a: u32, b: u32, c: bool, w: Width)
    ensures var s := Sign(w); var x, y, r := Unsigned(a, w), Unsigned(b, w), Difference(a, b, c, w);
      DifferenceOverflows(a, b, c, w) <==> ((x >= s) != (y >= s) && (x >= s) != (r >= s))
  {
    DifferenceCases(a, b, c, w);
  }
}
