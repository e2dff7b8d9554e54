/**
 Unsigned machine words as naturals, with the C bit operators the runtimes use on them. A word of
 n bits is a natural below 2^n; every wrap-around is written out with %.
 */
module Words {

  type u8 = x: int | 0 <= x < 0x100
  type u16 = x: int | 0 <= x < 0x1_0000
  type u32 = x: int | 0 <= x < 0x1_0000_0000

  function Pow2(k: nat): (p: nat)
    ensures p >= 1
  {
    if k == 0 then 1 else 2 * Pow2(k - 1)
  }

  /** Bit k of x. */
  function Bit(x: nat, k: nat): (b: nat)
    ensures b <= 1
  {
    if k == 0 then x % 2 else Bit(x / 2, k - 1)
  }

  /** x & y */
  function And(x: nat, y: nat): (z: nat)
    ensures z <= x && z <= y
  {
    if x == 0 || y == 0 then 0
    else (if x % 2 == 1 && y % 2 == 1 then 1 else 0) + 2 * And(x / 2, y / 2)
  }

  /** x ^ y */
  function Xor(x: nat, y: nat): nat
    decreases x + y
  {
    if x == 0 && y == 0 then 0 else (x % 2 + y % 2) % 2 + 2 * Xor(x / 2, y / 2)
  }

  /** ~x at 32 bits */
  function Not32(x: u32): u32 {
    0xFFFF_FFFF - x
  }

  lemma {:induction false} AndBit(x: nat, y: nat, k: nat)
    ensures Bit(And(x, y), k) == if Bit(x, k) == 1 && Bit(y, k) == 1 then 1 else 0
  {
    if x == 0 || y == 0 {
      ZeroBit(k);
    } else if k > 0 {
      AndBit(x / 2, y / 2, k - 1);
    }
  }

  lemma {:induction false} ZeroBit(k: nat)
    ensures Bit(0, k) == 0
  {
    if k > 0 {
      ZeroBit(k - 1);
    }
  }

  lemma {:induction false} XorBit(x: nat, y: nat, k: nat)
    ensures Bit(Xor(x, y), k) == (Bit(x, k) + Bit(y, k)) % 2
    decreases k
  {
    if x == 0 && y == 0 {
      ZeroBit(k);
    } else if k > 0 {
      XorBit(x / 2, y / 2, k - 1);
    }
  }

  lemma {:induction false} XorBound(x: nat, y: nat, n: nat)
    requires x < Pow2(n) && y < Pow2(n)
    ensures Xor(x, y) < Pow2(n)
    decreases n
  {
    if n > 0 && !(x == 0 && y == 0) {
      XorBound(x / 2, y / 2, n - 1);
    }
  }

  lemma {:induction false} NotBit(x: nat, n: nat, k: nat)
    requires x < Pow2(n) && k < n
    ensures Bit(Pow2(n) - 1 - x, k) == 1 - Bit(x, k)
    decreases k
  {
    if k > 0 {
      assert (Pow2(n) - 1 - x) / 2 == Pow2(n - 1) - 1 - x / 2;
      NotBit(x / 2, n - 1, k - 1);
    }
  }

  /** Testing one bit: x & (1 << k). */
  lemma {:induction false} AndPow2(x: nat, k: nat)
    ensures And(x, Pow2(k)) == Bit(x, k) * Pow2(k)
  {
    if x == 0 {
      ZeroBit(k);
    } else if k == 0 {
      assert And(x / 2, 0) == 0;
    } else {
      AndPow2(x / 2, k - 1);
      AndEven(x, Pow2(k - 1));
      hide And;
      Doubled(Bit(x, k), Pow2(k - 1));
    }
  }

  lemma AndEven(x: nat, y: nat)
    ensures And(x, 2 * y) == 2 * And(x / 2, y)
  {
    AndStep(x, 2 * y);
    hide And;
  }

  lemma AndDouble(x: nat, y: nat)
    ensures And(2 * x, 2 * y) == 2 * And(x, y)
  {
    AndEven(2 * x, y);
  }

  /** Left-aligning both operands left-aligns their conjunction. */
  lemma {:induction false} AndShift(x: nat, y: nat, k: nat)
    ensures And(x * Pow2(k), y * Pow2(k)) == And(x, y) * Pow2(k)
  {
    if k > 0 {
      var p := Pow2(k - 1);
      AndShift(x, y, k - 1);
      AndDouble(x * p, y * p);
      Doubled(x, p);
      Doubled(y, p);
      Doubled(And(x, y), p);
    }
  }

  lemma Doubled(x: nat, p: nat)
    ensures x * (2 * p) == 2 * (x * p)
    ensures x >= 0 && p >= 0 ==> x * p >= 0
  {
  }

  lemma {:induction false} AndSelf(x: nat)
    ensures And(x, x) == x
  {
    if x > 0 {
      AndSelf(x / 2);
    }
  }

  /** The low n bits of a conjunction are the conjunction of the low n bits. */
  lemma {:induction false} AndLow(x: nat, y: nat, n: nat)
    ensures And(x, y) % Pow2(n) == And(x % Pow2(n), y % Pow2(n))
    decreases n
  {
    if n > 0 {
      LowHalves(x, n);
      LowHalves(y, n);
      LowHalves(And(x, y), n);
      AndLow(x / 2, y / 2, n - 1);
      AndStep(x, y);
      AndStep(x % Pow2(n), y % Pow2(n));
    }
  }

  lemma LowHalves(x: nat, n: nat)
    requires n > 0
    ensures (x % Pow2(n)) % 2 == x % 2 && (x % Pow2(n)) / 2 == (x / 2) % Pow2(n - 1)
  {
    LowBits(x, n);
  }

  /** The defining equation of And, without its zero test. */
  lemma AndStep(x: nat, y: nat)
    ensures And(x, y) % 2 == (if x % 2 == 1 && y % 2 == 1 then 1 else 0)
    ensures And(x, y) / 2 == And(x / 2, y / 2)
  {
  }

  lemma LowBits(x: nat, n: nat)
    requires n > 0
    ensures x % Pow2(n) == x % 2 + 2 * ((x / 2) % Pow2(n - 1))
  {
    var p := Pow2(n - 1);
    var q := (x / 2) / p;
    assert x / 2 == q * p + (x / 2) % p;
    assert x == q * Pow2(n) + (x % 2 + 2 * ((x / 2) % p)) by {
      assert q * Pow2(n) == 2 * (q * p);
    }
    Remainder(x, Pow2(n), q, x % 2 + 2 * ((x / 2) % p));
  }

  lemma Remainder(x: int, m: int, q: int, r: int)
    requires m > 0 && x == q * m + r && 0 <= r < m
    ensures x % m == r && x / m == q
  {
    var d := x / m - q;
    assert d * m == r - x % m;
    assert d >= 1 ==> d * m >= m;
    assert d <= -1 ==> d * m <= -m;
  }

  /** x >> k */
  function Shr(x: nat, k: nat): nat {
    if k == 0 then x else Shr(x / 2, k - 1)
  }

  /** v ^ (v >> n) */
  function Fold(v: nat, n: nat): nat {
    Xor(v, Shr(v, n))
  }

  /** The xor-fold every runtime uses for PF: set when the byte has an even number of ones. */
  function Parity8(v: u8): bool {
    Fold(Fold(Fold(v, 4), 2), 1) % 2 == 0
  }

  /** How many of the low n bits are ones. */
  function Ones(v: nat, n: nat): nat {
    if n == 0 then 0 else v % 2 + Ones(v / 2, n - 1)
  }

  lemma Parity8IsEvenOnes(v: u8)
    ensures Parity8(v) <==> Ones(v, 8) % 2 == 0
  {
    FoldsKeepParity(v, 4, 2, 1);
  }

  lemma FoldsKeepParity(v: nat, a: nat, b: nat, c: nat)
    requires a == 2 * b && b == 2 * c && c == 1
    ensures Fold(Fold(Fold(v, a), b), c) % 2 == Ones(v, 2 * a) % 2
  {
    var v1 := Fold(v, a);
    var v2 := Fold(v1, b);
    OnesFold(v, a);
    OnesFold(v1, b);
    OnesFold(v2, c);
    assert Ones(Fold(v2, c), c) == Fold(v2, c) % 2;
  }

  /** Folding a word's halves together keeps the parity of its ones. */
  lemma OnesFold(v: nat, n: nat)
    ensures Ones(Fold(v, n), n) % 2 == Ones(v, 2 * n) % 2
  {
    OnesXor(v, Shr(v, n), n);
    OnesSplit(v, n, n);
  }

  lemma {:induction false} OnesXor(x: nat, y: nat, n: nat)
    ensures Ones(Xor(x, y), n) % 2 == (Ones(x, n) + Ones(y, n)) % 2
    decreases n
  {
    if n > 0 {
      XorStep(x, y);
      OnesXor(x / 2, y / 2, n - 1);
      var z := Xor(x, y);
      assert Ones(z, n) == z % 2 + Ones(z / 2, n - 1);
      ParitySum(x % 2, y % 2, z % 2, Ones(x / 2, n - 1), Ones(y / 2, n - 1), Ones(z / 2, n - 1));
    }
  }

  lemma ParitySum(x: nat, y: nat, z: nat, xs: nat, ys: nat, zs: nat)
    requires z % 2 == (x + y) % 2 && zs % 2 == (xs + ys) % 2
    ensures (z + zs) % 2 == (x + xs + y + ys) % 2
  {
  }

  /** The defining equation of Xor, without its zero test. */
  lemma XorStep(x: nat, y: nat)
    ensures Xor(x, y) % 2 == (x % 2 + y % 2) % 2
    ensures Xor(x, y) / 2 == Xor(x / 2, y / 2)
  {
  }

  lemma {:induction false} OnesSplit(v: nat, a: nat, b: nat)
    ensures Ones(v, a + b) == Ones(v, a) + Ones(Shr(v, a), b)
    decreases a
  {
    if a > 0 {
      OnesSplit(v / 2, a - 1, b);
    }
  }

  lemma {:induction false} ShiftBit(x: nat, n: nat, k: nat)
    ensures Bit(Shr(x, n), k) == Bit(x, n + k)
    decreases n
  {
    if n > 0 {
      ShiftBit(x / 2, n - 1, k);
    }
  }

  lemma {:induction false} ShrDivides(x: nat, n: nat, p: nat)
    requires p == Pow2(n)
    ensures Shr(x, n) == x / p
    decreases n
  {
    if n > 0 {
      ShrDivides(x / 2, n - 1, p / 2);
      DivDiv(x, p / 2);
    }
  }

  lemma DivDiv(x: nat, p: nat)
    requires p > 0
    ensures x / (2 * p) == (x / 2) / p
  {
    var q, r := (x / 2) / p, (x / 2) % p;
    assert x == q * (2 * p) + (2 * r + x % 2) by {
      assert x / 2 == q * p + r;
      assert q * (2 * p) == 2 * (q * p);
    }
    Remainder(x, 2 * p, q, 2 * r + x % 2);
  }

  /** The top bit of a word is its sign. */
  lemma TopBit(x: nat, n: nat)
    requires n > 0 && x < Pow2(n)
    ensures Bit(x, n - 1) == if x >= Pow2(n - 1) then 1 else 0
  {
    var p := Pow2(n - 1);
    ShrDivides(x, n - 1, p);
    ShiftBit(x, n - 1, 0);
    if x >= p {
      Remainder(x, p, 1, x - p);
    } else {
      Remainder(x, p, 0, x);
    }
  }
}
