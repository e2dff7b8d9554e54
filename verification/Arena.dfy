/**
 The DOS heaps (runtime/dos32/dos32.c): blocks of guest memory, kept in a list sorted by address and
 handed out first fit. Sizes and addresses are 32-bit; a request so large that rounding it wraps is
 rounded to what is left.
 */
module Arena {
  import opened Words

  datatype Block = Block(base: nat, size: nat) {
    function End(): nat { base + size }
  }

  const MAX_BLOCKS := 4096
  const WRAP := 0x1_0000_0000

  // ---- rounding ----

  /** An alignment the heaps are called with: a power of two up to a page. */
  predicate Alignment(align: nat, k: nat) {
    align == Pow2(k) && k <= 12
  }

  /** (x + align - 1) & ~(align - 1), in 32 bits. */
  function Up(x: u32, align: u32): nat
    requires align > 0
  {
    And((x as int + align as int - 1) % WRAP, Not32(align as int - 1))
  }

  /** The size a request is given. */
  function Rounded(size: u32, align: u32): nat
    requires align > 0
  {
    if Up(size, align) == 0 then align else Up(size, align)
  }

  predicate Aligned(p: nat, align: nat)
    requires align > 0
  {
    p % align == 0
  }

  lemma {:induction false} MaskAll(x: nat, n: nat)
    requires x < Pow2(n)
    ensures And(x, Pow2(n) - 1) == x
    decreases n
  {
    if n > 0 {
      hide And;
      MaskAll(x / 2, n - 1);
      AndStep(x, Pow2(n) - 1);
    }
  }

  lemma {:induction false} MaskClears(x: nat, n: nat, k: nat)
    requires x < Pow2(n) && k <= n
    ensures Pow2(k) <= Pow2(n)
    ensures And(x, Pow2(n) - Pow2(k)) == x - x % Pow2(k)
    decreases n
  {
    hide And, Pow2;
    Pow2Mono(k, n);
    if k == 0 {
      Powers(0);
      MaskAll(x, n);
      Remainder(x, 1, x, 0);
    } else {
      var p, q := Pow2(k - 1), Pow2(n - 1);
      Powers(k);
      Powers(n);
      assert x / 2 < q;
      MaskClears(x / 2, n - 1, k - 1);
      var low := x / 2 % p;
      LowBits(x, k);
      assert x % Pow2(k) == x % 2 + 2 * low;
      MaskHigher(x, p, q, low);
    }
  }

  lemma Powers(n: nat)
    ensures Pow2(n) == if n == 0 then 1 else 2 * Pow2(n - 1)
  {
  }

  /** A mask one bit higher clears one bit more. */
  lemma MaskHigher(x: nat, p: nat, q: nat, low: nat)
    requires p <= q && And(x / 2, q - p) == x / 2 - low
    ensures And(x, 2 * q - 2 * p) == x - (x % 2 + 2 * low)
  {
    hide And;
    AndEven(x, q - p);
    assert 2 * (q - p) == 2 * q - 2 * p;
  }

  lemma Pow2Small(k: nat)
    requires k <= 12
    ensures Pow2(k) <= 4096 && Pow2(32) == WRAP
  {
    Pow2Mono(k, 12);
    assert Pow2(8) == 256;
    assert Pow2(12) == 16 * Pow2(8);
    assert Pow2(16) == 16 * Pow2(12);
    assert Pow2(24) == 256 * Pow2(16);
    assert Pow2(32) == 256 * Pow2(24);
  }

  lemma Pow2Mono(a: nat, b: nat)
    requires a <= b
    ensures Pow2(a) <= Pow2(b)
  {
  }

  /** Without wrap-around, rounding gives the least multiple that is not below. */
  lemma {:induction false} UpIsLeast(x: u32, align: u32, k: nat)
    requires Alignment(align, k) && x as int + align as int <= WRAP
    ensures Aligned(Up(x, align), align) && x <= Up(x, align) < x as int + align as int
    ensures forall q: nat :: q >= x && Aligned(q, align) ==> q >= Up(x, align)
  {
    hide And, Pow2;
    var y: nat := x as int + align as int - 1;
    Pow2Small(k);
    Remainder(y, WRAP, 0, y);
    MaskClears(y, 32, k);
    assert Up(x, align) == y - y % align;
    hide Up;
    LeastMultiple(x, align);
  }

  lemma LeastMultiple(x: nat, a: nat)
    requires a > 0
    ensures var y := x + a - 1; var u := y - y % a; u % a == 0 && x <= u < x + a
    ensures forall q: nat :: q >= x && q % a == 0 ==> q >= (x + a - 1) - (x + a - 1) % a
  {
    var y := x + a - 1;
    var n, r := y / a, y % a;
    assert y == n * a + r;
    Remainder(n * a, a, n, 0);
    forall q: nat | q >= x && q % a == 0
      ensures q >= y - r
    {
      assert q == (q / a) * a;
      assert (n - 1) * a == n * a - a;
      Apart(q / a, n, a);
      Times(n, q / a, a);
    }
  }

  lemma Apart(m: nat, n: nat, a: nat)
    requires m * a > (n - 1) * a
    ensures m >= n
  {
    if m < n {
      Times(m, n - 1, a);
    }
  }

  lemma Times(m: nat, n: nat, a: nat)
    requires m <= n
    ensures m * a <= n * a
  {
  }

  /** A request gets at least what it asks for exactly when rounding it up does not wrap; then it gets
      less than one alignment too much. */
  lemma {:induction false} RoundedCovers(size: u32, align: u32, k: nat)
    requires Alignment(align, k) && size > 0
    ensures Rounded(size, align) >= size <==> size as int + align as int <= WRAP
    ensures size as int + align as int <= WRAP ==> Rounded(size, align) < size as int + align as int
  {
    Pow2Small(k);
    if size as int + align as int <= WRAP {
      UpIsLeast(size, align, k);
    } else {
      var y: nat := (size as int + align as int - 1) % WRAP;
      assert y == size as int + align as int - 1 - WRAP < align;
      MaskClears(y, 32, k);
      Remainder(y, align, 0, y);
    }
  }

  /** A request for nothing gets one alignment. */
  lemma NothingAsked(align: u32, k: nat)
    requires Alignment(align, k)
    ensures Rounded(0, align) == align
  {
    hide And, Pow2;
    Pow2Small(k);
    UpIsLeast(0, align, k);
    hide Up;
    Remainder(0, align, 0, 0);
  }

  lemma RoundedSmall(size: u32, align: u32, k: nat)
    requires Alignment(align, k)
    ensures 0 < Rounded(size, align) < WRAP
  {
    Pow2Small(k);
    MaskClears((size as int + align as int - 1) % WRAP, 32, k);
  }

  /** Rounding a rounded size changes nothing. */
  lemma RoundedAgain(size: u32, align: u32, k: nat)
    requires Alignment(align, k) && Up(size, align) > 0
    ensures Up(size, align) < WRAP && Rounded(Up(size, align), align) == Up(size, align)
  {
    hide And, Pow2;
    Pow2Small(k);
    var y: nat := (size as int + align as int - 1) % WRAP;
    var u := And(y, Not32(align as int - 1));
    assert u <= WRAP - align;
    MaskClears(y, 32, k);
    Multiple(y, align);
    assert u == Up(size, align);
    hide Up;
    UpIsLeast(u, align, k);
    assert Aligned(u, align);
  }

  lemma Multiple(y: nat, a: nat)
    requires a > 0
    ensures (y - y % a) % a == 0
  {
    Remainder(y - y % a, a, y / a, 0);
  }

  // ---- the list of blocks ----

  /** Blocks in address order, none empty, none overlapping, all inside [lo, hi). */
  predicate Laid(bs: seq<Block>, lo: nat, hi: nat) {
    && (forall i :: 0 <= i < |bs| ==> bs[i].size > 0 && lo <= bs[i].base && bs[i].End() <= hi)
    && (forall i, j :: 0 <= i < j < |bs| ==> bs[i].End() <= bs[j].base)
  }

  /** [p, p + size) is inside [lo, hi) and clear of every block. */
  predicate Clear(bs: seq<Block>, lo: nat, hi: nat, p: nat, size: nat) {
    lo <= p && p + size <= hi && forall b :: b in bs ==> p + size <= b.base || b.End() <= p
  }

  /** A place a block of this size and alignment can have. */
  predicate Place(bs: seq<Block>, lo: nat, hi: nat, p: nat, size: nat, align: nat)
    requires align > 0
  {
    Aligned(p, align) && Clear(bs, lo, hi, p, size)
  }

  /** The lowest address of the gap before block i, and its end. */
  function Low(bs: seq<Block>, lo: nat, i: nat): nat
    requires i <= |bs|
  {
    if i == 0 then lo else bs[i - 1].End()
  }

  function High(bs: seq<Block>, hi: nat, i: nat): nat
    requires i <= |bs|
  {
    if i == |bs| then hi else bs[i].base
  }

  /** A free range lies in one gap. */
  lemma {:induction false} FreeIsInGap(bs: seq<Block>, lo: nat, hi: nat, p: nat, size: nat) returns (i: nat)
    requires Laid(bs, lo, hi) && Clear(bs, lo, hi, p, size)
    ensures i <= |bs| && Low(bs, lo, i) <= p && p + size <= High(bs, hi, i)
  {
    i := 0;
    while i < |bs| && bs[i].End() <= p
      invariant i <= |bs| && Low(bs, lo, i) <= p
    {
      i := i + 1;
    }
    if i < |bs| {
      assert bs[i] in bs;
    }
  }

  /** A range in a gap is free, and a block put there keeps the list in order. */
  lemma GapIsFree(bs: seq<Block>, lo: nat, hi: nat, i: nat, p: nat, size: nat)
    requires Laid(bs, lo, hi) && i <= |bs| && size > 0 && lo <= hi
    requires Low(bs, lo, i) <= p && p + size <= High(bs, hi, i)
    ensures Clear(bs, lo, hi, p, size)
    ensures Laid(Insert(bs, i, Block(p, size)), lo, hi)
  {
    hide Low, High;
    Around(bs, lo, hi, i, p, size);
    var b := Block(p, size);
    var after := Insert(bs, i, b);
    assert forall j :: 0 <= j < |after| ==> after[j] == if j < i then bs[j] else if j == i then b else bs[j - 1];
    hide Insert;
    forall x, y | 0 <= x < y < |after|
      ensures after[x].End() <= after[y].base
    {
    }
  }

  lemma Around(bs: seq<Block>, lo: nat, hi: nat, i: nat, p: nat, size: nat)
    requires Laid(bs, lo, hi) && i <= |bs| && size > 0 && lo <= hi
    requires Low(bs, lo, i) <= p && p + size <= High(bs, hi, i)
    ensures lo <= p && p + size <= hi
    ensures forall j :: 0 <= j < i ==> bs[j].End() <= p
    ensures forall j :: i <= j < |bs| ==> p + size <= bs[j].base
  {
  }

  function Insert(bs: seq<Block>, i: nat, b: Block): seq<Block>
    requires i <= |bs|
  {
    bs[..i] + [b] + bs[i..]
  }

  function Remove(bs: seq<Block>, i: nat): seq<Block>
    requires i < |bs|
  {
    bs[..i] + bs[i + 1..]
  }

  /** If no gap before the i-th has an aligned place that fits, no place is below the i-th gap's first
      aligned address. */
  lemma {:induction false} NoneBelow(bs: seq<Block>, lo: nat, hi: nat, i: nat, size: nat, align: u32, k: nat, p: nat)
    requires Laid(bs, lo, hi) && lo <= hi <= WRAP - 4096 && Alignment(align, k) && i <= |bs| + 1
    requires forall j :: 0 <= j < i ==> !Fits(bs, lo, hi, j, size, align)
    requires Place(bs, lo, hi, p, size, align)
    ensures i <= |bs| && Up(Low(bs, lo, i), align) <= p
  {
    hide Up, Pow2;
    Pow2Small(k);
    var g := FreeIsInGap(bs, lo, hi, p, size);
    UpIsLeast(Low(bs, lo, g), align, k);
    assert Fits(bs, lo, hi, g, size, align);
    UpIsLeast(Low(bs, lo, i), align, k);
  }

  predicate Fits(bs: seq<Block>, lo: nat, hi: nat, j: nat, size: nat, align: u32)
    requires align > 0
  {
    j <= |bs| && Low(bs, lo, j) < WRAP && Up(Low(bs, lo, j), align) + size <= High(bs, hi, j)
  }

  /** The bytes in blocks. */
  function Total(bs: seq<Block>): nat {
    if bs == [] then 0 else Total(bs[..|bs| - 1]) + bs[|bs| - 1].size
  }

  lemma {:induction false} TotalBound(bs: seq<Block>, lo: nat, hi: nat)
    requires Laid(bs, lo, hi) && lo <= hi
    ensures Total(bs) <= Low(bs, lo, |bs|) - lo
    decreases |bs|
  {
    if bs != [] {
      var n := |bs| - 1;
      TotalBound(bs[..n], lo, hi);
      assert Low(bs[..n], lo, n) <= bs[n].base;
    }
  }

  lemma {:induction false} TotalConcat(a: seq<Block>, b: seq<Block>)
    ensures Total(a + b) == Total(a) + Total(b)
    decreases |b|
  {
    if b == [] {
      assert a + b == a;
    } else {
      var n := |b| - 1;
      TotalConcat(a, b[..n]);
      assert (a + b)[..|a + b| - 1] == a + b[..n];
    }
  }

  lemma TotalInsert(bs: seq<Block>, i: nat, b: Block)
    requires i <= |bs|
    ensures Total(Insert(bs, i, b)) == Total(bs) + b.size
  {
    assert Total([b]) == b.size;
    hide Total;
    var x, y := bs[..i], bs[i..];
    assert bs == x + y;
    TotalConcat(x, y);
    TotalConcat(x, [b]);
    TotalConcat(x + [b], y);
    assert Insert(bs, i, b) == (x + [b]) + y;
  }

  lemma RemoveInsert(bs: seq<Block>, i: nat, b: Block)
    requires i <= |bs|
    ensures Remove(Insert(bs, i, b), i) == bs
  {
  }

  lemma TotalRemove(bs: seq<Block>, i: nat)
    requires i < |bs|
    ensures Total(Remove(bs, i)) == Total(bs) - bs[i].size
  {
    hide Total;
    TotalInsert(Remove(bs, i), i, bs[i]);
    assert Insert(Remove(bs, i), i, bs[i]) == bs;
  }

  /** Freeing what was just allocated gives back the list there was. */
  lemma FreeUndoesAlloc(bs: seq<Block>, at: nat, b: Block, lo: nat, hi: nat, i: nat)
    requires at <= |bs| && Laid(Insert(bs, at, b), lo, hi)
    requires i <= |bs| && Insert(bs, at, b)[i].base == b.base
    ensures Remove(Insert(bs, at, b), i) == bs
  {
    var after := Insert(bs, at, b);
    assert after[at] == b;
    OneBase(after, lo, hi, i, at);
    RemoveInsert(bs, at, b);
  }

  lemma OneBases(bs: seq<Block>, lo: nat, hi: nat)
    requires Laid(bs, lo, hi)
    ensures forall i, j :: 0 <= i < |bs| && 0 <= j < |bs| && bs[i].base == bs[j].base ==> i == j
  {
  }

  lemma OneBase(bs: seq<Block>, lo: nat, hi: nat, i: nat, j: nat)
    requires Laid(bs, lo, hi) && i < |bs| && j < |bs| && bs[i].base == bs[j].base
    ensures i == j
  {
  }

  /** Growing or shrinking a block within its gap keeps the list in order. */
  lemma ResizeLaid(bs: seq<Block>, lo: nat, hi: nat, i: nat, n: nat)
    requires Laid(bs, lo, hi) && i < |bs| && n > 0 && bs[i].base + n <= High(bs, hi, i + 1)
    ensures Laid(bs[i := Block(bs[i].base, n)], lo, hi)
  {
  }

  lemma RemoveLaid(bs: seq<Block>, lo: nat, hi: nat, i: nat)
    requires Laid(bs, lo, hi) && i < |bs|
    ensures Laid(Remove(bs, i), lo, hi)
    ensures forall b :: b in Remove(bs, i) <==> b in bs && b.base != bs[i].base
  {
    OneBases(bs, lo, hi);
    RemoveMembers(bs, i);
    RemoveOrdered(bs, lo, hi, i);
    hide Remove, Laid;
  }

  lemma RemoveOrdered(bs: seq<Block>, lo: nat, hi: nat, i: nat)
    requires Laid(bs, lo, hi) && i < |bs|
    ensures Laid(Remove(bs, i), lo, hi)
  {
    var after := Remove(bs, i);
    assert forall j :: 0 <= j < |after| ==> after[j] == if j < i then bs[j] else bs[j + 1];
    hide Remove;
    forall j, k | 0 <= j < k < |after|
      ensures after[j].End() <= after[k].base
    {
    }
  }

  lemma RemoveMembers(bs: seq<Block>, i: nat)
    requires i < |bs|
    requires forall j, k :: 0 <= j < |bs| && 0 <= k < |bs| && bs[j].base == bs[k].base ==> j == k
    ensures forall b :: b in Remove(bs, i) <==> b in bs && b.base != bs[i].base
  {
    var after := Remove(bs, i);
    assert bs == bs[..i] + [bs[i]] + bs[i + 1..];
    forall j | 0 <= j < |after|
      ensures after[j].base != bs[i].base
    {
      assert after[j] == bs[if j < i then j else j + 1];
    }
  }

  lemma ResizeTotal(bs: seq<Block>, i: nat, n: nat)
    requires i < |bs|
    ensures Total(bs[i := Block(bs[i].base, n)]) == Total(bs) - bs[i].size + n
  {
    TotalRemove(bs, i);
    TotalInsert(Remove(bs, i), i, Block(bs[i].base, n));
    assert bs[i := Block(bs[i].base, n)] == Insert(Remove(bs, i), i, Block(bs[i].base, n));
  }

  /** Two laid lists of the same blocks are the same list. */
  lemma {:induction false} SameBlocks(a: seq<Block>, b: seq<Block>, lo: nat, hi: nat)
    requires Laid(a, lo, hi) && Laid(b, lo, hi)
    requires forall x :: x in a <==> x in b
    ensures a == b
    decreases |a|
  {
    EmptyTogether(a, b);
    if a != [] {
      var i :| 0 <= i < |b| && b[i] == a[0];
      var j :| 0 <= j < |a| && a[j] == b[0];
      assert i == 0;
      forall x
        ensures x in a[1..] <==> x in b[1..]
      {
        OnlyOnce(a, lo, hi, x);
        OnlyOnce(b, lo, hi, x);
      }
      SameBlocks(a[1..], b[1..], lo, hi);
    }
  }

  lemma EmptyTogether(a: seq<Block>, b: seq<Block>)
    requires forall x :: x in a <==> x in b
    ensures a == [] <==> b == []
    ensures a != [] ==> a[0] in b
    ensures b != [] ==> b[0] in a
  {
    if a != [] {
      assert a[0] in b;
    }
    if b != [] {
      assert b[0] in a;
    }
  }

  lemma OnlyOnce(a: seq<Block>, lo: nat, hi: nat, x: Block)
    requires Laid(a, lo, hi) && a != []
    ensures x in a[1..] <==> x in a && x != a[0]
  {
  }

  /** What an allocation answers: the lowest place, or 0 exactly when there is none or the table is
      full. */
  ghost predicate FirstFit(bs: seq<Block>, lo: nat, hi: nat, r: nat, size: nat, align: nat)
    requires align > 0
  {
    if |bs| == 4096 || forall p :: !Place(bs, lo, hi, p, size, align) then r == 0
    else
      && r != 0
      && Place(bs, lo, hi, r, size, align)
      && forall p :: Place(bs, lo, hi, p, size, align) ==> r <= p
  }

  lemma IsPlace(bs: seq<Block>, lo: nat, hi: nat, p: nat, size: nat, align: nat)
    requires align > 0 && Aligned(p, align) && Clear(bs, lo, hi, p, size)
    ensures Place(bs, lo, hi, p, size, align)
  {
  }

  /** The list after b has become c; every other block is still there, and clear of c. */
  ghost predicate Resized(before: seq<Block>, after: seq<Block>, b: Block, c: Block) {
    && (forall x :: x in after <==> (x in before && x.base != b.base) || x == c)
    && (forall x :: x in before && x.base != b.base ==> x.End() <= c.base || c.End() <= x.base)
    && Total(after) == Total(before) - b.size + c.size
  }

  /** The memory after b has become c. */
  predicate Kept(before: seq<u8>, after: seq<u8>, b: Block, c: Block) {
    && |before| == |after| && b.End() <= |before|
    && forall x {:trigger after[x]} :: 0 <= x < |before| ==>
                     after[x] ==
                     if !(c.base <= x < c.End()) then before[x]
                     else if x - c.base < b.size then before[b.base + (x - c.base)]
                     else 0
  }

  lemma InPlace(bs: seq<Block>, lo: nat, hi: nat, i: nat, n: nat)
    requires Laid(bs, lo, hi) && i < |bs| && n > 0 && bs[i].base + n <= High(bs, hi, i + 1)
    ensures bs[i].End() <= High(bs, hi, i + 1) <= hi
    ensures Laid(bs[i := Block(bs[i].base, n)], lo, hi)
    ensures Resized(bs, bs[i := Block(bs[i].base, n)], bs[i], Block(bs[i].base, n))
  {
    hide Total;
    ResizeLaid(bs, lo, hi, i, n);
    ResizeTotal(bs, i, n);
    hide Laid;
    InRange(bs, lo, hi, i);
    if i + 1 < |bs| {
      InRange(bs, lo, hi, i + 1);
    }
    var after := bs[i := Block(bs[i].base, n)];
    OneBases(bs, lo, hi);
    UpdateMembers(bs, i, after[i]);
    forall x | x in bs && x.base != bs[i].base
      ensures x.End() <= after[i].base || after[i].End() <= x.base
    {
      var j :| 0 <= j < |bs| && bs[j] == x;
      Disjoint(after, lo, hi, i, j);
    }
  }

  lemma UpdateMembers(bs: seq<Block>, i: nat, c: Block)
    requires i < |bs| && c.base == bs[i].base
    requires forall j, k :: 0 <= j < |bs| && 0 <= k < |bs| && bs[j].base == bs[k].base ==> j == k
    ensures forall x :: x in bs[i := c] <==> (x in bs && x.base != bs[i].base) || x == c
  {
    var after := bs[i := c];
    assert after[i] == c;
    forall x
      ensures x in after <==> (x in bs && x.base != bs[i].base) || x == c
    {
      if x in bs && x.base != bs[i].base {
        var j :| 0 <= j < |bs| && bs[j] == x;
        assert after[j] == x;
      }
    }
  }

  lemma Disjoint(bs: seq<Block>, lo: nat, hi: nat, i: nat, j: nat)
    requires Laid(bs, lo, hi) && i < |bs| && j < |bs| && i != j
    ensures bs[i].base != bs[j].base
    ensures bs[i].End() <= bs[j].base || bs[j].End() <= bs[i].base
  {
  }

  lemma Moved(bs: seq<Block>, lo: nat, hi: nat, i: nat, at: nat, c: Block, j: nat)
    requires Laid(bs, lo, hi) && i < |bs| && at <= |bs| && Laid(Insert(bs, at, c), lo, hi)
    requires j <= |bs| && Insert(bs, at, c)[j].base == bs[i].base
    ensures Resized(bs, Remove(Insert(bs, at, c), j), bs[i], c)
  {
    hide Total, Laid, Insert, Remove;
    var mid := Insert(bs, at, c);
    var i' := if i < at then i else i + 1;
    InsertAt(bs, at, c, i);
    OneBase(mid, lo, hi, i', j);
    Disjoint(mid, lo, hi, i', at);
    RemoveLaid(mid, lo, hi, j);
    TotalInsert(bs, at, c);
    TotalRemove(mid, j);
    InsertMembers(bs, at, c);
    forall x | x in bs && x.base != bs[i].base
      ensures x.End() <= c.base || c.End() <= x.base
    {
      var y :| 0 <= y < |bs| && bs[y] == x;
      InsertAt(bs, at, c, y);
      Disjoint(mid, lo, hi, if y < at then y else y + 1, at);
    }
  }

  lemma InsertMembers(bs: seq<Block>, at: nat, c: Block)
    requires at <= |bs|
    ensures forall x :: x in Insert(bs, at, c) <==> x in bs || x == c
  {
    assert bs == bs[..at] + bs[at..];
  }

  lemma InsertAt(bs: seq<Block>, at: nat, c: Block, y: nat)
    requires at <= |bs| && y < |bs|
    ensures |Insert(bs, at, c)| == |bs| + 1 && Insert(bs, at, c)[at] == c
    ensures Insert(bs, at, c)[if y < at then y else y + 1] == bs[y]
  {
  }

  lemma InsertHas(bs: seq<Block>, at: nat, c: Block, i: nat)
    requires at <= |bs| && i < |bs|
    ensures bs[i] in Insert(bs, at, c)
  {
    assert Insert(bs, at, c)[if i < at then i else i + 1] == bs[i];
  }

  lemma InRange(bs: seq<Block>, lo: nat, hi: nat, i: nat)
    requires Laid(bs, lo, hi) && i < |bs|
    ensures bs[i].size > 0 && lo <= bs[i].base && bs[i].End() <= hi && bs[i].End() <= High(bs, hi, i + 1)
  {
  }

  lemma FitIsClear(bs: seq<Block>, lo: nat, hi: nat, p: nat, n: nat, align: nat, i: nat)
    requires align > 0 && FirstFit(bs, lo, hi, p, n, align) && p != 0 && i < |bs|
    ensures p + n <= hi && (p + n <= bs[i].base || bs[i].End() <= p)
  {
  }

  lemma InsertLength(bs: seq<Block>, i: nat, b: Block)
    requires i <= |bs|
    ensures |Insert(bs, i, b)| == |bs| + 1
  {
  }

  /** A resize leaves the bytes of every other block alone. */
  lemma OthersUntouched(bs: seq<Block>, after: seq<Block>, m0: seq<u8>, m1: seq<u8>, b: Block, c: Block, x: Block)
    requires Resized(bs, after, b, c) && Kept(m0, m1, b, c)
    requires x in bs && x.base != b.base && x.End() <= |m0|
    ensures x in after && m1[x.base..x.End()] == m0[x.base..x.End()]
  {
    hide Total;
    assert x.End() <= c.base || c.End() <= x.base;
    forall a: nat | x.base <= a < x.End()
      ensures m1[a] == m0[a]
    {
    }
  }

  /** The test for growing in place is made on the 32-bit sum; it is the test meant exactly when the
      sum does not wrap. */
  lemma GrowTestIsRight(base: u32, n: u32, limit: u32)
    requires base <= limit
    ensures ((base as int + n as int) % WRAP <= limit <==> base as int + n as int <= limit)
      <==> base as int + n as int < WRAP
  {
    if base as int + n as int >= WRAP {
      Remainder(base as int + n as int, WRAP, 1, base as int + n as int - WRAP);
    }
  }

  // ---- the heap ----

  class Arena {
    const lo: nat
    const hi: nat
    const mem: array<u8>
    var blocks: seq<Block>

    predicate Valid()
      reads this
    {
      && 0 < lo <= hi <= WRAP - 4096 && hi <= mem.Length
      && |blocks| <= MAX_BLOCKS
      && Laid(blocks, lo, hi)
    }

    constructor (lo: nat, hi: nat, mem: array<u8>)
      requires 0 < lo <= hi <= WRAP - 4096 && hi <= mem.Length
      ensures Valid() && blocks == [] && this.lo == lo && this.hi == hi && this.mem == mem
    {
      this.lo, this.hi, this.mem, blocks := lo, hi, mem, [];
    }

    /** arena_alloc: 0 exactly when the table is full or no place exists; otherwise the lowest place,
        zeroed, and nothing else touched. */
    method Alloc(size: u32, align: u32, ghost k: nat) returns (r: u32, ghost at: nat)
      requires Valid() && Alignment(align, k)
      modifies this`blocks, mem
      ensures Valid()
      ensures FirstFit(old(blocks), lo, hi, r, Rounded(size, align), align)
      ensures r == 0 ==> blocks == old(blocks) && mem[..] == old(mem[..])
      ensures Total(blocks) == Total(old(blocks)) + if r == 0 then 0 else Rounded(size, align)
      ensures r != 0 ==>
                && at <= |old(blocks)| && blocks == Insert(old(blocks), at, Block(r, Rounded(size, align)))
      ensures r != 0 ==>
                forall x :: 0 <= x < mem.Length ==>
                  mem[x] == if r <= x < r + Rounded(size, align) then 0 else old(mem[x])
    {
      hide Up, Pow2, Place, Total;
      Pow2Small(k);
      RoundedSmall(size, align, k);
      var a: nat := lo;
      var n := Rounded(size, align);
      hide Rounded;
      var i := 0;
      while i <= |blocks|
        invariant i <= |blocks| + 1
        invariant i <= |blocks| ==> a == Low(blocks, lo, i)
        invariant forall j :: 0 <= j < i ==> !Fits(blocks, lo, hi, j, n, align)
        invariant blocks == old(blocks) && mem[..] == old(mem[..])
        decreases |blocks| + 1 - i
      {
        var end := if i < |blocks| then blocks[i].base else hi;
        a := Up(a, align);
        if end >= a && end - a >= n {
          break;
        }
        if i < |blocks| {
          a := blocks[i].End();
        }
        i := i + 1;
      }
      at := i;
      forall p | Place(blocks, lo, hi, p, n, align)
        ensures i <= |blocks| && Up(Low(blocks, lo, i), align) <= p
      {
        NoneBelow(blocks, lo, hi, i, n, align, k, p);
      }
      if i > |blocks| || |blocks| >= MAX_BLOCKS {
        return 0, at;
      }
      UpIsLeast(Low(blocks, lo, i), align, k);
      GapIsFree(blocks, lo, hi, i, a, n);
      IsPlace(blocks, lo, hi, a, n, align);
      TotalInsert(blocks, i, Block(a, n));
      blocks := Insert(blocks, i, Block(a, n));
      forall x | a <= x < a + n {
        mem[x] := 0;
      }
      r := a;
    }

    method Find(base: u32) returns (i: int)
      requires Valid()
      ensures i == -1 ==> forall j :: 0 <= j < |blocks| ==> blocks[j].base != base
      ensures i != -1 ==> 0 <= i < |blocks| && blocks[i].base == base
    {
      i := 0;
      while i < |blocks|
        invariant 0 <= i <= |blocks|
        invariant forall j :: 0 <= j < i ==> blocks[j].base != base
      {
        if blocks[i].base == base {
          return;
        }
        i := i + 1;
      }
      i := -1;
    }

    /** arena_free: the block at base goes, nothing else changes; what is freed need not exist. */
    method Free(base: u32) returns (ok: bool, ghost i: int)
      requires Valid()
      modifies this`blocks
      ensures Valid()
      ensures ok <==> exists b :: b in old(blocks) && b.base == base
      ensures !ok ==> blocks == old(blocks)
      ensures ok ==> 0 <= i < |old(blocks)| && old(blocks)[i].base == base && blocks == Remove(old(blocks), i)
      ensures ok ==> forall b :: b in blocks <==> b in old(blocks) && b.base != base
      ensures ok ==> Total(blocks) == Total(old(blocks)) - old(blocks)[i].size
    {
      var j := Find(base);
      i := j;
      if j < 0 {
        return false, i;
      }
      hide Total;
      RemoveLaid(blocks, lo, hi, j);
      TotalRemove(blocks, j);
      assert blocks[j] in blocks;
      blocks := Remove(blocks, j);
      ok := true;
    }

    method FreeBytes() returns (r: u32)
      requires Valid()
      ensures r == hi - lo - Total(blocks)
    {
      var used, i := 0, 0;
      TotalBound(blocks, lo, hi);
      while i < |blocks|
        invariant 0 <= i <= |blocks|
        invariant used == Total(blocks[..i])
      {
        assert blocks[..i + 1][..i] == blocks[..i];
        used := used + blocks[i].size;
        i := i + 1;
      }
      assert blocks[..i] == blocks;
      r := hi - lo - used;
    }

    /** arena_resize, for a size that does not round to 0 and a block that would not end past the
        address space. On failure nothing changes; on success the block keeps its contents up to the
        smaller size and has zeros after, and no byte outside it changes. */
    method Resize(base: u32, size: u32, align: u32, ghost k: nat) returns (r: u32, ghost i: int)
      requires Valid() && Alignment(align, k) && Up(size, align) > 0 && base as int + Up(size, align) < WRAP
      modifies this`blocks, mem
      ensures Valid()
      ensures i == -1 ==> r == 0 && forall b :: b in old(blocks) ==> b.base != base
      ensures i != -1 ==> 0 <= i < |old(blocks)| && old(blocks)[i].base == base
      ensures r == 0 ==> blocks == old(blocks) && mem[..] == old(mem[..])
      ensures i != -1 && base as int + Up(size, align) <= High(old(blocks), hi, i + 1) ==> r == base
      ensures i != -1 && base as int + Up(size, align) > High(old(blocks), hi, i + 1) ==>
                FirstFit(old(blocks), lo, hi, r, Up(size, align), align)
      ensures r != 0 ==> Resized(old(blocks), blocks, old(blocks)[i], Block(r, Up(size, align)))
      ensures r != 0 ==> Kept(old(mem[..]), mem[..], old(blocks)[i], Block(r, Up(size, align)))
    {
      hide Up, Pow2, Place, Laid, Clear, Total;
      var f := Find(base);
      i := f;
      if f < 0 {
        return 0, i;
      }
      assert blocks[f] in blocks;
      InRange(blocks, lo, hi, f);
      var n := Up(size, align);
      var limit := if f + 1 < |blocks| then blocks[f + 1].base else hi;
      assert limit == High(blocks, hi, f + 1);
      if base as int + n <= limit {
        var was := blocks[f].size;
        InPlace(blocks, lo, hi, f, n);
        if n > was {
          forall x | base as int + was <= x < base as int + n {
            mem[x] := 0;
          }
        }
        blocks := blocks[f := Block(base, n)];
        return base, i;
      }
      RoundedAgain(size, align, k);
      r := Move(f, base, n, align, k);
    }

    /** The other half of arena_resize: a new block, a copy, the old block freed. */
    method Move(i: nat, base: u32, n: u32, align: u32, ghost k: nat) returns (r: u32)
      requires Valid() && Alignment(align, k) && i < |blocks| && blocks[i].base == base
      requires n > blocks[i].size && Rounded(n, align) == n
      modifies this`blocks, mem
      ensures Valid()
      ensures FirstFit(old(blocks), lo, hi, r, n, align)
      ensures r == 0 ==> blocks == old(blocks) && mem[..] == old(mem[..])
      ensures r != 0 ==> Resized(old(blocks), blocks, old(blocks)[i], Block(r, n))
      ensures r != 0 ==> Kept(old(mem[..]), mem[..], old(blocks)[i], Block(r, n))
    {
      hide Pow2, Rounded, Laid, Resized, FirstFit, Insert, Remove;
      ghost var bs := blocks;
      var was := blocks[i].size;
      InRange(blocks, lo, hi, i);
      ghost var at;
      r, at := Alloc(n, align, k);
      if r == 0 {
        return;
      }
      FitIsClear(bs, lo, hi, r, n, align, i);
      forall x | 0 <= x < was {
        mem[r as int + x] := mem[base as int + x];
      }
      InsertHas(bs, at, Block(r, n), i);
      assert bs[i] in blocks;
      var ok;
      ghost var j;
      ok, j := Free(base);
      InsertLength(bs, at, Block(r, n));
      Moved(bs, lo, hi, i, at, Block(r, n), j);
    }
  }
}
