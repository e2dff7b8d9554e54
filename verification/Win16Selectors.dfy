/**
 Selectors of 16-bit Windows code (runtime/win16/cpu.h). A selector stands for a base in the flat
 memory; a block longer than 64 KB gets one selector for each 64 KB, one after another, and the program
 steps from one to the next. Blocks are never freed here. The table of selectors, the heap's end and
 the selector counter are 32 and 16 bits wide and wrap where the source's do.
 */
module Win16Selectors {
  import opened Words

  const WRAP := 0x1_0000_0000
  const TILE := 0x1_0000
  const SELECTORS := 0x1_0000
  const FIRST: u16 := 0x4000

  /** The selector table and the two cursors; nextSel is 0 once the last selector is given out. */
  datatype Heap = Heap(selBase: seq<u32>, next: u32, nextSel: u16)

  /** (x + 15) & ~15 */
  function Round16(x: u32): u32 {
    var y := (x as int + 15) % WRAP;
    y - y % 16
  }

  /** The number of 64 KB tiles of a block. */
  function Tiles(bytes: nat): nat {
    (bytes + 0xFFFF) / TILE
  }

  /** The selectors not yet given out. */
  function Left(nextSel: u16): nat {
    if nextSel == 0 then 0 else SELECTORS - nextSel
  }

  /** The tile loop, from offset `off`. */
  function BindTiles(h: Heap, base: u32, off: u32, bytes: u32): (r: Heap)
    requires |h.selBase| == SELECTORS
    ensures |r.selBase| == SELECTORS && r.next == h.next
    decreases Left(h.nextSel)
  {
    if off >= bytes || h.nextSel == 0 then h
    else BindTiles(GiveSelector(h, (base as int + off as int) % WRAP), base, (off as int + TILE) % WRAP, bytes)
  }

  /** The next selector is bound to this address. */
  function GiveSelector(h: Heap, base: u32): (r: Heap)
    requires |h.selBase| == SELECTORS && h.nextSel != 0
    ensures |r.selBase| == SELECTORS && r.next == h.next
    ensures r.nextSel == (h.nextSel as int + 1) % SELECTORS && Left(r.nextSel) == Left(h.nextSel) - 1
  {
    h.(selBase := h.selBase[h.nextSel := base], nextSel := (h.nextSel as int + 1) % SELECTORS)
  }

  /** The bytes a request is for. */
  function Asked(bytes: u32): u32 {
    if bytes == 0 then 16 else bytes
  }

  /** The test for room, on the 32-bit sum. */
  predicate Refused(h: Heap, end: u32, bytes: u32) {
    (Round16(h.next) as int + Asked(bytes) as int) % WRAP > end || h.nextSel == 0
  }

  function Alloc(h: Heap, bytes: u32): (r: Heap)
    requires |h.selBase| == SELECTORS && h.nextSel != 0
    ensures |r.selBase| == SELECTORS
  {
    var base, n := Round16(h.next), Asked(bytes);
    BindTiles(GiveSelector(h.(next := (base as int + n as int) % WRAP), base), base, TILE, n)
  }

  /** A request whose sums do not wrap. */
  predicate NoWrap(h: Heap, bytes: u32) {
    && h.next as int + 15 < WRAP
    && Round16(h.next) as int + Asked(bytes) as int < WRAP
  }

  class Cpu {
    const mem: array<u8>
    const end: u32
    var selBase: seq<u32>
    var heapNext: u32
    var nextSel: u16

    function State(): Heap
      reads this
    {
      Heap(selBase, heapNext, nextSel)
    }

    /** cpu_alloc_mem: every selector stands for the guard, those of the image's segments for their
        segments, and the heap starts behind the image. */
    constructor (mem: array<u8>, guard: u32, segments: seq<u32>, image: u32)
      requires |segments| <= FIRST && mem.Length < WRAP
      ensures this.mem == mem && this.end == mem.Length
      ensures State() == Start(guard, segments, image)
      ensures |selBase| == 0x1_0000 && nextSel == 0x4000
      ensures forall s :: 0 <= s < 0x1_0000 ==> selBase[s] == if s < |segments| then segments[s] else guard
    {
      this.mem, this.end := mem, mem.Length;
      selBase := seq(SELECTORS, s requires 0 <= s < SELECTORS => if s < |segments| then segments[s] else guard);
      heapNext := Round16(image);
      nextSel := FIRST;
    }

    /** cpu_alloc_selector */
    method AllocSelector(bytes: u32) returns (sel: u16)
      requires |selBase| == SELECTORS
      modifies this`selBase, this`heapNext, this`nextSel
      ensures |selBase| == SELECTORS
      ensures Refused(old(State()), end, bytes) ==> sel == 0 && State() == old(State())
      ensures !Refused(old(State()), end, bytes) ==> sel == old(nextSel) && State() == Alloc(old(State()), bytes)
    {
      hide Round16, Asked, GiveSelector, BindTiles, Left;
      var base := Round16(heapNext);
      var n := Asked(bytes);
      if (base as int + n as int) % WRAP > end || nextSel == 0 {
        return 0;
      }
      heapNext := (base as int + n as int) % WRAP;
      sel := nextSel;
      GivenIs(State(), base);
      nextSel := (nextSel as int + 1) % SELECTORS;
      selBase := selBase[sel := base];
      var off: u32 := TILE;
      while off < n && nextSel != 0
        invariant |selBase| == SELECTORS
        invariant BindTiles(State(), base, off, n) == Alloc(old(State()), bytes)
        decreases Left(nextSel)
      {
        BindOne(State(), base, off, n);
        GivenIs(State(), (base as int + off as int) % WRAP);
        selBase := selBase[nextSel := (base as int + off as int) % WRAP];
        nextSel := (nextSel as int + 1) % SELECTORS;
        off := (off as int + TILE) % WRAP;
      }
      BindOne(State(), base, off, n);
    }

    /** One round of the tile loop. */
    lemma BindOne(h: Heap, base: u32, off: u32, bytes: u32)
      requires |h.selBase| == SELECTORS
      ensures off >= bytes || h.nextSel == 0 ==> BindTiles(h, base, off, bytes) == h
      ensures off < bytes && h.nextSel != 0 ==>
                BindTiles(h, base, off, bytes)
                == BindTiles(GiveSelector(h, (base as int + off as int) % WRAP), base,
                             (off as int + TILE) % WRAP, bytes)
    {
    }

    lemma GivenIs(h: Heap, base: u32)
      requires |h.selBase| == SELECTORS && h.nextSel != 0
      ensures GiveSelector(h, base) == Heap(h.selBase[h.nextSel := base], h.next, (h.nextSel as int + 1) % SELECTORS)
    {
    }

    /** seg_off */
    function SegOff(seg: u16, off: u16): u32
      reads this
      requires |selBase| == SELECTORS
    {
      (selBase[seg] as int + off as int) % WRAP
    }

    /** What a program reaches by stepping the selector is what the CPU addresses. */
    lemma ReachedIsAddress(b: Block, off: nat)
      requires |selBase| == SELECTORS && b.base + off < WRAP && b.sel as int + off / 0x1_0000 < 0x1_0000
      ensures Reached(State(), b, off) ==> SegOff(b.sel as int + off / 0x1_0000, off % 0x1_0000) == b.base + off
    {
      Remainder(b.base + off, WRAP, 0, b.base + off);
    }

    method Read8(seg: u16, off: u16) returns (v: u8)
      requires |selBase| == SELECTORS && SegOff(seg, off) < mem.Length
      ensures v == mem[SegOff(seg, off)]
    {
      v := mem[SegOff(seg, off)];
    }

    method Write8(seg: u16, off: u16, v: u8)
      requires |selBase| == SELECTORS && SegOff(seg, off) < mem.Length
      modifies mem
      ensures forall s: u16, o: u16 ::
        SegOff(s, o) < mem.Length ==>
          mem[SegOff(s, o)] == if SegOff(s, o) == SegOff(seg, off) then v else old(mem[SegOff(s, o)])
      ensures forall x :: 0 <= x < mem.Length && x != SegOff(seg, off) ==> mem[x] == old(mem[x])
    {
      mem[SegOff(seg, off)] := v;
    }
  }

  function Start(guard: u32, segments: seq<u32>, image: u32): Heap
    requires |segments| <= FIRST
  {
    Heap(seq(SELECTORS, s requires 0 <= s < SELECTORS => if s < |segments| then segments[s] else guard),
         Round16(image), FIRST)
  }

  /** The heap's end is rounded up to 16, to 0 if that wraps; a request for nothing is one for 16 bytes. */
  lemma Rounding(x: u32)
    ensures x < 0xFFFF_FFF1 ==> Round16(x) % 16 == 0 && x <= Round16(x) < x as int + 16
    ensures x >= 0xFFFF_FFF1 ==> Round16(x) == 0
    ensures Asked(0) == 16 && (x > 0 ==> Asked(x) == x)
  {
    var y := x as int + 15;
    if y >= WRAP {
      Remainder(y, WRAP, 1, y - WRAP);
      Remainder(y - WRAP, 16, 0, y - WRAP);
    } else {
      Remainder(y, WRAP, 0, y);
      Remainder(y - y % 16, 16, y / 16, 0);
    }
  }

  /** A request is refused exactly when no selector is left or the 32-bit end of its block is behind the
      heap's. */
  lemma RefusedIff(h: Heap, end: u32, bytes: u32)
    ensures Refused(h, end, bytes) <==>
            h.nextSel == 0 || (Round16(h.next) as int + (if bytes == 0 then 16 else bytes) as int) % 0x1_0000_0000 > end
  {
    hide Round16;
  }

  /** The 32-bit test for room is the test meant exactly when the sum does not wrap, or wraps to
      something still too big. */
  lemma RoomTest(base: u32, bytes: u32, end: u32)
    ensures ((base as int + bytes as int) % WRAP > end <==> base as int + bytes as int > end)
       <==> base as int + bytes as int < WRAP || base as int + bytes as int - WRAP > end
  {
    if base as int + bytes as int >= WRAP {
      Remainder(base as int + bytes as int, WRAP, 1, base as int + bytes as int - WRAP);
    } else {
      Remainder(base as int + bytes as int, WRAP, 0, base as int + bytes as int);
    }
  }

  // ---- one allocation ----

  /** The tiles the loop binds: as many as the block still needs, or as there are selectors left. */
  function Bound(nextSel: u16, off: nat, bytes: nat): nat {
    var need := if off >= bytes then 0 else Tiles(bytes - off);
    if need <= Left(nextSel) then need else Left(nextSel)
  }

  /** Selectors first, first + 1, ... stand for base, base + 64 KB, ... */
  predicate Tiled(selBase: seq<u32>, first: nat, base: nat, n: nat)
    requires |selBase| == SELECTORS
  {
    first + n <= SELECTORS && forall k :: 0 <= k < n ==> selBase[first + k] == base + TILE * k
  }

  /** Only the n selectors from first on differ. */
  predicate OnlyBetween(before: seq<u32>, after: seq<u32>, first: nat, n: nat)
    requires |before| == |after| == SELECTORS
  {
    forall s :: 0 <= s < SELECTORS && !(first <= s < first + n) ==> after[s] == before[s]
  }

  lemma FirstTile(before: seq<u32>, first: nat, base: u32, n: nat, after: seq<u32>)
    requires first < 0xFFFF && |before| == |after| == SELECTORS
    requires Tiled(after, first + 1, base as int + TILE, n) && OnlyBetween(before[first := base], after, first + 1, n)
    ensures Tiled(after, first, base, n + 1) && OnlyBetween(before, after, first, n + 1)
  {
    forall k | 0 <= k < n + 1
      ensures after[first + k] == base + TILE * k
    {
      if k > 0 {
        assert after[first + 1 + (k - 1)] == base as int + TILE + TILE * (k - 1);
      }
    }
  }

  lemma LastTile(before: seq<u32>, first: nat, base: u32, after: seq<u32>)
    requires first == 0xFFFF && |before| == |after| == SELECTORS
    requires OnlyBetween(before[first := base], after, 0, 0)
    ensures Tiled(after, first, base, 1) && OnlyBetween(before, after, first, 1)
  {
  }

  /** n tiles of the block at base, from offset off on, and nothing else. */
  predicate Bind(h: Heap, r: Heap, first: nat, n: nat)
    requires |h.selBase| == |r.selBase| == SELECTORS
  {
    Tiled(r.selBase, h.nextSel, first, n) && OnlyBetween(h.selBase, r.selBase, h.nextSel, n)
    && r.nextSel == (h.nextSel as int + n) % SELECTORS
  }

  /** The loop binds a tile for each 64 KB, as long as there are selectors. */
  lemma {:induction false} TilesBound(h: Heap, base: u32, off: u32, bytes: u32)
    requires |h.selBase| == SELECTORS && base as int + bytes as int < WRAP && off + TILE * Left(h.nextSel) < WRAP
    ensures Bind(h, BindTiles(h, base, off, bytes), base as int + off, Bound(h.nextSel, off, bytes))
    decreases Left(h.nextSel)
  {
    hide Bind, Tiled, OnlyBetween, GiveSelector, Tiles, Left;
    if off < bytes && h.nextSel != 0 {
      Remainder(base as int + off as int, WRAP, 0, base as int + off as int);
      LeftSome(h.nextSel);
      Remainder(off as int + TILE, WRAP, 0, off as int + TILE);
      var bound := GiveSelector(h, base as int + off as int);
      var r := BindTiles(bound, base, off + TILE, bytes);
      assert BindTiles(h, base, off, bytes) == r;
      hide BindTiles;
      TilesBound(bound, base, off + TILE, bytes);
      OneTileMore(h.nextSel, off, bytes);
      hide Bound;
      BindOneMore(h, base as int + off as int, r, Bound(bound.nextSel, off as int + TILE, bytes));
    } else {
      NoTile(h.nextSel, off, bytes);
      BindNone(h, base as int + off as int);
    }
  }

  lemma LeftSome(s: u16)
    requires s != 0
    ensures Left(s) >= 1
  {
  }

  lemma NoTile(s: u16, off: nat, bytes: nat)
    requires off >= bytes || s == 0
    ensures Bound(s, off, bytes) == 0
  {
  }

  lemma BindNone(h: Heap, first: nat)
    requires |h.selBase| == SELECTORS
    ensures Bind(h, h, first, 0)
  {
    StepOn(h.nextSel, 0);
  }

  lemma BindOneMore(h: Heap, first: u32, r: Heap, n: nat)
    requires |h.selBase| == |r.selBase| == SELECTORS && h.nextSel != 0
    requires Bind(GiveSelector(h, first), r, first as int + TILE, n) && (h.nextSel == 0xFFFF ==> n == 0)
    ensures Bind(h, r, first, n + 1)
  {
    if h.nextSel == 0xFFFF {
      LastTile(h.selBase, h.nextSel, first, r.selBase);
    } else {
      FirstTile(h.selBase, h.nextSel, first, n, r.selBase);
    }
    StepOn(h.nextSel, n);
    hide Tiled, OnlyBetween;
  }

  lemma StepOn(s: u16, n: nat)
    ensures ((s as int + 1) % SELECTORS + n) % SELECTORS == (s as int + (1 + n)) % SELECTORS
    ensures s % SELECTORS == s
  {
  }

  lemma OneTileMore(s: u16, off: nat, bytes: nat)
    requires off < bytes && s != 0
    ensures var next := (s as int + 1) % SELECTORS;
      && Bound(s, off, bytes) == 1 + Bound(next, off + TILE, bytes)
      && (s == 0xFFFF ==> Bound(next, off + TILE, bytes) == 0)
  {
  }

  // ---- a run of allocations ----

  /** A block: its first selector, where it is, and its size. */
  datatype Block = Block(sel: u16, base: nat, bytes: nat)

  /** The heap after a run of requests, and the blocks given out. A request is refused or served as
      cpu_alloc_selector does. */
  datatype Run = Run(heap: Heap, blocks: seq<Block>)

  function Step(r: Run, end: u32, bytes: u32): Run
    requires |r.heap.selBase| == SELECTORS
  {
    if Refused(r.heap, end, bytes) then r
    else Run(Alloc(r.heap, bytes), r.blocks + [Block(r.heap.nextSel, Round16(r.heap.next), Asked(bytes))])
  }

  /** The state after some requests, oldest first. */
  function After(r: Run, end: u32, requests: seq<u32>): (r': Run)
    requires |r.heap.selBase| == SELECTORS
    ensures |r'.heap.selBase| == SELECTORS
  {
    if requests == [] then r
    else Step(After(r, end, requests[..|requests| - 1]), end, requests[|requests| - 1])
  }

  /** No request of the run wraps a sum. */
  predicate NeverWraps(r: Run, end: u32, requests: seq<u32>)
    requires |r.heap.selBase| == SELECTORS
  {
    requests != [] ==>
      var front := requests[..|requests| - 1];
      NeverWraps(r, end, front) && NoWrap(After(r, end, front).heap, requests[|requests| - 1])
  }

  /** The selectors a block has: one for each tile, as far as there are selectors. */
  function Selectors(b: Block): nat {
    if Tiles(b.bytes) <= SELECTORS - b.sel then Tiles(b.bytes) else SELECTORS - b.sel
  }

  /** The selector counter as a number that does not wrap. */
  function Given(h: Heap): nat {
    if h.nextSel == 0 then SELECTORS else h.nextSel
  }

  predicate BlockOk(b: Block, lo: nat, h: Heap)
    requires |h.selBase| == SELECTORS
  {
    && b.sel >= FIRST && b.bytes > 0 && lo <= b.base && b.base + b.bytes <= h.next
    && b.sel as int + Selectors(b) <= Given(h)
    && Tiled(h.selBase, b.sel, b.base, Selectors(b))
  }

  /** Blocks one behind the other, in memory and in selectors. */
  predicate Apart(a: Block, b: Block) {
    a.base + a.bytes <= b.base && a.sel as int + Selectors(a) <= b.sel
  }

  /** What holds after every run: each block is behind the image, its tiles stand for it, and blocks are
      apart. */
  predicate Inv(start: Heap, r: Run) {
    && start.next <= r.heap.next
    && |start.selBase| == |r.heap.selBase| == SELECTORS
    && (r.heap.nextSel == 0 || r.heap.nextSel >= FIRST)
    && (forall s :: 0 <= s < FIRST ==> r.heap.selBase[s] == start.selBase[s])
    && (forall i :: 0 <= i < |r.blocks| ==> BlockOk(r.blocks[i], start.next, r.heap))
    && (forall i, j :: 0 <= i < j < |r.blocks| ==> Apart(r.blocks[i], r.blocks[j]))
  }

  lemma AllocEffect(h: Heap, bytes: u32)
    requires |h.selBase| == SELECTORS && h.nextSel >= FIRST && NoWrap(h, bytes)
    ensures var b := Block(h.nextSel, Round16(h.next), Asked(bytes));
      var r := Alloc(h, bytes);
      && h.next <= b.base && r.next == b.base + b.bytes
      && Tiled(r.selBase, b.sel, b.base, Selectors(b)) && OnlyBetween(h.selBase, r.selBase, b.sel, Selectors(b))
      && Given(r) == b.sel as int + Selectors(b)
  {
    var base, n := Round16(h.next), Asked(bytes);
    Remainder(base as int + n as int, WRAP, 0, base as int + n as int);
    Remainder(h.next as int + 15, WRAP, 0, h.next as int + 15);
    assert Alloc(h, bytes) == AllocAt(h, base, n);
    assert n > 0;
    hide Round16, Asked, Bound, BindTiles, Selectors, Alloc, AllocAt, Tiled, OnlyBetween;
    AllocBinds(h, base, n);
    GivenAfter(h, AllocAt(h, base, n), Block(h.nextSel, base, n));
  }

  function AllocAt(h: Heap, base: u32, n: u32): (r: Heap)
    requires |h.selBase| == SELECTORS && h.nextSel != 0 && base as int + n as int < WRAP
    ensures |r.selBase| == SELECTORS && r.next == base as int + n as int
  {
    BindTiles(GiveSelector(h.(next := base as int + n as int), base), base, TILE, n)
  }

  lemma AllocBinds(h: Heap, base: u32, n: u32)
    requires |h.selBase| == SELECTORS && h.nextSel >= FIRST && base as int + n as int < WRAP && 0 < n
    ensures Bind(h, AllocAt(h, base, n), base, Selectors(Block(h.nextSel, base, n)))
  {
    FirstTileMore(h.nextSel, n);
    hide Bound, BindTiles;
    var h' := h.(next := base as int + n as int);
    var first := GiveSelector(h', base);
    var r := BindTiles(first, base, TILE, n);
    TilesBound(first, base, TILE, n);
    BindOneMore(h', base, r, Bound(first.nextSel, TILE, n));
    hide Tiled, OnlyBetween;
  }

  lemma GivenAfter(h: Heap, r: Heap, b: Block)
    requires |h.selBase| == |r.selBase| == SELECTORS && h.nextSel != 0 && b.sel == h.nextSel && b.bytes > 0
    requires Bind(h, r, b.base, Selectors(b))
    ensures Given(r) == b.sel as int + Selectors(b)
  {
  }

  lemma FirstTileMore(s: u16, n: nat)
    requires s != 0 && n > 0
    ensures var next := (s as int + 1) % SELECTORS;
      && Selectors(Block(s, 0, n)) == 1 + Bound(next, TILE, n)
      && (s == 0xFFFF ==> Bound(next, TILE, n) == 0)
  {
  }

  lemma {:induction false} StepKeeps(start: Heap, r: Run, end: u32, bytes: u32)
    requires Inv(start, r) && NoWrap(r.heap, bytes)
    ensures Inv(start, Step(r, end, bytes))
  {
    hide Round16, Alloc, Asked, Selectors, Tiled, OnlyBetween, Refused;
    if !Refused(r.heap, end, bytes) {
      RefusedAtEnd(r.heap, end, bytes);
      AllocEffect(r.heap, bytes);
      var h, h' := r.heap, Alloc(r.heap, bytes);
      var b := Block(h.nextSel, Round16(h.next), Asked(bytes));
      AskedSome(bytes);
      UpTo(b);
      Elsewhere(start, h, h', b);
      forall i | 0 <= i < |r.blocks|
        ensures BlockOk(r.blocks[i], start.next, h') && Apart(r.blocks[i], b)
      {
        assert BlockOk(r.blocks[i], start.next, h);
        StaysTiled(h.selBase, h'.selBase, r.blocks[i], b);
      }
      assert BlockOk(b, start.next, h');
    }
  }

  /** A served request keeps the invariant exactly when its sums do not wrap. */
  lemma StepKeepsIff(start: Heap, r: Run, end: u32, bytes: u32)
    requires Inv(start, r) && start.next > 0
    ensures Inv(start, Step(r, end, bytes)) <==> Refused(r.heap, end, bytes) || NoWrap(r.heap, bytes)
  {
    var h := r.heap;
    if NoWrap(h, bytes) {
      StepKeeps(start, r, end, bytes);
    } else if !Refused(h, end, bytes) {
      RefusedAtEnd(h, end, bytes);
      AskedSome(bytes);
      hide Tiled, BindTiles, GiveSelector, Apart, Selectors, Refused, Asked;
      var r' := Step(r, end, bytes);
      var b := Block(h.nextSel, Round16(h.next), Asked(bytes));
      assert r'.blocks[|r.blocks|] == b;
      WrapsBelow(h, bytes);
      hide Round16, Alloc;
      assert !BlockOk(b, start.next, r'.heap);
    }
  }

  /** A request that wraps is given a block at address 0, or one that does not end below the new cursor. */
  lemma WrapsBelow(h: Heap, bytes: u32)
    requires |h.selBase| == SELECTORS && h.nextSel != 0 && !NoWrap(h, bytes)
    ensures Round16(h.next) == 0 || Round16(h.next) as int + Asked(bytes) as int > Alloc(h, bytes).next
  {
    hide BindTiles, GiveSelector, Asked;
    var y := h.next as int + 15;
    if y >= WRAP {
      Remainder(y, WRAP, 1, y - WRAP);
    } else {
      Remainder(y, WRAP, 0, y);
    }
  }

  /** Such a request is served: it asks for so much that the 32-bit sum comes back to 16. */
  lemma WrapIsServed(h: Heap, end: u32)
    requires |h.selBase| == SELECTORS && h.nextSel != 0 && 16 <= end && 16 < h.next && h.next as int + 15 < WRAP
    ensures var bytes := WRAP - Round16(h.next) as int + 16;
      0 < bytes < WRAP && !Refused(h, end, bytes) && Alloc(h, bytes).next == 16 < h.next
  {
    hide BindTiles, GiveSelector;
    var y := h.next as int + 15;
    Remainder(y, WRAP, 0, y);
    Remainder(WRAP + 16, WRAP, 1, 16);
  }

  lemma RefusedAtEnd(h: Heap, end: u32, bytes: u32)
    requires !Refused(h, end, bytes)
    ensures h.nextSel != 0
  {
  }

  lemma AskedSome(bytes: u32)
    ensures Asked(bytes) > 0
  {
  }

  lemma UpTo(b: Block)
    requires b.bytes > 0
    ensures 0 < Selectors(b) <= SELECTORS - b.sel
  {
  }

  lemma Elsewhere(start: Heap, h: Heap, h': Heap, b: Block)
    requires |start.selBase| == |h.selBase| == |h'.selBase| == SELECTORS && b.sel >= FIRST
    requires OnlyBetween(h.selBase, h'.selBase, b.sel, Selectors(b))
    requires forall s :: 0 <= s < FIRST ==> h.selBase[s] == start.selBase[s]
    ensures forall s :: 0 <= s < FIRST ==> h'.selBase[s] == start.selBase[s]
  {
  }

  lemma StaysTiled(before: seq<u32>, after: seq<u32>, a: Block, b: Block)
    requires |before| == |after| == SELECTORS && OnlyBetween(before, after, b.sel, Selectors(b))
    requires Tiled(before, a.sel, a.base, Selectors(a)) && a.sel as int + Selectors(a) <= b.sel
    ensures Tiled(after, a.sel, a.base, Selectors(a))
  {
    forall k | 0 <= k < Selectors(a)
      ensures after[a.sel as int + k] == a.base + TILE * k
    {
      assert before[a.sel as int + k] == a.base + TILE * k;
    }
  }

  /** Every run keeps the invariant. */
  lemma {:induction false} RunKeeps(guard: u32, segments: seq<u32>, image: u32, end: u32, requests: seq<u32>)
    requires |segments| <= FIRST
    requires NeverWraps(Run(Start(guard, segments, image), []), end, requests)
    ensures Inv(Start(guard, segments, image), After(Run(Start(guard, segments, image), []), end, requests))
    decreases |requests|
  {
    var start := Start(guard, segments, image);
    if requests != [] {
      RunKeeps(guard, segments, image, end, requests[..|requests| - 1]);
      hide Step, NoWrap, Inv, Start;
      StepKeeps(start, After(Run(start, []), end, requests[..|requests| - 1]), end, requests[|requests| - 1]);
    }
  }

  /** Byte off of the block is reached by stepping the selector once for each 64 KB. */
  predicate Reached(h: Heap, b: Block, off: nat)
    requires |h.selBase| == SELECTORS
  {
    b.sel as int + off / TILE < SELECTORS && h.selBase[b.sel as int + off / TILE] as int + off % TILE == b.base + off
  }

  /** Every byte of a block is reached exactly when the selectors lasted for all its tiles. */
  lemma {:induction false} AllReached(start: Heap, r: Run, i: nat)
    requires Inv(start, r) && i < |r.blocks|
    ensures (forall off :: 0 <= off < r.blocks[i].bytes ==> Reached(r.heap, r.blocks[i], off))
       <==> r.blocks[i].sel as int + Tiles(r.blocks[i].bytes) <= SELECTORS
  {
    var b := r.blocks[i];
    assert BlockOk(b, start.next, r.heap);
    if b.sel as int + Tiles(b.bytes) <= SELECTORS {
      forall off | 0 <= off < b.bytes
        ensures Reached(r.heap, b, off)
      {
        var k := off / TILE;
        assert k < Selectors(b);
        assert r.heap.selBase[b.sel as int + k] == b.base + TILE * k;
      }
    } else {
      assert !Reached(r.heap, b, b.bytes - 1);
    }
  }

  /** No byte belongs to two blocks, and no selector of one stands for the other. */
  lemma BlocksApart(start: Heap, r: Run, i: nat, j: nat, x: nat, y: nat)
    requires Inv(start, r) && i < j < |r.blocks|
    requires x < r.blocks[i].bytes && y < r.blocks[j].bytes
    ensures r.blocks[i].base + x != r.blocks[j].base + y
    ensures Reached(r.heap, r.blocks[i], x) && Reached(r.heap, r.blocks[j], y) ==>
              r.blocks[i].sel as int + x / TILE != r.blocks[j].sel as int + y / TILE
  {
    var a, b := r.blocks[i], r.blocks[j];
    assert Apart(a, b) && BlockOk(a, start.next, r.heap) && BlockOk(b, start.next, r.heap);
    assert x / TILE < Tiles(a.bytes);
  }
}
