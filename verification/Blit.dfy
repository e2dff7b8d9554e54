/**
 The DirectDraw copy (blit in runtime/win32hle/ddraw.c). The slow path stretches, keys and clips pixel
 by pixel; the fast path copies clipped rows. Both are proved to leave the same picture: what each
 destination pixel is to be, said once for all of them. A surface's rows are byte sequences of its
 pitch; a pixel is 1 to 4 bytes, lowest first.
 */
module Blit {
  import opened Words

  type Row = seq<u8>

  /** x pixels, in bytes. */
  function At(x: int, size: nat): int {
    if size == 1 then x else if size == 2 then 2 * x else if size == 3 then 3 * x else 4 * x
  }

  /** Pixel x of a row. */
  function Pix(row: Row, x: nat, size: nat): (p: Row)
    requires 1 <= size <= 4 && At(x, size) + size <= |row|
    ensures |p| == size
  {
    row[At(x, size)..At(x, size) + size]
  }

  /** get_px: the bytes as a number. */
  function ValueOf(p: Row): u32
    requires 1 <= |p| <= 4
  {
    p[0] as int
    + (if |p| > 1 then 0x100 * p[1] as int else 0)
    + (if |p| > 2 then 0x1_0000 * p[2] as int else 0)
    + (if |p| > 3 then 0x100_0000 * p[3] as int else 0)
  }

  /** put_px: the number's low bytes. */
  function BytesOf(v: u32, size: nat): (p: Row)
    requires 1 <= size <= 4
    ensures |p| == size
  {
    [v % 256, v / 0x100 % 256, v / 0x1_0000 % 256, v / 0x100_0000][..size]
  }

  lemma BytesBack(p: Row)
    requires 1 <= |p| <= 4
    ensures BytesOf(ValueOf(p), |p|) == p
  {
    var b1 := if |p| > 1 then p[1] as int else 0;
    var b2 := if |p| > 2 then p[2] as int else 0;
    var b3 := if |p| > 3 then p[3] as int else 0;
    var v := ValueOf(p);
    Quarters(v, p[0], b1, b2, b3);
    hide ValueOf;
    var q := BytesOf(v, |p|);
    assert forall i :: 0 <= i < |p| ==> q[i] == p[i];
  }

  /** The number a pixel's bytes stand for, the lowest first. */
  function Little(p: Row): nat {
    if p == [] then 0 else p[0] as int + 256 * Little(p[1..])
  }

  lemma ValueIsLittle(p: Row)
    requires 1 <= |p| <= 4
    ensures ValueOf(p) == Little(p)
  {
    assert Little([]) == 0;
    if |p| > 1 {
      var q := p[1..];
      assert q[0] == p[1];
      if |p| > 2 {
        var t := q[1..];
        assert t[0] == p[2];
        assert |p| > 3 ==> t[1..][0] == p[3] && t[1..][1..] == [];
        assert |p| == 3 ==> t[1..] == [];
      } else {
        assert q[1..] == [];
      }
    } else {
      assert p[1..] == [];
    }
  }

  /** A narrower pixel gets the number's low bytes, a wider one zeros above. */
  lemma BytesAreLow(v: u32, size: nat)
    requires 1 <= size <= 4
    ensures Little(BytesOf(v, size)) ==
            v % (if size == 1 then 0x100 else if size == 2 then 0x1_0000 else if size == 3 then 0x100_0000
                 else 0x1_0000_0000)
  {
    var b := BytesOf(v, size);
    ValueIsLittle(b);
    hide Little;
    LowParts(v);
  }

  lemma LowParts(v: u32)
    ensures v % 0x1_0000 == v % 256 + 0x100 * (v / 0x100 % 256)
    ensures v % 0x100_0000 == v % 256 + 0x100 * (v / 0x100 % 256) + 0x1_0000 * (v / 0x1_0000 % 256)
    ensures v == v % 256 + 0x100 * (v / 0x100 % 256) + 0x1_0000 * (v / 0x1_0000 % 256) + 0x100_0000 * (v / 0x100_0000)
  {
  }

  /** Pixels are as far apart as they are wide. */
  lemma AtIsProduct(x: int, size: nat)
    requires 1 <= size <= 4
    ensures At(x, size) == x * size
  {
  }

  lemma Quarters(v: u32, b0: u8, b1: u8, b2: u8, b3: u8)
    requires v == b0 as int + 0x100 * b1 as int + 0x1_0000 * b2 as int + 0x100_0000 * b3 as int
    ensures v % 256 == b0 && v / 0x100 % 256 == b1 && v / 0x1_0000 % 256 == b2 && v / 0x100_0000 == b3
  {
    Remainder(v, 256, b1 as int + 0x100 * b2 as int + 0x1_0000 * b3 as int, b0);
    Remainder(v / 0x100, 256, b2 as int + 0x100 * b3 as int, b1);
    Remainder(v, 0x1_0000, b2 as int + 0x100 * b3 as int, b0 as int + 0x100 * b1 as int);
    Remainder(v / 0x1_0000, 256, b3, b2);
    Remainder(v, 0x100_0000, b3, b0 as int + 0x100 * b1 as int + 0x1_0000 * b2 as int);
  }

  /** Pixel x is overwritten. */
  function PutPix(row: Row, x: nat, p: Row): (r: Row)
    requires 1 <= |p| <= 4 && At(x, |p|) + |p| <= |row|
    ensures |r| == |row|
  {
    row[..At(x, |p|)] + p + row[At(x, |p|) + |p|..]
  }

  /** memcpy of n pixels between rows. */
  function CopyPix(row: Row, x: nat, src: Row, sx: nat, n: nat, size: nat): (r: Row)
    requires 1 <= size <= 4 && At(x, size) + At(n, size) <= |row| && At(sx, size) + At(n, size) <= |src|
    ensures |r| == |row|
  {
    row[..At(x, size)] + src[At(sx, size)..At(sx, size) + At(n, size)] + row[At(x, size) + At(n, size)..]
  }

  lemma PixOfPut(row: Row, x: nat, p: Row, y: nat)
    requires 1 <= |p| <= 4 && At(x, |p|) + |p| <= |row| && At(y, |p|) + |p| <= |row|
    ensures Pix(PutPix(row, x, p), y, |p|) == if x == y then p else Pix(row, y, |p|)
  {
    var r := PutPix(row, x, p);
    assert forall i :: 0 <= i < |row| ==>
                         r[i] == if At(x, |p|) <= i < At(x, |p|) + |p| then p[i - At(x, |p|)] else row[i];
    hide PutPix;
  }

  lemma PixOfCopy(row: Row, x: nat, src: Row, sx: nat, n: nat, size: nat, y: nat)
    requires 1 <= size <= 4 && At(x, size) + At(n, size) <= |row| && At(sx, size) + At(n, size) <= |src|
    requires At(y, size) + size <= |row|
    ensures x <= y < x + n ==> At(y - x + sx, size) + size <= |src|
    ensures Pix(CopyPix(row, x, src, sx, n, size), y, size)
         == if x <= y < x + n then Pix(src, y - x + sx, size) else Pix(row, y, size)
  {
    AtFacts(x, y, n, sx, size);
    var a, b, m := At(x, size), At(sx, size), At(n, size);
    var q := At(y, size);
    var r := CopyPix(row, x, src, sx, n, size);
    CopyBytes(row, x, src, sx, n, size);
    hide CopyPix, At;
    assert r[q..q + size] == if x <= y < x + n then src[q - a + b..q - a + b + size] else row[q..q + size];
  }

  lemma CopyBytes(row: Row, x: nat, src: Row, sx: nat, n: nat, size: nat)
    requires 1 <= size <= 4 && At(x, size) + At(n, size) <= |row| && At(sx, size) + At(n, size) <= |src|
    ensures var r, a, b, m := CopyPix(row, x, src, sx, n, size), At(x, size), At(sx, size), At(n, size);
      forall i :: 0 <= i < |row| ==> r[i] == if a <= i < a + m then src[b + (i - a)] else row[i]
  {
    hide At;
    PositiveAt(x, size);
    PositiveAt(sx, size);
    PositiveAt(n, size);
  }

  lemma PositiveAt(x: nat, size: nat)
    ensures At(x, size) >= 0
  {
  }

  lemma AtFacts(x: nat, y: nat, n: nat, sx: nat, size: nat)
    requires 1 <= size <= 4
    ensures 0 <= At(x, size) && 0 <= At(n, size) && 0 <= At(sx, size) && 0 <= At(y, size)
    ensures y < x ==> At(y, size) + size <= At(x, size)
    ensures y >= x + n ==> At(y, size) >= At(x, size) + At(n, size)
    ensures x <= y < x + n ==>
              && At(x, size) <= At(y, size) && At(y, size) + size <= At(x, size) + At(n, size)
              && At(y - x + sx, size) == At(y, size) - At(x, size) + At(sx, size)
  {
  }

  /** A rectangle copied to a rectangle, and the colour key if there is one. */
  datatype Job = Job(dl: int, dt: int, dw: int, dh: int, sl: int, st: int, sw: int, sh: int, keyed: bool, klo: u32,
                     khi: u32)

  /** Nearest neighbour: the source offset of a destination offset. */
  function Scaled(x: nat, sw: int, dw: int): int
    requires dw > 0
  {
    x * sw / dw
  }

  lemma ScaledSame(x: nat, w: int)
    requires w > 0
    ensures Scaled(x, w, w) == x
  {
    Remainder(x * w, w, x, 0);
  }

  class Surface {
    const w: nat
    const h: nat
    const pitch: nat
    const size: nat                 // bytes in a pixel
    const rows: array<Row>
    var gen: nat                    // changes since the surface was made

    predicate Valid()
      reads this, rows
    {
      && 1 <= size <= 4 && At(w, size) <= pitch && rows.Length == h
      && forall y :: 0 <= y < h ==> |rows[y]| == pitch
    }

    constructor (w: nat, h: nat, pitch: nat, size: nat, rows: array<Row>)
      requires 1 <= size <= 4 && At(w, size) <= pitch && rows.Length == h
      requires forall y :: 0 <= y < h ==> |rows[y]| == pitch
      ensures Valid() && this.w == w && this.h == h && this.pitch == pitch && this.size == size && this.rows == rows
    {
      this.w, this.h, this.pitch, this.size, this.rows, gen := w, h, pitch, size, rows, 0;
    }
  }

  /** The size of a surface, as the picture's meaning needs it. */
  datatype Shape = Shape(w: nat, h: nat, size: nat)

  predicate Fits(rows: seq<Row>, s: Shape) {
    && 1 <= s.size <= 4 && |rows| == s.h
    && forall y :: 0 <= y < |rows| ==> At(s.w, s.size) <= |rows[y]|
  }

  /** The source pixel for destination pixel (x, y), if the copy writes that one. */
  predicate Writes(j: Job, src: seq<Row>, s: Shape, x: int, y: int)
    requires Fits(src, s) && j.dw > 0 && j.dh > 0
  {
    && 0 <= x - j.dl < j.dw && 0 <= y - j.dt < j.dh
    && var sx, sy := j.sl + Scaled(x - j.dl, j.sw, j.dw), j.st + Scaled(y - j.dt, j.sh, j.dh);
       && 0 <= sx < s.w && 0 <= sy < s.h
       && !(j.keyed && j.klo <= ValueOf(PixAt(src, s, sx, sy)) <= j.khi)
  }

  function PixAt(rows: seq<Row>, s: Shape, x: nat, y: nat): (p: Row)
    requires Fits(rows, s) && x < s.w && y < s.h
    ensures |p| == s.size
  {
    Pix(rows[y], x, s.size)
  }

  /** What destination pixel (x, y) is to become. */
  function NewPix(j: Job, dst: seq<Row>, d: Shape, src: seq<Row>, s: Shape, x: nat, y: nat): Row
    requires Fits(dst, d) && Fits(src, s) && j.dw > 0 && j.dh > 0 && x < d.w && y < d.h
  {
    if Writes(j, src, s, x, y) then
      BytesOf(ValueOf(PixAt(src, s, j.sl + Scaled(x - j.dl, j.sw, j.dw), j.st + Scaled(y - j.dt, j.sh, j.dh))), d.size)
    else PixAt(dst, d, x, y)
  }

  /** The picture after: every pixel as it is to become, every byte behind a row's pixels as it was. */
  predicate Blitted(j: Job, before: seq<Row>, after: seq<Row>, d: Shape, src: seq<Row>, s: Shape)
    requires Fits(before, d) && Fits(src, s) && j.dw > 0 && j.dh > 0
  {
    && Fits(after, d)
    && forall y :: 0 <= y < d.h ==> RowBlitted(j, before, after[y], d, src, s, y)
  }

  predicate RowBlitted(j: Job, before: seq<Row>, row: Row, d: Shape, src: seq<Row>, s: Shape, y: nat)
    requires Fits(before, d) && Fits(src, s) && j.dw > 0 && j.dh > 0 && y < d.h
  {
    && |row| == |before[y]|
    && row[At(d.w, d.size)..] == before[y][At(d.w, d.size)..]
    && forall x :: 0 <= x < d.w ==> Pix(row, x, d.size) == NewPix(j, before, d, src, s, x, y)
  }

  function ShapeOf(s: Surface): Shape {
    Shape(s.w, s.h, s.size)
  }

  // ---- the fast path ----

  /** The offsets a clipped copy covers in one direction: those of pixels on both surfaces. */
  ghost predicate Clips(lo: int, hi: int, dl: int, sl: int, n: int, dw: nat, sw: nat) {
    forall x :: lo <= x < hi <==> OnBoth(x, dl, sl, n, dw, sw)
  }

  predicate OnBoth(x: int, dl: int, sl: int, n: int, dw: nat, sw: nat) {
    0 <= x < n && 0 <= dl + x < dw && 0 <= sl + x < sw
  }

  method Clip(dl: int, sl: int, n: int, dw: nat, sw: nat) returns (lo: int, hi: int)
    ensures Clips(lo, hi, dl, sl, n, dw, sw)
  {
    lo := if dl < 0 then -dl else 0;
    if sl + lo < 0 {
      lo := -sl;
    }
    hi := n;
    if dl + hi > dw {
      hi := dw - dl;
    }
    if sl + hi > sw {
      hi := sw - sl;
    }
  }

  predicate Plain(j: Job) {
    j.dw == j.sw > 0 && j.dh == j.sh > 0 && !j.keyed
  }

  /** A clipped row copy makes the row what it is to become. */
  lemma RowCopied(j: Job, before: seq<Row>, d: Shape, src: seq<Row>, s: Shape, y: nat, x0: int, x1: int)
    requires Fits(before, d) && Fits(src, s) && s.size == d.size && Plain(j) && y < d.h
    requires Clips(x0, x1, j.dl, j.sl, j.dw, d.w, s.w) && x0 < x1
    requires 0 <= y - j.dt < j.dh && 0 <= j.st + (y - j.dt) < s.h
    ensures 0 <= j.dl + x0 && 0 <= j.sl + x0 && j.dl + x1 <= d.w && j.sl + x1 <= s.w
    ensures At(j.dl + x0, d.size) + At(x1 - x0, d.size) <= |before[y]|
    ensures At(j.sl + x0, d.size) + At(x1 - x0, d.size) <= |src[j.st + (y - j.dt)]|
    ensures RowBlitted(j, before,
                       CopyPix(before[y], j.dl + x0, src[j.st + (y - j.dt)], j.sl + x0, x1 - x0, d.size),
                       d, src, s, y)
  {
    hide CopyPix, Pix, ValueOf, BytesOf, Clips, Scaled, At, NewPix;
    InClip(x0, x1, j.dl, j.sl, j.dw, d.w, s.w, x0);
    InClip(x0, x1, j.dl, j.sl, j.dw, d.w, s.w, x1 - 1);
    AtFacts(j.dl + x0, d.w, x1 - x0, j.sl + x0, d.size);
    AtFacts(j.sl + x0, s.w, x1 - x0, j.dl + x0, d.size);
    var sy := j.st + (y - j.dt);
    var row := CopyPix(before[y], j.dl + x0, src[sy], j.sl + x0, x1 - x0, d.size);
    TailOfCopy(before[y], j.dl + x0, src[sy], j.sl + x0, x1 - x0, d.size, d.w);
    forall x | 0 <= x < d.w
      ensures At(x, d.size) + d.size <= |row|
      ensures Pix(row, x, d.size) == NewPix(j, before, d, src, s, x, y)
    {
      WidthFits(x, d.w, d.size);
      CopiedPix(j, before, d, src, s, x, y, x0, x1);
    }
  }

  lemma WidthFits(x: nat, w: nat, size: nat)
    requires x < w && 1 <= size <= 4
    ensures 0 <= At(x, size) && At(x, size) + size <= At(w, size)
  {
  }

  lemma InClip(lo: int, hi: int, dl: int, sl: int, n: int, dw: nat, sw: nat, x: int)
    requires Clips(lo, hi, dl, sl, n, dw, sw)
    ensures lo <= x < hi <==> 0 <= x < n && 0 <= dl + x < dw && 0 <= sl + x < sw
  {
    assert lo <= x < hi <==> OnBoth(x, dl, sl, n, dw, sw);
  }

  lemma TailOfCopy(row: Row, x: nat, src: Row, sx: nat, n: nat, size: nat, w: nat)
    requires 1 <= size <= 4 && x + n <= w && At(w, size) <= |row| && At(sx, size) + At(n, size) <= |src|
    ensures At(x, size) + At(n, size) <= At(w, size)
    ensures CopyPix(row, x, src, sx, n, size)[At(w, size)..] == row[At(w, size)..]
  {
    AtFacts(x, w, n, sx, size);
    CopyBytes(row, x, src, sx, n, size);
    hide CopyPix, At;
  }

  lemma CopiedPix(j: Job, before: seq<Row>, d: Shape, src: seq<Row>, s: Shape, x: nat, y: nat, x0: int, x1: int)
    requires Fits(before, d) && Fits(src, s) && s.size == d.size && Plain(j) && x < d.w && y < d.h
    requires Clips(x0, x1, j.dl, j.sl, j.dw, d.w, s.w) && 0 <= j.dl + x0 && 0 <= j.sl + x0 && x0 < x1
    requires j.dl + x1 <= d.w && j.sl + x1 <= s.w
    requires 0 <= y - j.dt < j.dh && 0 <= j.st + (y - j.dt) < s.h
    requires At(x, d.size) + d.size <= |before[y]|
    requires At(j.dl + x0, d.size) + At(x1 - x0, d.size) <= |before[y]|
    requires At(j.sl + x0, d.size) + At(x1 - x0, d.size) <= |src[j.st + (y - j.dt)]|
    ensures Pix(CopyPix(before[y], j.dl + x0, src[j.st + (y - j.dt)], j.sl + x0, x1 - x0, d.size), x, d.size)
         == NewPix(j, before, d, src, s, x, y)
  {
    hide CopyPix, Clips, Scaled, At, ValueOf, BytesOf, NewPix, Pix;
    var sy := j.st + (y - j.dt);
    InClip(x0, x1, j.dl, j.sl, j.dw, d.w, s.w, x - j.dl);
    AtFacts(j.dl + x0, d.w, x1 - x0, j.sl + x0, d.size);
    AtFacts(j.sl + x0, s.w, x1 - x0, j.dl + x0, d.size);
    PixOfCopy(before[y], j.dl + x0, src[sy], j.sl + x0, x1 - x0, d.size, x);
    PlainPix(j, before, d, src, s, x, y);
  }

  /** What a plain copy makes of a pixel. */
  lemma PlainPix(j: Job, before: seq<Row>, d: Shape, src: seq<Row>, s: Shape, x: nat, y: nat)
    requires Fits(before, d) && Fits(src, s) && s.size == d.size && Plain(j) && x < d.w && y < d.h
    ensures NewPix(j, before, d, src, s, x, y) ==
            if 0 <= x - j.dl < j.dw && 0 <= y - j.dt < j.dh
               && 0 <= j.sl + (x - j.dl) < s.w && 0 <= j.st + (y - j.dt) < s.h
            then PixAt(src, s, j.sl + (x - j.dl), j.st + (y - j.dt))
            else PixAt(before, d, x, y)
  {
    assert 1 <= s.size <= 4;
    hide Scaled, ValueOf, BytesOf, PixAt, Fits;
    if 0 <= x - j.dl < j.dw && 0 <= y - j.dt < j.dh {
      ScaledSame(x - j.dl, j.dw);
      ScaledSame(y - j.dt, j.dh);
      if 0 <= j.sl + (x - j.dl) < s.w && 0 <= j.st + (y - j.dt) < s.h {
        BytesBack(PixAt(src, s, j.sl + (x - j.dl), j.st + (y - j.dt)));
      }
    }
  }

  /** A row the copy does not reach stays. */
  lemma RowUntouched(j: Job, before: seq<Row>, d: Shape, src: seq<Row>, s: Shape, y: nat)
    requires Fits(before, d) && Fits(src, s) && j.dw > 0 && j.dh > 0 && y < d.h
    requires forall x :: 0 <= x < d.w ==> !Writes(j, src, s, x, y)
    ensures RowBlitted(j, before, before[y], d, src, s, y)
  {
  }

  /** The copied rows are those of offsets y0 to y1, and none when no column is copied. */
  predicate InRows(j: Job, y: nat, y0: int, y1: int, x0: int, x1: int) {
    x0 < x1 && y0 <= y - j.dt < y1
  }

  method CopyRows(d: Surface, j: Job, src: seq<Row>, s: Shape)
    requires d.Valid() && Fits(src, s) && s.size == d.size && Plain(j)
    modifies d.rows
    ensures d.Valid() && Fits(old(d.rows[..]), ShapeOf(d))
    ensures Blitted(j, old(d.rows[..]), d.rows[..], ShapeOf(d), src, s)
  {
    hide RowBlitted, CopyPix, Clips, At;
    ghost var before, shape := d.rows[..], ShapeOf(d);
    var x0, x1 := Clip(j.dl, j.sl, j.dw, d.w, s.w);
    var y0, y1 := Clip(j.dt, j.st, j.dh, d.h, s.h);
    forall y | 0 <= y < d.h && !InRows(j, y, y0, y1, x0, x1)
      ensures RowBlitted(j, before, before[y], shape, src, s, y)
    {
      RowNotCopied(j, before, shape, src, s, y, x0, x1, y0, y1);
    }
    var y := y0;
    while y < y1 && x1 > x0
      invariant y0 <= y && (y <= y1 || y == y0)
      invariant d.Valid()
      invariant forall r :: 0 <= r < d.h && InRows(j, r, y0, y, x0, x1) ==>
                              RowBlitted(j, before, d.rows[r], shape, src, s, r)
      invariant forall r :: 0 <= r < d.h && !InRows(j, r, y0, y, x0, x1) ==> d.rows[r] == before[r]
      decreases y1 - y
    {
      InClip(y0, y1, j.dt, j.st, j.dh, d.h, s.h, y);
      var ty := j.dt + y;
      RowCopied(j, before, shape, src, s, ty, x0, x1);
      d.rows[ty] := CopyPix(d.rows[ty], j.dl + x0, src[j.st + y], j.sl + x0, x1 - x0, d.size);
      y := y + 1;
    }
  }

  lemma RowNotCopied(j: Job, before: seq<Row>, d: Shape, src: seq<Row>, s: Shape, y: nat, x0: int, x1: int,
                     y0: int, y1: int)
    requires Fits(before, d) && Fits(src, s) && s.size == d.size && Plain(j) && y < d.h
    requires Clips(x0, x1, j.dl, j.sl, j.dw, d.w, s.w) && Clips(y0, y1, j.dt, j.st, j.dh, d.h, s.h)
    requires !InRows(j, y, y0, y1, x0, x1)
    ensures RowBlitted(j, before, before[y], d, src, s, y)
  {
    hide At, Pix, Scaled, ValueOf;
    forall x | 0 <= x < d.w
      ensures !Writes(j, src, s, x, y)
    {
      InClip(x0, x1, j.dl, j.sl, j.dw, d.w, s.w, x - j.dl);
      InClip(y0, y1, j.dt, j.st, j.dh, d.h, s.h, y - j.dt);
      if 0 <= x - j.dl < j.dw && 0 <= y - j.dt < j.dh {
        ScaledSame(x - j.dl, j.dw);
        ScaledSame(y - j.dt, j.dh);
      }
    }
    RowUntouched(j, before, d, src, s, y);
  }

  // ---- the slow path ----

  /** A row with the pixels before x written. */
  predicate RowPart(j: Job, before: seq<Row>, row: Row, d: Shape, src: seq<Row>, s: Shape, y: nat, upto: int)
    requires Fits(before, d) && Fits(src, s) && j.dw > 0 && j.dh > 0 && y < d.h
  {
    && |row| == |before[y]|
    && row[At(d.w, d.size)..] == before[y][At(d.w, d.size)..]
    && forall x :: 0 <= x < d.w ==>
                     Pix(row, x, d.size) ==
                     if x - j.dl < upto then NewPix(j, before, d, src, s, x, y) else PixAt(before, d, x, y)
  }

  lemma NothingWritten(j: Job, before: seq<Row>, d: Shape, src: seq<Row>, s: Shape, y: nat)
    requires Fits(before, d) && Fits(src, s) && j.dw > 0 && j.dh > 0 && y < d.h
    ensures RowPart(j, before, before[y], d, src, s, y, 0)
  {
    hide At, Pix, Scaled, ValueOf;
  }

  lemma AllWritten(j: Job, before: seq<Row>, row: Row, d: Shape, src: seq<Row>, s: Shape, y: nat)
    requires Fits(before, d) && Fits(src, s) && j.dw > 0 && j.dh > 0 && y < d.h
    requires RowPart(j, before, row, d, src, s, y, j.dw)
    ensures RowBlitted(j, before, row, d, src, s, y)
  {
    hide At, Pix, Scaled, ValueOf;
  }

  /** The pixel at offset x is left, or written. */
  lemma PixelDone(j: Job, before: seq<Row>, row: Row, d: Shape, src: seq<Row>, s: Shape, y: nat, x: nat)
    requires Fits(before, d) && Fits(src, s) && j.dw > 0 && j.dh > 0 && y < d.h && x < j.dw
    requires RowPart(j, before, row, d, src, s, y, x)
    ensures !(0 <= j.dl + x < d.w && Writes(j, src, s, j.dl + x, y)) ==> RowPart(j, before, row, d, src, s, y, x + 1)
    ensures 0 <= j.dl + x < d.w ==>
              && At(j.dl + x, d.size) + d.size <= |row|
              && (Writes(j, src, s, j.dl + x, y) ==>
                    RowPart(j, before, PutPix(row, j.dl + x, NewPix(j, before, d, src, s, j.dl + x, y)),
                            d, src, s, y, x + 1))
  {
    hide Pix, Scaled, ValueOf, BytesOf, PutPix, Writes, NewPix, At;
    if 0 <= j.dl + x < d.w {
      var t := j.dl + x;
      WidthFits(t, d.w, d.size);
      NewPixSize(j, before, d, src, s, t, y);
      var p := NewPix(j, before, d, src, s, t, y);
      var put := PutPix(row, t, p);
      TailOfPut(row, t, p, d.w);
      forall z | 0 <= z < d.w
        ensures At(z, d.size) + d.size <= |row|
        ensures Pix(put, z, d.size) == if z == t then p else Pix(row, z, d.size)
      {
        WidthFits(z, d.w, d.size);
        PixOfPut(row, t, p, z);
      }
      if !Writes(j, src, s, t, y) {
        NewPixOld(j, before, d, src, s, t, y);
      }
    }
  }

  lemma NewPixSize(j: Job, before: seq<Row>, d: Shape, src: seq<Row>, s: Shape, x: nat, y: nat)
    requires Fits(before, d) && Fits(src, s) && j.dw > 0 && j.dh > 0 && x < d.w && y < d.h
    ensures |NewPix(j, before, d, src, s, x, y)| == d.size
  {
  }

  lemma NewPixOld(j: Job, before: seq<Row>, d: Shape, src: seq<Row>, s: Shape, x: nat, y: nat)
    requires Fits(before, d) && Fits(src, s) && j.dw > 0 && j.dh > 0 && x < d.w && y < d.h
    requires !Writes(j, src, s, x, y)
    ensures NewPix(j, before, d, src, s, x, y) == PixAt(before, d, x, y)
  {
  }

  lemma TailOfPut(row: Row, x: nat, p: Row, w: nat)
    requires 1 <= |p| <= 4 && x < w && At(w, |p|) <= |row|
    ensures At(x, |p|) + |p| <= At(w, |p|)
    ensures PutPix(row, x, p)[At(w, |p|)..] == row[At(w, |p|)..]
  {
  }

  /** One row of the slow path. */
  method ScaleRow(d: Surface, j: Job, src: seq<Row>, s: Shape, ty: nat, sy: int, ghost before: seq<Row>)
    requires d.Valid() && Fits(src, s) && j.dw > 0 && j.dh > 0 && Fits(before, ShapeOf(d))
    requires ty < d.h && 0 <= ty - j.dt < j.dh && sy == j.st + Scaled(ty - j.dt, j.sh, j.dh) && 0 <= sy < s.h
    requires d.rows[ty] == before[ty]
    modifies d.rows
    ensures d.Valid()
    ensures RowBlitted(j, before, d.rows[ty], ShapeOf(d), src, s, ty)
    ensures forall r :: 0 <= r < d.h && r != ty ==> d.rows[r] == old(d.rows[r])
  {
    hide RowPart, RowBlitted, Scaled, Pix, ValueOf, BytesOf, PutPix, At;
    ghost var shape := ShapeOf(d);
    NothingWritten(j, before, shape, src, s, ty);
    var x := 0;
    while x < j.dw
      invariant 0 <= x <= j.dw && d.Valid()
      invariant RowPart(j, before, d.rows[ty], shape, src, s, ty, x)
      invariant forall r :: 0 <= r < d.h && r != ty ==> d.rows[r] == old(d.rows[r])
    {
      PixelDone(j, before, d.rows[ty], shape, src, s, ty, x);
      var tx, sx := j.dl + x, j.sl + Scaled(x, j.sw, j.dw);
      if 0 <= tx < d.w && 0 <= sx < s.w {
        var v := ValueOf(PixAt(src, s, sx, sy));
        if !(j.keyed && j.klo <= v <= j.khi) {
          assert Writes(j, src, s, tx, ty);
          d.rows[ty] := PutPix(d.rows[ty], tx, BytesOf(v, d.size));
        }
      }
      x := x + 1;
    }
    AllWritten(j, before, d.rows[ty], shape, src, s, ty);
  }

  method ScalePixels(d: Surface, j: Job, src: seq<Row>, s: Shape)
    requires d.Valid() && Fits(src, s) && j.dw > 0 && j.dh > 0
    modifies d.rows
    ensures d.Valid() && Fits(old(d.rows[..]), ShapeOf(d))
    ensures Blitted(j, old(d.rows[..]), d.rows[..], ShapeOf(d), src, s)
  {
    hide RowBlitted, Scaled, At, NewPix;
    ghost var before, shape := d.rows[..], ShapeOf(d);
    var y := 0;
    while y < j.dh
      invariant 0 <= y <= j.dh && d.Valid()
      invariant forall r :: 0 <= r < d.h && 0 <= r - j.dt < y ==> RowBlitted(j, before, d.rows[r], shape, src, s, r)
      invariant forall r :: 0 <= r < d.h && !(0 <= r - j.dt < y) ==> d.rows[r] == before[r]
    {
      var ty, sy := j.dt + y, j.st + Scaled(y, j.sh, j.dh);
      if 0 <= ty < d.h {
        if 0 <= sy < s.h {
          ScaleRow(d, j, src, s, ty, sy, before);
        } else {
          RowUntouched(j, before, shape, src, s, ty);
        }
      }
      y := y + 1;
    }
    forall r | 0 <= r < d.h && !(0 <= r - j.dt < j.dh)
      ensures RowBlitted(j, before, before[r], shape, src, s, r)
    {
      RowUntouched(j, before, shape, src, s, r);
    }
  }

  // ---- the copy ----

  function JobOf(dl: int, dt: int, dr: int, db: int, sl: int, st: int, sr: int, sb: int, keyed: bool, klo: u32,
                 khi: u32): Job {
    Job(dl, dt, dr - dl, db - dt, sl, st, sr - sl, sb - st, keyed, klo, khi)
  }

  /** blit: whichever path is taken, the picture becomes the one meant, from the source as it was before
      the first write. Nothing happens to an empty rectangle. */
  method Blit(d: Surface, dl: int, dt: int, dr: int, db: int, s: Surface, sl: int, st: int, sr: int, sb: int,
              keyed: bool, klo: u32, khi: u32)
    requires d.Valid() && s.Valid() && (s != d ==> s.rows != d.rows)
    modifies d`gen, d.rows
    ensures d.Valid() && Fits(old(d.rows[..]), ShapeOf(d)) && Fits(old(s.rows[..]), ShapeOf(s))
    ensures dr <= dl || db <= dt || sr <= sl || sb <= st ==> d.rows[..] == old(d.rows[..]) && d.gen == old(d.gen)
    ensures dr > dl && db > dt && sr > sl && sb > st ==>
              && Blitted(JobOf(dl, dt, dr, db, sl, st, sr, sb, keyed, klo, khi),
                         old(d.rows[..]), d.rows[..], ShapeOf(d),
                         old(s.rows[..]), ShapeOf(s))
              && d.gen == old(d.gen) + 1
  {
    hide Blitted;
    var j := JobOf(dl, dt, dr, db, sl, st, sr, sb, keyed, klo, khi);
    if j.dw <= 0 || j.dh <= 0 || j.sw <= 0 || j.sh <= 0 {
      return;
    }
    var src := s.rows[..];       // copied out: when the surfaces differ the source does not change
    if j.dw == j.sw && j.dh == j.sh && !j.keyed && s.size == d.size {
      CopyRows(d, j, src, ShapeOf(s));
    } else {
      ScalePixels(d, j, src, ShapeOf(s));
    }
    d.gen := d.gen + 1;
  }

  /** The meaning leaves no choice: both paths give the same bytes. */
  lemma {:induction false} OnePicture(j: Job, before: seq<Row>, d: Shape, src: seq<Row>, s: Shape, a: seq<Row>,
                                      b: seq<Row>)
    requires Fits(before, d) && Fits(src, s) && j.dw > 0 && j.dh > 0
    requires Blitted(j, before, a, d, src, s) && Blitted(j, before, b, d, src, s)
    ensures a == b
  {
    forall y | 0 <= y < d.h
      ensures a[y] == b[y]
    {
      assert RowBlitted(j, before, a[y], d, src, s, y) && RowBlitted(j, before, b[y], d, src, s, y);
      forall x | 0 <= x < d.w
        ensures At(x, d.size) + d.size <= |a[y]| && Pix(a[y], x, d.size) == Pix(b[y], x, d.size)
      {
        WidthFits(x, d.w, d.size);
      }
      SameRow(a[y], b[y], d.size, d.w);
    }
  }

  lemma {:induction false} SameRow(a: Row, b: Row, size: nat, w: nat)
    requires 1 <= size <= 4 && |a| == |b| && At(w, size) <= |a|
    requires a[At(w, size)..] == b[At(w, size)..]
    requires forall x :: 0 <= x < w ==> At(x, size) + size <= |a| && Pix(a, x, size) == Pix(b, x, size)
    ensures a == b
    decreases w
  {
    if w == 0 {
      assert a[0..] == a && b[0..] == b;
    } else {
      var q := At(w - 1, size);
      assert q + size == At(w, size);
      assert Pix(a, w - 1, size) == Pix(b, w - 1, size);
      hide At;
      assert a[q..] == a[q..q + size] + a[q + size..];
      assert b[q..] == b[q..q + size] + b[q + size..];
      SameRow(a, b, size, w - 1);
    }
  }

  /** Inside both surfaces a plain copy moves pixel (x, y) of the source rectangle to (x, y) of the
      destination rectangle, also within one surface. */
  lemma PlainMoves(j: Job, before: seq<Row>, after: seq<Row>, d: Shape, src: seq<Row>, s: Shape, x: nat, y: nat)
    requires Fits(before, d) && Fits(src, s) && s.size == d.size && Plain(j) && Blitted(j, before, after, d, src, s)
    requires x < j.dw && y < j.dh && 0 <= j.dl + x < d.w && 0 <= j.dt + y < d.h
    requires 0 <= j.sl + x < s.w && 0 <= j.st + y < s.h
    ensures PixAt(after, d, j.dl + x, j.dt + y) == PixAt(src, s, j.sl + x, j.st + y)
  {
    hide NewPix, Pix, ValueOf, BytesOf, Scaled, At;
    assert RowBlitted(j, before, after[j.dt + y], d, src, s, j.dt + y);
    PlainPix(j, before, d, src, s, j.dl + x, j.dt + y);
  }

  /** The nearest source offset is the quotient rounded down. */
  lemma ScaledIs(x: nat, sw: int, dw: int, sx: int)
    requires dw > 0 && sx * dw <= x * sw < sx * dw + dw
    ensures Scaled(x, sw, dw) == sx
  {
    Remainder(x * sw, dw, sx, x * sw - sx * dw);
  }

  /** The picture pixel by pixel, in the arguments of the call. Offset (x, y) of the destination rectangle
      takes the source pixel at the quotients rounded down; it stays as it was if that pixel is not on the
      source surface or its number is in the key's range, and otherwise has its low bytes. Every pixel
      outside the rectangle stays. */
  lemma PixelMeant(dl: int, dt: int, dr: int, db: int, sl: int, st: int, sr: int, sb: int, keyed: bool, klo: u32,
                   khi: u32, before: seq<Row>, after: seq<Row>, d: Shape, src: seq<Row>, s: Shape, x: int, y: int,
                   sx: int, sy: int)
    requires Fits(before, d) && Fits(src, s) && dr > dl && db > dt
    requires Blitted(JobOf(dl, dt, dr, db, sl, st, sr, sb, keyed, klo, khi), before, after, d, src, s)
    requires 0 <= dl + x < d.w && 0 <= dt + y < d.h
    requires 0 <= x < dr - dl && 0 <= y < db - dt ==>
               && sx * (dr - dl) <= x * (sr - sl) < sx * (dr - dl) + (dr - dl)
               && sy * (db - dt) <= y * (sb - st) < sy * (db - dt) + (db - dt)
    ensures var was, now := PixAt(before, d, dl + x, dt + y), PixAt(after, d, dl + x, dt + y);
      if !(0 <= x < dr - dl && 0 <= y < db - dt && 0 <= sl + sx < s.w && 0 <= st + sy < s.h) then now == was
      else
        var v := Little(PixAt(src, s, sl + sx, st + sy));
        if keyed && klo <= v <= khi then now == was else v < 0x1_0000_0000 && now == BytesOf(v, d.size)
  {
    hide Scaled, ValueOf, BytesOf, At, Pix, Little;
    var j := JobOf(dl, dt, dr, db, sl, st, sr, sb, keyed, klo, khi);
    assert RowBlitted(j, before, after[dt + y], d, src, s, dt + y);
    if 0 <= x < dr - dl && 0 <= y < db - dt {
      ScaledIs(x, j.sw, j.dw, sx);
      ScaledIs(y, j.sh, j.dh, sy);
      if 0 <= sl + sx < s.w && 0 <= st + sy < s.h {
        ValueIsLittle(PixAt(src, s, sl + sx, st + sy));
      }
    }
  }
}
