/**
 Which pixels a command draws and what a drawn pixel leaves (runtime/win32hle/d3d_raster.c), said of the
 pixels themselves: the fragments of a triangle are the covered pixels of its box inside the clip
 rectangle, row by row from the left, those of a line its points inside it in order; a fragment changes
 its own pixel and depth and nothing else.
 */
module RasterPixels {
  import opened Wrappers
  import opened RasterStreams

  // ---- triangles ----

  /** f is the fragment of a covered pixel of the rectangle. */
  ghost predicate PixelOf(gpu: Gpu, st: RState, v: int, f: Frag, x0: int, x1: int, y0: int, y1: int) {
    && x0 <= f.x < x1 && y0 <= f.y < y1 && f.target == st.target && f.zbuf == st.zbuf
    && gpu.covered(st.(clipT := 0, clipB := 0), v, f.x, f.y) == Some(f.shade)
  }

  /** Row by row, and in a row from the left; so no pixel comes twice. */
  predicate RowMajor(fs: seq<Frag>) {
    forall i, j :: 0 <= i < j < |fs| ==> fs[i].y < fs[j].y || (fs[i].y == fs[j].y && fs[i].x < fs[j].x)
  }

  predicate Has(fs: seq<Frag>, x: int, y: int) {
    exists i :: 0 <= i < |fs| && fs[i].x == x && fs[i].y == y
  }

  /** fs draws the covered pixels of the rectangle, each once, in row-major order. */
  ghost predicate Draws(gpu: Gpu, st: RState, v: int, fs: seq<Frag>, x0: int, x1: int, y0: int, y1: int) {
    && (forall i :: 0 <= i < |fs| ==> PixelOf(gpu, st, v, fs[i], x0, x1, y0, y1))
    && RowMajor(fs)
    && forall x, y :: x0 <= x < x1 && y0 <= y < y1 && gpu.covered(st.(clipT := 0, clipB := 0), v, x, y).Some? ==>
         Has(fs, x, y)
  }

  predicate Before(a: seq<Frag>, b: seq<Frag>) {
    forall i, j :: 0 <= i < |a| && 0 <= j < |b| ==> a[i].y < b[j].y || (a[i].y == b[j].y && a[i].x < b[j].x)
  }

  lemma RowMajorBoth(a: seq<Frag>, b: seq<Frag>)
    requires RowMajor(a) && RowMajor(b) && Before(a, b)
    ensures RowMajor(a + b)
  {
    var fs := a + b;
    forall i, j | 0 <= i < j < |fs| ensures fs[i].y < fs[j].y || (fs[i].y == fs[j].y && fs[i].x < fs[j].x) {
      if i < |a| <= j {
        assert fs[i] == a[i] && fs[j] == b[j - |a|];
      } else if j < |a| {
        assert fs[i] == a[i] && fs[j] == a[j];
      } else {
        assert fs[i] == b[i - |a|] && fs[j] == b[j - |a|];
      }
    }
  }

  lemma HasBoth(a: seq<Frag>, b: seq<Frag>, x: int, y: int)
    requires Has(a, x, y) || Has(b, x, y)
    ensures Has(a + b, x, y)
  {
    if Has(a, x, y) {
      var i :| 0 <= i < |a| && a[i].x == x && a[i].y == y;
      assert (a + b)[i] == a[i];
    } else {
      var i :| 0 <= i < |b| && b[i].x == x && b[i].y == y;
      assert (a + b)[|a| + i] == b[i];
    }
  }

  /** Two parts of a rectangle, side by side in one row or one above the other, one drawn after the other. */
  lemma DrawsBoth(gpu: Gpu, st: RState, v: int, a: seq<Frag>, b: seq<Frag>, x0: int, x1: int, x2: int, y0: int,
                  y1: int, y2: int)
    requires Draws(gpu, st, v, a, x0, x1, y0, y1) && x0 <= x1 && y0 <= y1
    requires if y2 == y1 then y1 == y0 + 1 && x1 <= x2 && Draws(gpu, st, v, b, x1, x2, y0, y1)
             else x2 == x1 && y1 < y2 && Draws(gpu, st, v, b, x0, x1, y1, y2)
    ensures Draws(gpu, st, v, a + b, x0, x2, y0, y2)
  {
    hide Has, RowMajor;
    assert Before(a, b);
    RowMajorBoth(a, b);
    forall i | 0 <= i < |a + b| ensures PixelOf(gpu, st, v, (a + b)[i], x0, x2, y0, y2) {
      if i < |a| {
        assert PixelOf(gpu, st, v, a[i], x0, x1, y0, y1);
      } else {
        var f := b[i - |a|];
        assert PixelOf(gpu, st, v, f, if y2 == y1 then x1 else x0, x2, if y2 == y1 then y0 else y1, y2);
      }
    }
    forall x, y | x0 <= x < x2 && y0 <= y < y2 && gpu.covered(st.(clipT := 0, clipB := 0), v, x, y).Some?
      ensures Has(a + b, x, y)
    {
      HasBoth(a, b, x, y);
    }
  }

  lemma OnePixel(gpu: Gpu, st: RState, v: int, x: int, y: int)
    ensures Draws(gpu, st, v, TrianglePixel(gpu, st, v, x, y), x, x + 1, y, y + 1)
  {
    var px := TrianglePixel(gpu, st, v, x, y);
    if px != [] {
      assert px[0].x == x && px[0].y == y;
      assert Has(px, x, y);
    }
  }

  lemma {:induction false} OneRow(gpu: Gpu, st: RState, v: int, x0: int, x1: int, y: int)
    requires x0 <= x1
    ensures Draws(gpu, st, v, TriangleRow(gpu, st, v, x0, x1, y), x0, x1, y, y + 1)
    decreases x1 - x0
  {
    hide Draws, TrianglePixel;
    if x0 == x1 {
      Nothing(gpu, st, v, x0, x1, y, y + 1);
    } else {
      OneRow(gpu, st, v, x0, x1 - 1, y);
      OnePixel(gpu, st, v, x1 - 1, y);
      DrawsBoth(gpu, st, v, TriangleRow(gpu, st, v, x0, x1 - 1, y), TrianglePixel(gpu, st, v, x1 - 1, y),
                x0, x1 - 1, x1, y, y + 1, y + 1);
    }
  }

  lemma Nothing(gpu: Gpu, st: RState, v: int, x0: int, x1: int, y0: int, y1: int)
    requires x0 >= x1 || y0 >= y1
    ensures Draws(gpu, st, v, [], x0, x1, y0, y1)
  {
  }

  lemma {:induction false} AllRows(gpu: Gpu, st: RState, v: int, x0: int, x1: int, y0: int, y1: int)
    requires x0 <= x1 && y0 <= y1
    ensures Draws(gpu, st, v, TriangleRows(gpu, st, v, x0, x1, y0, y1), x0, x1, y0, y1)
    decreases y1 - y0
  {
    hide Draws, TriangleRow;
    if y0 == y1 {
      Nothing(gpu, st, v, x0, x1, y0, y1);
    } else {
      AllRows(gpu, st, v, x0, x1, y0, y1 - 1);
      OneRow(gpu, st, v, x0, x1, y1 - 1);
      DrawsBoth(gpu, st, v, TriangleRows(gpu, st, v, x0, x1, y0, y1 - 1), TriangleRow(gpu, st, v, x0, x1, y1 - 1),
                x0, x1, x1, y0, y1 - 1, y1);
    }
  }

  lemma {:induction false} NoRows(gpu: Gpu, st: RState, v: int, x0: int, x1: int, y0: int, y1: int)
    requires x0 >= x1
    ensures TriangleRows(gpu, st, v, x0, x1, y0, y1) == []
    decreases y1 - y0
  {
    if y0 < y1 {
      NoRows(gpu, st, v, x0, x1, y0, y1 - 1);
    }
  }

  /** A triangle draws its covered pixels that are in its box and in the clip rectangle, each once, row
      by row from the left, with the state's target and z-buffer; without a box it draws nothing. */
  lemma TriangleDraws(gpu: Gpu, st: RState, c: Command)
    requires !c.line
    ensures var fs := Frags(gpu, st, c);
      match gpu.box(st.(clipT := 0, clipB := 0), c.verts)
      case None => fs == []
      case Some(b) =>
        && RowMajor(fs)
        && (forall i :: 0 <= i < |fs| ==>
              && PixelOf(gpu, st, c.verts, fs[i], b.x0, b.x1, b.y0, b.y1)
              && st.clipL <= fs[i].x < st.clipR && st.clipT <= fs[i].y < st.clipB)
        && forall x, y ::
             (b.x0 <= x < b.x1 && b.y0 <= y < b.y1 && st.clipL <= x < st.clipR && st.clipT <= y < st.clipB
              && gpu.covered(st.(clipT := 0, clipB := 0), c.verts, x, y).Some?) ==> Has(fs, x, y)
  {
    hide TriangleRows, RowMajor, Has;
    match gpu.box(Blind(st), c.verts)
    case None =>
    case Some(b) =>
      var x0, x1, y0, y1 := Max(b.x0, st.clipL), Min(b.x1, st.clipR), Max(b.y0, st.clipT), Min(b.y1, st.clipB);
      if x0 <= x1 && y0 <= y1 {
        AllRows(gpu, st, c.verts, x0, x1, y0, y1);
      } else {
        NoFragments(gpu, st, c.verts, x0, x1, y0, y1);
        Nothing(gpu, st, c.verts, x0, x1, y0, y1);
      }
      var fs := Frags(gpu, st, c);
      assert forall i :: 0 <= i < |fs| ==> PixelOf(gpu, st, c.verts, fs[i], x0, x1, y0, y1);
  }

  lemma NoFragments(gpu: Gpu, st: RState, v: int, x0: int, x1: int, y0: int, y1: int)
    requires x0 > x1 || y0 > y1
    ensures TriangleRows(gpu, st, v, x0, x1, y0, y1) == []
  {
    if x0 > x1 {
      NoRows(gpu, st, v, x0, x1, y0, y1);
    }
  }

  // ---- lines ----

  /** fs draws the points with these numbers, in this order. */
  ghost predicate DrawsPoints(gpu: Gpu, st: RState, v: int, fs: seq<Frag>, ks: seq<nat>) {
    && |fs| == |ks|
    && forall j :: 0 <= j < |fs| ==>
         var p := gpu.point(v, ks[j]);
         fs[j] == Frag(p.0, p.1, st.target, st.zbuf, gpu.lineShade(st.(clipT := 0, clipB := 0), v, ks[j]))
  }

  /** Each of the first n points that is in the clip rectangle, once, in order. */
  ghost predicate InOrder(gpu: Gpu, st: RState, v: int, ks: seq<nat>, n: nat) {
    && (forall i, j :: 0 <= i < j < |ks| ==> ks[i] < ks[j])
    && forall k: nat :: k in ks <==>
         k < n && var p := gpu.point(v, k); st.clipL <= p.0 < st.clipR && st.clipT <= p.1 < st.clipB
  }

  lemma {:induction false} PointsDrawn(gpu: Gpu, st: RState, v: int, n: nat) returns (ks: seq<nat>)
    ensures DrawsPoints(gpu, st, v, LinePixels(gpu, st, v, n), ks) && InOrder(gpu, st, v, ks, n)
    decreases n
  {
    if n == 0 {
      ks := [];
    } else {
      var ks0 := PointsDrawn(gpu, st, v, n - 1);
      var p := gpu.point(v, n - 1);
      ks := if InClip(st, p.0, p.1) then ks0 + [n - 1] else ks0;
      assert forall j :: 0 <= j < |ks0| ==> ks0[j] in ks0;
    }
  }

  /** A line of 1 to 8192 steps draws each of its points from its start to its end that is in the clip
      rectangle, once and in order; any other line nothing. */
  lemma LineDraws(gpu: Gpu, st: RState, c: Command) returns (ks: seq<nat>)
    requires c.line
    ensures var fs, n := Frags(gpu, st, c), gpu.steps(c.verts);
      if 1 <= n <= 8192 then DrawsPoints(gpu, st, c.verts, fs, ks) && InOrder(gpu, st, c.verts, ks, n + 1) else fs == []
  {
    hide LinePixels, DrawsPoints, InOrder;
    var n := gpu.steps(c.verts);
    ks := [];
    if n > 0 {
      ks := PointsDrawn(gpu, st, c.verts, n + 1);
    }
  }

  // ---- the picture ----

  /** What a fragment leaves: nothing changed if it is discarded; otherwise its depth in the z-buffer if it
      has one and there is one, its colour in the target unless the depth went to the same place, and
      every other location as it was. */
  lemma FragmentLeaves(pic: Picture, f: Frag, l: Loc)
    ensures var at := Loc(f.target, f.x, f.y);
      var z := if f.zbuf.Some? then pic(Loc(f.zbuf.value, f.x, f.y)) else 0;
      Apply(pic, f)(l) ==
        match f.shade(pic(at), z)
        case Discard => pic(l)
        case Write(color, depth) =>
          if depth.Some? && f.zbuf == Some(l.surface) && l.x == f.x && l.y == f.y then depth.value
          else if l == at then color
          else pic(l)
  {
  }

  /** The last fragment to touch a place decides it: what is there after the whole stream is what that
      fragment left, drawn over everything before it. */
  lemma {:induction false} LastDecides(pic: Picture, fs: seq<Frag>, k: nat, l: Loc)
    requires k < |fs| && forall i :: k < i < |fs| ==> fs[i].x != l.x || fs[i].y != l.y
    ensures ApplyAll(pic, fs)(l) == Apply(ApplyAll(pic, fs[..k]), fs[k])(l)
    decreases |fs|
  {
    hide Apply;
    var front := fs[..|fs| - 1];
    if k < |front| {
      assert front[..k] == fs[..k] && front[k] == fs[k];
      LastDecides(pic, front, k, l);
      FragmentLeaves(ApplyAll(pic, front), fs[|fs| - 1], l);
    }
  }
}
