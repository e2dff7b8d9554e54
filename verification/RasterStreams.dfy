/**
 Drawing commands as streams of fragments (runtime/win32hle/d3d_raster.c). The float arithmetic of
 coverage and colour is abstract: a Gpu says which pixels of a command's box are covered and what a
 fragment does to the pixel and depth value it finds. What is kept is everything that decides
 order and place: the loops, the clip rectangle, and that a fragment reads and writes its own pixel
 of the target and of the z-buffer only.
 */
module RasterStreams {
  import opened Wrappers

  /** A pixel of a surface. A z-buffer is a surface too. */
  datatype Loc = Loc(surface: nat, x: int, y: int)

  /** The contents of every surface. */
  type Picture = Loc -> int

  /** rstate_t: where it draws, its clip rectangle, and everything else it holds. */
  datatype RState = RState(target: nat, zbuf: Option<nat>, clipL: int, clipT: int, clipR: int, clipB: int, rest: int)

  /** What shade does with the pixel and depth it finds: nothing, or a colour and perhaps a depth. */
  datatype Shaded = Discard | Write(color: int, depth: Option<int>)

  type Shade = (int, int) -> Shaded

  datatype Box = Box(x0: int, y0: int, x1: int, y1: int)

  /** A command: its state's index, triangle or line, and its vertices (an abstract number). */
  datatype Command = Command(state: nat, line: bool, verts: int)

  /** The float code. `box` is a triangle's bounding box before clipping (None when it is degenerate
      or culled), `covered` whether a pixel centre is inside and how it is shaded; `steps` and
      `point` are a line's pixels in order. None of them sees the clip's top and bottom. */
  datatype Gpu = Gpu(
    box: (RState, int) -> Option<Box>,
    covered: (RState, int, int, int) -> Option<Shade>,
    steps: int -> int,
    point: (int, int) -> (int, int),
    lineShade: (RState, int, int) -> Shade)

  datatype Frag = Frag(x: int, y: int, target: nat, zbuf: Option<nat>, shade: Shade)

  function Max(a: int, b: int): int {
    if a > b then a else b
  }

  function Min(a: int, b: int): int {
    if a < b then a else b
  }

  /** A state as the float code sees it. */
  function Blind(st: RState): RState {
    st.(clipT := 0, clipB := 0)
  }

  // ---- what a fragment does ----

  function Depth(pic: Picture, f: Frag): int {
    if f.zbuf.Some? then pic(Loc(f.zbuf.value, f.x, f.y)) else 0
  }

  function Store(pic: Picture, l: Loc, v: int): Picture {
    (k: Loc) => if k == l then v else pic(k)
  }

  /** shade: the pixel is stored before the depth. */
  function Apply(pic: Picture, f: Frag): Picture {
    match f.shade(pic(Loc(f.target, f.x, f.y)), Depth(pic, f))
    case Discard => pic
    case Write(color, depth) =>
      var p := Store(pic, Loc(f.target, f.x, f.y), color);
      if depth.Some? && f.zbuf.Some? then Store(p, Loc(f.zbuf.value, f.x, f.y), depth.value) else p
  }

  function ApplyAll(pic: Picture, fs: seq<Frag>): Picture {
    if fs == [] then pic else Apply(ApplyAll(pic, fs[..|fs| - 1]), fs[|fs| - 1])
  }

  // ---- the streams ----

  function TrianglePixel(gpu: Gpu, st: RState, v: int, x: int, y: int): seq<Frag> {
    match gpu.covered(Blind(st), v, x, y)
    case None => []
    case Some(s) => [Frag(x, y, st.target, st.zbuf, s)]
  }

  /** Row y of a triangle from x0 up to x1. */
  function TriangleRow(gpu: Gpu, st: RState, v: int, x0: int, x1: int, y: int): seq<Frag>
    decreases x1 - x0
  {
    if x0 >= x1 then [] else TriangleRow(gpu, st, v, x0, x1 - 1, y) + TrianglePixel(gpu, st, v, x1 - 1, y)
  }

  function TriangleRows(gpu: Gpu, st: RState, v: int, x0: int, x1: int, y0: int, y1: int): seq<Frag>
    decreases y1 - y0
  {
    if y0 >= y1 then [] else TriangleRows(gpu, st, v, x0, x1, y0, y1 - 1) + TriangleRow(gpu, st, v, x0, x1, y1 - 1)
  }

  function Triangle(gpu: Gpu, st: RState, v: int): seq<Frag> {
    match gpu.box(Blind(st), v)
    case None => []
    case Some(b) =>
      TriangleRows(gpu, st, v, Max(b.x0, st.clipL), Min(b.x1, st.clipR), Max(b.y0, st.clipT), Min(b.y1, st.clipB))
  }

  predicate InClip(st: RState, x: int, y: int) {
    st.clipL <= x < st.clipR && st.clipT <= y < st.clipB
  }

  function LinePixel(gpu: Gpu, st: RState, v: int, i: int): seq<Frag> {
    var p := gpu.point(v, i);
    if InClip(st, p.0, p.1) then [Frag(p.0, p.1, st.target, st.zbuf, gpu.lineShade(Blind(st), v, i))] else []
  }

  /** The first n pixels of a line. */
  function LinePixels(gpu: Gpu, st: RState, v: int, n: nat): seq<Frag> {
    if n == 0 then [] else LinePixels(gpu, st, v, n - 1) + LinePixel(gpu, st, v, n - 1)
  }

  function Line(gpu: Gpu, st: RState, v: int): seq<Frag> {
    var n := gpu.steps(v);
    if n <= 0 || n > 8192 then [] else LinePixels(gpu, st, v, n + 1)
  }

  function Frags(gpu: Gpu, st: RState, c: Command): seq<Frag> {
    if c.line then Line(gpu, st, c.verts) else Triangle(gpu, st, c.verts)
  }

  /** Every command drawn in order with its own state. */
  function Stream(gpu: Gpu, states: seq<RState>, cmds: seq<Command>): seq<Frag>
    requires forall c :: c in cmds ==> c.state < |states|
  {
    if cmds == [] then []
    else
      var c := cmds[|cmds| - 1];
      assert c in cmds;
      Stream(gpu, states, cmds[..|cmds| - 1]) + Frags(gpu, states[c.state], c)
  }

  // ---- clipping a stream to a band of rows ----

  /** A band's state: its clip narrowed to rows y0 up to y1. */
  function Narrow(st: RState, y0: int, y1: int): RState {
    st.(clipT := Max(st.clipT, y0), clipB := Min(st.clipB, y1))
  }

  function NarrowAll(states: seq<RState>, y0: int, y1: int): seq<RState> {
    seq(|states|, i requires 0 <= i < |states| => Narrow(states[i], y0, y1))
  }

  /** The fragments of fs on rows y0 up to y1, in order. */
  function Rows(fs: seq<Frag>, y0: int, y1: int): seq<Frag> {
    if fs == [] then []
    else
      var f := fs[|fs| - 1];
      Rows(fs[..|fs| - 1], y0, y1) + if y0 <= f.y < y1 then [f] else []
  }

  lemma {:induction false} RowsAppend(a: seq<Frag>, b: seq<Frag>, y0: int, y1: int)
    ensures Rows(a + b, y0, y1) == Rows(a, y0, y1) + Rows(b, y0, y1)
    decreases |b|
  {
    if b == [] {
      assert a + b == a;
    } else {
      assert (a + b)[..|a + b| - 1] == a + b[..|b| - 1];
      RowsAppend(a, b[..|b| - 1], y0, y1);
    }
  }

  predicate OnRows(f: Frag, y0: int, y1: int) {
    y0 <= f.y < y1
  }

  /** A run of fragments all on rows y0 up to y1 is kept. */
  lemma {:induction false} RowsAll(fs: seq<Frag>, y0: int, y1: int)
    requires forall i :: 0 <= i < |fs| ==> OnRows(fs[i], y0, y1)
    ensures Rows(fs, y0, y1) == fs
    decreases |fs|
  {
    if fs != [] {
      var front := fs[..|fs| - 1];
      assert forall i :: 0 <= i < |front| ==> front[i] == fs[i];
      RowsAll(front, y0, y1);
    }
  }

  /** A run of fragments all off them is dropped. */
  lemma {:induction false} RowsNone(fs: seq<Frag>, y0: int, y1: int)
    requires forall i :: 0 <= i < |fs| ==> !OnRows(fs[i], y0, y1)
    ensures Rows(fs, y0, y1) == []
    decreases |fs|
  {
    if fs != [] {
      var front := fs[..|fs| - 1];
      assert forall i :: 0 <= i < |front| ==> front[i] == fs[i];
      RowsNone(front, y0, y1);
    }
  }

  predicate AllOnRow(fs: seq<Frag>, y: int) {
    forall i :: 0 <= i < |fs| ==> fs[i].y == y
  }

  lemma {:induction false} RowIsOnRow(gpu: Gpu, st: RState, v: int, x0: int, x1: int, y: int)
    ensures AllOnRow(TriangleRow(gpu, st, v, x0, x1, y), y)
    decreases x1 - x0
  {
    if x0 < x1 {
      var front, px := TriangleRow(gpu, st, v, x0, x1 - 1, y), TrianglePixel(gpu, st, v, x1 - 1, y);
      RowIsOnRow(gpu, st, v, x0, x1 - 1, y);
      assert AllOnRow(px, y);
    }
  }

  lemma {:induction false} RowBlind(gpu: Gpu, st: RState, st': RState, v: int, x0: int, x1: int, y: int)
    requires Blind(st) == Blind(st')
    ensures TriangleRow(gpu, st, v, x0, x1, y) == TriangleRow(gpu, st', v, x0, x1, y)
    decreases x1 - x0
  {
    assert st.target == Blind(st).target && st.zbuf == Blind(st).zbuf;
    assert st'.target == Blind(st').target && st'.zbuf == Blind(st').zbuf;
    if x0 < x1 {
      RowBlind(gpu, st, st', v, x0, x1 - 1, y);
    }
  }

  lemma TriangleRowNarrow(gpu: Gpu, st: RState, v: int, x0: int, x1: int, y: int, y0: int, y1: int)
    ensures var row := TriangleRow(gpu, st, v, x0, x1, y);
      Rows(row, y0, y1) == if y0 <= y < y1 then row else []
  {
    hide TriangleRow;
    var row := TriangleRow(gpu, st, v, x0, x1, y);
    RowIsOnRow(gpu, st, v, x0, x1, y);
    if y0 <= y < y1 {
      RowsAll(row, y0, y1);
    } else {
      RowsNone(row, y0, y1);
    }
  }

  /** The rows of a triangle narrowed to a band are the band's rows of the triangle. */
  lemma {:induction false} TriangleRowsNarrow(gpu: Gpu, st: RState, v: int, x0: int, x1: int, t: int, b: int,
                                              y0: int, y1: int)
    ensures TriangleRows(gpu, Narrow(st, y0, y1), v, x0, x1, Max(t, y0), Min(b, y1))
      == Rows(TriangleRows(gpu, st, v, x0, x1, t, b), y0, y1)
    decreases b - t
  {
    hide TriangleRow, Rows;
    RowsNone([], y0, y1);
    if t < b {
      var row := TriangleRow(gpu, st, v, x0, x1, b - 1);
      var rest := TriangleRows(gpu, st, v, x0, x1, t, b - 1);
      RowsAppend(rest, row, y0, y1);
      TriangleRowNarrow(gpu, st, v, x0, x1, b - 1, y0, y1);
      RowBlind(gpu, st, Narrow(st, y0, y1), v, x0, x1, b - 1);
      TriangleRowsNarrow(gpu, st, v, x0, x1, t, b - 1, y0, y1);
      if y0 <= b - 1 < y1 {
      } else if b > y1 {
        assert Min(b, y1) == Min(b - 1, y1);
      } else {
        assert TriangleRows(gpu, Narrow(st, y0, y1), v, x0, x1, Max(t, y0), Min(b, y1)) == [];
        assert TriangleRows(gpu, Narrow(st, y0, y1), v, x0, x1, Max(t, y0), Min(b - 1, y1)) == [];
      }
    }
  }

  lemma {:induction false} LinePixelsNarrow(gpu: Gpu, st: RState, v: int, n: nat, y0: int, y1: int)
    ensures LinePixels(gpu, Narrow(st, y0, y1), v, n) == Rows(LinePixels(gpu, st, v, n), y0, y1)
    decreases n
  {
    hide Rows, LinePixel, Narrow;
    if n == 0 {
      RowsNone([], y0, y1);
    } else {
      LinePixelsNarrow(gpu, st, v, n - 1, y0, y1);
      RowsAppend(LinePixels(gpu, st, v, n - 1), LinePixel(gpu, st, v, n - 1), y0, y1);
      LinePixelNarrow(gpu, st, v, n - 1, y0, y1);
    }
  }

  lemma LinePixelNarrow(gpu: Gpu, st: RState, v: int, i: int, y0: int, y1: int)
    ensures LinePixel(gpu, Narrow(st, y0, y1), v, i) == Rows(LinePixel(gpu, st, v, i), y0, y1)
  {
    var px := LinePixel(gpu, st, v, i);
    var p := gpu.point(v, i);
    assert Blind(Narrow(st, y0, y1)) == Blind(st);
    if y0 <= p.1 < y1 {
      RowsAll(px, y0, y1);
    } else {
      RowsNone(px, y0, y1);
    }
  }

  lemma FragsNarrow(gpu: Gpu, st: RState, c: Command, y0: int, y1: int)
    ensures Frags(gpu, Narrow(st, y0, y1), c) == Rows(Frags(gpu, st, c), y0, y1)
  {
    hide TriangleRows, Rows, LinePixels;
    var st' := Narrow(st, y0, y1);
    assert Blind(st') == Blind(st);
    RowsNone([], y0, y1);
    if c.line {
      var n := gpu.steps(c.verts);
      if n > 0 {
        LinePixelsNarrow(gpu, st, c.verts, n + 1, y0, y1);
      }
    } else {
      match gpu.box(Blind(st), c.verts)
      case None =>
      case Some(b) =>
        TriangleRowsNarrow(gpu, st, c.verts, Max(b.x0, st.clipL), Min(b.x1, st.clipR),
                           Max(b.y0, st.clipT), Min(b.y1, st.clipB), y0, y1);
        assert Max(Max(b.y0, st.clipT), y0) == Max(b.y0, st'.clipT);
        assert Min(Min(b.y1, st.clipB), y1) == Min(b.y1, st'.clipB);
    }
  }

  /** A band's stream is the band's rows of the whole stream, in the same order. */
  lemma {:induction false} StreamNarrow(gpu: Gpu, states: seq<RState>, cmds: seq<Command>, y0: int, y1: int)
    requires forall c :: c in cmds ==> c.state < |states|
    ensures Stream(gpu, NarrowAll(states, y0, y1), cmds) == Rows(Stream(gpu, states, cmds), y0, y1)
    decreases |cmds|
  {
    if cmds != [] {
      var c := cmds[|cmds| - 1];
      assert c in cmds;
      var front := cmds[..|cmds| - 1];
      StreamNarrow(gpu, states, front, y0, y1);
      FragsNarrow(gpu, states[c.state], c, y0, y1);
      RowsAppend(Stream(gpu, states, front), Frags(gpu, states[c.state], c), y0, y1);
    }
  }
}
