/**
 The imperative rasteriser: the command and state lists that submissions append to, run_band with
 its loops and its cached clipped state, and the flush. What the loops draw is proved to be the
 streams of RasterStreams.
 */
module RasterDraw {
  import opened Wrappers
  import opened RasterStreams
  import opened RasterBands

  lemma {:induction false} ApplyAppend(p: Picture, a: seq<Frag>, b: seq<Frag>)
    ensures ApplyAll(p, a + b) == ApplyAll(ApplyAll(p, a), b)
    decreases |b|
  {
    hide Apply;
    if b == [] {
      assert a + b == a;
    } else {
      assert (a + b)[..|a + b| - 1] == a + b[..|b| - 1];
      ApplyAppend(p, a, b[..|b| - 1]);
    }
  }

  lemma ApplyNone(p: Picture)
    ensures ApplyAll(p, []) == p
  {
  }

  lemma ApplyOne(p: Picture, done: seq<Frag>, f: Frag)
    ensures ApplyAll(p, done + [f]) == Apply(ApplyAll(p, done), f)
    ensures ApplyAll(p, done + []) == ApplyAll(p, done)
  {
    assert (done + [f])[..|done|] == done && done + [] == done;
  }

  lemma {:induction false} LineOutside(gpu: Gpu, st: RState, v: int, n: nat)
    requires st.clipT >= st.clipB
    ensures LinePixels(gpu, st, v, n) == []
    decreases n
  {
    if n > 0 {
      LineOutside(gpu, st, v, n - 1);
    }
  }

  /** A state with no rows draws nothing, which is why run_band may skip it. */
  lemma EmptyClip(gpu: Gpu, st: RState, c: Command)
    requires st.clipT >= st.clipB
    ensures Frags(gpu, st, c) == []
  {
    hide LinePixels;
    if c.line && gpu.steps(c.verts) > 0 {
      LineOutside(gpu, st, c.verts, gpu.steps(c.verts) + 1);
    }
  }

  /** The rows a flush covers: from the least clip top to the greatest clip bottom. */
  function Top(states: seq<RState>): int {
    if states == [] then 0x4000_0000 else Min(Top(states[..|states| - 1]), states[|states| - 1].clipT)
  }

  function Bottom(states: seq<RState>): int {
    if states == [] then 0 else Max(Bottom(states[..|states| - 1]), states[|states| - 1].clipB)
  }

  function Height(states: seq<RState>): nat {
    if Bottom(states) > Top(states) then Bottom(states) - Top(states) else 0
  }

  lemma {:induction false} StateRows(states: seq<RState>, i: nat)
    requires i < |states|
    ensures Top(states) <= states[i].clipT && states[i].clipB <= Bottom(states)
    decreases |states|
  {
    if i < |states| - 1 {
      StateRows(states[..|states| - 1], i);
    }
  }

  /** b is 0 or a clip's bottom; t is 2^30 or a clip's top. */
  ghost predicate Edges(states: seq<RState>, b: int, t: int) {
    && (b == 0 || exists i :: 0 <= i < |states| && states[i].clipB == b)
    && (t == 0x4000_0000 || exists i :: 0 <= i < |states| && states[i].clipT == t)
  }

  lemma {:induction false} EdgesReached(states: seq<RState>)
    ensures Edges(states, Bottom(states), Top(states))
    decreases |states|
  {
    if states != [] {
      var front, n := states[..|states| - 1], |states| - 1;
      EdgesReached(front);
      if Bottom(states) != 0 && Bottom(states) != states[n].clipB {
        var i :| 0 <= i < |front| && front[i].clipB == Bottom(states);
        assert states[i].clipB == Bottom(states);
      }
      if Top(states) != 0x4000_0000 && Top(states) != states[n].clipT {
        var i :| 0 <= i < |front| && front[i].clipT == Top(states);
        assert states[i].clipT == Top(states);
      }
    }
  }

  lemma {:induction false} EdgesInside(states: seq<RState>)
    ensures Bottom(states) >= 0 && Top(states) <= 0x4000_0000
    decreases |states|
  {
    if states != [] {
      EdgesInside(states[..|states| - 1]);
    }
  }

  /** A flush has n rows or more exactly when two of the edges are that far apart. */
  lemma HeightAtLeast(states: seq<RState>, n: nat)
    requires n > 0
    ensures Height(states) >= n <==> exists b, t :: Edges(states, b, t) && b - t >= n
  {
    EdgesReached(states);
    EdgesInside(states);
    hide Top, Bottom;
    forall b, t | Edges(states, b, t) ensures b <= Bottom(states) && Top(states) <= t {
      if b != 0 {
        var i :| 0 <= i < |states| && states[i].clipB == b;
        StateRows(states, i);
      }
      if t != 0x4000_0000 {
        var i :| 0 <= i < |states| && states[i].clipT == t;
        StateRows(states, i);
      }
    }
  }

  /** Narrowing a state to rows it lies in, or that it does not reach, changes nothing it draws. */
  lemma NarrowNothing(gpu: Gpu, states: seq<RState>, c: Command)
    requires c.state < |states|
    ensures Frags(gpu, Narrow(states[c.state], Top(states), Top(states) + Height(states)), c)
      == Frags(gpu, states[c.state], c)
  {
    hide Frags, Top, Bottom;
    var st := states[c.state];
    var st' := Narrow(st, Top(states), Top(states) + Height(states));
    StateRows(states, c.state);
    if st.clipT >= st.clipB {
      EmptyClip(gpu, st, c);
      EmptyClip(gpu, st', c);
    } else {
      assert st' == st;
    }
  }

  /** The whole stream lies in the flush's rows. */
  lemma {:induction false} StreamInRows(gpu: Gpu, states: seq<RState>, cmds: seq<Command>)
    requires forall c :: c in cmds ==> c.state < |states|
    ensures var s := Stream(gpu, states, cmds); Rows(s, Top(states), Top(states) + Height(states)) == s
    decreases |cmds|
  {
    hide Frags, Rows;
    var y0, y1 := Top(states), Top(states) + Height(states);
    if cmds == [] {
      RowsNone([], y0, y1);
    } else {
      var c := cmds[|cmds| - 1];
      assert c in cmds;
      var front := cmds[..|cmds| - 1];
      StreamInRows(gpu, states, front);
      NarrowNothing(gpu, states, c);
      FragsNarrow(gpu, states[c.state], c, y0, y1);
      RowsAppend(Stream(gpu, states, front), Frags(gpu, states[c.state], c), y0, y1);
    }
  }

  /** The streams the threads draw are exactly the cut of the whole stream into bands. */
  lemma ThreadStreams(gpu: Gpu, states: seq<RState>, cmds: seq<Command>, bands: nat, b: nat)
    requires bands > 0 && b < bands
    requires forall c :: c in cmds ==> c.state < |states|
    ensures var t, h := Top(states), Height(states);
      Stream(gpu, NarrowAll(states, BandTop(t, h, bands, b), BandTop(t, h, bands, b + 1)), cmds)
        == BandStreams(Stream(gpu, states, cmds), t, h, bands)[b]
  {
    var t, h := Top(states), Height(states);
    StreamNarrow(gpu, states, cmds, BandTop(t, h, bands, b), BandTop(t, h, bands, b + 1));
  }

  /** What each of the threads draws: every command in order, clipped to the thread's band. */
  function BandsOf(gpu: Gpu, states: seq<RState>, cmds: seq<Command>, bands: nat): (r: seq<seq<Frag>>)
    requires bands > 0 && forall c :: c in cmds ==> c.state < |states|
    ensures |r| == bands
  {
    var t, h := Top(states), Height(states);
    seq(bands, b requires 0 <= b < bands =>
      Stream(gpu, NarrowAll(states, BandTop(t, h, bands, b), BandTop(t, h, bands, b + 1)), cmds))
  }

  lemma BandsAreCut(gpu: Gpu, states: seq<RState>, cmds: seq<Command>, bands: nat)
    requires bands > 0 && forall c :: c in cmds ==> c.state < |states|
    ensures BandsOf(gpu, states, cmds, bands)
         == BandStreams(Stream(gpu, states, cmds), Top(states), Height(states), bands)
  {
    hide Stream, NarrowAll, BandTop, Rows, Top, Height;
    forall b | 0 <= b < bands
      ensures BandsOf(gpu, states, cmds, bands)[b]
           == BandStreams(Stream(gpu, states, cmds), Top(states), Height(states), bands)[b]
    {
      ThreadStreams(gpu, states, cmds, bands, b);
    }
  }

  /** For every list of states and commands and every number of bands: any interleaving of the threads,
      each drawing all commands clipped to its band, leaves at every pixel of every surface what drawing
      the commands in order, unclipped, leaves. */
  lemma CommandsDrawInOrder(gpu: Gpu, states: seq<RState>, cmds: seq<Command>, bands: nat, tr: seq<Event>,
                            pic: Picture, l: Loc)
    requires bands > 0 && forall c :: c in cmds ==> c.state < |states|
    requires Interleaves(tr, BandsOf(gpu, states, cmds, bands))
    ensures ApplyAll(pic, Drawn(tr))(l) == ApplyAll(pic, Stream(gpu, states, cmds))(l)
  {
    hide Stream, ApplyAll, Drawn, Rows, Top, Height, BandsOf, BandStreams;
    BandsAreCut(gpu, states, cmds, bands);
    StreamInRows(gpu, states, cmds);
    BandsDrawInOrder(tr, Stream(gpu, states, cmds), Top(states), Height(states), bands, pic, l);
  }

  class Raster {
    const gpu: Gpu
    var cmds: seq<Command>
    var states: seq<RState>
    var pic: Picture

    constructor (gpu: Gpu, pic: Picture)
      ensures this.gpu == gpu && this.pic == pic && cmds == [] && states == []
    {
      this.gpu, this.pic, cmds, states := gpu, pic, [], [];
    }

    predicate Valid()
      reads this
    {
      (cmds == [] ==> states == []) && forall c :: c in cmds ==> c.state < |states|
    }

    /** What the commands recorded so far draw, in order. */
    ghost function Recorded(): seq<Frag>
      reads this
      requires Valid()
    {
      Stream(gpu, states, cmds)
    }

    /** push_state: a state equal to the newest one is not stored again. */
    method PushState(st: RState) returns (i: nat)
      modifies this`states
      ensures old(states) <= states && i < |states| && states[i] == st
    {
      if |states| > 0 && states[|states| - 1] == st {
        return |states| - 1;
      }
      states := states + [st];
      i := |states| - 1;
    }

    /** d3d_raster_submit_triangle and _line. Recording with shared states records the command with
        its own state. */
    method Submit(st: RState, line: bool, verts: int)
      requires Valid()
      modifies this`states, this`cmds
      ensures Valid()
      ensures Recorded() == old(Recorded()) + Frags(gpu, st, Command(0, line, verts))
    {
      hide Frags;
      ghost var before := states;
      var i := PushState(st);
      StreamExtends(gpu, before, states, cmds);
      cmds := cmds + [Command(i, line, verts)];
      assert cmds[..|cmds| - 1] == old(cmds);
      FragsByVerts(gpu, st, i, 0, line, verts);
    }

    /** shade, with its two stores. */
    method Shade(f: Frag)
      modifies this`pic
      ensures pic == Apply(old(pic), f)
    {
      match f.shade(pic(Loc(f.target, f.x, f.y)), Depth(pic, f)) {
        case Discard =>
        case Write(color, depth) =>
          pic := Store(pic, Loc(f.target, f.x, f.y), color);
          if depth.Some? && f.zbuf.Some? {
            pic := Store(pic, Loc(f.zbuf.value, f.x, f.y), depth.value);
          }
      }
    }

    /** d3d_raster_triangle's row loop. */
    method DrawRow(st: RState, v: int, x0: int, x1: int, y: int)
      modifies this`pic
      ensures pic == ApplyAll(old(pic), TriangleRow(gpu, st, v, x0, x1, y))
    {
      hide Apply, ApplyAll;
      var x := x0;
      ApplyNone(pic);
      while x < x1
        invariant x0 <= x <= Max(x0, x1)
        invariant pic == ApplyAll(old(pic), TriangleRow(gpu, st, v, x0, x, y))
      {
        ghost var done := TriangleRow(gpu, st, v, x0, x, y);
        match gpu.covered(Blind(st), v, x, y) {
          case None => assert done + [] == done;
          case Some(s) =>
            ApplyOne(old(pic), done, Frag(x, y, st.target, st.zbuf, s));
            Shade(Frag(x, y, st.target, st.zbuf, s));
        }
        x := x + 1;
      }
    }

    method DrawTriangle(st: RState, v: int)
      modifies this`pic
      ensures pic == ApplyAll(old(pic), Triangle(gpu, st, v))
    {
      hide TriangleRow, ApplyAll;
      ApplyNone(pic);
      match gpu.box(Blind(st), v) {
        case None =>
        case Some(b) =>
          var x0, x1 := Max(b.x0, st.clipL), Min(b.x1, st.clipR);
          var y0, y1 := Max(b.y0, st.clipT), Min(b.y1, st.clipB);
          var y := y0;
          while y < y1
            invariant y0 <= y <= Max(y0, y1)
            invariant pic == ApplyAll(old(pic), TriangleRows(gpu, st, v, x0, x1, y0, y))
          {
            DrawRow(st, v, x0, x1, y);
            ApplyAppend(old(pic), TriangleRows(gpu, st, v, x0, x1, y0, y), TriangleRow(gpu, st, v, x0, x1, y));
            y := y + 1;
          }
      }
    }

    method DrawLine(st: RState, v: int)
      modifies this`pic
      ensures pic == ApplyAll(old(pic), Line(gpu, st, v))
    {
      hide Apply, ApplyAll;
      ApplyNone(pic);
      var n := gpu.steps(v);
      if n <= 0 || n > 8192 {
        return;
      }
      var i := 0;
      while i <= n
        invariant 0 <= i <= n + 1
        invariant pic == ApplyAll(old(pic), LinePixels(gpu, st, v, i))
      {
        ghost var done := LinePixels(gpu, st, v, i);
        var p := gpu.point(v, i);
        if InClip(st, p.0, p.1) {
          var f := Frag(p.0, p.1, st.target, st.zbuf, gpu.lineShade(Blind(st), v, i));
          ApplyOne(old(pic), done, f);
          Shade(f);
        } else {
          assert done + [] == done;
        }
        i := i + 1;
      }
    }

    /** run_band for the rows y0 up to y1: the clipped state is recomputed only when the command's
        state is not the last one's. */
    method RunRows(y0: int, y1: int)
      requires Valid()
      modifies this`pic
      ensures pic == ApplyAll(old(pic), Stream(gpu, NarrowAll(states, y0, y1), cmds))
    {
      hide Apply, ApplyAll, Triangle, Line;
      ApplyNone(pic);
      var st: RState := RState(0, None, 0, 0, 0, 0, 0);
      var last, i := -1, 0;
      ghost var narrowed := NarrowAll(states, y0, y1);
      while i < |cmds|
        invariant 0 <= i <= |cmds|
        invariant last >= 0 ==> last < |states| && st == narrowed[last]
        invariant forall c :: c in cmds[..i] ==> c.state < |narrowed|
        invariant pic == ApplyAll(old(pic), Stream(gpu, narrowed, cmds[..i]))
      {
        var c := cmds[i];
        assert c in cmds;
        assert cmds[..i + 1][..i] == cmds[..i];
        ghost var done := Stream(gpu, narrowed, cmds[..i]);
        if c.state != last {
          st := Narrow(states[c.state], y0, y1);
          last := c.state;
        }
        ApplyAppend(old(pic), done, Frags(gpu, st, c));
        i := i + 1;
        if st.clipT >= st.clipB {
          EmptyClip(gpu, st, c);
          assert done + [] == done;
          continue;
        }
        if c.line {
          DrawLine(st, c.verts);
        } else {
          DrawTriangle(st, c.verts);
        }
      }
      assert cmds[..|cmds|] == cmds;
    }

    /** The two loops of a flush that find its rows. */
    method FindRows() returns (top: int, height: nat)
      ensures top == Top(states) && height == Height(states)
    {
      var bottom, i := 0, 0;
      top := 0x4000_0000;
      while i < |states|
        invariant 0 <= i <= |states|
        invariant top == Top(states[..i]) && bottom == Bottom(states[..i])
      {
        assert states[..i + 1][..i] == states[..i];
        if states[i].clipT < top { top := states[i].clipT; }
        if states[i].clipB > bottom { bottom := states[i].clipB; }
        i := i + 1;
      }
      assert states[..|states|] == states;
      height := if bottom > top then bottom - top else 0;
    }

    /** d3d_raster_flush with no helper threads: one band over all rows. */
    method FlushAlone()
      requires Valid()
      modifies this
      ensures cmds == [] && states == []
      ensures pic == ApplyAll(old(pic), old(Recorded()))
    {
      hide ApplyAll, Stream, Rows, BandTop, Narrow, NarrowAll, Top, Height;
      if |cmds| == 0 {
        NothingRecorded(gpu, states);
        ApplyNone(pic);
        return;
      }
      var top, height := FindRows();
      BandEnds(top, height, 1);
      ThreadStreams(gpu, states, cmds, 1, 0);
      StreamInRows(gpu, states, cmds);
      RunRows(BandTop(top, height, 1, 0), BandTop(top, height, 1, 1));
      cmds, states := [], [];
    }
  }

  lemma NothingRecorded(gpu: Gpu, states: seq<RState>)
    ensures Stream(gpu, states, []) == []
  {
  }

  lemma FragsByVerts(gpu: Gpu, st: RState, i: nat, j: nat, line: bool, verts: int)
    ensures Frags(gpu, st, Command(i, line, verts)) == Frags(gpu, st, Command(j, line, verts))
  {
  }

  lemma {:induction false} StreamExtends(gpu: Gpu, states: seq<RState>, states': seq<RState>, cmds: seq<Command>)
    requires states <= states' && forall c :: c in cmds ==> c.state < |states|
    ensures Stream(gpu, states, cmds) == Stream(gpu, states', cmds)
    decreases |cmds|
  {
    hide Frags;
    if cmds != [] {
      var c := cmds[|cmds| - 1];
      assert c in cmds;
      StreamExtends(gpu, states, states', cmds[..|cmds| - 1]);
    }
  }
}
