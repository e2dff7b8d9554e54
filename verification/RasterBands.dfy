/**
 Banded drawing gives the picture of drawing in order. The target's rows are cut into one band per
 thread; each thread draws every command in order, clipped to its band. A trace is any interleaving
 of the bands' fragments; for every one of them the picture is that of the unbanded stream.
 */
module RasterBands {
  import opened RasterStreams

  // ---- the bands tile the rows ----

  /** g_top + g_height * band / bands */
  function BandTop(top: int, height: nat, bands: nat, b: nat): int
    requires bands > 0
  {
    top + height * b / bands
  }

  lemma BandsGrow(top: int, height: nat, bands: nat, a: nat, b: nat)
    requires bands > 0 && a <= b
    ensures BandTop(top, height, bands, a) <= BandTop(top, height, bands, b)
  {
    assert height * a <= height * b;
    DivMonotone(height * a, height * b, bands);
  }

  lemma DivMonotone(x: nat, y: nat, d: nat)
    requires d > 0 && x <= y
    ensures x / d <= y / d
  {
    var q := x / d - y / d;
    assert x == x / d * d + x % d && y == y / d * d + y % d;
    assert q >= 1 ==> q * d >= d;
    assert q * d == x / d * d - y / d * d;
  }

  lemma BandEnds(top: int, height: nat, bands: nat)
    requires bands > 0
    ensures BandTop(top, height, bands, 0) == top
    ensures BandTop(top, height, bands, bands) == top + height
  {
    MulDiv(height, bands);
    MulDiv(0, bands);
  }

  lemma MulDiv(h: nat, d: nat)
    requires d > 0
    ensures h * d / d == h && 0 * d == 0
  {
    var x := h * d;
    var q := x / d - h;
    assert x == x / d * d + x % d;
    assert q * d == x / d * d - h * d;
    assert q >= 1 ==> q * d >= d;
    assert q <= -1 ==> q * d + d <= 0;
  }

  predicate InBand(top: int, height: nat, bands: nat, b: nat, y: int)
    requires bands > 0
  {
    BandTop(top, height, bands, b) <= y < BandTop(top, height, bands, b + 1)
  }

  /** Every row between top and top + height is in a band. */
  lemma {:induction false} BandOf(top: int, height: nat, bands: nat, y: int, n: nat) returns (b: nat)
    requires bands > 0 && 0 < n <= bands && top <= y < BandTop(top, height, bands, n)
    ensures b < n && InBand(top, height, bands, b, y)
    decreases n
  {
    BandEnds(top, height, bands);
    if y >= BandTop(top, height, bands, n - 1) {
      b := n - 1;
    } else {
      b := BandOf(top, height, bands, y, n - 1);
    }
  }

  /** ... and in one only. */
  lemma BandUnique(top: int, height: nat, bands: nat, a: nat, b: nat, y: int)
    requires bands > 0 && InBand(top, height, bands, a, y) && InBand(top, height, bands, b, y)
    ensures a == b
  {
    if a < b {
      BandsGrow(top, height, bands, a + 1, b);
    } else if b < a {
      BandsGrow(top, height, bands, b + 1, a);
    }
  }

  // ---- a row sees only its own fragments ----

  ghost predicate SameOnRow(p: Picture, q: Picture, y: int) {
    forall l: Loc :: l.y == y ==> p(l) == q(l)
  }

  lemma ApplyOffRow(p: Picture, f: Frag, y: int)
    requires f.y != y
    ensures SameOnRow(Apply(p, f), p, y)
  {
  }

  lemma ApplyOnRow(p: Picture, q: Picture, f: Frag, y: int)
    requires f.y == y && SameOnRow(p, q, y)
    ensures SameOnRow(Apply(p, f), Apply(q, f), y)
  {
    assert p(Loc(f.target, f.x, f.y)) == q(Loc(f.target, f.x, f.y));
    assert f.zbuf.Some? ==> p(Loc(f.zbuf.value, f.x, f.y)) == q(Loc(f.zbuf.value, f.x, f.y));
  }

  lemma {:induction false} RowOnly(p: Picture, fs: seq<Frag>, y: int)
    ensures SameOnRow(ApplyAll(p, fs), ApplyAll(p, Rows(fs, y, y + 1)), y)
    decreases |fs|
  {
    hide Apply;
    if fs != [] {
      var front, f := fs[..|fs| - 1], fs[|fs| - 1];
      RowOnly(p, front, y);
      if f.y == y {
        ApplyOnRow(ApplyAll(p, front), ApplyAll(p, Rows(front, y, y + 1)), f, y);
        var kept := Rows(front, y, y + 1);
        assert (kept + [f])[..|kept|] == kept;
      } else {
        ApplyOffRow(ApplyAll(p, front), f, y);
        assert Rows(front, y, y + 1) + [] == Rows(front, y, y + 1);
      }
    }
  }

  lemma RowAt(p: Picture, fs: seq<Frag>, l: Loc)
    ensures ApplyAll(p, fs)(l) == ApplyAll(p, Rows(fs, l.y, l.y + 1))(l)
  {
    hide ApplyAll, Rows;
    RowOnly(p, fs, l.y);
  }

  lemma {:induction false} RowOfRows(fs: seq<Frag>, y0: int, y1: int, y: int)
    requires y0 <= y < y1
    ensures Rows(Rows(fs, y0, y1), y, y + 1) == Rows(fs, y, y + 1)
    decreases |fs|
  {
    if fs != [] {
      var front, f := fs[..|fs| - 1], fs[|fs| - 1];
      RowOfRows(front, y0, y1, y);
      var kept := Rows(front, y0, y1);
      assert fs == front + [f];
      RowsLast(fs, y0, y1);
      RowsLast(fs, y, y + 1);
      hide Rows;
      if y0 <= f.y < y1 {
        RowsOne(kept, f, y);
      } else {
        assert kept + [] == kept && Rows(front, y, y + 1) + [] == Rows(front, y, y + 1);
      }
    }
  }

  // ---- interleavings ----

  /** One fragment drawn by one band's thread. */
  datatype Event = Event(band: nat, frag: Frag)

  function Drawn(tr: seq<Event>): seq<Frag> {
    if tr == [] then [] else Drawn(tr[..|tr| - 1]) + [tr[|tr| - 1].frag]
  }

  /** What band b's thread has drawn, in order. */
  function By(tr: seq<Event>, b: nat): seq<Frag> {
    if tr == [] then []
    else By(tr[..|tr| - 1], b) + if tr[|tr| - 1].band == b then [tr[|tr| - 1].frag] else []
  }

  /** Every event is one of the bands', and each band's events are its stream. */
  ghost predicate Interleaves(tr: seq<Event>, streams: seq<seq<Frag>>) {
    && (forall i :: 0 <= i < |tr| ==> tr[i].band < |streams|)
    && (forall b :: 0 <= b < |streams| ==> By(tr, b) == streams[b])
  }

  lemma {:induction false} EventIsBy(tr: seq<Event>, i: nat) returns (j: nat)
    requires i < |tr|
    ensures j < |By(tr, tr[i].band)| && By(tr, tr[i].band)[j] == tr[i].frag
    decreases |tr|
  {
    var b, front := tr[i].band, tr[..|tr| - 1];
    if i == |tr| - 1 {
      j := |By(front, b)|;
    } else {
      assert front[i] == tr[i];
      j := EventIsBy(front, i);
    }
  }

  lemma {:induction false} RowsAreOn(fs: seq<Frag>, y0: int, y1: int, j: nat)
    requires j < |Rows(fs, y0, y1)|
    ensures OnRows(Rows(fs, y0, y1)[j], y0, y1)
    decreases |fs|
  {
    if j < |Rows(fs[..|fs| - 1], y0, y1)| {
      RowsAreOn(fs[..|fs| - 1], y0, y1, j);
    }
  }

  /** If only band b touches row y, the row's fragments in the trace are band b's on that row. */
  lemma {:induction false} RowByBand(tr: seq<Event>, b: nat, y: int)
    requires forall i :: 0 <= i < |tr| && tr[i].frag.y == y ==> tr[i].band == b
    ensures Rows(Drawn(tr), y, y + 1) == Rows(By(tr, b), y, y + 1)
    decreases |tr|
  {
    if tr != [] {
      var front, e := tr[..|tr| - 1], tr[|tr| - 1];
      assert forall i :: 0 <= i < |front| ==> front[i] == tr[i];
      RowByBand(front, b, y);
      var d, k := Drawn(front), By(front, b);
      assert Drawn(tr) == d + [e.frag] && By(tr, b) == k + if e.band == b then [e.frag] else [];
      hide Drawn, By;
      RowsOne(d, e.frag, y);
      RowsOne(k, e.frag, y);
      assert k + [] == k;
    }
  }

  lemma RowsLast(fs: seq<Frag>, y0: int, y1: int)
    requires fs != []
    ensures var f := fs[|fs| - 1];
      Rows(fs, y0, y1) == Rows(fs[..|fs| - 1], y0, y1) + if y0 <= f.y < y1 then [f] else []
  {
  }

  lemma RowsOne(fs: seq<Frag>, f: Frag, y: int)
    ensures Rows(fs + [f], y, y + 1) == Rows(fs, y, y + 1) + if f.y == y then [f] else []
  {
    assert (fs + [f])[..|fs|] == fs;
  }

  lemma {:induction false} RowUntouched(tr: seq<Event>, y: int)
    requires forall i :: 0 <= i < |tr| ==> tr[i].frag.y != y
    ensures Rows(Drawn(tr), y, y + 1) == []
    decreases |tr|
  {
    if tr != [] {
      var front := tr[..|tr| - 1];
      assert forall i :: 0 <= i < |front| ==> front[i] == tr[i];
      RowUntouched(front, y);
    }
  }

  function BandStreams(full: seq<Frag>, top: int, height: nat, bands: nat): seq<seq<Frag>>
    requires bands > 0
  {
    seq(bands, b requires 0 <= b < bands =>
      Rows(full, BandTop(top, height, bands, b), BandTop(top, height, bands, b + 1)))
  }

  lemma EventInBand(tr: seq<Event>, full: seq<Frag>, top: int, height: nat, bands: nat, i: nat)
    requires bands > 0 && Interleaves(tr, BandStreams(full, top, height, bands)) && i < |tr|
    ensures tr[i].band < bands && InBand(top, height, bands, tr[i].band, tr[i].frag.y)
  {
    var b := tr[i].band;
    var j := EventIsBy(tr, i);
    assert By(tr, b) == BandStreams(full, top, height, bands)[b];
    RowsAreOn(full, BandTop(top, height, bands, b), BandTop(top, height, bands, b + 1), j);
  }

  lemma RowOfTrace(tr: seq<Event>, full: seq<Frag>, top: int, height: nat, bands: nat, y: int)
    requires bands > 0 && Interleaves(tr, BandStreams(full, top, height, bands))
    requires Rows(full, top, top + height) == full
    ensures Rows(Drawn(tr), y, y + 1) == Rows(full, y, y + 1)
  {
    hide Rows, BandTop, InBand, Interleaves, BandStreams;
    BandEnds(top, height, bands);
    if top <= y < top + height {
      var b := BandOf(top, height, bands, y, bands);
      forall i | 0 <= i < |tr| && tr[i].frag.y == y ensures tr[i].band == b {
        EventInBand(tr, full, top, height, bands, i);
        BandUnique(top, height, bands, b, tr[i].band, y);
      }
      RowByBand(tr, b, y);
      ByIsStream(tr, full, top, height, bands, b);
      InBandBounds(top, height, bands, b, y);
      RowOfRows(full, BandTop(top, height, bands, b), BandTop(top, height, bands, b + 1), y);
    } else {
      forall i | 0 <= i < |tr| ensures tr[i].frag.y != y {
        EventInBand(tr, full, top, height, bands, i);
        InBandBounds(top, height, bands, tr[i].band, tr[i].frag.y);
        BandsGrow(top, height, bands, 0, tr[i].band);
        BandsGrow(top, height, bands, tr[i].band + 1, bands);
      }
      RowUntouched(tr, y);
      RowsOutside(full, top, top + height, y);
    }
  }

  lemma InBandBounds(top: int, height: nat, bands: nat, b: nat, y: int)
    requires bands > 0 && InBand(top, height, bands, b, y)
    ensures BandTop(top, height, bands, b) <= y < BandTop(top, height, bands, b + 1)
  {
  }

  lemma ByIsStream(tr: seq<Event>, full: seq<Frag>, top: int, height: nat, bands: nat, b: nat)
    requires bands > 0 && Interleaves(tr, BandStreams(full, top, height, bands)) && b < bands
    ensures By(tr, b) == Rows(full, BandTop(top, height, bands, b), BandTop(top, height, bands, b + 1))
  {
  }

  lemma {:induction false} RowsOutside(fs: seq<Frag>, y0: int, y1: int, y: int)
    requires Rows(fs, y0, y1) == fs && !(y0 <= y < y1)
    ensures Rows(fs, y, y + 1) == []
  {
    forall i | 0 <= i < |fs| ensures !OnRows(fs[i], y, y + 1) {
      RowsAreOn(fs, y0, y1, i);
    }
    RowsNone(fs, y, y + 1);
  }

  /** Any interleaving of the bands leaves, at every pixel of every surface, what drawing all
      commands in order leaves. */
  lemma BandsDrawInOrder(tr: seq<Event>, full: seq<Frag>, top: int, height: nat, bands: nat, pic: Picture, l: Loc)
    requires bands > 0 && Interleaves(tr, BandStreams(full, top, height, bands))
    requires Rows(full, top, top + height) == full
    ensures ApplyAll(pic, Drawn(tr))(l) == ApplyAll(pic, full)(l)
  {
    hide Rows, ApplyAll, Drawn, Interleaves, BandStreams;
    RowOfTrace(tr, full, top, height, bands, l.y);
    RowAt(pic, Drawn(tr), l);
    RowAt(pic, full, l);
  }
}
