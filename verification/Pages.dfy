/**
 The memory part of a saved state (runtime/dos32/dos32.c): each page is written as a byte 0 if it is
 all zeros, and otherwise as a byte 1 and the page. Three regions follow one another with nothing
 between them.
 */
module Pages {
  import opened Words

  /** What is read from a stream, and the bytes of the stream it took. */
  datatype Taken = TooShort | Taken(bytes: seq<u8>, used: nat)

  const PAGE := 4096

  function Zeros(n: nat): seq<u8> {
    seq(n, _ => 0)
  }

  /** One page as written. */
  function PageCode(page: seq<u8>): seq<u8>
    requires |page| == PAGE
  {
    if page == Zeros(PAGE) then [0] else [1] + page
  }

  predicate Whole(bytes: nat) {
    bytes % PAGE == 0
  }

  /** An image as written. */
  function Encode(p: seq<u8>): seq<u8>
    requires Whole(|p|)
  {
    if p == [] then [] else PageCode(p[..PAGE]) + Encode(p[PAGE..])
  }

  /** What reading makes of a stream: the page and the bytes used up, or nothing if it is too short. */
  function PageOf(s: seq<u8>): (r: Taken)
    ensures r.Taken? ==> |r.bytes| == PAGE && 0 < r.used <= |s|
  {
    if s == [] then TooShort
    else if s[0] == 0 then Taken(Zeros(PAGE), 1)
    else if |s| < 1 + PAGE then TooShort
    else Taken(s[1..1 + PAGE], 1 + PAGE)
  }

  /** An image of the given size read from the stream, and the bytes used up. */
  function Decode(s: seq<u8>, bytes: nat): (r: Taken)
    requires Whole(bytes)
    ensures r.Taken? ==> |r.bytes| == bytes && r.used <= |s|
    decreases bytes
  {
    if bytes == 0 then Taken([], 0)
    else
      match PageOf(s)
      case TooShort => TooShort
      case Taken(page, used) =>
        match Decode(s[used..], bytes - PAGE)
        case TooShort => TooShort
        case Taken(rest, more) => Taken(page + rest, used + more)
  }

  /** What is in the file: of pages one after the other, each a 0 if it is all zeros and otherwise a 1 and
      its bytes. */
  lemma {:induction false} EncodedPages(front: seq<u8>, page: seq<u8>, back: seq<u8>)
    requires Whole(|front|) && Whole(|back|) && |page| == 4096
    ensures Whole(|front + page + back|)
    ensures Encode(front + page + back) ==
            Encode(front) + (if forall i :: 0 <= i < 4096 ==> page[i] == 0 then [0] else [1] + page) + Encode(back)
    decreases |front|
  {
    WholeSum(front, page, back);
    IsPageCode(page);
    hide Whole, PageCode, Encode;
    EncodedInOrder(front, page, back);
  }

  lemma {:induction false} EncodedInOrder(front: seq<u8>, page: seq<u8>, back: seq<u8>)
    requires Whole(|front|) && Whole(|back|) && |page| == PAGE && Whole(|front + page + back|)
    ensures Encode(front + page + back) == Encode(front) + PageCode(page) + Encode(back)
    decreases |front|
  {
    WholeSum(front, page, back);
    hide PageCode, Encode, Whole;
    EncodeStep(front + page + back);
    if front == [] {
      assert front + page + back == page + back;
      assert (page + back)[..PAGE] == page && (page + back)[PAGE..] == back;
      EncodeNone();
    } else {
      FirstPage(front, page, back);
      WholeSum(front[PAGE..], page, back);
      EncodeStep(front);
      EncodedInOrder(front[PAGE..], page, back);
      FourParts(PageCode(front[..PAGE]), Encode(front[PAGE..]), PageCode(page), Encode(back));
    }
  }

  lemma FirstPage(front: seq<u8>, page: seq<u8>, back: seq<u8>)
    requires |front| >= PAGE
    ensures var all := front + page + back; all[..PAGE] == front[..PAGE] && all[PAGE..] == front[PAGE..] + page + back
  {
  }

  lemma FourParts(a: seq<u8>, b: seq<u8>, c: seq<u8>, d: seq<u8>)
    ensures a + (b + c + d) == (a + b) + c + d
  {
  }

  lemma WholeSum(front: seq<u8>, page: seq<u8>, back: seq<u8>)
    requires Whole(|front|) && Whole(|back|) && |page| == PAGE
    ensures Whole(|front + page + back|) && (front != [] ==> |front| >= PAGE && Whole(|front| - PAGE))
  {
  }

  lemma EncodeNone()
    ensures Encode([]) == []
  {
  }

  lemma IsPageCode(page: seq<u8>)
    requires |page| == 4096
    ensures PageCode(page) == if forall i :: 0 <= i < 4096 ==> page[i] == 0 then [0] else [1] + page
  {
    if forall i :: 0 <= i < 4096 ==> page[i] == 0 {
      assert page == Zeros(PAGE);
    }
  }

  /** Any marker but 0 announces a whole page, 0 a page of zeros. */
  lemma PageRead(s: seq<u8>)
    ensures PageOf(s).TooShort? <==> s == [] || (s[0] != 0 && |s| < 4097)
    ensures PageOf(s).Taken? ==>
              && |PageOf(s).bytes| == 4096 && PageOf(s).used == (if s[0] == 0 then 1 else 4097)
              && forall i :: 0 <= i < 4096 ==> PageOf(s).bytes[i] == if s[0] == 0 then 0 else s[1 + i]
  {
  }

  lemma PageRoundTrip(page: seq<u8>, rest: seq<u8>)
    requires |page| == PAGE
    ensures PageOf(PageCode(page) + rest) == Taken(page, |PageCode(page)|)
  {
    var s := PageCode(page) + rest;
    if page != Zeros(PAGE) {
      assert s[1..1 + PAGE] == page;
    }
  }

  /** Reading what was written gives the image back and uses up exactly what was written, whatever
      follows. */
  lemma {:induction false} DecodeEncode(p: seq<u8>, rest: seq<u8>)
    requires Whole(|p|)
    ensures Decode(Encode(p) + rest, |p|) == Taken(p, |Encode(p)|)
    decreases |p|
  {
    hide PageOf, PageCode;
    if p != [] {
      var page, more := p[..PAGE], Encode(p[PAGE..]);
      assert Encode(p) + rest == PageCode(page) + (more + rest);
      PageRoundTrip(page, more + rest);
      assert (Encode(p) + rest)[|PageCode(page)|..] == more + rest;
      DecodeEncode(p[PAGE..], rest);
      assert page + p[PAGE..] == p;
    }
  }

  /** A stream cut short anywhere is noticed. */
  lemma {:induction false} CutShort(p: seq<u8>, n: nat)
    requires Whole(|p|) && n < |Encode(p)|
    ensures Decode(Encode(p)[..n], |p|) == TooShort
    decreases |p|
  {
    hide PageOf, PageCode;
    var page, more := p[..PAGE], Encode(p[PAGE..]);
    var k := |PageCode(page)|;
    var s := Encode(p)[..n];
    if n < k {
      assert s == PageCode(page)[..n];
      PageCutShort(page, n);
    } else {
      assert s == PageCode(page) + more[..n - k];
      PageRoundTrip(page, more[..n - k]);
      assert s[k..] == more[..n - k];
      CutShort(p[PAGE..], n - k);
    }
  }

  lemma PageCutShort(page: seq<u8>, n: nat)
    requires |page| == PAGE && n < |PageCode(page)|
    ensures PageOf(PageCode(page)[..n]) == TooShort
  {
  }

  /** Different images are written differently. */
  lemma {:induction false} EncodeInjective(p: seq<u8>, q: seq<u8>)
    requires Whole(|p|) && |p| == |q| && Encode(p) == Encode(q)
    ensures p == q
  {
    DecodeEncode(p, []);
    DecodeEncode(q, []);
  }

  /** Reading the whole of s is having read `front` and going on with `rest`. */
  predicate Left(s: seq<u8>, rest: seq<u8>, front: seq<u8>, used: nat, bytes: nat)
    requires Whole(bytes) && Whole(|front|) && |front| <= bytes
  {
    Decode(s, bytes) ==
      match Decode(rest, bytes - |front|)
      case TooShort => TooShort
      case Taken(back, more) => Taken(front + back, used + more)
  }

  /** One page on. */
  lemma LeftStep(s: seq<u8>, rest: seq<u8>, front: seq<u8>, used: nat, bytes: nat)
    requires Whole(bytes) && Whole(|front|) && |front| < bytes && Left(s, rest, front, used, bytes)
    ensures PageOf(rest).TooShort? ==> Decode(s, bytes) == TooShort
    ensures PageOf(rest).Taken? ==>
              Left(s, rest[PageOf(rest).used..], front + PageOf(rest).bytes, used + PageOf(rest).used, bytes)
  {
    hide PageOf;
    if PageOf(rest).Taken? {
      var page := PageOf(rest).bytes;
      var r := Decode(rest[PageOf(rest).used..], bytes - |front| - PAGE);
      if r.Taken? {
        assert (front + page) + r.bytes == front + (page + r.bytes);
      }
    }
  }

  lemma LeftStart(s: seq<u8>, bytes: nat)
    requires Whole(bytes)
    ensures Left(s, s, [], 0, bytes)
  {
    var r := Decode(s, bytes);
    if r.Taken? {
      assert [] + r.bytes == r.bytes;
    }
  }

  lemma LeftEnd(s: seq<u8>, rest: seq<u8>, front: seq<u8>, used: nat, bytes: nat)
    requires Whole(bytes) && |front| == bytes
    ensures Left(s, rest, front, used, bytes) <==> Decode(s, bytes) == Taken(front, used)
  {
    assert front + [] == front;
  }

  lemma EncodeStep(p: seq<u8>)
    requires Whole(|p|) && p != []
    ensures |p| >= PAGE && Encode(p) == PageCode(p[..PAGE]) + Encode(p[PAGE..])
  {
  }

  /** A file that can hold `limit` bytes, read from pos. */
  class File {
    var data: seq<u8>
    var pos: nat
    const limit: nat

    predicate Valid()
      reads this
    {
      pos <= |data| <= limit
    }

    constructor (limit: nat)
      ensures Valid() && data == [] && pos == 0 && this.limit == limit
    {
      this.limit, data, pos := limit, [], 0;
    }

    method Write(bs: seq<u8>) returns (ok: bool)
      requires Valid()
      modifies this`data
      ensures Valid()
      ensures ok == (|old(data)| + |bs| <= limit)
      ensures data == if ok then old(data) + bs else old(data)
    {
      ok := |data| + |bs| <= limit;
      if ok {
        data := data + bs;
      }
    }

    method Read(n: nat) returns (ok: bool, bs: seq<u8>)
      requires Valid()
      modifies this`pos
      ensures Valid()
      ensures ok == (old(pos) + n <= |data|)
      ensures ok ==> bs == data[old(pos)..old(pos) + n] && pos == old(pos) + n
      ensures !ok ==> pos == old(pos)
    {
      ok, bs := pos + n <= |data|, [];
      if ok {
        bs, pos := data[pos..pos + n], pos + n;
      }
    }

    /** The body of pages_out's loop. */
    method PageOut(page: seq<u8>) returns (ok: bool)
      requires Valid() && |page| == PAGE
      modifies this`data
      ensures Valid()
      ensures ok == (|old(data)| + |PageCode(page)| <= limit)
      ensures ok ==> data == old(data) + PageCode(page)
    {
      hide Zeros;
      var used := page != Zeros(PAGE);
      ok := Write([if used then 1 else 0]);
      if ok && used {
        ok := Write(page);
        assert (old(data) + [1]) + page == old(data) + ([1] + page);
      }
    }

    /** pages_out */
    method PagesOut(p: array<u8>) returns (ok: bool)
      requires Valid() && Whole(p.Length)
      modifies this`data
      ensures Valid()
      ensures ok == (|old(data)| + |Encode(p[..])| <= limit)
      ensures ok ==> data == old(data) + Encode(p[..])
    {
      hide PageCode;
      var o := 0;
      assert p[0..] == p[..];
      while o < p.Length
        invariant o <= p.Length && Whole(o) && Valid()
        invariant data + Encode(p[o..]) == old(data) + Encode(p[..])
      {
        EncodeStep(p[o..]);
        assert p[o..][..PAGE] == p[o..o + PAGE] && p[o..][PAGE..] == p[o + PAGE..];
        ok := PageOut(p[o..o + PAGE]);
        if !ok {
          return;
        }
        o := o + PAGE;
      }
      ok := true;
    }

    /** The body of pages_in's loop. */
    method PageIn(p: array<u8>, o: nat) returns (ok: bool)
      requires Valid() && o + PAGE <= p.Length
      modifies this`pos, p
      ensures Valid() && pos >= old(pos)
      ensures ok == PageOf(data[old(pos)..]).Taken?
      ensures ok ==>
                && pos == old(pos) + PageOf(data[old(pos)..]).used
                && p[..o + PAGE] == old(p[..o]) + PageOf(data[old(pos)..]).bytes
    {
      var bs;
      ghost var s := data[pos..];
      ok, bs := Read(1);
      if !ok {
        return;
      }
      assert bs[0] == s[0];
      if bs[0] == 0 {
        forall i | o <= i < o + PAGE {
          p[i] := 0;
        }
      } else {
        ok, bs := Read(PAGE);
        if !ok {
          return;
        }
        assert bs == s[1..1 + PAGE];
        forall i | o <= i < o + PAGE {
          p[i] := bs[i - o];
        }
      }
    }

    /** pages_in: the image is what Decode makes of the rest of the file, whatever p held. */
    method PagesIn(p: array<u8>) returns (ok: bool)
      requires Valid() && Whole(p.Length)
      modifies this`pos, p
      ensures Valid()
      ensures ok == Decode(data[old(pos)..], p.Length).Taken?
      ensures ok ==>
                && p[..] == Decode(data[old(pos)..], p.Length).bytes
                && pos == old(pos) + Decode(data[old(pos)..], p.Length).used
    {
      hide PageOf, Left;
      ghost var s := data[pos..];
      var o := 0;
      LeftStart(s, p.Length);
      while o < p.Length
        invariant o <= p.Length && Whole(o) && Valid() && pos >= old(pos)
        invariant Left(s, data[pos..], p[..o], pos - old(pos), p.Length)
      {
        ghost var at := data[pos..];
        LeftStep(s, at, p[..o], pos - old(pos), p.Length);
        ok := PageIn(p, o);
        if !ok {
          return;
        }
        assert data[pos..] == at[PageOf(at).used..];
        o := o + PAGE;
      }
      LeftEnd(s, data[pos..], p[..], pos - old(pos), p.Length);
      assert p[..o] == p[..];
      ok := true;
    }

    /** The memory written by dos32_state_save. */
    method SaveMemory(m: array<u8>, lfb: array<u8>, vram: array<u8>) returns (ok: bool)
      requires Valid() && Whole(m.Length) && Whole(lfb.Length) && Whole(vram.Length)
      modifies this`data
      ensures Valid()
      ensures ok == (|old(data)| + |Image(m[..], lfb[..], vram[..])| <= limit)
      ensures ok ==> data == old(data) + Image(m[..], lfb[..], vram[..])
    {
      hide Encode;
      ok := PagesOut(m);
      if ok {
        ok := PagesOut(lfb);
      }
      if ok {
        ok := PagesOut(vram);
      }
    }

    /** The memory read by dos32_state_load. If the rest of the file starts with an image of these
        sizes, the regions become that image whatever they held, and the file is left just behind it;
        if the rest is an image cut short, the load says so. */
    method LoadMemory(m: array<u8>, lfb: array<u8>, vram: array<u8>, ghost a: seq<u8>, ghost b: seq<u8>,
                      ghost c: seq<u8>)
      returns (ok: bool)
      requires Valid() && m != lfb && m != vram && lfb != vram
      requires |a| == m.Length && |b| == lfb.Length && |c| == vram.Length
      requires Whole(|a|) && Whole(|b|) && Whole(|c|)
      modifies this`pos, m, lfb, vram
      ensures Valid()
      ensures Image(a, b, c) <= data[old(pos)..] ==>
                ok && m[..] == a && lfb[..] == b && vram[..] == c && pos == old(pos) + |Image(a, b, c)|
      ensures data[old(pos)..] < Image(a, b, c) ==> !ok
    {
      hide Encode, Decode, Image, Whole, Zeros, PageOf, PageCode;
      ghost var p0 := pos;
      ReadsThree(data[pos..], a, b, c);
      ok := PagesIn(m);
      ghost var p1 := pos;
      assert ok ==> data[p1..] == data[p0..][p1 - p0..];
      if ok {
        ok := PagesIn(lfb);
      }
      ghost var p2 := pos;
      assert ok ==> data[p2..] == data[p0..][p1 - p0..][p2 - p1..];
      if ok {
        ok := PagesIn(vram);
      }
    }
  }

  /** The three regions as written. */
  function Image(a: seq<u8>, b: seq<u8>, c: seq<u8>): seq<u8>
    requires Whole(|a|) && Whole(|b|) && Whole(|c|)
  {
    Encode(a) + Encode(b) + Encode(c)
  }

  /** What three reads in a row make of an image, whole or cut short. */
  lemma {:induction false} ReadsThree(s: seq<u8>, a: seq<u8>, b: seq<u8>, c: seq<u8>)
    requires Whole(|a|) && Whole(|b|) && Whole(|c|)
    ensures Image(a, b, c) <= s ==>
              && Decode(s, |a|) == Taken(a, |Encode(a)|)
              && Decode(s[|Encode(a)|..], |b|) == Taken(b, |Encode(b)|)
              && Decode(s[|Encode(a)|..][|Encode(b)|..], |c|) == Taken(c, |Encode(c)|)
              && |Image(a, b, c)| == |Encode(a)| + |Encode(b)| + |Encode(c)|
    ensures s < Image(a, b, c) && Decode(s, |a|).Taken? ==>
              var t := s[Decode(s, |a|).used..];
              Decode(t, |b|).Taken? ==> Decode(t[Decode(t, |b|).used..], |c|).TooShort?
  {
    hide Encode, Decode;
    var ea, eb, ec := Encode(a), Encode(b), Encode(c);
    if Image(a, b, c) <= s {
      var rest := s[|ea + eb + ec|..];
      assert s == ea + (eb + (ec + rest));
      DecodeEncode(a, eb + (ec + rest));
      assert s[|ea|..] == eb + (ec + rest);
      DecodeEncode(b, ec + rest);
      assert s[|ea|..][|eb|..] == ec + rest;
      DecodeEncode(c, rest);
    } else if s < Image(a, b, c) {
      if |s| < |ea| {
        assert s == ea[..|s|];
        CutShort(a, |s|);
      } else {
        var t := s[|ea|..];
        assert s == ea + t;
        DecodeEncode(a, t);
        if |t| < |eb| {
          assert t == eb[..|t|];
          CutShort(b, |t|);
        } else {
          var u := t[|eb|..];
          assert t == eb + u;
          DecodeEncode(b, u);
          assert u == ec[..|u|];
          CutShort(c, |u|);
        }
      }
    }
  }
}
