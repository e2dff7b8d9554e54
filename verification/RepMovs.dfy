/**
 `rep movs` (runtime/recomp32/recomp_types.h:239-255): a CPU copies one element at a time, up or
 down, so an overlapping copy can read its own output. The runtime calls memmove when it may, and
 walks element by element only when it must. Memory is an array of bytes; addresses are offsets.
 */
module RepMovs {
  import opened Words

  const WORD := 0x1_0000_0000

  /** memmove: as if through a temporary. */
  function Moved(s: seq<u8>, d: int, src: int, b: nat): (r: seq<u8>)
    requires 0 <= d && d + b <= |s| && 0 <= src && src + b <= |s|
    ensures |r| == |s|
    ensures forall i :: 0 <= i < |s| ==> r[i] == if d <= i < d + b then s[src + (i - d)] else s[i]
  {
    seq(|s|, i requires 0 <= i < |s| => if d <= i < d + b then s[src + (i - d)] else s[i])
  }

  /** The size of n elements of esz bytes. */
  function Bytes(n: nat, esz: nat): nat {
    if n == 0 then 0 else Bytes(n - 1, esz) + esz
  }

  lemma {:induction false} BytesIsProduct(n: nat, esz: nat)
    ensures Bytes(n, esz) == n * esz
  {
    if n > 0 {
      BytesIsProduct(n - 1, esz);
    }
  }

  /** Every element of an n-element copy from src to d lies in memory. */
  predicate InBounds(len: nat, d: int, src: int, n: nat, esz: nat, up: bool) {
    n > 0 ==>
      if up then 0 <= d && 0 <= src && d + Bytes(n, esz) <= len && src + Bytes(n, esz) <= len
      else d + esz <= len && src + esz <= len && Bytes(n, esz) <= d + esz && Bytes(n, esz) <= src + esz
  }

  function Step(esz: nat, up: bool): int {
    if up then esz else -(esz as int)
  }

  /** What the CPU does: n elements of esz bytes, one at a time, each element read whole and then
      written, both addresses stepping up or down after each. */
  function CpuMovs(s: seq<u8>, d: int, src: int, n: nat, esz: nat, up: bool): (r: seq<u8>)
    requires InBounds(|s|, d, src, n, esz, up)
    ensures |r| == |s|
    decreases n
  {
    if n == 0 then s
    else CpuMovs(Moved(s, d, src, esz), d + Step(esz, up), src + Step(esz, up), n - 1, esz, up)
  }

  method Memmove(mem: array<u8>, d: int, src: int, b: nat)
    requires 0 <= d && d + b <= mem.Length && 0 <= src && src + b <= mem.Length
    modifies mem
    ensures mem[..] == Moved(old(mem[..]), d, src, b)
  {
    forall i | 0 <= i < b {
      mem[d + i] := mem[src + i];
    }
  }

  /** recomp_rep_movs. The two C conditions are unsigned 32-bit differences. */
  method RecompRepMovs(mem: array<u8>, edi0: u32, esi0: u32, n: u32, esz: u32, df: int)
    requires df == 1 || df == -1
    requires esz > 0 && n * esz < WORD && mem.Length <= WORD
    requires InBounds(mem.Length, edi0, esi0, n, esz, df > 0)
    modifies mem
    ensures mem[..] == CpuMovs(old(mem[..]), edi0, esi0, n, esz, df > 0)
  {
    var b := n * esz;
    BytesIsProduct(n, esz);
    if (if df > 0 then (edi0 - esi0) % WORD >= b else (esi0 - edi0) % WORD >= b) {
      if n == 0 {
        return;                        // memmove of no bytes
      }
      NoWrap(mem.Length, edi0, esi0, n, esz, df > 0);
      if df > 0 {
        UpIsMove(mem[..], edi0, esi0, n, esz);
        Memmove(mem, edi0, esi0, b);
      } else {
        DownIsMove(mem[..], edi0, esi0, n, esz);
        Memmove(mem, edi0 - b + esz, esi0 - b + esz, b);
      }
      return;
    }
    Walk(mem, edi0, esi0, n, esz, df > 0);
  }

  /** The element-by-element loop. */
  method Walk(mem: array<u8>, edi0: int, esi0: int, n: nat, esz: nat, up: bool)
    requires InBounds(mem.Length, edi0, esi0, n, esz, up)
    modifies mem
    ensures mem[..] == CpuMovs(old(mem[..]), edi0, esi0, n, esz, up)
  {
    var i, edi, esi := 0, edi0, esi0;
    while i < n
      invariant 0 <= i <= n
      invariant InBounds(mem.Length, edi, esi, n - i, esz, up)
      invariant CpuMovs(mem[..], edi, esi, n - i, esz, up)
        == CpuMovs(old(mem[..]), edi0, esi0, n, esz, up)
    {
      Memmove(mem, edi, esi, esz);     // memcpy of one element
      i, edi, esi := i + 1, edi + Step(esz, up), esi + Step(esz, up);
    }
  }

  /** With no address wrap the unsigned test says: the destination does not start inside what is
      still to be read. */
  lemma NoWrap(len: nat, d: u32, src: u32, n: nat, esz: nat, up: bool)
    requires n > 0 && esz > 0 && len <= WORD && InBounds(len, d, src, n, esz, up)
    ensures up ==> ((d - src) % WORD >= Bytes(n, esz) <==> d < src || d >= src + Bytes(n, esz))
    ensures !up ==> ((src - d) % WORD >= Bytes(n, esz) <==> src < d || src >= d + Bytes(n, esz))
  {
  }

  lemma {:induction false} UpIsMove(s: seq<u8>, d: int, src: int, n: nat, esz: nat)
    requires InBounds(|s|, d, src, n, esz, true) && n > 0
    requires d <= src || d >= src + Bytes(n, esz)
    ensures CpuMovs(s, d, src, n, esz, true) == Moved(s, d, src, Bytes(n, esz))
    decreases n
  {
    var s1 := Moved(s, d, src, esz);
    if n == 1 {
      assert Bytes(1, esz) == esz;
    } else {
      UpIsMove(s1, d + esz, src + esz, n - 1, esz);
      MoveInTwo(s, d, src, esz, Bytes(n - 1, esz));
    }
  }

  /** A move split in two, low part first, when the low part's output does not reach the input of
      the high part. */
  lemma MoveInTwo(s: seq<u8>, d: int, src: int, x: nat, y: nat)
    requires 0 <= d && d + (x + y) <= |s| && 0 <= src && src + (x + y) <= |s|
    requires d <= src || d >= src + (x + y)
    ensures Moved(Moved(s, d, src, x), d + x, src + x, y) == Moved(s, d, src, y + x)
  {
  }

  /** The same, high part first. */
  lemma MoveInTwoDown(s: seq<u8>, d: int, src: int, x: nat, y: nat)
    requires 0 <= d && d + (x + y) <= |s| && 0 <= src && src + (x + y) <= |s|
    requires src <= d || src >= d + (x + y)
    ensures Moved(Moved(s, d + y, src + y, x), d, src, y) == Moved(s, d, src, y + x)
  {
  }

  lemma {:induction false} DownIsMove(s: seq<u8>, d: int, src: int, n: nat, esz: nat)
    requires InBounds(|s|, d, src, n, esz, false) && n > 0
    requires src <= d || src >= d + Bytes(n, esz)
    ensures CpuMovs(s, d, src, n, esz, false)
      == Moved(s, d - Bytes(n, esz) + esz, src - Bytes(n, esz) + esz, Bytes(n, esz))
    decreases n
  {
    var s1 := Moved(s, d, src, esz);
    if n == 1 {
      assert Bytes(1, esz) == esz;
    } else {
      DownIsMove(s1, d - esz, src - esz, n - 1, esz);
      var y := Bytes(n - 1, esz);
      MoveInTwoDown(s, d - y, src - y, esz, y);
    }
  }

  /** A byte outside the destination keeps its value. */
  lemma {:induction false} UpFrame(s: seq<u8>, d: int, src: int, n: nat, esz: nat, i: int)
    requires InBounds(|s|, d, src, n, esz, true)
    requires 0 <= i < |s| && (n == 0 || i < d || i >= d + Bytes(n, esz))
    ensures CpuMovs(s, d, src, n, esz, true)[i] == s[i]
    decreases n
  {
    if n > 0 {
      UpFrame(Moved(s, d, src, esz), d + esz, src + esz, n - 1, esz, i);
    }
  }

  /** Going up with the destination at least one element above the source, every byte written ends
      equal to the byte it was read from. */
  lemma {:induction false} UpReadsItself(s: seq<u8>, d: int, src: int, n: nat, esz: nat, j: nat)
    requires InBounds(|s|, d, src, n, esz, true) && src + esz <= d
    requires j < Bytes(n, esz)
    ensures var r := CpuMovs(s, d, src, n, esz, true); r[d + j] == r[src + j]
    decreases n
  {
    var s1 := Moved(s, d, src, esz);
    if j < esz {
      UpFrame(s1, d + esz, src + esz, n - 1, esz, d + j);
      UpFrame(s1, d + esz, src + esz, n - 1, esz, src + j);
    } else {
      UpReadsItself(s1, d + esz, src + esz, n - 1, esz, j - esz);
    }
  }

  /** The repeating pattern: with edi = esi + k, k at least an element, the first k bytes of the
      source repeat along the whole destination. */
  lemma {:induction false} UpRepeats(s: seq<u8>, src: int, k: nat, n: nat, esz: nat, j: nat)
    requires 0 < esz <= k && InBounds(|s|, src + k, src, n, esz, true)
    requires j < Bytes(n, esz)
    ensures 0 <= j % k <= j
    ensures CpuMovs(s, src + k, src, n, esz, true)[src + k + j] == s[src + j % k]
    decreases j
  {
    UpReadsItself(s, src + k, src, n, esz, j);
    if j < k {
      UpFrame(s, src + k, src, n, esz, src + j);
      Remainder(j, k, 0, j);
    } else {
      UpRepeats(s, src, k, n, esz, j - k);
      Remainder(j, k, (j - k) / k + 1, (j - k) % k);
    }
  }

  lemma {:induction false} DownFrame(s: seq<u8>, d: int, src: int, n: nat, esz: nat, i: int)
    requires InBounds(|s|, d, src, n, esz, false)
    requires 0 <= i < |s| && (n == 0 || i < d + esz - Bytes(n, esz) || i >= d + esz)
    ensures CpuMovs(s, d, src, n, esz, false)[i] == s[i]
    decreases n
  {
    if n > 0 {
      DownFrame(Moved(s, d, src, esz), d - esz, src - esz, n - 1, esz, i);
    }
  }

  /** The same going down, with the destination at least one element below the source; bytes are counted
      from the top. */
  lemma {:induction false} DownReadsItself(s: seq<u8>, d: int, src: int, n: nat, esz: nat, j: nat)
    requires InBounds(|s|, d, src, n, esz, false) && d + esz <= src
    requires j < Bytes(n, esz)
    ensures var r := CpuMovs(s, d, src, n, esz, false); r[d + esz - 1 - j] == r[src + esz - 1 - j]
    decreases n
  {
    var s1 := Moved(s, d, src, esz);
    if j < esz {
      DownFrame(s1, d - esz, src - esz, n - 1, esz, d + esz - 1 - j);
      DownFrame(s1, d - esz, src - esz, n - 1, esz, src + esz - 1 - j);
    } else {
      DownReadsItself(s1, d - esz, src - esz, n - 1, esz, j - esz);
    }
  }

  /** With esi = edi + k, k at least an element, the last k bytes of the source repeat down the whole
      destination. */
  lemma {:induction false} DownRepeats(s: seq<u8>, d: int, k: nat, n: nat, esz: nat, j: nat)
    requires 0 < esz <= k && InBounds(|s|, d, d + k, n, esz, false)
    requires j < Bytes(n, esz)
    ensures 0 <= j % k <= j
    ensures CpuMovs(s, d, d + k, n, esz, false)[d + esz - 1 - j] == s[d + k + esz - 1 - j % k]
    decreases j
  {
    hide CpuMovs;
    DownReadsItself(s, d, d + k, n, esz, j);
    OneTurnBack(j, k);
    if j < k {
      DownFrame(s, d, d + k, n, esz, d + k + esz - 1 - j);
    } else {
      DownRepeats(s, d, k, n, esz, j - k);
    }
  }

  lemma OneTurnBack(j: nat, k: nat)
    requires k > 0
    ensures 0 <= j % k <= j && j % k == if j < k then j else (j - k) % k
  {
    if j < k {
      Remainder(j, k, 0, j);
    } else {
      Remainder(j, k, (j - k) / k + 1, (j - k) % k);
    }
  }
}
