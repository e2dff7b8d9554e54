/**
 The registry file's text (save_key and hle_reg_load in runtime/win32hle/advapi32.c): one line
 path\\name=kind:text for each value. Characters are bytes.
 */
module RegistryText {
  import opened Words
  import opened RegistryTree

  const LF: u8 := 10
  const CR: u8 := 13
  const COLON: u8 := 58
  const EQUALS: u8 := 61
  const SLASH: u8 := 92      // the backslash between names

  const KIND_SZ: Text := Ascii("sz")
  const KIND_DWORD: Text := Ascii("dword")
  const KIND_HEX: Text := Ascii("hex")

  const REG_SZ: u32 := 1
  const REG_BINARY: u32 := 3
  const REG_DWORD: u32 := 4

  const LINE := 2047         // fgets with a buffer of 2048
  const PATH := 1023         // snprintf to a buffer of 1024
  const HEX := 1024          // bytes a hex value can have

  /** The bytes of a text of plain characters. */
  function Ascii(s: string): (t: Text)
    ensures |t| == |s| && forall i :: 0 <= i < |s| ==> t[i] == s[i] as int % 256
  {
    seq(|s|, i requires 0 <= i < |s| => s[i] as int % 256)
  }

  // ---- searching ----

  /** strcspn for one character. */
  function Index(s: Text, c: u8): (n: nat)
    ensures n <= |s|
    ensures n < |s| ==> s[n] == c
    ensures forall i :: 0 <= i < n ==> s[i] != c
  {
    if s == [] || s[0] == c then 0 else 1 + Index(s[1..], c)
  }

  /** strrchr, or the length. */
  function LastIndex(s: Text, c: u8): (n: nat)
    ensures n <= |s|
    ensures n < |s| ==> s[n] == c && forall i :: n < i < |s| ==> s[i] != c
    ensures n == |s| ==> forall i :: 0 <= i < |s| ==> s[i] != c
  {
    if s == [] then 0
    else if s[|s| - 1] == c then |s| - 1
    else
      var n := LastIndex(s[..|s| - 1], c);
      if n == |s| - 1 then |s| else n
  }

  predicate Lacks(s: Text, c: u8) {
    forall i :: 0 <= i < |s| ==> s[i] != c
  }

  lemma {:induction false} IndexIs(a: Text, c: u8, b: Text)
    requires Lacks(a, c)
    ensures Index(a + [c] + b, c) == |a|
    decreases |a|
  {
    var s := a + [c] + b;
    if a != [] {
      assert s[0] == a[0];
      assert s[1..] == a[1..] + [c] + b;
      IndexIs(a[1..], c, b);
    }
  }

  lemma {:induction false} LastIndexIs(a: Text, c: u8, b: Text)
    requires Lacks(b, c)
    ensures LastIndex(a + [c] + b, c) == |a|
    decreases |b|
  {
    var s := a + [c] + b;
    if b != [] {
      var n := |b| - 1;
      assert s[|s| - 1] == b[n];
      assert s[..|s| - 1] == a + [c] + b[..n];
      LastIndexIs(a, c, b[..n]);
    }
  }

  // ---- paths ----

  /** The characters up to a backslash, a NUL or the end. */
  function DropSlashes(s: Text): (r: Text)
    ensures |r| <= |s|
    ensures s != [] && s[0] == SLASH ==> |r| < |s|
  {
    if s != [] && s[0] == SLASH then DropSlashes(s[1..]) else s
  }

  /** The names subkey cuts a path into: at backslashes, and after 127 characters. */
  function Parts(s: Text): seq<Text>
    decreases |s|
  {
    if s == [] then []
    else
      var n := if Index(s, SLASH) > NAME then NAME else Index(s, SLASH);
      var rest := DropSlashes(s[n..]);
      if n == 0 then Parts(rest) else [s[..n]] + Parts(rest)
  }

  /** How a path is cut, character for character: backslashes separate and are dropped, also several in a
      row and at either end; a run of more than 127 other characters is cut after 127. */
  lemma PartsAre(n: Text, s: Text)
    requires n != [] && forall i :: 0 <= i < |n| ==> n[i] != 92
    ensures Parts([]) == [] && Parts([92] + s) == Parts(s)
    ensures |n| <= 127 && (s == [] || s[0] == 92) ==> Parts(n + s) == [n] + Parts(s)
    ensures |n| > 127 ==> Parts(n + s) == [n[..127]] + Parts(n[127..] + s)
  {
    hide Index, Parts;
    NoParts();
    PartsBehindSlash(s);
    if |n| > 127 {
      LongPart(n, s);
    } else if s == [] {
      assert n + s == n;
      WholePart(n);
    } else if s[0] == 92 {
      ShortPart(n, s);
    }
  }

  lemma NoParts()
    ensures Parts([]) == []
  {
  }

  lemma ShortPart(n: Text, s: Text)
    requires n != [] && |n| <= NAME && Lacks(n, SLASH) && s != [] && s[0] == SLASH
    ensures Parts(n + s) == [n] + Parts(s)
  {
    hide Index, Parts;
    IndexIs(n, SLASH, s[1..]);
    assert n + s == n + [SLASH] + s[1..];
    PartsStep(n + s, |n|);
    assert (n + s)[..|n|] == n && (n + s)[|n|..] == s;
    PartsDropped(s);
  }

  lemma WholePart(n: Text)
    requires n != [] && |n| <= NAME && Lacks(n, SLASH)
    ensures Parts(n) == [n] + Parts([])
  {
    assert Index(n, SLASH) == |n|;
    assert n[|n|..] == [] && n[..|n|] == n;
  }

  lemma LongPart(n: Text, s: Text)
    requires |n| > NAME && Lacks(n, SLASH)
    ensures Parts(n + s) == [n[..NAME]] + Parts(n[NAME..] + s)
  {
    var all := n + s;
    assert forall i :: 0 <= i < |n| ==> all[i] == n[i];
    assert all[..NAME] == n[..NAME] && all[NAME..] == n[NAME..] + s;
    assert all[NAME..][0] == n[NAME];
    LongStep(all);
  }

  lemma LongStep(s: Text)
    requires |s| > NAME && Index(s, SLASH) > NAME
    ensures Parts(s) == [s[..NAME]] + Parts(s[NAME..])
  {
  }

  lemma {:induction false} PartsDropped(s: Text)
    ensures Parts(DropSlashes(s)) == Parts(s)
    decreases |s|
  {
    if s != [] && s[0] == SLASH {
      PartsBehindSlash(s[1..]);
      assert [SLASH] + s[1..] == s;
      PartsDropped(s[1..]);
    }
  }

  lemma {:induction false} PartsBehindSlash(s: Text)
    ensures Parts([SLASH] + s) == Parts(s)
    decreases |s|, 0
  {
    var t := [SLASH] + s;
    assert t[1..] == s && t[0..] == t;
    assert Index(t, SLASH) == 0;
    assert Parts(t) == Parts(DropSlashes(s));
    if s != [] && s[0] == SLASH {
      PartsBehindSlash(s[1..]);
      assert [SLASH] + s[1..] == s;
    }
  }

  /** Each name behind a backslash. */
  function Tail(path: seq<Text>): Text {
    if path == [] then [] else [SLASH] + path[0] + Tail(path[1..])
  }

  lemma TailStep(path: seq<Text>)
    ensures path == [] ==> Tail(path) == []
    ensures path != [] ==> Tail(path) == [SLASH] + path[0] + Tail(path[1..])
  {
  }

  lemma {:induction false} TailAppend(path: seq<Text>, n: Text)
    ensures Tail(path + [n]) == Tail(path) + [SLASH] + n
    decreases |path|
  {
    hide Tail;
    var all := path + [n];
    TailStep(all);
    TailStep(path);
    if path == [] {
      assert all[1..] == [];
      TailStep([]);
    } else {
      TailAppend(path[1..], n);
      assert all[1..] == path[1..] + [n] && all[0] == path[0];
    }
  }

  /** A name save_key can write: not empty, not too long, and without the characters the file is cut at. */
  predicate CleanChars(s: Text) {
    |s| <= NAME && Lacks(s, 0) && Lacks(s, SLASH) && Lacks(s, EQUALS) && Lacks(s, CR) && Lacks(s, LF)
  }

  predicate CleanPath(path: seq<Text>) {
    forall i :: 0 <= i < |path| ==> path[i] != [] && CleanChars(path[i])
  }

  /** Cutting a path where names were joined gives the names back. */
  lemma {:induction false} PartsOfTail(path: seq<Text>)
    requires path != [] && CleanPath(path)
    ensures Parts(Tail(path)[1..]) == path
    decreases |path|
  {
    hide *;
    var n, rest := path[0], path[1..];
    CleanSplit(path);
    BehindSlash(path);
    if rest == [] {
      OnePart(n);
      TailStep([]);
      assert n + [] == n && path == [n];
    } else {
      TailFirst(rest);
      CutPart(n, Tail(rest)[1..]);
      PartsOfTail(rest);
      assert n + Tail(rest) == n + [SLASH] + Tail(rest)[1..];
      assert path == [n] + rest;
    }
  }

  lemma CleanSplit(path: seq<Text>)
    requires path != [] && CleanPath(path)
    ensures path[0] != [] && CleanChars(path[0]) && CleanPath(path[1..])
  {
    hide CleanChars;
  }

  lemma BehindSlash(path: seq<Text>)
    requires path != []
    ensures |Tail(path)| > 0 && Tail(path)[1..] == path[0] + Tail(path[1..])
  {
    TailStep(path);
    hide Tail;
    assert [SLASH] + path[0] + Tail(path[1..]) == [SLASH] + (path[0] + Tail(path[1..]));
  }

  lemma TailFirst(path: seq<Text>)
    requires path != [] && CleanPath(path)
    ensures |Tail(path)| > 1 && Tail(path)[0] == SLASH && Tail(path)[1] != SLASH
    ensures Tail(path) == [SLASH] + Tail(path)[1..]
  {
  }

  lemma OnePart(n: Text)
    requires n != [] && CleanChars(n)
    ensures Parts(n) == [n]
  {
    assert Index(n, SLASH) == |n|;
    assert n[|n|..] == [] && n[..|n|] == n;
    assert Parts([]) == [];
  }

  lemma CutPart(n: Text, more: Text)
    requires n != [] && CleanChars(n) && more != [] && more[0] != SLASH
    ensures Parts(n + [SLASH] + more) == [n] + Parts(more)
  {
    hide Index;
    var s := n + [SLASH] + more;
    IndexIs(n, SLASH, more);
    assert s[|n|..] == [SLASH] + more && s[..|n|] == n;
    assert DropSlashes([SLASH] + more) == more by {
      assert ([SLASH] + more)[1..] == more;
    }
    hide DropSlashes;
    PartsStep(s, |n|);
  }

  lemma PartsStep(s: Text, n: nat)
    requires s != [] && n == Index(s, SLASH) && 0 < n <= NAME
    ensures Parts(s) == [s[..n]] + Parts(DropSlashes(s[n..]))
  {
  }

  lemma {:induction false} TailLacks(path: seq<Text>)
    requires CleanPath(path)
    ensures Lacks(Tail(path), 0) && Lacks(Tail(path), EQUALS) && Lacks(Tail(path), CR) && Lacks(Tail(path), LF)
    decreases |path|
  {
    if path != [] {
      TailLacks(path[1..]);
    }
  }

  // ---- numbers ----

  function HexDigit(v: nat, upper: bool): u8
    requires v < 16
  {
    if v < 10 then 48 + v else if upper then 55 + v else 87 + v
  }

  /** The value of a digit, or 16. */
  function DigitOf(c: u8): nat {
    if 48 <= c <= 57 then c - 48 else if 65 <= c <= 70 then c - 55 else if 97 <= c <= 102 then c - 87 else 16
  }

  /** The digits of this base at the start of s, read after acc. */
  function Number(s: Text, base: nat, acc: nat): nat {
    if s == [] || DigitOf(s[0]) >= base then acc else Number(s[1..], base, base * acc + DigitOf(s[0]))
  }

  lemma DigitBack(v: nat, upper: bool)
    requires v < 16
    ensures DigitOf(HexDigit(v, upper)) == v
  {
  }

  /** strtoul(s, NULL, 0), as a 64-bit unsigned long cut to 32 bits. */
  function Strtoul(s: Text): u32 {
    var v :=
      if |s| > 2 && s[0] == 48 && (s[1] == 120 || s[1] == 88) && DigitOf(s[2]) < 16 then Number(s[2..], 16, 0)
      else if s != [] && s[0] == 48 then Number(s, 8, 0)
      else Number(s, 10, 0);
    if v >= 0x1_0000_0000_0000_0000 then 0xFFFF_FFFF else v % 0x1_0000_0000
  }

  /** The digits of v in a base up to 16, as %X prints them. */
  function DigitsOf(v: nat, base: nat): (s: Text)
    requires 2 <= base <= 16
    ensures s != []
  {
    if v < base then [HexDigit(v, true)] else DigitsOf(v / base, base) + [HexDigit(v % base, true)]
  }

  lemma DigitsStep(v: nat, base: nat)
    requires 2 <= base <= 16
    ensures v < base ==> DigitsOf(v, base) == [HexDigit(v, true)]
    ensures v >= base ==>
              && v == base * (v / base) + v % base && v % base < base && v / base < v
              && DigitsOf(v, base) == DigitsOf(v / base, base) + [HexDigit(v % base, true)]
  {
  }

  lemma NumberStep(d: nat, base: nat, rest: Text, acc: nat)
    requires d < base <= 16
    ensures Number([HexDigit(d, true)] + rest, base, acc) == Number(rest, base, base * acc + d)
  {
    DigitBack(d, true);
    assert ([HexDigit(d, true)] + rest)[1..] == rest;
  }

  lemma {:induction false} NumberOfDigits(v: nat, base: nat, rest: Text)
    requires 2 <= base <= 16
    ensures Number(DigitsOf(v, base) + rest, base, 0) == Number(rest, base, v)
    decreases v
  {
    hide DigitsOf, Number, HexDigit;
    DigitsStep(v, base);
    if v < base {
      NumberStep(v, base, rest, 0);
    } else {
      var q, d := v / base, [HexDigit(v % base, true)];
      NumberOfDigits(q, base, d + rest);
      assert DigitsOf(v, base) + rest == DigitsOf(q, base) + (d + rest);
      NumberStep(v % base, base, rest, q);
    }
  }

  lemma {:induction false} FirstOfDigits(v: nat, base: nat)
    requires 2 <= base <= 16
    ensures DigitOf(DigitsOf(v, base)[0]) < base && (v > 0 ==> DigitsOf(v, base)[0] != 48)
    decreases v
  {
    if v < base {
      DigitBack(v, true);
    } else {
      FirstOfDigits(v / base, base);
    }
  }

  /** A character is a digit only if it is one in print. */
  lemma OnlyDigits(c: u8)
    requires DigitOf(c) < 16
    ensures c == HexDigit(DigitOf(c), true) || c == HexDigit(DigitOf(c), false)
  {
  }

  /** strtoul with base 0 takes decimal digits, octal ones behind a 0, and hexadecimal ones behind 0x or
      0X, up to the first character that is no digit; of a number of more than 64 bits it gives
      ULONG_MAX, and all is cut to 32 bits. */
  lemma StrtoulReads(v: nat, rest: Text, x: u8)
    requires rest == [] || DigitOf(rest[0]) == 16
    ensures var u := if v >= 0x1_0000_0000_0000_0000 then 0xFFFF_FFFF else v % 0x1_0000_0000;
      && (v > 0 ==> Strtoul(DigitsOf(v, 10) + rest) == u)
      && Strtoul([48] + DigitsOf(v, 8) + rest) == u
      && (x == 120 || x == 88 ==> Strtoul([48, x] + DigitsOf(v, 16) + rest) == u)
  {
    hide Number, DigitsOf, DigitOf, HexDigit;
    Decimal(v, rest);
    Octal(v, rest);
    if x == 120 || x == 88 {
      Hexadecimal(v, rest, x);
    }
    hide Strtoul;
  }

  lemma Stops(v: nat, base: nat, rest: Text)
    requires 2 <= base <= 16 && (rest == [] || DigitOf(rest[0]) == 16)
    ensures Number(DigitsOf(v, base) + rest, base, 0) == v
  {
    NumberOfDigits(v, base, rest);
  }

  lemma Decimal(v: nat, rest: Text)
    requires rest == [] || DigitOf(rest[0]) == 16
    ensures v > 0 ==> Strtoul(DigitsOf(v, 10) + rest) ==
                      if v >= 0x1_0000_0000_0000_0000 then 0xFFFF_FFFF else v % 0x1_0000_0000
  {
    Stops(v, 10, rest);
    FirstOfDigits(v, 10);
    hide Number, DigitsOf, DigitOf;
    assert (DigitsOf(v, 10) + rest)[0] == DigitsOf(v, 10)[0];
  }

  lemma Octal(v: nat, rest: Text)
    requires rest == [] || DigitOf(rest[0]) == 16
    ensures Strtoul([48] + DigitsOf(v, 8) + rest) ==
            if v >= 0x1_0000_0000_0000_0000 then 0xFFFF_FFFF else v % 0x1_0000_0000
  {
    hide *;
    Stops(v, 8, rest);
    FirstOfDigits(v, 8);
    var digits := DigitsOf(v, 8) + rest;
    assert digits[0] == DigitsOf(v, 8)[0];
    OctalOf(digits, v);
    assert [48] + digits == [48] + DigitsOf(v, 8) + rest;
  }

  lemma OctalOf(digits: Text, v: nat)
    requires digits != [] && DigitOf(digits[0]) < 8 && Number(digits, 8, 0) == v
    ensures Strtoul([48] + digits) == if v >= 0x1_0000_0000_0000_0000 then 0xFFFF_FFFF else v % 0x1_0000_0000
  {
    var s := [48] + digits;
    NumberStep(0, 8, digits, 0);
    assert s[1] == digits[0] && DigitOf(120) == 16 && DigitOf(88) == 16;
    hide Number, DigitOf;
  }

  lemma Hexadecimal(v: nat, rest: Text, x: u8)
    requires (rest == [] || DigitOf(rest[0]) == 16) && (x == 120 || x == 88)
    ensures Strtoul([48, x] + DigitsOf(v, 16) + rest) ==
            if v >= 0x1_0000_0000_0000_0000 then 0xFFFF_FFFF else v % 0x1_0000_0000
  {
    hide *;
    Stops(v, 16, rest);
    FirstOfDigits(v, 16);
    var digits := DigitsOf(v, 16) + rest;
    assert digits[0] == DigitsOf(v, 16)[0];
    HexadecimalOf(digits, v, x);
    assert [48, x] + digits == [48, x] + DigitsOf(v, 16) + rest;
  }

  lemma HexadecimalOf(digits: Text, v: nat, x: u8)
    requires digits != [] && DigitOf(digits[0]) < 16 && Number(digits, 16, 0) == v && (x == 120 || x == 88)
    ensures Strtoul([48, x] + digits) == if v >= 0x1_0000_0000_0000_0000 then 0xFFFF_FFFF else v % 0x1_0000_0000
  {
    hide Number, DigitOf;
    var s := [48, x] + digits;
    assert s[2..] == digits && s[2] == digits[0];
  }

  function LittleEndian(v: u32): seq<u8> {
    [v % 256, v / 256 % 256, v / 0x1_0000 % 256, v / 0x100_0000]
  }

  function WordOf(d: seq<u8>): u32
    requires |d| == 4
  {
    d[0] as int + 256 * d[1] as int + 0x1_0000 * d[2] as int + 0x100_0000 * d[3] as int
  }

  lemma WordBack(d: seq<u8>)
    requires |d| == 4
    ensures LittleEndian(WordOf(d)) == d
  {
    var v := WordOf(d);
    Remainder(v, 256, d[1] as int + 256 * d[2] as int + 0x1_0000 * d[3] as int, d[0]);
    Remainder(v / 256, 256, d[2] as int + 256 * d[3] as int, d[1]);
    Remainder(v, 0x1_0000, d[2] as int + 256 * d[3] as int, d[0] as int + 256 * d[1] as int);
    Remainder(v / 0x1_0000, 256, d[3], d[2]);
    Remainder(v, 0x100_0000, d[3], d[0] as int + 256 * d[1] as int + 0x1_0000 * d[2] as int);
  }

  function ByteHex(b: u8): Text {
    [HexDigit(b / 16, false), HexDigit(b % 16, false)]
  }

  function HexBytes(d: seq<u8>): Text {
    if d == [] then [] else ByteHex(d[0]) + HexBytes(d[1..])
  }

  /** sscanf with %2x; a character that is no digit counts for nothing. */
  function PairOf(a: u8, b: u8): u8 {
    if DigitOf(a) == 16 then 0 else if DigitOf(b) == 16 then DigitOf(a) else 16 * DigitOf(a) + DigitOf(b)
  }

  function Unhex(s: Text, room: nat): seq<u8>
    decreases room
  {
    if |s| < 2 || room == 0 then [] else [PairOf(s[0], s[1])] + Unhex(s[2..], room - 1)
  }

  /** The bytes read back are those printed, as far as there is room. */
  lemma {:induction false} UnhexBack(d: seq<u8>, room: nat)
    ensures Unhex(HexBytes(d), room) == Clip(d, room)
    decreases |d|
  {
    if d != [] && room > 0 {
      DigitBack(d[0] / 16, false);
      DigitBack(d[0] % 16, false);
      UnhexBack(d[1..], room - 1);
      assert HexBytes(d)[2..] == HexBytes(d[1..]);
      assert Clip(d, room) == [d[0]] + Clip(d[1..], room - 1);
    }
  }

  lemma {:induction false} HexBytesPlain(d: seq<u8>)
    ensures |HexBytes(d)| == 2 * |d| && Digits(HexBytes(d))
    decreases |d|
  {
    if d != [] {
      HexBytesPlain(d[1..]);
    }
  }

  /** No character a line is cut at. */
  predicate Digits(s: Text) {
    forall i :: 0 <= i < |s| ==> s[i] >= 48 && s[i] != EQUALS
  }

  lemma {:induction false} DigitsPlain(v: nat, base: nat)
    requires 2 <= base <= 16
    ensures Digits(DigitsOf(v, base))
    decreases v
  {
    if v >= base {
      DigitsPlain(v / base, base);
    }
  }

  // ---- values ----

  /** A C string's characters. */
  function CString(d: seq<u8>): Text {
    d[..Index(d, 0)]
  }

  predicate IsDword(d: Datum) {
    d.typ == REG_DWORD && |d.data| == 4
  }

  /** The kind and text of a value. */
  function Kind(d: Datum): Text {
    if d.typ == REG_SZ then KIND_SZ else if IsDword(d) then KIND_DWORD else KIND_HEX
  }

  function TextOf(d: Datum): Text {
    if d.typ == REG_SZ then CString(d.data)
    else if IsDword(d) then [48, 120] + DigitsOf(WordOf(d.data), 16)
    else HexBytes(d.data)
  }

  function DatumOf(kind: Text, text: Text): Datum {
    if kind == KIND_SZ then Datum(REG_SZ, text + [0])
    else if kind == KIND_DWORD then Datum(REG_DWORD, LittleEndian(Strtoul(text)))
    else Datum(REG_BINARY, Unhex(text, HEX))
  }

  /** What a value is after a save and a load. */
  function Normal(d: Datum): Datum {
    if d.typ == REG_SZ then Datum(REG_SZ, CString(d.data) + [0])
    else if IsDword(d) then d
    else Datum(REG_BINARY, Clip(d.data, HEX))
  }

  /** A value comes back unchanged exactly when it is a string that ends at its only NUL, a 4-byte DWORD,
      or BINARY that fits the buffer: any other type comes back as BINARY. */
  lemma NormalKeeps(d: Datum)
    ensures Normal(d) == d <==>
            || (d.typ == 1 && d.data != [] && Index(d.data, 0) == |d.data| - 1)
            || (d.typ == 4 && |d.data| == 4)
            || (d.typ == 3 && |d.data| <= 1024)
  {
    if d.typ == REG_SZ {
      var n := Index(d.data, 0);
      if n == |d.data| - 1 {
        assert d.data == d.data[..n] + [d.data[n]];
      } else if n == |d.data| {
        assert |Normal(d).data| == |d.data| + 1;
      } else {
        assert |Normal(d).data| < |d.data|;
      }
    }
  }

  lemma DatumBack(d: Datum)
    ensures DatumOf(Kind(d), TextOf(d)) == Normal(d)
  {
    if d.typ != REG_SZ && IsDword(d) {
      DwordBack(WordOf(d.data));
      WordBack(d.data);
    } else if d.typ != REG_SZ {
      UnhexBack(d.data, HEX);
    }
    hide DigitsOf, WordOf, LittleEndian, Strtoul, Unhex, HexBytes, CString;
  }

  lemma DwordBack(v: u32)
    ensures Strtoul([48, 120] + DigitsOf(v, 16)) == v
  {
    StrtoulReads(v, [], 120);
    hide DigitsOf, Strtoul;
    assert [48, 120] + DigitsOf(v, 16) + [] == [48, 120] + DigitsOf(v, 16);
  }

  /** Numbers are printed with capital letters, bytes with small ones. */
  lemma DigitsInPrint(d: nat, b: u8)
    requires d < 16
    ensures DigitsOf(d, 16) == [Ascii("0123456789ABCDEF")[d]]
    ensures ByteHex(b) == [Ascii("0123456789abcdef")[b / 16], Ascii("0123456789abcdef")[b % 16]]
  {
    DigitInPrint(d);
    DigitInPrint(b / 16);
    DigitInPrint(b % 16);
    DigitsStep(d, 16);
    hide HexDigit, DigitsOf;
  }

  lemma DigitInPrint(d: nat)
    requires d < 16
    ensures HexDigit(d, true) == Ascii("0123456789ABCDEF")[d] && HexDigit(d, false) == Ascii("0123456789abcdef")[d]
  {
  }

  // ---- roots ----

  const ROOTS := 6

  function RootName(i: nat): Text
    requires i < ROOTS
  {
    if i == 0 then Ascii("HKEY_CLASSES_ROOT")
    else if i == 1 then Ascii("HKEY_CURRENT_USER")
    else if i == 2 then Ascii("HKEY_LOCAL_MACHINE")
    else if i == 3 then Ascii("HKEY_USERS")
    else if i == 4 then Ascii("HKEY_PERFORMANCE_DATA")
    else Ascii("HKEY_CURRENT_CONFIG")
  }

  /** root_index, or the number of roots. */
  function RootIndex(s: Text): nat {
    if Same(s, RootName(0)) then 0
    else if Same(s, RootName(1)) then 1
    else if Same(s, RootName(2)) then 2
    else if Same(s, RootName(3)) then 3
    else if Same(s, RootName(4)) then 4
    else if Same(s, RootName(5)) then 5
    else if Same(s, Ascii("HKLM")) then 2
    else if Same(s, Ascii("HKCU")) then 1
    else ROOTS
  }

  /** Whatever the case, a root is one of the six names or one of two short ones. */
  lemma RootOf(s: Text)
    ensures Same(s, Ascii("HKLM")) ==> RootIndex(s) == 2
    ensures Same(s, Ascii("HKCU")) ==> RootIndex(s) == 1
    ensures forall i :: 0 <= i < 6 && Same(s, RootName(i)) ==> RootIndex(s) == i
    ensures RootIndex(s) == 6 <==>
            !Same(s, Ascii("HKLM")) && !Same(s, Ascii("HKCU")) && forall i :: 0 <= i < 6 ==> !Same(s, RootName(i))
  {
    RootLengths();
    assert Ascii("HKLM")[2] == 76 && Ascii("HKCU")[2] == 67;
    assert Same(s, Ascii("HKLM")) ==> |s| == 4 && Lower(s[2]) == Lower(76) && Lower(76) != Lower(67);
    forall i | 0 <= i < 6 && Same(s, RootName(i))
      ensures RootIndex(s) == i
    {
      if RootIndex(s) < i {
        RootsDiffer(RootIndex(s), i);
        SameOn(s, RootName(i), RootName(RootIndex(s)));
      }
    }
  }

  /** Capital letters and underscores. */
  predicate Plain(s: Text) {
    forall k :: 0 <= k < |s| ==> 65 <= s[k] <= 95 && s[k] != SLASH
  }

  /** Capital letters and underscores. */
  predicate Capitals(s: string) {
    forall k :: 0 <= k < |s| ==> 'A' <= s[k] <= '_' && s[k] != '\\'
  }

  lemma CapitalsPlain(s: string)
    requires Capitals(s)
    ensures Plain(Ascii(s))
  {
    forall k | 0 <= k < |s| ensures 65 <= Ascii(s)[k] <= 95 && Ascii(s)[k] != SLASH {
      assert 'A' as int == 65 && '_' as int == 95 && '\\' as int == 92;
      assert Ascii(s)[k] == s[k] as int;
    }
  }

  lemma RootPlain(i: nat)
    requires i < ROOTS
    ensures Plain(RootName(i))
  {
    if i < 3 {
      RootPlainLow(i);
    } else {
      RootPlainHigh(i);
    }
    hide RootName, Plain;
  }

  lemma RootPlainLow(i: nat)
    requires i < 3
    ensures Plain(RootName(i))
  {
    hide Plain, Ascii;
    CapitalsPlain("HKEY_CLASSES_ROOT");
    CapitalsPlain("HKEY_CURRENT_USER");
    CapitalsPlain("HKEY_LOCAL_MACHINE");
  }

  lemma RootPlainHigh(i: nat)
    requires 3 <= i < ROOTS
    ensures Plain(RootName(i))
  {
    hide Plain, Ascii;
    CapitalsPlain("HKEY_USERS");
    CapitalsPlain("HKEY_PERFORMANCE_DATA");
    CapitalsPlain("HKEY_CURRENT_CONFIG");
  }

  lemma RootsDiffer(i: nat, j: nat)
    requires i < j < ROOTS
    ensures !Same(RootName(j), RootName(i))
  {
    RootLengths();
    hide RootName;
    if i == 0 && j == 1 {
      assert RootName(0)[6] == 76 && RootName(1)[6] == 85;
      assert Lower(RootName(0)[6]) != Lower(RootName(1)[6]);
    }
  }

  lemma RootLengths()
    ensures |RootName(0)| == 17 && |RootName(1)| == 17 && |RootName(2)| == 18
    ensures |RootName(3)| == 10 && |RootName(4)| == 21 && |RootName(5)| == 19
    ensures RootName(0)[6] == 76 && RootName(1)[6] == 85
  {
  }

  lemma RootBack(i: nat)
    requires i < ROOTS
    ensures RootIndex(RootName(i)) == i
    ensures Lacks(RootName(i), 0) && Lacks(RootName(i), SLASH) && Lacks(RootName(i), EQUALS)
         && Lacks(RootName(i), CR) && Lacks(RootName(i), LF)
  {
    RootPlain(i);
    forall j | 0 <= j < i
      ensures !Same(RootName(i), RootName(j))
    {
      RootsDiffer(j, i);
    }
    SameSame(RootName(i));
    hide RootName, Same;
  }
}
