/**
 Saving and loading the registry (reg_save and hle_reg_load in runtime/win32hle/advapi32.c), and the
 round trip: what is loaded from a saved file has the values that were saved.
 */
module RegistryFile {
  import opened Words
  import opened Wrappers
  import opened RegistryTree
  import opened RegistryText

  // ---- one line ----

  /** A value of the key whose path is written `path`. */
  function LineOf(path: Text, name: Text, d: Datum): Text {
    path + [SLASH] + name + [EQUALS] + Kind(d) + [COLON] + TextOf(d)
  }

  /** What a line sets. */
  datatype Setting = Setting(root: nat, entry: Entry)

  /** The characters before the first line break or NUL. */
  function Cut(line: Text): (r: Text)
    ensures r <= line && forall i :: 0 <= i < |r| ==> r[i] != 0 && r[i] != 10 && r[i] != 13
    ensures |r| < |line| ==> line[|r|] == 0 || line[|r|] == 10 || line[|r|] == 13
  {
    if line == [] || line[0] == 0 || line[0] == CR || line[0] == LF then [] else [line[0]] + Cut(line[1..])
  }

  /** One line of hle_reg_load. */
  function Parse(line: Text): Option<Setting> {
    ParseCut(Cut(line))
  }

  function ParseCut(s: Text): Option<Setting> {
    var eq := Index(s, EQUALS);
    var colon := eq + Index(s[eq..], COLON);
    if eq == |s| || colon == |s| then None else ParseHead(s[..eq], DatumOf(s[eq + 1..colon], s[colon + 1..]))
  }

  /** The root, path and name before the equals sign. */
  function ParseHead(head: Text, d: Datum): Option<Setting> {
    var bs, last := Index(head, SLASH), LastIndex(head, SLASH);
    if bs == |head| then None
    else
      var root := RootIndex(head[..bs]);
      if root == ROOTS then None else Some(Setting(root, Entry(PathIn(head, bs, last), head[last + 1..], d)))
  }

  /** The path between the first backslash and the last. */
  function PathIn(head: Text, bs: nat, last: nat): seq<Text>
    requires bs < |head| && head[bs] == SLASH && last == LastIndex(head, SLASH)
  {
    if last <= bs then [] else Parts(head[bs + 1..last])
  }

  function PathText(root: nat, path: seq<Text>): Text
    requires root < ROOTS
  {
    RootName(root) + Tail(path)
  }

  /** A value that can be written on one line and read back. */
  predicate Clean(root: nat, e: Entry) {
    && root < ROOTS && CleanPath(e.path) && CleanChars(e.name)
    && (e.datum.typ == REG_SZ ==> var t := CString(e.datum.data); Lacks(t, CR) && Lacks(t, LF))
    && |LineOf(PathText(root, e.path), e.name, e.datum)| < 2047
  }

  lemma TextPlain(d: Datum)
    requires d.typ == REG_SZ ==> var t := CString(d.data); Lacks(t, CR) && Lacks(t, LF)
    ensures Lacks(TextOf(d), 0) && Lacks(TextOf(d), CR) && Lacks(TextOf(d), LF)
    ensures d.typ != REG_SZ ==> 2 * |d.data| <= |TextOf(d)| + 8
    ensures Lacks(Kind(d), 0) && Lacks(Kind(d), CR) && Lacks(Kind(d), LF) && Lacks(Kind(d), COLON)
  {
    if d.typ != REG_SZ {
      if IsDword(d) {
        DigitsPlain(WordOf(d.data), 16);
        DwordText(WordOf(d.data));
      } else {
        HexBytesPlain(d.data);
      }
    }
    hide DigitsOf, WordOf, HexBytes, Index;
  }

  lemma DwordText(v: u32)
    requires Digits(DigitsOf(v, 16))
    ensures Digits([48, 120] + DigitsOf(v, 16))
  {
  }

  lemma {:induction false} CutAll(s: Text)
    requires Lacks(s, 0) && Lacks(s, CR) && Lacks(s, LF)
    ensures Cut(s) == s
    decreases |s|
  {
    if s != [] {
      CutAll(s[1..]);
    }
  }

  function HeadOf(root: nat, e: Entry): Text
    requires root < ROOTS
  {
    PathText(root, e.path) + [SLASH] + e.name
  }

  lemma LacksConcat(a: Text, b: Text, c: u8)
    ensures Lacks(a + b, c) <==> Lacks(a, c) && Lacks(b, c)
  {
    assert forall i :: 0 <= i < |a| ==> a[i] == (a + b)[i];
    assert forall i :: 0 <= i < |b| ==> b[i] == (a + b)[|a| + i];
  }

  /** No NUL and no line break. */
  predicate OneLine(s: Text) {
    Lacks(s, 0) && Lacks(s, CR) && Lacks(s, LF)
  }

  lemma OneLineConcat(a: Text, b: Text)
    requires OneLine(a) && OneLine(b)
    ensures OneLine(a + b)
  {
    LacksConcat(a, b, 0);
    LacksConcat(a, b, CR);
    LacksConcat(a, b, LF);
    hide Lacks;
  }

  lemma ParseSplits(head: Text, kind: Text, text: Text)
    requires OneLine(head) && Lacks(head, EQUALS) && OneLine(kind) && Lacks(kind, COLON) && OneLine(text)
    ensures OneLine(head + [EQUALS] + kind + [COLON] + text)
    ensures Parse(head + [EQUALS] + kind + [COLON] + text) == ParseHead(head, DatumOf(kind, text))
  {
    hide Index, ParseHead, DatumOf, ParseCut, Cut;
    var s := head + [EQUALS] + kind + [COLON] + text;
    OneLineConcat(head, [EQUALS]);
    OneLineConcat(head + [EQUALS], kind);
    OneLineConcat(head + [EQUALS] + kind, [COLON]);
    OneLineConcat(head + [EQUALS] + kind + [COLON], text);
    CutAll(s);
    hide Lacks, OneLine;
    CutParsed(head, kind, text);
  }

  lemma CutParsed(head: Text, kind: Text, text: Text)
    requires Lacks(head, EQUALS) && Lacks(kind, COLON)
    ensures ParseCut(head + [EQUALS] + kind + [COLON] + text) == ParseHead(head, DatumOf(kind, text))
  {
    hide Index, ParseHead, DatumOf;
    var s := head + [EQUALS] + kind + [COLON] + text;
    LacksConcat([EQUALS], kind, COLON);
    IndexIs(head, EQUALS, kind + [COLON] + text);
    IndexIs([EQUALS] + kind, COLON, text);
    hide Lacks;
    assert s == head + [EQUALS] + (kind + [COLON] + text);
    assert s[|head|..] == ([EQUALS] + kind) + [COLON] + text;
    assert s[..|head|] == head;
    assert s[|head| + 1..|head| + 1 + |kind|] == kind;
    assert s[|head| + 1 + |kind| + 1..] == text;
  }

  lemma HeadLacks(root: nat, e: Entry)
    requires root < ROOTS && CleanPath(e.path) && CleanChars(e.name)
    ensures OneLine(HeadOf(root, e)) && Lacks(HeadOf(root, e), EQUALS)
  {
    RootBack(root);
    TailLacks(e.path);
    hide RootName, Tail;
    OneLineConcat(RootName(root), Tail(e.path));
    OneLineConcat(PathText(root, e.path), [SLASH]);
    OneLineConcat(PathText(root, e.path) + [SLASH], e.name);
    LacksConcat(RootName(root), Tail(e.path), EQUALS);
    LacksConcat(PathText(root, e.path), [SLASH], EQUALS);
    LacksConcat(PathText(root, e.path) + [SLASH], e.name, EQUALS);
  }

  lemma HeadParsed(root: nat, e: Entry)
    requires root < ROOTS && CleanPath(e.path) && CleanChars(e.name)
    ensures ParseHead(HeadOf(root, e), e.datum) == Some(Setting(root, e))
  {
    hide RootName, Index, LastIndex, CleanPath, Tail, RootIndex, Parts;
    var head, name, path := HeadOf(root, e), RootName(root), PathText(root, e.path);
    RootBack(root);
    LastIndexIs(path, SLASH, e.name);
    assert head[|path| + 1..] == e.name;
    hide CleanChars;
    HeadStarts(root, e);
    assert head[..|name|] == name;
    if e.path == [] {
      assert path == name;
    } else {
      TailFirst(e.path);
      PartsOfTail(e.path);
      assert path == name + ([SLASH] + Tail(e.path)[1..]);
      assert head[|name| + 1..|path|] == Tail(e.path)[1..];
    }
  }

  lemma HeadStarts(root: nat, e: Entry)
    requires root < ROOTS && CleanPath(e.path)
    ensures PathText(root, []) == RootName(root)
    ensures Index(HeadOf(root, e), SLASH) == |RootName(root)|
  {
    hide RootName, Index, Lacks;
    var head, name := HeadOf(root, e), RootName(root);
    RootBack(root);
    if e.path == [] {
      IndexIs(name, SLASH, e.name);
      assert head == name + [SLASH] + e.name;
    } else {
      TailFirst(e.path);
      hide Tail;
      var more := Tail(e.path)[1..];
      IndexIs(name, SLASH, more + [SLASH] + e.name);
      assert head == name + [SLASH] + (more + [SLASH] + e.name);
    }
    assert PathText(root, []) == name + [];
  }

  /** A clean line sets what it was written for, in the form a load gives it. */
  lemma ParseBack(root: nat, e: Entry)
    requires Clean(root, e)
    ensures var line := LineOf(PathText(root, e.path), e.name, e.datum);
      OneLine(line) && Parse(line) == Some(Setting(root, e.(datum := Normal(e.datum))))
  {
    HeadLacks(root, e);
    TextPlain(e.datum);
    ParseSplits(HeadOf(root, e), Kind(e.datum), TextOf(e.datum));
    DatumBack(e.datum);
    HeadParsed(root, e.(datum := Normal(e.datum)));
    hide RootName, Kind, TextOf, CleanPath, CleanChars, Tail, Parse, ParseHead, DatumOf, Normal, Lacks;
  }

  /** A line in print, and what a kind and text are read as. */
  lemma LineInPrint(path: Text, name: Text, d: Datum)
    ensures LineOf(path, name, d) ==
            path + Ascii("\\") + name +
            if d.typ == 1 then Ascii("=sz:") + CString(d.data)
            else if d.typ == 4 && |d.data| == 4 then
              Ascii("=dword:0x")
              + DigitsOf(d.data[0] as int + 0x100 * d.data[1] as int + 0x1_0000 * d.data[2] as int
                         + 0x100_0000 * d.data[3] as int, 16)
            else Ascii("=hex:") + HexBytes(d.data)
  {
    hide DigitsOf, HexBytes, CString;
    LineParts();
    assert path + [SLASH] + name + [EQUALS] + Kind(d) + [COLON] + TextOf(d)
        == path + Ascii("\\") + name + ([EQUALS] + Kind(d) + [COLON] + TextOf(d));
  }

  lemma LineParts()
    ensures Ascii("\\") == [SLASH] && Ascii("=sz:") == [EQUALS] + KIND_SZ + [COLON]
    ensures Ascii("=dword:0x") == [EQUALS] + KIND_DWORD + [COLON] + [48, 120]
    ensures Ascii("=hex:") == [EQUALS] + KIND_HEX + [COLON]
  {
  }

  lemma DatumIs(kind: Text, text: Text)
    ensures DatumOf(kind, text) ==
            if kind == Ascii("sz") then Datum(1, text + [0])
            else if kind == Ascii("dword") then Datum(4, LittleEndian(Strtoul(text)))
            else Datum(3, Unhex(text, 1024))
  {
    hide Strtoul, LittleEndian, Unhex;
  }

  // ---- the file ----

  function SaveValues(vs: seq<Value>, path: Text): Text {
    if vs == [] then [] else LineOf(path, vs[0].name, vs[0].datum) + [LF] + SaveValues(vs[1..], path)
  }

  /** save_key for each of some siblings: a key's values, and then its subkeys. The path buffer cuts. */
  function SaveKeys(ks: Keys, path: Text): Text {
    match ks
    case End => []
    case Key(n, vs, child, next) =>
      var p := Clip(path + [SLASH] + n, PATH);
      SaveValues(vs, p) + SaveKeys(child, p) + SaveKeys(next, path)
  }

  /** A key's lines carry its path, cut after 1023 characters, and its subkeys' lines go on from there. */
  lemma PathIsCut(n: Text, vs: seq<Value>, child: Keys, path: Text)
    ensures var p := path + [SLASH] + n;
      var cut := if |p| <= 1023 then p else p[..1023];
      SaveKeys(Key(n, vs, child, End), path) == SaveValues(vs, cut) + SaveKeys(child, cut)
  {
    var p := Clip(path + [SLASH] + n, PATH);
    assert SaveKeys(End, path) == [];
    assert SaveValues(vs, p) + SaveKeys(child, p) + [] == SaveValues(vs, p) + SaveKeys(child, p);
  }

  function SaveRoot(r: Root, root: nat): Text
    requires root < ROOTS
  {
    SaveValues(r.values, RootName(root)) + SaveKeys(r.child, RootName(root))
  }

  /** The roots from i on. */
  function SaveFrom(rs: seq<Root>, i: nat): Text
    requires i <= |rs| == ROOTS
    decreases ROOTS - i
  {
    if i == ROOTS then [] else SaveRoot(rs[i], i) + SaveFrom(rs, i + 1)
  }

  /** The length of what fgets reads. */
  function Fgets(f: Text): (n: nat)
    requires f != []
    ensures 0 < n <= |f| && n <= 2047
    ensures forall i :: 0 <= i < n - 1 ==> f[i] != 10
    ensures f[n - 1] == 10 || n == 2047 || n == |f|
  {
    var n := Index(f, LF);
    if n < |f| && n < LINE then n + 1 else if |f| <= LINE then |f| else LINE
  }

  function Apply(rs: seq<Root>, s: Option<Setting>): (r: seq<Root>)
    requires |rs| == ROOTS
    ensures |r| == ROOTS
  {
    if s.None? || s.value.root >= ROOTS then rs
    else
      var e := s.value.entry;
      rs[s.value.root := PutAt(rs[s.value.root], e.path, e.name, e.datum)]
  }

  /** hle_reg_load on top of what is there. */
  function LoadAll(rs: seq<Root>, f: Text): (r: seq<Root>)
    requires |rs| == ROOTS
    ensures |r| == ROOTS
    decreases |f|
  {
    if f == [] then rs
    else
      var n := Fgets(f);
      LoadAll(Apply(rs, Parse(f[..n])), f[n..])
  }

  /** The roots, with no name longer than its buffer. */
  predicate AllShort(rs: seq<Root>) {
    |rs| == ROOTS && forall i :: 0 <= i < ROOTS ==> ShortRoot(rs[i])
  }

  class Registry {
    var roots: seq<Root>
    var file: Text

    predicate Valid()
      reads this
    {
      AllShort(roots)
    }

    constructor ()
      ensures Valid() && roots == NoRoots() && file == []
    {
      roots, file := NoRoots(), [];
    }

    /** hle_reg_set_string, hle_reg_set_dword and RegSetValueEx: the value is found at the path's names and
        the part of its name that fits, under any case, and nothing else changes. */
    method Set(root: nat, path: Text, name: Text, d: Datum)
      requires Valid() && root < ROOTS
      modifies this`roots
      ensures Valid()
      ensures forall q, m :: FindAt(roots[root], q, m) ==
                             if SamePath(Parts(path), q) && Same(Clip(name, NAME), m) then Some(d)
                             else FindAt(old(roots)[root], q, m)
      ensures forall i :: 0 <= i < ROOTS && i != root ==> roots[i] == old(roots)[i]
    {
      hide Parts, PutAt, FindAt, SamePath, Same, ShortRoot;
      ghost var before := roots[root];
      PutAtShort(before, Parts(path), name, d);
      forall q, m
        ensures FindAt(PutAt(before, Parts(path), name, d), q, m) ==
                if SamePath(Parts(path), q) && Same(Clip(name, NAME), m) then Some(d) else FindAt(before, q, m)
      {
        FindPutAt(before, Parts(path), name, d, q, m);
      }
      roots := roots[root := PutAt(roots[root], Parts(path), name, d)];
    }

    method SaveValueLines(vs: seq<Value>, path: Text)
      modifies this`file
      ensures file == old(file) + SaveValues(vs, path)
    {
      hide LineOf;
      var i := 0;
      assert vs[0..] == vs;
      while i < |vs|
        invariant 0 <= i <= |vs|
        invariant file + SaveValues(vs[i..], path) == old(file) + SaveValues(vs, path)
      {
        assert vs[i..][1..] == vs[i + 1..];
        file := file + (LineOf(path, vs[i].name, vs[i].datum) + [LF]);
        i := i + 1;
      }
    }

    method SaveKey(ks: Keys, path: Text)
      modifies this`file
      ensures file == old(file) + SaveKeys(ks, path)
      decreases ks
    {
      hide SaveKeys, SaveValues, Clip;
      SaveKeysOne(ks, path);
      if ks.Key? {
        var p := Clip(path + [SLASH] + ks.name, PATH);
        ghost var a, b, c := SaveValues(ks.values, p), SaveKeys(ks.child, p), SaveKeys(ks.next, path);
        SaveValueLines(ks.values, p);
        SaveKey(ks.child, p);
        SaveKey(ks.next, path);
        assert old(file) + a + b + c == old(file) + (a + b + c);
      } else {
        assert old(file) + [] == file;
      }
    }

    lemma SaveKeysOne(ks: Keys, path: Text)
      ensures ks.End? ==> SaveKeys(ks, path) == []
      ensures ks.Key? ==>
                var p := Clip(path + [SLASH] + ks.name, PATH);
                SaveKeys(ks, path) == SaveValues(ks.values, p) + SaveKeys(ks.child, p) + SaveKeys(ks.next, path)
    {
    }

    lemma SaveFromEnd(rs: seq<Root>)
      requires |rs| == ROOTS
      ensures SaveFrom(rs, ROOTS) == []
    {
    }

    lemma SaveFromOne(rs: seq<Root>, i: nat)
      requires i < |rs| == ROOTS
      ensures SaveFrom(rs, i)
           == SaveValues(rs[i].values, RootName(i)) + SaveKeys(rs[i].child, RootName(i)) + SaveFrom(rs, i + 1)
    {
    }

    /** reg_save */
    method Save()
      requires Valid()
      modifies this`file
      ensures file == SaveFrom(roots, 0)
    {
      hide SaveKeys, SaveValues, RootName, SaveFrom;
      file := [];
      SaveFromEnd(roots);
      var i := 0;
      while i < ROOTS
        invariant 0 <= i <= ROOTS
        invariant file + SaveFrom(roots, i) == SaveFrom(roots, 0)
      {
        SaveFromOne(roots, i);
        ghost var before := file;
        SaveValueLines(roots[i].values, RootName(i));
        SaveKey(roots[i].child, RootName(i));
        assert file == before + (SaveValues(roots[i].values, RootName(i)) + SaveKeys(roots[i].child, RootName(i)));
        i := i + 1;
      }
    }

    /** hle_reg_load */
    method Load()
      requires Valid()
      modifies this`roots
      ensures Valid() && roots == LoadAll(old(roots), file)
    {
      var rest := file;
      while rest != []
        invariant Valid() && LoadAll(roots, rest) == LoadAll(old(roots), file)
        decreases |rest|
      {
        var n := Fgets(rest);
        var s := Parse(rest[..n]);
        if s.Some? && s.value.root < ROOTS {
          var e := s.value.entry;
          PutAtShort(roots[s.value.root], e.path, e.name, e.datum);
          roots := roots[s.value.root := PutAt(roots[s.value.root], e.path, e.name, e.datum)];
        }
        rest := rest[n..];
      }
    }
  }

  function NoRoots(): (r: seq<Root>)
    ensures |r| == ROOTS
  {
    seq(ROOTS, _ => Root([], End))
  }

  // ---- the round trip ----

  /** The lines of some settings. */
  function LinesOf(root: nat, es: seq<Entry>): Text
    requires root < ROOTS
  {
    if es == [] then []
    else LineOf(PathText(root, es[0].path), es[0].name, es[0].datum) + [LF] + LinesOf(root, es[1..])
  }

  lemma {:induction false} LinesConcat(root: nat, a: seq<Entry>, b: seq<Entry>)
    requires root < ROOTS
    ensures LinesOf(root, a + b) == LinesOf(root, a) + LinesOf(root, b)
    decreases |a|
  {
    hide LineOf, PathText;
    if a == [] {
      assert a + b == b;
    } else {
      LinesConcat(root, a[1..], b);
      assert (a + b)[1..] == a[1..] + b;
    }
  }

  predicate AllClean(root: nat, es: seq<Entry>) {
    forall i :: 0 <= i < |es| ==> Clean(root, es[i])
  }

  /** No key's path is longer than the buffer. */
  predicate Fits(ks: Keys, root: nat, path: seq<Text>)
    requires root < ROOTS
  {
    match ks
    case End => true
    case Key(n, vs, child, next) =>
      |PathText(root, path + [n])| <= 1023 && Fits(child, root, path + [n]) && Fits(next, root, path)
  }

  lemma {:induction false} ValuesSaved(vs: seq<Value>, root: nat, path: seq<Text>)
    requires root < ROOTS
    ensures SaveValues(vs, PathText(root, path)) == LinesOf(root, EntriesOf(vs, path))
    decreases |vs|
  {
    hide LineOf, PathText;
    if vs != [] {
      ValuesSaved(vs[1..], root, path);
      assert EntriesOf(vs, path)[1..] == EntriesOf(vs[1..], path);
    }
  }

  lemma {:induction false} KeysSaved(ks: Keys, root: nat, path: seq<Text>)
    requires root < ROOTS && Fits(ks, root, path)
    ensures SaveKeys(ks, PathText(root, path)) == LinesOf(root, Entries(ks, path))
    decreases ks
  {
    hide SaveValues, LinesOf, EntriesOf, RootName, Tail, Ascii;
    match ks
    case End =>
      NoLines(root);
    case Key(n, vs, child, next) =>
      var p := path + [n];
      TailAppend(path, n);
      assert PathText(root, path) + [SLASH] + n == PathText(root, p) by {
        assert PathText(root, p) == RootName(root) + (Tail(path) + [SLASH] + n);
      }
      hide PathText;
      ValuesSaved(vs, root, p);
      KeysSaved(child, root, p);
      KeysSaved(next, root, path);
      LinesConcat(root, EntriesOf(vs, p), Entries(child, p));
      LinesConcat(root, EntriesOf(vs, p) + Entries(child, p), Entries(next, path));
  }

  lemma NoLines(root: nat)
    requires root < ROOTS
    ensures LinesOf(root, []) == []
  {
  }

  lemma RootSaved(r: Root, root: nat)
    requires root < ROOTS && Fits(r.child, root, [])
    ensures SaveRoot(r, root) == LinesOf(root, RootEntries(r))
  {
    assert PathText(root, []) == RootName(root);
    ValuesSaved(r.values, root, []);
    KeysSaved(r.child, root, []);
    LinesConcat(root, EntriesOf(r.values, []), Entries(r.child, []));
  }

  lemma {:induction false} CutLine(line: Text)
    requires OneLine(line)
    ensures Cut(line + [LF]) == Cut(line)
    decreases |line|
  {
    if line != [] {
      assert (line + [LF])[1..] == line[1..] + [LF];
      CutLine(line[1..]);
    }
  }

  /** A short enough line is read as a whole. */
  lemma LoadLine(rs: seq<Root>, line: Text, rest: Text)
    requires |rs| == ROOTS && OneLine(line) && |line| < LINE
    ensures LoadAll(rs, line + [LF] + rest) == LoadAll(Apply(rs, Parse(line)), rest)
  {
    hide Apply, Parse, Index;
    var f := line + [LF] + rest;
    IndexIs(line, LF, rest);
    assert Fgets(f) == |line| + 1;
    hide Fgets, Lacks;
    assert f[..|line| + 1] == line + [LF] && f[|line| + 1..] == rest;
    ParseLine(line);
  }

  lemma ParseLine(line: Text)
    requires OneLine(line)
    ensures Parse(line + [LF]) == Parse(line)
  {
    CutLine(line);
    hide ParseCut;
  }

  function Normals(es: seq<Entry>): (r: seq<Entry>)
    ensures |r| == |es|
    ensures forall i :: 0 <= i < |es| ==> r[i] == es[i].(datum := Normal(es[i].datum))
  {
    seq(|es|, i requires 0 <= i < |es| => es[i].(datum := Normal(es[i].datum)))
  }

  lemma {:induction false} PutAllFront(r: Root, e: Entry, es: seq<Entry>)
    ensures PutAll(r, [e] + es) == PutAll(PutAt(r, e.path, e.name, e.datum), es)
    decreases |es|
  {
    hide PutAt;
    if es == [] {
      assert ([e] + es)[..0] == [];
      assert PutAll(r, []) == r;
    } else {
      var n := |es| - 1;
      PutAllFront(r, e, es[..n]);
      assert ([e] + es)[..|es|] == [e] + es[..n];
    }
  }

  /** Loading the lines of clean settings makes the settings. */
  lemma {:induction false} LoadLines(rs: seq<Root>, root: nat, es: seq<Entry>, rest: Text)
    requires |rs| == ROOTS && root < ROOTS && AllClean(root, es)
    ensures LoadAll(rs, LinesOf(root, es) + rest) == LoadAll(rs[root := PutAll(rs[root], Normals(es))], rest)
    decreases |es|
  {
    hide LineOf, PathText, Clean, LoadAll, Parse, PutAt, Normal, Apply, Normals, PutAll;
    if es == [] {
      NoLines(root);
      assert LinesOf(root, es) + rest == rest;
      NoSettings(rs[root]);
      assert rs[root := rs[root]] == rs;
    } else {
      var e, more := es[0], LinesOf(root, es[1..]) + rest;
      var e' := e.(datum := Normal(e.datum));
      var next := rs[root := PutAt(rs[root], e.path, e.name, e'.datum)];
      LinesOne(root, es, rest);
      assert Clean(root, e);
      LoadSetting(rs, root, e, more);
      LoadLines(next, root, es[1..], rest);
      NormalsOne(es);
      PutAllFront(rs[root], e', Normals(es[1..]));
      assert next[root := PutAll(next[root], Normals(es[1..]))] == rs[root := PutAll(next[root], Normals(es[1..]))];
    }
  }

  lemma NoSettings(r: Root)
    ensures PutAll(r, Normals([])) == r
  {
  }

  lemma NormalsOne(es: seq<Entry>)
    requires es != []
    ensures Normals(es) == [es[0].(datum := Normal(es[0].datum))] + Normals(es[1..])
  {
  }

  lemma LinesOne(root: nat, es: seq<Entry>, rest: Text)
    requires root < ROOTS && es != []
    ensures LinesOf(root, es) + rest
         == LineOf(PathText(root, es[0].path), es[0].name, es[0].datum) + [LF] + (LinesOf(root, es[1..]) + rest)
  {
    hide LineOf, PathText;
    var line := LineOf(PathText(root, es[0].path), es[0].name, es[0].datum);
    assert LinesOf(root, es) == line + [LF] + LinesOf(root, es[1..]);
  }

  lemma LoadSetting(rs: seq<Root>, root: nat, e: Entry, more: Text)
    requires |rs| == ROOTS && Clean(root, e)
    ensures LoadAll(rs, LineOf(PathText(root, e.path), e.name, e.datum) + [LF] + more)
         == LoadAll(rs[root := PutAt(rs[root], e.path, e.name, Normal(e.datum))], more)
  {
    ParseBack(root, e);
    var line := LineOf(PathText(root, e.path), e.name, e.datum);
    assert |line| < LINE;
    hide LineOf, PathText, Clean, LoadAll, Parse, PutAt, Normal;
    LoadLine(rs, line, more);
  }

  function NormalOption(o: Option<Datum>): Option<Datum> {
    if o.Some? then Some(Normal(o.value)) else None
  }

  lemma {:induction false} LastNormals(es: seq<Entry>, q: seq<Text>, m: Text)
    ensures Last(Normals(es), q, m) == NormalOption(Last(es, q, m))
    decreases |es|
  {
    hide Normal, SamePath, Same;
    if es != [] {
      LastNormals(es[..|es| - 1], q, m);
      assert Normals(es)[..|es| - 1] == Normals(es[..|es| - 1]);
    }
  }

  /** A root that a save can write in full. */
  predicate Savable(r: Root, root: nat)
    requires root < ROOTS
  {
    DistinctRoot(r) && Fits(r.child, root, []) && AllClean(root, RootEntries(r))
  }

  lemma {:induction false} LoadRoots(rs: seq<Root>, into: seq<Root>, i: nat, j: nat)
    requires i <= |rs| == |into| == ROOTS && j < ROOTS
    requires forall k :: 0 <= k < ROOTS ==> Savable(rs[k], k)
    ensures LoadAll(into, SaveFrom(rs, i))[j] ==
      if j < i then into[j] else PutAll(into[j], Normals(RootEntries(rs[j])))
    decreases ROOTS - i
  {
    hide SaveRoot, PutAll, RootEntries, LoadAll, Normals, LinesOf, Fits, DistinctRoot, AllClean;
    if i == ROOTS {
      LoadNothing(into);
    } else {
      assert Savable(rs[i], i);
      RootSaved(rs[i], i);
      LoadLines(into, i, RootEntries(rs[i]), SaveFrom(rs, i + 1));
      var next := into[i := PutAll(into[i], Normals(RootEntries(rs[i])))];
      LoadRoots(rs, next, i + 1, j);
    }
  }

  lemma LoadNothing(rs: seq<Root>)
    requires |rs| == ROOTS
    ensures LoadAll(rs, []) == rs
  {
  }

  /** Loading a saved registry into an empty one gives every value at every path and name back, in its
      normal form, and no others. */
  lemma RoundTrip(rs: seq<Root>, root: nat, path: seq<Text>, name: Text)
    requires |rs| == ROOTS && root < ROOTS
    requires forall k :: 0 <= k < ROOTS ==> Savable(rs[k], k)
    ensures FindAt(LoadAll(NoRoots(), SaveFrom(rs, 0))[root], path, name) == NormalOption(FindAt(rs[root], path, name))
  {
    hide *;
    var es := RootEntries(rs[root]);
    LoadRoots(rs, NoRoots(), 0, root);
    NothingThere(root);
    assert Savable(rs[root], root);
    SavableIsDistinct(rs[root], root);
    SavableIsShort(rs[root], root);
    NothingLong();
    PutAllLast(Root([], End), Normals(es), path, name);
    LastNormals(es, path, name);
    RootFind(rs[root], path, name);
    EmptyRoot(path, name);
  }

  lemma NothingThere(root: nat)
    requires root < ROOTS
    ensures NoRoots()[root] == Root([], End)
  {
  }

  lemma NothingLong()
    ensures ShortRoot(Root([], End))
  {
  }

  lemma {:induction false} CleanValues(vs: seq<Value>, root: nat, path: seq<Text>)
    requires AllClean(root, EntriesOf(vs, path))
    ensures ShortValues(vs)
    decreases |vs|
  {
    if vs != [] {
      var es := EntriesOf(vs, path);
      assert Clean(root, es[0]);
      CleanPart(root, [es[0]], EntriesOf(vs[1..], path));
      CleanValues(vs[1..], root, path);
    }
  }

  lemma CleanPart(root: nat, a: seq<Entry>, b: seq<Entry>)
    requires AllClean(root, a + b)
    ensures AllClean(root, a) && AllClean(root, b)
  {
    hide Clean;
    forall i | 0 <= i < |a|
      ensures Clean(root, a[i])
    {
      assert (a + b)[i] == a[i];
    }
    forall i | 0 <= i < |b|
      ensures Clean(root, b[i])
    {
      assert (a + b)[|a| + i] == b[i];
    }
  }

  lemma {:induction false} CleanKeys(ks: Keys, root: nat, path: seq<Text>)
    requires AllClean(root, Entries(ks, path))
    ensures ShortKeys(ks)
    decreases ks
  {
    hide Clean, AllClean, EntriesOf, ShortValues;
    if ks.Key? {
      var p := path + [ks.name];
      CleanPart(root, EntriesOf(ks.values, p) + Entries(ks.child, p), Entries(ks.next, path));
      CleanPart(root, EntriesOf(ks.values, p), Entries(ks.child, p));
      CleanValues(ks.values, root, p);
      CleanKeys(ks.child, root, p);
      CleanKeys(ks.next, root, path);
    }
  }

  lemma SavableIsShort(r: Root, root: nat)
    requires root < ROOTS && Savable(r, root)
    ensures ShortRoot(r)
  {
    hide Clean, Fits, DistinctRoot, AllClean, EntriesOf, Entries;
    CleanPart(root, EntriesOf(r.values, []), Entries(r.child, []));
    CleanValues(r.values, root, []);
    CleanKeys(r.child, root, []);
  }

  lemma SavableIsDistinct(r: Root, root: nat)
    requires root < ROOTS && Savable(r, root)
    ensures DistinctRoot(r)
  {
  }

  lemma EmptyRoot(path: seq<Text>, name: Text)
    ensures FindAt(Root([], End), path, name) == None
  {
  }
}
