/**
 The registry's tree (runtime/win32hle/advapi32.c). A key holds a list of values and a list of
 subkeys, the newest first; names are compared without regard to case. Paths are lists of names here;
 RegistryFile cuts them out of text. Texts are bytes.
 */
module RegistryTree {
  import opened Words
  import opened Wrappers

  type Text = seq<u8>

  /** A name buffer holds this many characters. */
  const NAME := 127

  datatype Datum = Datum(typ: u32, data: seq<u8>)

  datatype Value = Value(name: Text, datum: Datum)

  /** A key and the siblings after it. */
  datatype Keys = End | Key(name: Text, values: seq<Value>, child: Keys, next: Keys)

  datatype Root = Root(values: seq<Value>, child: Keys)

  // ---- names ----

  function Lower(c: u8): u8 {
    if 65 <= c <= 90 then c + 32 else c
  }

  /** strcasecmp says equal. */
  predicate Same(a: Text, b: Text) {
    |a| == |b| && forall i :: 0 <= i < |a| ==> Lower(a[i]) == Lower(b[i])
  }

  predicate SamePath(p: seq<Text>, q: seq<Text>) {
    |p| == |q| && forall i :: 0 <= i < |p| ==> Same(p[i], q[i])
  }

  /** strcasecmp's folding, letter by letter: the same character, or one letter in its two cases. */
  lemma SameLetters(a: Text, b: Text)
    ensures Same(a, b) <==>
            |a| == |b| && forall i :: 0 <= i < |a| ==>
                                      a[i] == b[i] || (65 <= a[i] <= 90 && b[i] == a[i] + 32)
                                      || (65 <= b[i] <= 90 && a[i] == b[i] + 32)
  {
    assert |a| == |b| ==>
        forall i :: 0 <= i < |a| ==>
                    (Lower(a[i]) == Lower(b[i])
                     <==> (a[i] == b[i] || (65 <= a[i] <= 90 && b[i] == a[i] + 32)
                           || (65 <= b[i] <= 90 && a[i] == b[i] + 32)));
  }

  /** The first n characters, or all. */
  function Clip(s: Text, n: nat): (r: Text)
    ensures r <= s && (|r| == n || (|r| < n && r == s))
  {
    if |s| <= n then s else s[..n]
  }

  lemma SameSame(a: Text)
    ensures Same(a, a)
  {
  }

  lemma SameOn(a: Text, b: Text, c: Text)
    requires Same(a, b)
    ensures Same(b, a)
    ensures Same(b, c) <==> Same(a, c)
    ensures Same(c, b) <==> Same(c, a)
  {
  }

  lemma SamePathStep(p: seq<Text>, q: seq<Text>)
    requires p != [] && q != []
    ensures SamePath(p, q) <==> Same(p[0], q[0]) && SamePath(p[1..], q[1..])
  {
    if Same(p[0], q[0]) && SamePath(p[1..], q[1..]) {
      forall i | 0 <= i < |p|
        ensures Same(p[i], q[i])
      {
        assert i == 0 || Same(p[1..][i - 1], q[1..][i - 1]);
      }
    }
  }

  // ---- values ----

  /** find_value */
  function FindValue(vs: seq<Value>, name: Text): Option<Datum> {
    if vs == [] then None
    else if Same(vs[0].name, name) then Some(vs[0].datum)
    else FindValue(vs[1..], name)
  }

  /** set_value: the first value of this name changes, or a new one goes in front. */
  function PutValue(vs: seq<Value>, name: Text, d: Datum): seq<Value> {
    if FindValue(vs, name).Some? then Replace(vs, name, d) else [Value(Clip(name, NAME), d)] + vs
  }

  function Replace(vs: seq<Value>, name: Text, d: Datum): seq<Value> {
    if vs == [] then []
    else if Same(vs[0].name, name) then [vs[0].(datum := d)] + vs[1..]
    else [vs[0]] + Replace(vs[1..], name, d)
  }

  lemma {:induction false} FindReplaced(vs: seq<Value>, name: Text, d: Datum, m: Text)
    requires FindValue(vs, name).Some?
    ensures FindValue(Replace(vs, name, d), m) == if Same(name, m) then Some(d) else FindValue(vs, m)
    decreases |vs|
  {
    if Same(vs[0].name, name) {
      SameOn(vs[0].name, name, m);
    } else {
      FindReplaced(vs[1..], name, d, m);
      if Same(name, m) {
        SameOn(name, m, vs[0].name);
      }
    }
  }

  /** Every stored name fits its buffer. */
  predicate ShortValues(vs: seq<Value>) {
    forall i :: 0 <= i < |vs| ==> |vs[i].name| <= NAME
  }

  lemma {:induction false} LongNotFound(vs: seq<Value>, name: Text)
    requires ShortValues(vs) && |name| > NAME
    ensures FindValue(vs, name) == None
    decreases |vs|
  {
    if vs != [] {
      LongNotFound(vs[1..], name);
    }
  }

  lemma ShortKept(vs: seq<Value>, name: Text, d: Datum)
    requires ShortValues(vs)
    ensures ShortValues(PutValue(vs, name, d))
  {
    ReplaceShort(vs, name, d);
  }

  lemma {:induction false} ReplaceShort(vs: seq<Value>, name: Text, d: Datum)
    requires ShortValues(vs)
    ensures ShortValues(Replace(vs, name, d))
    decreases |vs|
  {
    if vs != [] && !Same(vs[0].name, name) {
      ReplaceShort(vs[1..], name, d);
    }
  }

  /** A value is read back, under the part of its name that fits the buffer, as it was last set, and no
      other value of the key changes. */
  lemma {:induction false} FindPut(vs: seq<Value>, name: Text, d: Datum, m: Text)
    requires ShortValues(vs)
    ensures FindValue(PutValue(vs, name, d), m) == if Same(Clip(name, NAME), m) then Some(d) else FindValue(vs, m)
  {
    if |name| > NAME {
      LongNotFound(vs, name);
    } else if FindValue(vs, name).Some? {
      FindReplaced(vs, name, d, m);
    }
  }

  /** So it is found under its own name exactly when the name fits. */
  lemma FoundByOwnName(vs: seq<Value>, name: Text, d: Datum)
    requires ShortValues(vs)
    ensures FindValue(PutValue(vs, name, d), name) == Some(d) <==> |name| <= 127
  {
    FindPut(vs, name, d, name);
    if |name| > NAME {
      LongNotFound(vs, name);
    }
  }

  // ---- keys ----

  function HasKey(ks: Keys, name: Text): bool {
    match ks
    case End => false
    case Key(n, _, _, next) => Same(n, name) || HasKey(next, name)
  }

  /** The value `name` of the key at `path` below. */
  function Find(ks: Keys, path: seq<Text>, name: Text): Option<Datum>
    requires path != []
  {
    match ks
    case End => None
    case Key(n, vs, child, next) =>
      if !Same(n, path[0]) then Find(next, path, name)
      else if |path| == 1 then FindValue(vs, name)
      else Find(child, path[1..], name)
  }

  /** subkey, creating, and then set_value: a key that is not there goes in front of its siblings. */
  function Put(ks: Keys, path: seq<Text>, name: Text, d: Datum): Keys
    requires path != []
    decreases |path|, ks, 1
  {
    if HasKey(ks, path[0]) then PutIn(ks, path, name, d)
    else if |path| == 1 then Key(path[0], PutValue([], name, d), End, ks)
    else Key(path[0], [], Put(End, path[1..], name, d), ks)
  }

  function PutIn(ks: Keys, path: seq<Text>, name: Text, d: Datum): Keys
    requires path != []
    decreases |path|, ks, 0
  {
    match ks
    case End => End
    case Key(n, vs, child, next) =>
      if !Same(n, path[0]) then Key(n, vs, child, PutIn(next, path, name, d))
      else if |path| == 1 then Key(n, PutValue(vs, name, d), child, next)
      else Key(n, vs, Put(child, path[1..], name, d), next)
  }

  function FindAt(r: Root, path: seq<Text>, name: Text): Option<Datum> {
    if path == [] then FindValue(r.values, name) else Find(r.child, path, name)
  }

  function PutAt(r: Root, path: seq<Text>, name: Text, d: Datum): Root {
    if path == [] then Root(PutValue(r.values, name, d), r.child) else Root(r.values, Put(r.child, path, name, d))
  }

  lemma {:induction false} FindNone(ks: Keys, path: seq<Text>, name: Text)
    requires path != [] && !HasKey(ks, path[0])
    ensures Find(ks, path, name) == None
    decreases ks
  {
    if ks.Key? {
      FindNone(ks.next, path, name);
    }
  }

  lemma {:induction false} HasSame(ks: Keys, a: Text, b: Text)
    requires Same(a, b)
    ensures HasKey(ks, a) <==> HasKey(ks, b)
    decreases ks
  {
    if ks.Key? {
      SameOn(a, b, ks.name);
      HasSame(ks.next, a, b);
    }
  }

  predicate ShortKeys(ks: Keys) {
    ks.Key? ==> ShortValues(ks.values) && ShortKeys(ks.child) && ShortKeys(ks.next)
  }

  predicate ShortRoot(r: Root) {
    ShortValues(r.values) && ShortKeys(r.child)
  }

  /** What Put leaves to be found. */
  predicate PutFinds(before: Option<Datum>, after: Option<Datum>, p: seq<Text>, n: Text, q: seq<Text>, m: Text,
                     d: Datum) {
    after == if SamePath(p, q) && Same(Clip(n, NAME), m) then Some(d) else before
  }

  lemma {:induction false} FindPutKeys(ks: Keys, p: seq<Text>, n: Text, d: Datum, q: seq<Text>, m: Text)
    requires p != [] && q != [] && ShortKeys(ks)
    ensures PutFinds(Find(ks, q, m), Find(Put(ks, p, n, d), q, m), p, n, q, m, d)
    decreases |p|, ks, 1
  {
    hide Same, SamePath, PutValue, FindValue;
    SamePathStep(p, q);
    if HasKey(ks, p[0]) {
      FindPutIn(ks, p, n, d, q, m);
    } else if Same(p[0], q[0]) {
      HasSame(ks, p[0], q[0]);
      FindNone(ks, q, m);
      if |p| == 1 {
        FindPut([], n, d, m);
        OnlyShort(p, q);
        FindEmpty(m);
      } else if |q| > 1 {
        FindPutKeys(End, p[1..], n, d, q[1..], m);
      } else {
        FindEmpty(m);
        OnlyShort(p, q);
      }
    }
  }

  lemma FindEmpty(m: Text)
    ensures FindValue([], m) == None
  {
  }

  lemma OnlyShort(p: seq<Text>, q: seq<Text>)
    requires |p| == 1 || |q| == 1
    requires p != [] && q != []
    ensures SamePath(p[1..], q[1..]) <==> |p| == |q|
  {
  }

  lemma {:induction false} FindPutIn(ks: Keys, p: seq<Text>, n: Text, d: Datum, q: seq<Text>, m: Text)
    requires p != [] && q != [] && ShortKeys(ks) && HasKey(ks, p[0])
    ensures PutFinds(Find(ks, q, m), Find(PutIn(ks, p, n, d), q, m), p, n, q, m, d)
    decreases |p|, ks, 0
  {
    hide Same, SamePath, PutValue, FindValue;
    SamePathStep(p, q);
    if !Same(ks.name, p[0]) {
      FindPutIn(ks.next, p, n, d, q, m);
      if Same(p[0], q[0]) {
        SameOn(p[0], q[0], ks.name);
      }
    } else {
      SameOn(ks.name, p[0], q[0]);
      OnlyShortIf(p, q);
      if |p| == 1 {
        FindPut(ks.values, n, d, m);
      } else if |q| > 1 {
        FindPutKeys(ks.child, p[1..], n, d, q[1..], m);
      }
    }
  }

  lemma OnlyShortIf(p: seq<Text>, q: seq<Text>)
    requires p != [] && q != []
    ensures |p| == 1 || |q| == 1 ==> (SamePath(p[1..], q[1..]) <==> |p| == |q|)
  {
  }

  /** The registry is a map: what was last put at a path and name is found there, under any case, and
      nothing else changes. Of a longer name the first 127 characters count. */
  lemma {:induction false} FindPutAt(r: Root, p: seq<Text>, n: Text, d: Datum, q: seq<Text>, m: Text)
    requires ShortRoot(r)
    ensures FindAt(PutAt(r, p, n, d), q, m) ==
            if SamePath(p, q) && Same(Clip(n, NAME), m) then Some(d) else FindAt(r, q, m)
  {
    if p == [] {
      FindPut(r.values, n, d, m);
    } else if q != [] {
      FindPutKeys(r.child, p, n, d, q, m);
    }
  }

  lemma {:induction false} PutShort(ks: Keys, p: seq<Text>, n: Text, d: Datum)
    requires p != [] && ShortKeys(ks)
    ensures ShortKeys(Put(ks, p, n, d))
    decreases |p|, ks, 1
  {
    hide PutValue;
    if HasKey(ks, p[0]) {
      PutInShort(ks, p, n, d);
    } else if |p| == 1 {
      ShortKept([], n, d);
    } else {
      PutShort(End, p[1..], n, d);
    }
  }

  lemma {:induction false} PutInShort(ks: Keys, p: seq<Text>, n: Text, d: Datum)
    requires p != [] && ShortKeys(ks)
    ensures ShortKeys(PutIn(ks, p, n, d))
    decreases |p|, ks, 0
  {
    hide PutValue;
    if ks.Key? {
      if !Same(ks.name, p[0]) {
        PutInShort(ks.next, p, n, d);
      } else if |p| == 1 {
        ShortKept(ks.values, n, d);
      } else {
        PutShort(ks.child, p[1..], n, d);
      }
    }
  }

  /** No stored name is ever longer than its buffer. */
  lemma PutAtShort(r: Root, p: seq<Text>, n: Text, d: Datum)
    requires ShortRoot(r)
    ensures ShortRoot(PutAt(r, p, n, d))
  {
    if p == [] {
      ShortKept(r.values, n, d);
    } else {
      PutShort(r.child, p, n, d);
    }
  }

  // ---- every name once ----

  predicate DistinctValues(vs: seq<Value>) {
    vs != [] ==> FindValue(vs[1..], vs[0].name) == None && DistinctValues(vs[1..])
  }

  /** No two siblings, and no two values of a key, have the same name. */
  predicate Distinct(ks: Keys) {
    match ks
    case End => true
    case Key(n, vs, child, next) => !HasKey(next, n) && DistinctValues(vs) && Distinct(child) && Distinct(next)
  }

  predicate DistinctRoot(r: Root) {
    DistinctValues(r.values) && Distinct(r.child)
  }

  lemma {:induction false} ReplaceKeeps(vs: seq<Value>, name: Text, d: Datum, m: Text)
    ensures FindValue(Replace(vs, name, d), m) == None <==> FindValue(vs, m) == None
    ensures DistinctValues(vs) ==> DistinctValues(Replace(vs, name, d))
    decreases |vs|
  {
    if vs != [] && !Same(vs[0].name, name) {
      ReplaceKeeps(vs[1..], name, d, m);
      ReplaceKeeps(vs[1..], name, d, vs[0].name);
      assert Replace(vs, name, d)[1..] == Replace(vs[1..], name, d);
    }
  }

  /** Setting a value keeps the names of the key distinct exactly when the name fits the buffer, or its
      first part is not a name yet: a longer name is not found under its first part, which is then
      stored a second time. */
  lemma PutValueKeeps(vs: seq<Value>, name: Text, d: Datum)
    requires ShortValues(vs) && DistinctValues(vs)
    ensures DistinctValues(PutValue(vs, name, d)) <==> Fresh(name, FindValue(vs, Clip(name, NAME)))
  {
    if |name| > NAME {
      LongNotFound(vs, name);
    }
    ReplaceKeeps(vs, name, d, name);
    assert ([Value(Clip(name, NAME), d)] + vs)[1..] == vs;
  }

  predicate Fresh(name: Text, clipped: Option<Datum>) {
    |name| <= NAME || clipped == None
  }

  lemma {:induction false} PutInKeepsKeys(ks: Keys, p: seq<Text>, name: Text, d: Datum, k: Text)
    requires p != []
    ensures HasKey(PutIn(ks, p, name, d), k) <==> HasKey(ks, k)
    decreases ks
  {
    if ks.Key? && !Same(ks.name, p[0]) {
      PutInKeepsKeys(ks.next, p, name, d, k);
    }
  }

  lemma {:induction false} PutKeeps(ks: Keys, p: seq<Text>, name: Text, d: Datum)
    requires p != [] && ShortKeys(ks) && Distinct(ks)
    ensures Distinct(Put(ks, p, name, d)) <==> Fresh(name, Find(ks, p, Clip(name, NAME)))
    decreases |p|, ks, 1
  {
    hide PutValue, DistinctValues, FindValue, Clip, Fresh;
    if HasKey(ks, p[0]) {
      PutInKeeps(ks, p, name, d);
    } else {
      FindNone(ks, p, Clip(name, NAME));
      NoValues(name);
      if |p| == 1 {
        PutValueKeeps([], name, d);
      } else {
        PutKeeps(End, p[1..], name, d);
      }
    }
  }

  lemma NoValues(name: Text)
    ensures DistinctValues([]) && Fresh(name, None) && FindValue([], Clip(name, NAME)) == None
  {
  }

  lemma {:induction false} PutInKeeps(ks: Keys, p: seq<Text>, name: Text, d: Datum)
    requires p != [] && ShortKeys(ks) && Distinct(ks) && HasKey(ks, p[0])
    ensures Distinct(PutIn(ks, p, name, d)) <==> Fresh(name, Find(ks, p, Clip(name, NAME)))
    decreases |p|, ks, 0
  {
    hide PutValue, DistinctValues, FindValue, Clip, Fresh;
    if !Same(ks.name, p[0]) {
      PutInKeeps(ks.next, p, name, d);
      PutInKeepsKeys(ks.next, p, name, d, ks.name);
    } else if |p| == 1 {
      PutValueKeeps(ks.values, name, d);
    } else {
      PutKeeps(ks.child, p[1..], name, d);
    }
  }

  /** Names stay distinct when a value is set exactly when the name fits the buffer or its first part is
      not set yet: every registry set up with names that fit has distinct ones. */
  lemma PutAtKeeps(r: Root, p: seq<Text>, name: Text, d: Datum)
    requires ShortRoot(r) && DistinctRoot(r)
    ensures DistinctRoot(PutAt(r, p, name, d)) <==> Fresh(name, FindAt(r, p, Clip(name, NAME)))
  {
    if p == [] {
      PutValueKeeps(r.values, name, d);
    } else {
      PutKeeps(r.child, p, name, d);
    }
  }

  // ---- a tree as a list of settings ----

  datatype Entry = Entry(path: seq<Text>, name: Text, datum: Datum)

  function EntriesOf(vs: seq<Value>, path: seq<Text>): seq<Entry> {
    if vs == [] then [] else [Entry(path, vs[0].name, vs[0].datum)] + EntriesOf(vs[1..], path)
  }

  /** The values of the keys and of the keys below, in the order save_key writes them. */
  function Entries(ks: Keys, path: seq<Text>): seq<Entry> {
    match ks
    case End => []
    case Key(n, vs, child, next) => EntriesOf(vs, path + [n]) + Entries(child, path + [n]) + Entries(next, path)
  }

  function RootEntries(r: Root): seq<Entry> {
    EntriesOf(r.values, []) + Entries(r.child, [])
  }

  /** The settings made in order. */
  function PutAll(r: Root, es: seq<Entry>): Root {
    if es == [] then r
    else
      var n := |es| - 1;
      PutAt(PutAll(r, es[..n]), es[n].path, es[n].name, es[n].datum)
  }

  predicate About(e: Entry, path: seq<Text>, name: Text) {
    SamePath(e.path, path) && Same(Clip(e.name, NAME), name)
  }

  /** The last setting of a value. */
  function Last(es: seq<Entry>, path: seq<Text>, name: Text): Option<Datum> {
    if es == [] then None
    else if About(es[|es| - 1], path, name) then Some(es[|es| - 1].datum)
    else Last(es[..|es| - 1], path, name)
  }

  lemma {:induction false} LastConcat(a: seq<Entry>, b: seq<Entry>, path: seq<Text>, name: Text)
    ensures Last(a + b, path, name) == if Last(b, path, name).Some? then Last(b, path, name) else Last(a, path, name)
    decreases |b|
  {
    hide About;
    if b == [] {
      assert a + b == a;
    } else {
      LastConcat(a, b[..|b| - 1], path, name);
      assert (a + b)[..|a + b| - 1] == a + b[..|b| - 1];
    }
  }

  /** After many settings, a value is what it was last set to. */
  lemma {:induction false} PutAllLast(r: Root, es: seq<Entry>, q: seq<Text>, m: Text)
    requires ShortRoot(r)
    ensures ShortRoot(PutAll(r, es))
    ensures FindAt(PutAll(r, es), q, m) == if Last(es, q, m).Some? then Last(es, q, m) else FindAt(r, q, m)
    decreases |es|
  {
    if es != [] {
      var n := |es| - 1;
      PutAllLast(r, es[..n], q, m);
      PutAtShort(PutAll(r, es[..n]), es[n].path, es[n].name, es[n].datum);
      FindPutAt(PutAll(r, es[..n]), es[n].path, es[n].name, es[n].datum, q, m);
      hide SamePath, Same, PutAt, FindAt, ShortRoot, Clip;
    }
  }

  lemma {:induction false} LastOfValues(vs: seq<Value>, path: seq<Text>, q: seq<Text>, m: Text)
    requires DistinctValues(vs) && ShortValues(vs)
    ensures Last(EntriesOf(vs, path), q, m) == if SamePath(path, q) then FindValue(vs, m) else None
    decreases |vs|
  {
    hide SamePath, Same;
    if vs != [] {
      var e := Entry(path, vs[0].name, vs[0].datum);
      LastOfValues(vs[1..], path, q, m);
      LastConcat([e], EntriesOf(vs[1..], path), q, m);
      assert [e][..0] == [];
      assert Last([e], q, m) == if About(e, q, m) then Some(e.datum) else None;
      if Same(vs[0].name, m) {
        FindSame(vs[1..], vs[0].name, m);
      }
    }
  }

  lemma {:induction false} FindSame(vs: seq<Value>, a: Text, b: Text)
    requires Same(a, b)
    ensures FindValue(vs, a) == FindValue(vs, b)
    decreases |vs|
  {
    if vs != [] {
      SameOn(a, b, vs[0].name);
      FindSame(vs[1..], a, b);
    }
  }

  /** The path is below (or at) this one. */
  predicate Below(path: seq<Text>, q: seq<Text>) {
    |q| > |path| && SamePath(path, q[..|path|])
  }

  lemma BelowStep(path: seq<Text>, n: Text, q: seq<Text>)
    ensures SamePath(path + [n], q) <==> Below(path, q) && |q| == |path| + 1 && Same(n, q[|path|])
    ensures Below(path + [n], q) <==> Below(path, q) && |q| > |path| + 1 && Same(n, q[|path|])
  {
    var p := path + [n];
    if SamePath(p, q) {
      assert forall i :: 0 <= i < |path| ==> p[i] == path[i];
      assert Same(p[|path|], q[|path|]);
    }
    if Below(p, q) {
      var front := q[..|p|];
      assert forall i :: 0 <= i < |path| ==> p[i] == path[i] && front[i] == q[i];
      assert Same(p[|path|], front[|path|]);
      forall i | 0 <= i < |path|
        ensures Same(path[i], q[..|path|][i])
      {
        assert Same(p[i], front[i]);
      }
    }
    if Below(path, q) && Same(n, q[|path|]) {
      forall i | 0 <= i < |p|
        ensures Same(p[i], q[i])
      {
        assert i < |path| ==> Same(path[i], q[..|path|][i]);
      }
    }
  }

  /** In the list of a tree's settings, each value of the tree is set once, to what it is. */
  lemma {:induction false} LastOfKeys(ks: Keys, path: seq<Text>, q: seq<Text>, m: Text)
    requires Distinct(ks) && ShortKeys(ks)
    ensures Last(Entries(ks, path), q, m) == if Below(path, q) then Find(ks, q[|path|..], m) else None
    decreases ks
  {
    hide SamePath, Same, FindValue, DistinctValues, Below, Last;
    match ks
    case End =>
      LastOfNone(q, m);
    case Key(n, vs, child, next) =>
      var p := path + [n];
      LastOfValues(vs, p, q, m);
      LastOfKeys(child, p, q, m);
      LastOfKeys(next, path, q, m);
      LastConcat(EntriesOf(vs, p), Entries(child, p), q, m);
      LastConcat(EntriesOf(vs, p) + Entries(child, p), Entries(next, path), q, m);
      BelowStep(path, n, q);
      BelowLonger(path, q);
      if Below(path, q) {
        var rest := q[|path|..];
        assert rest[0] == q[|path|];
        if Same(n, rest[0]) {
          HasSame(next, n, rest[0]);
          FindNone(next, rest, m);
          assert |q| > |path| + 1 ==> q[|p|..] == rest[1..];
        }
      }
  }

  lemma LastOfNone(q: seq<Text>, m: Text)
    ensures Last([], q, m) == None
  {
  }

  lemma BelowLonger(path: seq<Text>, q: seq<Text>)
    ensures Below(path, q) ==> |q| > |path|
  {
  }

  lemma RootFind(r: Root, q: seq<Text>, m: Text)
    requires DistinctRoot(r) && ShortRoot(r)
    ensures Last(RootEntries(r), q, m) == FindAt(r, q, m)
  {
    LastOfValues(r.values, [], q, m);
    LastOfKeys(r.child, [], q, m);
    LastConcat(EntriesOf(r.values, []), Entries(r.child, []), q, m);
    assert q[..0] == [] && q[0..] == q;
  }
}
