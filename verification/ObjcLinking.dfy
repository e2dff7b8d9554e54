/**
 Linking the NeXTSTEP classes of a program (ns_objc_init in runtime/nextstep/ns_objc.c): names become
 pointers, metaclasses get their superclasses, categories' method lists go in front, and selectors
 become canonical. The words of classes, method lists and methods are maps from their addresses.
 */
module ObjcLinking {
  import opened Words
  import opened Selectors

  datatype Method = Method(sel: u32, imp: u32)

  /** Words of guest memory by address: links, strings, the methods of a list; and lists by their owner. */
  type Links = map<u32, u32>
  type Strings = map<u32, Name>
  type Entries = map<u32, seq<Method>>
  type ListMap = map<u32, seq<u32>>

  datatype Category = Category(className: Name, instanceMethods: u32, classMethods: u32)

  /** From head, following next, the addresses are exactly those of s, and then 0. */
  predicate Linked(next: Links, head: u32, s: seq<u32>)
    decreases |s|
  {
    if s == [] then head == 0
    else head != 0 && head == s[0] && head in next && Linked(next, next[head], s[1..])
  }

  /** A word off the way can change. */
  lemma {:induction false} LinkedElsewhere(next: Links, head: u32, s: seq<u32>, a: u32, x: u32)
    requires Linked(next, head, s) && a !in s
    ensures Linked(next[a := x], head, s)
    decreases |s|
  {
    if s != [] {
      LinkedElsewhere(next, next[head], s[1..], a, x);
    }
  }

  lemma LinkedFront(next: Links, head: u32, s: seq<u32>)
    requires head != 0 && head in next && Linked(next, next[head], s)
    ensures Linked(next, head, [head] + s)
  {
    assert ([head] + s)[1..] == s;
  }

  /** ns_class: the first class of this name, or 0. */
  function ClassNamed(classes: seq<u32>, nameOf: Strings, name: Name): u32
    requires forall i :: 0 <= i < |classes| ==> classes[i] in nameOf
  {
    if classes == [] then 0
    else if nameOf[classes[0]] == name then classes[0]
    else ClassNamed(classes[1..], nameOf, name)
  }

  lemma {:induction false} NamedIsClass(classes: seq<u32>, nameOf: Strings, name: Name)
    requires forall i :: 0 <= i < |classes| ==> classes[i] in nameOf
    ensures var c := ClassNamed(classes, nameOf, name); c == 0 || c in classes
    decreases |classes|
  {
    if classes != [] {
      NamedIsClass(classes[1..], nameOf, name);
    }
  }

  /** The class found is the first of its name; 0 is given exactly when no class has the name. */
  lemma {:induction false} NamedIsFirst(classes: seq<u32>, nameOf: Strings, name: Name)
    requires forall i :: 0 <= i < |classes| ==> classes[i] in nameOf && classes[i] != 0
    ensures ClassNamed(classes, nameOf, name) == 0 <==>
            forall i :: 0 <= i < |classes| ==> nameOf[classes[i]] != name
    ensures forall i :: 0 <= i < |classes| && nameOf[classes[i]] == name
                        && (forall j :: 0 <= j < i ==> nameOf[classes[j]] != name) ==>
                          ClassNamed(classes, nameOf, name) == classes[i]
    decreases |classes|
  {
    if classes != [] && nameOf[classes[0]] != name {
      var rest := classes[1..];
      NamedIsFirst(rest, nameOf, name);
      forall i | 0 <= i < |classes| && nameOf[classes[i]] == name
                 && (forall j :: 0 <= j < i ==> nameOf[classes[j]] != name)
        ensures ClassNamed(classes, nameOf, name) == classes[i]
      {
        assert rest[i - 1] == classes[i];
        assert forall j :: 0 <= j < i - 1 ==> rest[j] == classes[j + 1];
      }
      assert forall j :: 0 <= j < |rest| ==> rest[j] == classes[j + 1];
      assert forall j :: 0 < j < |classes| ==> classes[j] == rest[j - 1];
    }
  }

  /** The words of the classes before linking: the superclass word is the address of a name, or 0. */
  predicate Loaded(classes: seq<u32>, nameOf: Strings, strings: Strings, superOf: Links, isaOf: Links) {
    && (forall i :: 0 <= i < |classes| ==>
          && classes[i] != 0 && classes[i] in nameOf && classes[i] in superOf && classes[i] in isaOf
          && (superOf[classes[i]] == 0 || superOf[classes[i]] in strings)
          && isaOf[classes[i]] != 0 && isaOf[classes[i]] !in classes)
    && (forall i, j :: 0 <= i < j < |classes| ==>
          classes[i] != classes[j] && isaOf[classes[i]] != isaOf[classes[j]])
  }

  /** The class a superclass word names. */
  function Sup(classes: seq<u32>, nameOf: Strings, strings: Strings, word: u32): u32
    requires forall i :: 0 <= i < |classes| ==> classes[i] in nameOf
    requires word == 0 || word in strings
  {
    if word == 0 then 0 else ClassNamed(classes, nameOf, strings[word])
  }

  /** The metaclass of the last class that has no superclass. */
  function RootMeta(classes: seq<u32>, superOf: Links, isaOf: Links): u32
    requires forall i :: 0 <= i < |classes| ==> classes[i] in superOf && classes[i] in isaOf
  {
    if classes == [] then 0
    else
      var n := |classes| - 1;
      if superOf[classes[n]] == 0 then isaOf[classes[n]] else RootMeta(classes[..n], superOf, isaOf)
  }

  /** Of several classes without a superclass it is the last one's; 0 without any. */
  lemma {:induction false} RootMetaIsLast(classes: seq<u32>, superOf: Links, isaOf: Links, k: nat)
    requires forall i :: 0 <= i < |classes| ==> classes[i] in superOf && classes[i] in isaOf
    requires k <= |classes| && forall i :: k < i < |classes| ==> superOf[classes[i]] != 0
    ensures k < |classes| && superOf[classes[k]] == 0 ==> RootMeta(classes, superOf, isaOf) == isaOf[classes[k]]
    ensures k == 0 && (classes == [] || superOf[classes[0]] != 0) ==> RootMeta(classes, superOf, isaOf) == 0
    decreases |classes|
  {
    var n := |classes| - 1;
    if n >= 0 && superOf[classes[n]] != 0 {
      RootMetaIsLast(classes[..n], superOf, isaOf, if k <= n then k else n);
    }
  }

  /** The words of class c and its metaclass agree: the metaclass's superclass is the superclass's
      metaclass, and the root's metaclass leads to the root itself. */
  predicate MetaStep(c: u32, superOf: Links, isaOf: Links) {
    && c in superOf && c in isaOf && isaOf[c] != 0 && isaOf[c] in superOf
    && if superOf[c] == 0 then superOf[isaOf[c]] == c
       else superOf[c] in isaOf && superOf[isaOf[c]] == isaOf[superOf[c]]
  }

  /** Class c is linked: to the class its superclass word named, with its metaclass, under this root. */
  predicate LinkedClass(c: u32, sup: u32, meta: u32, root: u32, superOf: Links, isaOf: Links) {
    && MetaStep(c, superOf, isaOf)
    && superOf[c] == sup && isaOf[c] == meta
    && meta in isaOf && isaOf[meta] == root
  }

  function Metas(s: seq<u32>, isaOf: Links): seq<u32>
    requires forall i :: 0 <= i < |s| ==> s[i] in isaOf
  {
    if s == [] then [] else [isaOf[s[0]]] + Metas(s[1..], isaOf)
  }

  /** The metaclass chain of a class: the metaclasses of its own chain, and then the root class itself. */
  lemma {:induction false} MetaChain(superOf: Links, isaOf: Links, c: u32, s: seq<u32>)
    requires Linked(superOf, c, s) && s != []
    requires forall i :: 0 <= i < |s| ==> s[i] in isaOf && MetaStep(s[i], superOf, isaOf)
    ensures c in isaOf
    ensures Linked(superOf, isaOf[c], Metas(s, isaOf) + [s[|s| - 1]])
    decreases |s|
  {
    var rest := s[1..];
    if rest == [] {
      hide MetaStep;
      assert MetaStep(s[0], superOf, isaOf);
      RootChain(superOf, isaOf, c);
      assert Metas(s, isaOf) + [s[|s| - 1]] == [isaOf[c], c];
    } else {
      assert MetaStep(s[0], superOf, isaOf);
      hide MetaStep;
      MetaChain(superOf, isaOf, superOf[c], rest);
      assert (Metas(s, isaOf) + [s[|s| - 1]])[1..] == Metas(rest, isaOf) + [rest[|rest| - 1]];
    }
  }

  lemma RootChain(superOf: Links, isaOf: Links, c: u32)
    requires c != 0 && MetaStep(c, superOf, isaOf) && superOf[c] == 0
    ensures Linked(superOf, isaOf[c], [isaOf[c], c])
  {
    assert [isaOf[c], c][1..] == [c] && [c][1..] == [];
    assert Linked(superOf, c, [c]);
  }

  /** A list attached to a class or metaclass. */
  datatype Attachment = Attachment(target: u32, list: u32)

  /** What the categories attach, in order. */
  function Attachments(cats: seq<Category>, classes: seq<u32>, nameOf: Strings, isaOf: Links): seq<Attachment>
    requires forall i :: 0 <= i < |classes| ==> classes[i] in nameOf && classes[i] in isaOf
  {
    if cats == [] then []
    else
      var n := |cats| - 1;
      Attachments(cats[..n], classes, nameOf, isaOf) + AttachmentsOf(cats[n], classes, nameOf, isaOf)
  }

  function AttachmentsOf(cat: Category, classes: seq<u32>, nameOf: Strings, isaOf: Links): seq<Attachment>
    requires forall i :: 0 <= i < |classes| ==> classes[i] in nameOf && classes[i] in isaOf
  {
    var c := ClassNamed(classes, nameOf, cat.className);
    NamedIsClass(classes, nameOf, cat.className);
    if c == 0 then []
    else
      (if cat.instanceMethods != 0 then [Attachment(c, cat.instanceMethods)] else [])
      + if cat.classMethods != 0 then [Attachment(isaOf[c], cat.classMethods)] else []
  }

  /** A target's lists once all is attached: the newest first, and the lists it had last. */
  function Attached(ats: seq<Attachment>, target: u32, before: seq<u32>): seq<u32> {
    if ats == [] then before
    else
      var n := |ats| - 1;
      var rest := Attached(ats[..n], target, before);
      if ats[n].target == target then [ats[n].list] + rest else rest
  }

  /** A category of a class - the first of the name it gives - attaches its instance methods to the class
      and its class methods to the metaclass, as far as it has them; one of no class attaches nothing. */
  lemma AttachmentsOfClass(cat: Category, classes: seq<u32>, nameOf: Strings, isaOf: Links, a: Attachment)
    requires forall i :: 0 <= i < |classes| ==> classes[i] in nameOf && classes[i] in isaOf && classes[i] != 0
    ensures a in AttachmentsOf(cat, classes, nameOf, isaOf) <==>
            exists i ::
              && 0 <= i < |classes| && nameOf[classes[i]] == cat.className
              && (forall j :: 0 <= j < i ==> nameOf[classes[j]] != cat.className)
              && a.list != 0
              && (a == Attachment(classes[i], cat.instanceMethods)
                  || a == Attachment(isaOf[classes[i]], cat.classMethods))
  {
    hide ClassNamed;
    NamedIsFirst(classes, nameOf, cat.className);
    var c := ClassNamed(classes, nameOf, cat.className);
    if c != 0 {
      var k := FirstOfName(classes, nameOf, cat.className);
      assert classes[k] == c;
      forall i | 0 <= i < |classes| && nameOf[classes[i]] == cat.className
                 && (forall j :: 0 <= j < i ==> nameOf[classes[j]] != cat.className)
        ensures i == k
      {
      }
    }
  }

  lemma FirstOfName(classes: seq<u32>, nameOf: Strings, name: Name) returns (k: nat)
    requires forall i :: 0 <= i < |classes| ==> classes[i] in nameOf
    requires exists i :: 0 <= i < |classes| && nameOf[classes[i]] == name
    ensures k < |classes| && nameOf[classes[k]] == name && forall j :: 0 <= j < k ==> nameOf[classes[j]] != name
  {
    k := 0;
    while nameOf[classes[k]] != name
      invariant 0 <= k < |classes|
      invariant forall j :: 0 <= j < k ==> nameOf[classes[j]] != name
      invariant exists i :: k <= i < |classes| && nameOf[classes[i]] == name
      decreases |classes| - k
    {
      k := k + 1;
    }
  }

  /** The categories attach one after the other. */
  lemma {:induction false} AttachmentsInOrder(a: seq<Category>, b: seq<Category>, classes: seq<u32>, nameOf: Strings,
                                              isaOf: Links)
    requires forall i :: 0 <= i < |classes| ==> classes[i] in nameOf && classes[i] in isaOf
    ensures Attachments(a + b, classes, nameOf, isaOf) ==
            Attachments(a, classes, nameOf, isaOf) + Attachments(b, classes, nameOf, isaOf)
    decreases |b|
  {
    hide AttachmentsOf;
    if b == [] {
      assert a + b == a;
    } else {
      assert (a + b)[..|a + b| - 1] == a + b[..|b| - 1];
      AttachmentsInOrder(a, b[..|b| - 1], classes, nameOf, isaOf);
    }
  }

  lemma AttachmentsOfOne(c: Category, classes: seq<u32>, nameOf: Strings, isaOf: Links)
    requires forall i :: 0 <= i < |classes| ==> classes[i] in nameOf && classes[i] in isaOf
    ensures Attachments([c], classes, nameOf, isaOf) == AttachmentsOf(c, classes, nameOf, isaOf)
  {
    hide AttachmentsOf;
    assert [c][..0] == [];
  }

  /** Of two lists attached to one target the newer comes first, and behind both the lists it had. */
  lemma {:induction false} NewerInFront(ats: seq<Attachment>, target: u32, before: seq<u32>, i: nat, j: nat)
    returns (p: nat, q: nat)
    requires i < j < |ats| && ats[i].target == target == ats[j].target
    ensures var r := Attached(ats, target, before);
      p < q < |r| - |before| && r[p] == ats[j].list && r[q] == ats[i].list && r[|r| - |before|..] == before
    decreases |ats|
  {
    var n := |ats| - 1;
    if j == n {
      q := BehindNewer(ats[..n], target, before, i);
      p, q := 0, q + 1;
    } else {
      p, q := NewerInFront(ats[..n], target, before, i, j);
      if ats[n].target == target {
        p, q := p + 1, q + 1;
      }
    }
  }

  lemma {:induction false} BehindNewer(ats: seq<Attachment>, target: u32, before: seq<u32>, i: nat) returns (q: nat)
    requires i < |ats| && ats[i].target == target
    ensures var r := Attached(ats, target, before);
      q < |r| - |before| && r[q] == ats[i].list && r[|r| - |before|..] == before
    decreases |ats|
  {
    var n := |ats| - 1;
    if i == n {
      q := 0;
      OwnLast(ats[..n], target, before);
    } else {
      q := BehindNewer(ats[..n], target, before, i);
      if ats[n].target == target {
        q := q + 1;
      }
    }
  }

  lemma {:induction false} OwnLast(ats: seq<Attachment>, target: u32, before: seq<u32>)
    ensures var r := Attached(ats, target, before); |r| >= |before| && r[|r| - |before|..] == before
    decreases |ats|
  {
    if ats != [] {
      OwnLast(ats[..|ats| - 1], target, before);
    }
  }

  /** The lists to attach differ and are on no target yet. */
  predicate Separate(ats: seq<Attachment>, lists: ListMap) {
    && (forall i, j :: 0 <= i < j < |ats| ==> ats[i].list != ats[j].list)
    && (forall i :: 0 <= i < |ats| ==> ats[i].list != 0)
    && (forall i, t :: 0 <= i < |ats| && t in lists ==> ats[i].list !in lists[t])
  }

  lemma {:induction false} AttachedOnly(ats: seq<Attachment>, target: u32, before: seq<u32>, l: u32)
    requires l !in before && forall i :: 0 <= i < |ats| ==> ats[i].list != l
    ensures l !in Attached(ats, target, before)
    decreases |ats|
  {
    if ats != [] {
      AttachedOnly(ats[..|ats| - 1], target, before, l);
    }
  }

  lemma LinkingHere(c: u32, sup: u32, meta: u32, root: u32, isa0: Links, super1: Links, isa1: Links)
    requires c in isa0 && isa0[c] == meta && meta != c && meta != 0 && meta != sup && (sup == 0 || sup in isa0)
    requires c in super1 && super1[c] == sup && meta in super1 && super1[meta] == if sup == 0 then c else isa0[sup]
    requires isa1 == isa0[meta := root]
    ensures LinkedClass(c, sup, meta, root, super1, isa1)
  {
  }

  /** Linking class d, with metaclass m, leaves the linked class c linked. */
  lemma LinkingElsewhere(c: u32, sup: u32, meta: u32, root: u32, super0: Links, isa0: Links, d: u32, m: u32,
                         super1: Links, isa1: Links)
    requires LinkedClass(c, sup, meta, root, super0, isa0)
    requires d != c && d != meta && m != c && m != meta && m != sup && m != d
    requires m in super1 && d in super1 && m in isa1
    requires super1 == super0[d := super1[d]][m := super1[m]] && isa1 == isa0[m := isa1[m]]
    ensures LinkedClass(c, sup, meta, root, super1, isa1)
  {
  }

  // ---- selectors ----

  /** Every selector word of the list is 0 or the address of a name in `all`. */
  predicate Named(e: seq<Method>, strings: Strings, all: set<Name>) {
    forall i :: 0 <= i < |e| ==> e[i].sel == 0 || (e[i].sel in strings && strings[e[i].sel] in all)
  }

  /** The table has room for all these names. */
  predicate Room(interned: map<Name, u32>, all: set<Name>) {
    interned.Keys <= all && |all| <= SLOTS
  }

  ghost predicate Grows(before: map<Name, u32>, after: map<Name, u32>) {
    forall n :: n in before ==> n in after && after[n] == before[n]
  }

  /** The same methods in the same order, under the same names. */
  predicate SameNames(e0: seq<Method>, e: seq<Method>, strings: Strings) {
    |e| == |e0| && forall i :: 0 <= i < |e0| ==> SameMethod(e0[i], e[i], strings)
  }

  predicate SameMethod(m0: Method, m: Method, strings: Strings) {
    && m.imp == m0.imp && (m0.sel == 0 <==> m.sel == 0)
    && (m0.sel != 0 ==> m0.sel in strings && m.sel in strings && strings[m.sel] == strings[m0.sel])
  }

  predicate CanonicalSel(sel: u32, interned: map<Name, u32>, strings: Strings) {
    sel == 0 || (sel in strings && strings[sel] in interned && interned[strings[sel]] == sel)
  }

  predicate Canonical(e: seq<Method>, interned: map<Name, u32>, strings: Strings) {
    forall i :: 0 <= i < |e| ==> CanonicalSel(e[i].sel, interned, strings)
  }

  /** The first i entries done, the others untouched. */
  predicate Part(e0: seq<Method>, e: seq<Method>, i: nat, interned: map<Name, u32>, strings: Strings) {
    && i <= |e0| && SameNames(e0, e, strings)
    && (forall j :: 0 <= j < i ==> CanonicalSel(e[j].sel, interned, strings))
    && forall j :: i <= j < |e0| ==> e[j] == e0[j]
  }

  lemma NothingDone(e0: seq<Method>, interned: map<Name, u32>, strings: Strings, all: set<Name>)
    requires Named(e0, strings, all)
    ensures Part(e0, e0, 0, interned, strings)
  {
  }

  lemma NextEntry(e0: seq<Method>, e: seq<Method>, i: nat, interned: map<Name, u32>, strings: Strings, all: set<Name>)
    requires Named(e0, strings, all) && Part(e0, e, i, interned, strings) && i < |e|
    ensures |e| == |e0| && e[i] == e0[i] && (e[i].sel == 0 || (e[i].sel in strings && strings[e[i].sel] in all))
  {
  }

  lemma EntryDone(e0: seq<Method>, e: seq<Method>, e': seq<Method>, i: nat, interned: map<Name, u32>,
                  interned': map<Name, u32>,
                  strings: Strings)
    requires Part(e0, e, i, interned, strings) && i < |e| && |e'| == |e| && e' == e[i := e'[i]]
    requires Grows(interned, interned')
    requires SameMethod(e0[i], e'[i], strings) && CanonicalSel(e'[i].sel, interned', strings)
    ensures Part(e0, e', i + 1, interned', strings)
  {
  }

  lemma AllDone(e0: seq<Method>, e: seq<Method>, interned: map<Name, u32>, strings: Strings)
    requires Part(e0, e, |e|, interned, strings)
    ensures SameNames(e0, e, strings) && Canonical(e, interned, strings)
  {
  }

  function Elements(s: seq<u32>): set<u32> {
    set x | x in s
  }

  predicate AllNamed(entries: Entries, strings: Strings, all: set<Name>) {
    forall l :: l in entries ==> Named(entries[l], strings, all)
  }

  /** The lists in `done` are canonical, the others untouched, and all have the methods they had. */
  ghost predicate Progress(e0: Entries, entries: Entries, done: set<u32>, interned: map<Name, u32>,
                           strings: Strings) {
    && entries.Keys == e0.Keys
    && (forall l :: l in e0 ==> SameNames(e0[l], entries[l], strings))
    && (forall l :: l in e0 && l in done ==> Canonical(entries[l], interned, strings))
    && forall l :: l in e0 && l !in done ==> entries[l] == e0[l]
  }

  /** The lists of these classes and their metaclasses are among those done. */
  predicate Covers(done: set<u32>, classes: seq<u32>, isaOf: Links, lists: ListMap) {
    forall i :: 0 <= i < |classes| ==>
                  && classes[i] in lists && Elements(lists[classes[i]]) <= done
                  && classes[i] in isaOf && isaOf[classes[i]] in lists && Elements(lists[isaOf[classes[i]]]) <= done
  }

  /** A linked reference is the canonical selector of its name. */
  predicate SameRef(r0: u32, r: u32, interned: map<Name, u32>, strings: Strings) {
    && (r0 == 0 ==> r == 0)
    && (r0 != 0 ==> r0 in strings && strings[r0] in interned && r == interned[strings[r0]])
  }

  lemma GrowsSame(m: map<Name, u32>)
    ensures Grows(m, m)
  {
  }

  lemma GrowsOn(a: map<Name, u32>, b: map<Name, u32>, c: map<Name, u32>)
    requires Grows(a, b) && Grows(b, c)
    ensures Grows(a, c)
  {
  }

  lemma NoProgress(e0: Entries, interned: map<Name, u32>, strings: Strings, all: set<Name>)
    requires AllNamed(e0, strings, all)
    ensures Progress(e0, e0, {}, interned, strings)
  {
    forall l | l in e0
      ensures SameNames(e0[l], e0[l], strings)
    {
      assert Named(e0[l], strings, all);
    }
  }

  lemma ProgressGrows(e0: Entries, entries: Entries, done: set<u32>, before: map<Name, u32>,
                      after: map<Name, u32>, strings: Strings)
    requires Progress(e0, entries, done, before, strings) && Grows(before, after)
    ensures Progress(e0, entries, done, after, strings)
  {
    forall l | l in e0 && l in done
      ensures Canonical(entries[l], after, strings)
    {
      assert Canonical(entries[l], before, strings);
    }
  }

  lemma ListNamed(e0: Entries, entries: Entries, done: set<u32>, l: u32, interned: map<Name, u32>,
                  strings: Strings, all: set<Name>)
    requires AllNamed(e0, strings, all) && Progress(e0, entries, done, interned, strings) && l in e0
    ensures l in entries && Named(entries[l], strings, all)
  {
    assert Named(e0[l], strings, all) && SameNames(e0[l], entries[l], strings);
    forall i | 0 <= i < |entries[l]|
      ensures entries[l][i].sel == 0 || (entries[l][i].sel in strings && strings[entries[l][i].sel] in all)
    {
      assert SameMethod(e0[l][i], entries[l][i], strings);
    }
  }

  lemma ListDone(e0: Entries, es: Entries, entries: Entries, done: set<u32>, l: u32,
                 before: map<Name, u32>, after: map<Name, u32>, strings: Strings)
    requires Progress(e0, es, done, before, strings) && l in e0 && l in es && l in entries
    requires entries == es[l := entries[l]] && Grows(before, after)
    requires SameNames(es[l], entries[l], strings) && Canonical(entries[l], after, strings)
    ensures Progress(e0, entries, done + {l}, after, strings)
  {
    ProgressGrows(e0, es, done, before, after, strings);
    SameNamesOn(e0[l], es[l], entries[l], strings);
    hide SameNames, Canonical, Grows;
  }

  lemma SameNamesOn(a: seq<Method>, b: seq<Method>, c: seq<Method>, strings: Strings)
    requires SameNames(a, b, strings) && SameNames(b, c, strings)
    ensures SameNames(a, c, strings)
  {
    forall i | 0 <= i < |a|
      ensures SameMethod(a[i], c[i], strings)
    {
      assert SameMethod(a[i], b[i], strings) && SameMethod(b[i], c[i], strings);
    }
  }

  lemma CoversNone(classes: seq<u32>, isaOf: Links, lists: ListMap)
    ensures Covers({}, classes[..0], isaOf, lists)
  {
  }

  lemma CoversOne(was: set<u32>, done: set<u32>, classes: seq<u32>, i: nat, isaOf: Links, lists: ListMap)
    requires i < |classes| && Covers(was, classes[..i], isaOf, lists) && was <= done
    requires classes[i] in lists && classes[i] in isaOf && isaOf[classes[i]] in lists
    requires Elements(lists[classes[i]]) <= done && Elements(lists[isaOf[classes[i]]]) <= done
    ensures Covers(done, classes[..i + 1], isaOf, lists)
  {
    var front := classes[..i];
    forall j | 0 <= j < i
      ensures classes[j] in lists && Elements(lists[classes[j]]) <= done
      ensures classes[j] in isaOf && isaOf[classes[j]] in lists && Elements(lists[isaOf[classes[j]]]) <= done
    {
      assert front[j] == classes[j];
    }
  }

  lemma InternGrows(interned: map<Name, u32>, name: Name, va: u32, all: set<Name>)
    requires Room(interned, all) && name in all
    ensures name in interned || |interned| < SLOTS
    ensures Room(Intern(interned, name, va), all) && Grows(interned, Intern(interned, name, va))
  {
    if name !in interned {
      Subset(interned.Keys + {name}, all);
    }
  }

  class Image {
    const classes: seq<u32>
    const nameOf: Strings
    const table: Table
    var superOf: Links
    var isaOf: Links
    var methodsOf: Links          // CLS_METHODS: the first method list
    var nextOf: Links             // of a method list
    var entries: Entries    // of a method list
    var refs: seq<u32>                    // message references

    constructor (classes: seq<u32>, nameOf: Strings, table: Table, superOf: Links, isaOf: Links,
                 methodsOf: Links, nextOf: Links, entries: Entries, refs: seq<u32>)
      ensures this.classes == classes && this.nameOf == nameOf && this.table == table
      ensures this.superOf == superOf && this.isaOf == isaOf && this.methodsOf == methodsOf
      ensures this.nextOf == nextOf && this.entries == entries && this.refs == refs
    {
      this.classes, this.nameOf, this.table, this.superOf, this.isaOf := classes, nameOf, table, superOf, isaOf;
      this.methodsOf, this.nextOf, this.entries, this.refs := methodsOf, nextOf, entries, refs;
    }

    /** ns_class */
    method ClassByName(name: Name) returns (c: u32)
      requires forall i :: 0 <= i < |classes| ==> classes[i] in nameOf
      ensures c == ClassNamed(classes, nameOf, name)
      ensures c == 0 || c in classes
    {
      NamedIsClass(classes, nameOf, name);
      assert classes[0..] == classes;
      var i := 0;
      while i < |classes|
        invariant 0 <= i <= |classes|
        invariant ClassNamed(classes[i..], nameOf, name) == ClassNamed(classes, nameOf, name)
      {
        if nameOf[classes[i]] == name {
          return classes[i];
        }
        assert classes[i..][1..] == classes[i + 1..];
        i := i + 1;
      }
      c := 0;
    }

    method FindRootMeta() returns (root: u32)
      requires forall i :: 0 <= i < |classes| ==> classes[i] in superOf && classes[i] in isaOf
      ensures root == RootMeta(classes, superOf, isaOf)
    {
      root := 0;
      var i := 0;
      while i < |classes|
        invariant 0 <= i <= |classes|
        invariant root == RootMeta(classes[..i], superOf, isaOf)
      {
        assert classes[..i + 1][..i] == classes[..i];
        if superOf[classes[i]] == 0 {
          root := isaOf[classes[i]];
        }
        i := i + 1;
      }
      assert classes[..i] == classes;
    }

    /** The class loop of ns_objc_init. */
    method LinkClasses()
      requires Loaded(classes, nameOf, table.strings, superOf, isaOf)
      modifies this`superOf, this`isaOf
      ensures forall i :: 0 <= i < |classes| ==> Linked1(i, old(superOf), old(isaOf), superOf, isaOf)
    {
      hide RootMeta, ClassNamed, LinkedClass;
      var root := FindRootMeta();
      ghost var super0, isa0 := superOf, isaOf;
      var i := 0;
      while i < |classes|
        invariant 0 <= i <= |classes|
        invariant forall j :: 0 <= j < i ==> Linked1(j, super0, isa0, superOf, isaOf)
        invariant forall j :: i <= j < |classes| ==> classes[j] in superOf && superOf[classes[j]] == super0[classes[j]]
        invariant forall j :: 0 <= j < |classes| ==> classes[j] in isaOf && isaOf[classes[j]] == isa0[classes[j]]
      {
        var c, meta := classes[i], isaOf[classes[i]];
        var sup: u32 := 0;
        if superOf[c] != 0 {
          sup := ClassByName(table.strings[superOf[c]]);
        }
        ghost var super1, isa1 := superOf, isaOf;
        superOf := superOf[c := sup];
        superOf := superOf[meta := if sup != 0 then isaOf[sup] else c];
        isaOf := isaOf[meta := root];
        LinkingHere(c, sup, meta, root, isa1, superOf, isaOf);
        forall j | 0 <= j < i
          ensures Linked1(j, super0, isa0, superOf, isaOf)
        {
          assert Linked1(j, super0, isa0, super1, isa1);
          SupIsClass(super0, isa0, j);
          assert classes[i] in classes && classes[j] in classes;
          var supj := Sup(classes, nameOf, table.strings, super0[classes[j]]);
          LinkingElsewhere(classes[j], supj, isa0[classes[j]], root, super1, isa1, c, meta, superOf, isaOf);
        }
        i := i + 1;
      }
    }

    lemma SupIsClass(super0: Links, isa0: Links, j: nat)
      requires Loaded(classes, nameOf, table.strings, super0, isa0) && j < |classes|
      ensures var sup := Sup(classes, nameOf, table.strings, super0[classes[j]]); sup == 0 || sup in classes
    {
      if super0[classes[j]] != 0 {
        NamedIsClass(classes, nameOf, table.strings[super0[classes[j]]]);
      }
    }

    predicate Linked1(i: nat, super0: Links, isa0: Links, superOf: Links, isaOf: Links)
      requires Loaded(classes, nameOf, table.strings, super0, isa0) && i < |classes|
    {
      LinkedClass(classes[i], Sup(classes, nameOf, table.strings, super0[classes[i]]), isa0[classes[i]],
                  RootMeta(classes, super0, isa0), superOf, isaOf)
    }

    /** Every target's lists are those it had, with what was attached in front. */
    ghost predicate OnTargets(ats: seq<Attachment>, lists: ListMap)
      reads this
    {
      forall t :: t in lists ==> t in methodsOf && Linked(nextOf, methodsOf[t], Attached(ats, t, lists[t]))
    }

    /** A category's list goes in front of its target's lists. */
    method Attach(target: u32, list: u32, ghost done: seq<Attachment>, ghost lists: ListMap)
      requires target in lists && list != 0
      requires Separate(done + [Attachment(target, list)], lists) && OnTargets(done, lists)
      modifies this`methodsOf, this`nextOf
      ensures OnTargets(done + [Attachment(target, list)], lists)
    {
      hide Linked, Attached, Separate;
      ghost var a := Attachment(target, list);
      ghost var next0, methods0 := nextOf, methodsOf;
      nextOf := nextOf[list := methodsOf[target]];
      methodsOf := methodsOf[target := list];
      forall t | t in lists
        ensures Linked(nextOf, methodsOf[t], Attached(done + [a], t, lists[t]))
      {
        AttachOne(done, a, t, lists);
        var rest := Attached(done, t, lists[t]);
        LinkedElsewhere(next0, methods0[t], rest, list, methods0[target]);
        if t == target {
          LinkedFront(nextOf, list, rest);
        }
      }
    }

    method AttachCategory(cat: Category, ghost done: seq<Attachment>, ghost lists: ListMap)
      requires forall i :: 0 <= i < |classes| ==> classes[i] in nameOf && classes[i] in isaOf
      requires forall i :: 0 <= i < |classes| ==> classes[i] in lists && isaOf[classes[i]] in lists
      requires Separate(done + AttachmentsOf(cat, classes, nameOf, isaOf), lists) && OnTargets(done, lists)
      modifies this`methodsOf, this`nextOf
      ensures OnTargets(done + AttachmentsOf(cat, classes, nameOf, isaOf), lists)
    {
      hide Separate, Attached, AttachmentsOf, ClassNamed, OnTargets;
      ghost var of := AttachmentsOf(cat, classes, nameOf, isaOf);
      CategoryAttaches(cat, classes, nameOf, isaOf);
      var c := ClassByName(cat.className);
      if c == 0 {
        assert done + of == done;
        return;
      }
      ghost var more := done;
      if cat.instanceMethods != 0 {
        more := done + [Attachment(c, cat.instanceMethods)];
        SeparatePrefix(done + of, more, lists);
        Attach(c, cat.instanceMethods, done, lists);
      }
      if cat.classMethods != 0 {
        assert done + of == more + [Attachment(isaOf[c], cat.classMethods)];
        Attach(isaOf[c], cat.classMethods, more, lists);
      } else {
        assert done + of == more;
      }
    }

    /** The category loop of ns_objc_init. A list's own next word is overwritten: only its first list
        of methods is attached. */
    method LinkCategories(cats: seq<Category>, ghost lists: ListMap)
      requires forall i :: 0 <= i < |classes| ==> classes[i] in nameOf && classes[i] in isaOf
      requires forall i :: 0 <= i < |classes| ==> classes[i] in lists && isaOf[classes[i]] in lists
      requires forall t :: t in lists ==> t in methodsOf && Linked(nextOf, methodsOf[t], lists[t])
      requires Separate(Attachments(cats, classes, nameOf, isaOf), lists)
      modifies this`methodsOf, this`nextOf
      ensures OnTargets(Attachments(cats, classes, nameOf, isaOf), lists)
    {
      hide Separate, Attached, AttachmentsOf, ClassNamed, OnTargets;
      ghost var all := Attachments(cats, classes, nameOf, isaOf);
      ghost var done: seq<Attachment> := [];
      NothingAttached(lists);
      var i := 0;
      while i < |cats|
        invariant 0 <= i <= |cats|
        invariant done == Attachments(cats[..i], classes, nameOf, isaOf)
        invariant OnTargets(done, lists)
      {
        var cat := cats[i];
        ghost var of := AttachmentsOf(cat, classes, nameOf, isaOf);
        assert cats[..i + 1][..i] == cats[..i];
        AttachmentsPrefix(cats, i + 1, classes, nameOf, isaOf);
        SeparatePrefix(all, done + of, lists);
        AttachCategory(cat, done, lists);
        done := done + of;
        i := i + 1;
      }
      assert cats[..i] == cats;
    }

    lemma NothingAttached(lists: ListMap)
      requires forall t :: t in lists ==> t in methodsOf && Linked(nextOf, methodsOf[t], lists[t])
      ensures OnTargets([], lists)
    {
    }

    /** sel_unique, for a name the table has room for. */
    method UniqueNamed(va: u32, ghost all: set<Name>) returns (sel: u32)
      requires table.Valid() && 0 !in table.strings && Room(table.interned, all)
      requires va in table.strings && table.strings[va] in all
      modifies table`interned, table.slots
      ensures table.Valid() && Room(table.interned, all) && Grows(old(table.interned), table.interned)
      ensures sel != 0 && CanonicalSel(sel, table.interned, table.strings)
      ensures sel in table.strings && table.strings[sel] == table.strings[va]
    {
      InternGrows(table.interned, table.strings[va], va, all);
      sel := table.Unique(va);
    }

    /** One list of unique_list. */
    method UniqueEntries(l: u32, ghost all: set<Name>)
      requires table.Valid() && 0 !in table.strings && Room(table.interned, all)
      requires l in entries && Named(entries[l], table.strings, all)
      modifies this`entries, table`interned, table.slots
      ensures table.Valid() && Room(table.interned, all) && Grows(old(table.interned), table.interned)
      ensures l in entries && entries == old(entries)[l := entries[l]]
      ensures SameNames(old(entries)[l], entries[l], table.strings)
      ensures Canonical(entries[l], table.interned, table.strings)
    {
      hide SameNames, Canonical, Part, Named, Room;
      ghost var e0 := entries[l];
      NothingDone(e0, table.interned, table.strings, all);
      var i := 0;
      while i < |entries[l]|
        invariant l in entries && entries == old(entries)[l := entries[l]]
        invariant 0 <= i <= |entries[l]| && Part(e0, entries[l], i, table.interned, table.strings)
        invariant table.Valid() && Room(table.interned, all) && Grows(old(table.interned), table.interned)
        decreases |e0| - i
      {
        var m := entries[l][i];
        ghost var e, interned := entries[l], table.interned;
        NextEntry(e0, e, i, interned, table.strings, all);
        if m.sel != 0 {
          var sel := UniqueNamed(m.sel, all);
          entries := entries[l := entries[l][i := Method(sel, m.imp)]];
        }
        EntryDone(e0, e, entries[l], i, interned, table.interned, table.strings);
        i := i + 1;
      }
      AllDone(e0, entries[l], table.interned, table.strings);
    }

    /** unique_list */
    method UniqueList(ml: u32, ghost ls: seq<u32>, ghost e0: Entries, ghost done: set<u32>, ghost all: set<Name>)
      requires table.Valid() && 0 !in table.strings && Room(table.interned, all)
      requires Linked(nextOf, ml, ls) && (forall l :: l in ls ==> l in e0)
      requires AllNamed(e0, table.strings, all)
      requires Progress(e0, entries, done, table.interned, table.strings)
      modifies this`entries, table`interned, table.slots
      ensures table.Valid() && Room(table.interned, all) && Grows(old(table.interned), table.interned)
      ensures Progress(e0, entries, done + Elements(ls), table.interned, table.strings)
    {
      hide Progress, AllNamed, Grows, Named;
      var l := ml;
      ghost var d, i := done, 0;
      GrowsSame(table.interned);
      assert ls[0..] == ls;
      assert done + Elements(ls[..0]) == done;
      while l != 0
        invariant i <= |ls| && Linked(nextOf, l, ls[i..])
        invariant table.Valid() && Room(table.interned, all) && Grows(old(table.interned), table.interned)
        invariant Progress(e0, entries, done + Elements(ls[..i]), table.interned, table.strings)
        decreases |ls| - i
      {
        ghost var es, interned := entries, table.interned;
        assert ls[i..][1..] == ls[i + 1..];
        ListNamed(e0, es, done + Elements(ls[..i]), l, interned, table.strings, all);
        UniqueEntries(l, all);
        ListDone(e0, es, entries, done + Elements(ls[..i]), l, interned, table.interned, table.strings);
        GrowsOn(old(table.interned), interned, table.interned);
        assert ls[..i + 1] == ls[..i] + [l];
        assert done + Elements(ls[..i + 1]) == done + Elements(ls[..i]) + {l};
        l := nextOf[l];
        i := i + 1;
      }
      assert ls[..i] == ls;
    }

    /** The selector loops of ns_objc_init: the methods of every class and metaclass, and then the
        message references. */
    method LinkSelectors(ghost lists: ListMap, ghost all: set<Name>) returns (ghost done: set<u32>)
      requires table.Valid() && 0 !in table.strings && Room(table.interned, all)
      requires forall i :: 0 <= i < |classes| ==>
                             classes[i] in isaOf && classes[i] in lists && isaOf[classes[i]] in lists
      requires forall t :: t in lists ==> t in methodsOf && Linked(nextOf, methodsOf[t], lists[t])
      requires forall t, l :: t in lists && l in lists[t] ==> l in entries
      requires AllNamed(entries, table.strings, all)
      requires forall i :: 0 <= i < |refs| ==>
                             refs[i] == 0 || (refs[i] in table.strings && table.strings[refs[i]] in all)
      modifies this`entries, this`refs, table`interned, table.slots
      ensures table.Valid() && Room(table.interned, all) && Grows(old(table.interned), table.interned)
      ensures Progress(old(entries), entries, done, table.interned, table.strings)
      ensures Covers(done, classes, isaOf, lists)
      ensures |refs| == |old(refs)|
      ensures forall i :: 0 <= i < |refs| ==> SameRef(old(refs)[i], refs[i], table.interned, table.strings)
    {
      hide Progress, AllNamed, Grows, Named, Covers;
      ghost var e0 := entries;
      done := {};
      NoProgress(e0, table.interned, table.strings, all);
      GrowsSame(table.interned);
      CoversNone(classes, isaOf, lists);
      var i := 0;
      while i < |classes|
        invariant 0 <= i <= |classes|
        invariant table.Valid() && Room(table.interned, all) && Grows(old(table.interned), table.interned)
        invariant Progress(e0, entries, done, table.interned, table.strings)
        invariant Covers(done, classes[..i], isaOf, lists) && refs == old(refs)
      {
        ghost var c, m, was, before := classes[i], isaOf[classes[i]], done, table.interned;
        UniqueList(methodsOf[classes[i]], lists[c], e0, done, all);
        GrowsOn(old(table.interned), before, table.interned);
        done := done + Elements(lists[c]);
        before := table.interned;
        UniqueList(methodsOf[isaOf[classes[i]]], lists[m], e0, done, all);
        GrowsOn(old(table.interned), before, table.interned);
        done := done + Elements(lists[m]);
        CoversOne(was, done, classes, i, isaOf, lists);
        i := i + 1;
      }
      assert classes[..i] == classes;
      ghost var before := table.interned;
      LinkRefs(all);
      GrowsOn(old(table.interned), before, table.interned);
      ProgressGrows(e0, entries, done, before, table.interned, table.strings);
    }

    method LinkRefs(ghost all: set<Name>)
      requires table.Valid() && Room(table.interned, all)
      requires forall i :: 0 <= i < |refs| ==>
                             refs[i] == 0 || (refs[i] in table.strings && table.strings[refs[i]] in all)
      modifies this`refs, table`interned, table.slots
      ensures table.Valid() && Room(table.interned, all) && Grows(old(table.interned), table.interned)
      ensures |refs| == |old(refs)|
      ensures forall i :: 0 <= i < |refs| ==> SameRef(old(refs)[i], refs[i], table.interned, table.strings)
    {
      ghost var r0 := refs;
      var i := 0;
      while i < |refs|
        invariant 0 <= i <= |refs| == |r0|
        invariant table.Valid() && Room(table.interned, all) && Grows(old(table.interned), table.interned)
        invariant forall j :: 0 <= j < i ==> SameRef(r0[j], refs[j], table.interned, table.strings)
        invariant forall j :: i <= j < |refs| ==> refs[j] == r0[j]
      {
        if refs[i] != 0 {
          InternGrows(table.interned, table.strings[refs[i]], refs[i], all);
          var sel := table.Unique(refs[i]);
          refs := refs[i := sel];
        }
        i := i + 1;
      }
    }
  }

  lemma AttachOne(done: seq<Attachment>, a: Attachment, t: u32, lists: ListMap)
    requires t in lists && Separate(done + [a], lists)
    ensures a.list !in Attached(done, t, lists[t])
    ensures Attached(done + [a], t, lists[t]) ==
      if a.target == t then [a.list] + Attached(done, t, lists[t]) else Attached(done, t, lists[t])
  {
    var ats := done + [a];
    assert ats[..|ats| - 1] == done;
    assert ats[|done|] == a;
    forall i | 0 <= i < |done|
      ensures done[i].list != a.list
    {
      assert ats[i] == done[i];
    }
    AttachedOnly(done, t, lists[t], a.list);
  }

  lemma SeparatePrefix(all: seq<Attachment>, some: seq<Attachment>, lists: ListMap)
    requires some <= all && Separate(all, lists)
    ensures Separate(some, lists)
  {
    assert forall i :: 0 <= i < |some| ==> some[i] == all[i];
  }

  lemma {:induction false} AttachmentsPrefix(cats: seq<Category>, i: nat, classes: seq<u32>, nameOf: Strings,
                                             isaOf: Links)
    requires forall i :: 0 <= i < |classes| ==> classes[i] in nameOf && classes[i] in isaOf
    requires i <= |cats|
    ensures Attachments(cats[..i], classes, nameOf, isaOf) <= Attachments(cats, classes, nameOf, isaOf)
    decreases |cats|
  {
    if i < |cats| {
      var n := |cats| - 1;
      AttachmentsPrefix(cats[..n], i, classes, nameOf, isaOf);
      assert cats[..n][..i] == cats[..i];
    } else {
      assert cats[..i] == cats;
    }
  }

  /** What one category attaches, by its parts. */
  lemma CategoryAttaches(cat: Category, classes: seq<u32>, nameOf: Strings, isaOf: Links)
    requires forall i :: 0 <= i < |classes| ==> classes[i] in nameOf && classes[i] in isaOf
    ensures var c := ClassNamed(classes, nameOf, cat.className);
      var of := AttachmentsOf(cat, classes, nameOf, isaOf);
      && (c == 0 ==> of == [])
      && (c != 0 && cat.instanceMethods != 0 ==> |of| >= 1 && of[0] == Attachment(c, cat.instanceMethods))
      && (c != 0 && cat.instanceMethods != 0 && cat.classMethods == 0 ==> |of| == 1)
      && (c != 0 && cat.instanceMethods == 0 && cat.classMethods == 0 ==> of == [])
      && (c != 0 && c in isaOf && cat.instanceMethods == 0 && cat.classMethods != 0 ==>
            of == [Attachment(isaOf[c], cat.classMethods)])
      && (c != 0 && c in isaOf && cat.instanceMethods != 0 && cat.classMethods != 0 ==>
            of == [Attachment(c, cat.instanceMethods), Attachment(isaOf[c], cat.classMethods)])
  {
    NamedIsClass(classes, nameOf, cat.className);
  }
}
