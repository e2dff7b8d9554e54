/**
 ns_objc_init and the lookups after it, end to end (runtime/nextstep/ns_objc.c): from the classes,
 categories and message references as loaded, through the three linking loops, to the method a
 message finds. The result is stated in names and in the program as loaded only.
 */
module ObjcProgram {
  import opened Words
  import opened Selectors
  import opened ObjcLinking
  import opened ObjcLookup

  /** The class words of a program as loaded. */
  datatype Classes = Classes(
    list: seq<u32>,
    nameOf: Strings,
    strings: Strings,
    superOf: Links,
    isaOf: Links)

  predicate Good(p: Classes) {
    Loaded(p.list, p.nameOf, p.strings, p.superOf, p.isaOf)
  }

  /** The class that c's superclass word names, or 0. */
  function SuperOf(p: Classes, c: u32): u32
    requires Good(p) && c in p.list
  {
    IsLoaded(p, c);
    Sup(p.list, p.nameOf, p.strings, p.superOf[c])
  }

  lemma IsLoaded(p: Classes, c: u32)
    requires Good(p) && c in p.list
    ensures c != 0 && c in p.superOf && (p.superOf[c] == 0 || p.superOf[c] in p.strings)
    ensures c in p.isaOf && p.isaOf[c] != 0 && p.isaOf[c] !in p.list
  {
    var i :| 0 <= i < |p.list| && p.list[i] == c;
  }

  lemma SuperIsClass(p: Classes, c: u32)
    requires Good(p) && c in p.list
    ensures SuperOf(p, c) == 0 || SuperOf(p, c) in p.list
  {
    IsLoaded(p, c);
    if p.superOf[c] != 0 {
      NamedIsClass(p.list, p.nameOf, p.strings[p.superOf[c]]);
    }
  }

  /** No class is its own ancestor: a superclass has the lower rank. */
  predicate Acyclic(p: Classes, rank: map<u32, nat>)
    requires Good(p)
  {
    forall c :: c in p.list ==>
                  c in rank && (SuperOf(p, c) in p.list ==> SuperOf(p, c) in rank && rank[SuperOf(p, c)] < rank[c])
  }

  /** A class and its ancestors, by the names of their superclasses. */
  function Ancestors(p: Classes, rank: map<u32, nat>, c: u32): (s: seq<u32>)
    requires Good(p) && Acyclic(p, rank) && c in p.list
    ensures s != [] && s[0] == c && forall i :: 0 <= i < |s| ==> s[i] in p.list
    decreases rank[c]
  {
    SuperIsClass(p, c);
    if SuperOf(p, c) == 0 then [c] else [c] + Ancestors(p, rank, SuperOf(p, c))
  }

  /** A metaclass's line: the metaclasses of its class's ancestors, and then the root class. */
  function MetaAncestors(p: Classes, rank: map<u32, nat>, c: u32): (s: seq<u32>)
    requires Good(p) && Acyclic(p, rank) && c in p.list
  {
    var s := Ancestors(p, rank, c);
    InIsa(p, s);
    Metas(s, p.isaOf) + [s[|s| - 1]]
  }

  lemma InIsa(p: Classes, s: seq<u32>)
    requires Good(p) && forall i :: 0 <= i < |s| ==> s[i] in p.list
    ensures forall i :: 0 <= i < |s| ==> s[i] in p.isaOf
  {
    forall i | 0 <= i < |s|
      ensures s[i] in p.isaOf
    {
      IsLoaded(p, s[i]);
    }
  }

  /** Where a search of each class and metaclass leads: the lines of the first n classes. */
  function Chains(p: Classes, rank: map<u32, nat>, n: nat): ListMap
    requires Good(p) && Acyclic(p, rank) && n <= |p.list|
  {
    if n == 0 then map[]
    else
      var c := p.list[n - 1];
      IsLoaded(p, c);
      Chains(p, rank, n - 1)[c := Ancestors(p, rank, c)][p.isaOf[c] := MetaAncestors(p, rank, c)]
  }

  /** The class that is this one or has this one as its metaclass. */
  predicate Owns(p: Classes, i: nat, x: u32)
    requires Good(p)
  {
    i < |p.list| && p.list[i] in p.isaOf && (x == p.list[i] || x == p.isaOf[p.list[i]])
  }

  function Lineage(p: Classes, rank: map<u32, nat>, i: nat, x: u32): seq<u32>
    requires Good(p) && Acyclic(p, rank) && Owns(p, i, x)
  {
    if x == p.list[i] then Ancestors(p, rank, x) else MetaAncestors(p, rank, p.list[i])
  }

  lemma {:induction false} ChainsAre(p: Classes, rank: map<u32, nat>, n: nat, x: u32)
    requires Good(p) && Acyclic(p, rank) && n <= |p.list|
    ensures x in Chains(p, rank, n) ==> exists i :: 0 <= i < n && Owns(p, i, x)
    ensures forall i :: 0 <= i < n && Owns(p, i, x) ==>
                          x in Chains(p, rank, n) && Chains(p, rank, n)[x] == Lineage(p, rank, i, x)
  {
    hide Ancestors, MetaAncestors, Acyclic;
    if n > 0 {
      ChainsAre(p, rank, n - 1, x);
      IsLoaded(p, p.list[n - 1]);
      assert x == p.list[n - 1] || x == p.isaOf[p.list[n - 1]] ==> Owns(p, n - 1, x);
      forall i | 0 <= i < n - 1 && Owns(p, i, x)
        ensures x != p.list[n - 1] && x != p.isaOf[p.list[n - 1]]
      {
        OneOwner(p, i, n - 1, x);
      }
    }
  }

  lemma OneOwner(p: Classes, i: nat, j: nat, x: u32)
    requires Good(p) && i < j < |p.list| && Owns(p, i, x)
    ensures !Owns(p, j, x)
  {
    assert p.list[i] in p.list && p.list[j] in p.list;
  }

  // ---- what linking leaves ----

  /** The superclass words after the class loop. */
  predicate SupersLinked(p: Classes, superOf: Links, isaOf: Links)
    requires Good(p)
  {
    forall c :: c in p.list ==>
                  && MetaStep(c, superOf, isaOf) && superOf[c] == SuperOf(p, c)
                  && c in p.isaOf && isaOf[c] == p.isaOf[c]
  }

  lemma {:induction false} AncestorsLinked(p: Classes, rank: map<u32, nat>, superOf: Links, isaOf: Links, c: u32)
    requires Good(p) && Acyclic(p, rank) && SupersLinked(p, superOf, isaOf) && c in p.list
    ensures Linked(superOf, c, Ancestors(p, rank, c))
    decreases rank[c]
  {
    hide MetaStep, Good, Acyclic;
    IsLoaded(p, c);
    SuperIsClass(p, c);
    InSupers(p, superOf, isaOf, c);
    if SuperOf(p, c) == 0 {
      assert Ancestors(p, rank, c)[1..] == [];
    } else {
      LowerRank(p, rank, c);
      AncestorsLinked(p, rank, superOf, isaOf, SuperOf(p, c));
      assert Ancestors(p, rank, c)[1..] == Ancestors(p, rank, SuperOf(p, c));
    }
  }

  lemma LowerRank(p: Classes, rank: map<u32, nat>, c: u32)
    requires Good(p) && Acyclic(p, rank) && c in p.list && SuperOf(p, c) in p.list
    ensures c in rank && SuperOf(p, c) in rank && rank[SuperOf(p, c)] < rank[c]
  {
  }

  lemma InSupers(p: Classes, superOf: Links, isaOf: Links, c: u32)
    requires Good(p) && SupersLinked(p, superOf, isaOf) && c in p.list
    ensures c in superOf && superOf[c] == SuperOf(p, c)
  {
    assert MetaStep(c, superOf, isaOf);
  }

  /** Every line is what following the superclass words gives. */
  lemma LinesLinked(p: Classes, rank: map<u32, nat>, superOf: Links, isaOf: Links, i: nat, x: u32)
    requires Good(p) && Acyclic(p, rank) && SupersLinked(p, superOf, isaOf) && Owns(p, i, x)
    ensures x != 0 && Linked(superOf, x, Lineage(p, rank, i, x))
  {
    var c := p.list[i];
    assert c in p.list;
    IsLoaded(p, c);
    AncestorsLinked(p, rank, superOf, isaOf, c);
    if x != c {
      var s := Ancestors(p, rank, c);
      InIsa(p, s);
      forall k | 0 <= k < |s|
        ensures s[k] in isaOf && MetaStep(s[k], superOf, isaOf) && isaOf[s[k]] == p.isaOf[s[k]]
      {
        assert MetaStep(s[k], superOf, isaOf);
      }
      hide SupersLinked, MetaStep, Good, Acyclic, Ancestors, Linked;
      MetaChain(superOf, isaOf, c, s);
      SameMetas(s, isaOf, p.isaOf);
    }
  }

  lemma {:induction false} SameMetas(s: seq<u32>, a: Links, b: Links)
    requires forall i :: 0 <= i < |s| ==> s[i] in a && s[i] in b && a[s[i]] == b[s[i]]
    ensures Metas(s, a) == Metas(s, b)
    decreases |s|
  {
    if s != [] {
      SameMetas(s[1..], a, b);
    }
  }

  lemma {:induction false} MetasMembers(s: seq<u32>, isaOf: Links, x: u32)
    requires forall i :: 0 <= i < |s| ==> s[i] in isaOf
    requires x in Metas(s, isaOf)
    ensures exists i :: 0 <= i < |s| && x == isaOf[s[i]]
    decreases |s|
  {
    if x != isaOf[s[0]] {
      MetasMembers(s[1..], isaOf, x);
      var i :| 0 <= i < |s[1..]| && x == isaOf[s[1..][i]];
      assert x == isaOf[s[i + 1]];
    }
  }

  /** A line consists of classes and metaclasses of the program. */
  lemma LineMembers(p: Classes, rank: map<u32, nat>, i: nat, x: u32, y: u32)
    requires Good(p) && Acyclic(p, rank) && Owns(p, i, x) && y in Lineage(p, rank, i, x)
    ensures exists c :: c in p.list && c in p.isaOf && (y == c || y == p.isaOf[c])
  {
    var c := p.list[i];
    assert c in p.list;
    var s := Ancestors(p, rank, c);
    InIsa(p, s);
    if y !in s {
      MetasMembers(s, p.isaOf, y);
      var k :| 0 <= k < |s| && y == p.isaOf[s[k]];
      assert s[k] in p.list;
    } else {
      assert y in p.list && y in p.isaOf;
    }
  }

  /** The attachments do not depend on whether the classes are linked yet. */
  lemma {:induction false} AttachmentsKeep(cats: seq<Category>, classes: seq<u32>, nameOf: Strings, isa0: Links,
                                           isa1: Links)
    requires forall i :: 0 <= i < |classes| ==> classes[i] in nameOf && classes[i] in isa0 && classes[i] in isa1
    requires forall i :: 0 <= i < |classes| ==> isa1[classes[i]] == isa0[classes[i]]
    ensures Attachments(cats, classes, nameOf, isa0) == Attachments(cats, classes, nameOf, isa1)
    decreases |cats|
  {
    if cats != [] {
      AttachmentsKeep(cats[..|cats| - 1], classes, nameOf, isa0, isa1);
      NamedIsClass(classes, nameOf, cats[|cats| - 1].className);
    }
  }

  /** What is on a target once all is attached: what was there, and what was attached to it. */
  lemma {:induction false} AttachedMembers(ats: seq<Attachment>, target: u32, before: seq<u32>, l: u32)
    ensures l in Attached(ats, target, before) <==> l in before || Attachment(target, l) in ats
    decreases |ats|
  {
    if ats != [] {
      var n := |ats| - 1;
      AttachedMembers(ats[..n], target, before, l);
      assert ats == ats[..n] + [ats[n]];
    }
  }

  /** The method lists as loaded: those of every class and metaclass end, hold methods, and share none
      with what the categories attach. */
  predicate GoodLists(p: Classes, cats: seq<Category>, methodsOf: Links, nextOf: Links, entries: Entries,
                      lists: ListMap)
    requires Good(p)
  {
    && (forall i :: 0 <= i < |p.list| ==>
          p.list[i] in lists && p.isaOf[p.list[i]] in lists)
    && (forall t :: t in lists ==> t in methodsOf && Linked(nextOf, methodsOf[t], lists[t]))
    && (forall t, l :: t in lists && l in lists[t] ==> l in entries)
    && Separate(Attachments(cats, p.list, p.nameOf, p.isaOf), lists)
    && forall a :: a in Attachments(cats, p.list, p.nameOf, p.isaOf) ==> a.list in entries
  }

  /** The lists of every target once the categories are linked. */
  function ListsAfter(ats: seq<Attachment>, lists: ListMap): ListMap {
    map t | t in lists :: Attached(ats, t, lists[t])
  }

  lemma ListsInEntries(ats: seq<Attachment>, lists: ListMap, entries: Entries)
    requires forall t, l :: t in lists && l in lists[t] ==> l in entries
    requires forall a :: a in ats ==> a.list in entries
    ensures forall t, l :: t in lists && l in ListsAfter(ats, lists)[t] ==> l in entries
  {
    forall t, l | t in lists && l in ListsAfter(ats, lists)[t]
      ensures l in entries
    {
      AttachedMembers(ats, t, lists[t], l);
    }
  }

  // ---- lookups in the linked program ----

  /** The program as loaded, and everything a lookup's answer is stated in. */
  datatype Loading = Loading(
    p: Classes,
    rank: map<u32, nat>,
    cats: seq<Category>,
    lists: ListMap,
    entries: Entries)

  /** The lists after linking. */
  function Lists(q: Loading): ListMap
    requires Good(q.p)
  {
    ListsAfter(Attachments(q.cats, q.p.list, q.p.nameOf, q.p.isaOf), q.lists)
  }

  /** Every class and metaclass has a line of classes that have lists. */
  ghost predicate Complete(q: Loading) {
    && Good(q.p) && Acyclic(q.p, q.rank)
    && forall i, x :: Owns(q.p, i, x) ==> OnLists(Lineage(q.p, q.rank, i, x), Lists(q), q.entries)
  }

  predicate OnLists(cs: seq<u32>, lists: ListMap, entries: Entries) {
    forall k :: 0 <= k < |cs| ==> HasLists(cs[k], lists, entries)
  }

  /** The methods a message to x is looked up among, as they were loaded: along the superclasses named,
      in each class the categories' lists first. */
  ghost function Among(q: Loading, i: nat, x: u32): seq<Method>
    requires Complete(q) && Owns(q.p, i, x)
  {
    OfClasses(Lineage(q.p, q.rank, i, x), Lists(q), q.entries)
  }

  /** Every method of every class and metaclass is done. */
  ghost predicate EveryDone(q: Loading, done: set<u32>)
    requires Complete(q)
  {
    forall i, x :: Owns(q.p, i, x) ==> LineDone(Lineage(q.p, q.rank, i, x), Lists(q), done)
  }

  predicate LineDone(cs: seq<u32>, lists: ListMap, done: set<u32>) {
    forall k :: 0 <= k < |cs| ==> cs[k] in lists && Elements(lists[cs[k]]) <= done
  }

  class Runtime {
    const image: Image
    const lookup: Lookup
    ghost const q: Loading
    ghost const done: set<u32>

    ghost predicate Valid()
      reads this, image, image.table, image.table.slots, lookup, lookup.lines
    {
      && lookup.image == image && lookup.Valid() && image.table.Valid()
      && 0 !in image.table.strings && q.p.strings == image.table.strings
      && Complete(q) && EveryDone(q, done)
      && lookup.chains == Chains(q.p, q.rank, |q.p.list|) && lookup.lists == Lists(q)
      && Progress(q.entries, image.entries, done, image.table.interned, image.table.strings)
    }

    constructor (image: Image, lookup: Lookup, ghost q: Loading, ghost done: set<u32>)
      ensures this.image == image && this.lookup == lookup && this.q == q && this.done == done
    {
      this.image, this.lookup, this.q, this.done := image, lookup, q, done;
    }

    /** A message with a linked selector: whatever was looked up before, the method found is the first of
        the selector's name among the methods as loaded. */
    method Message(cls: u32, sel: u32, ghost i: nat) returns (imp: u32)
      requires Valid() && Owns(q.p, i, cls)
      requires sel != 0 && CanonicalSel(sel, image.table.interned, image.table.strings)
      modifies lookup.lines
      ensures Valid()
      ensures imp == NamedImp(Among(q, i, cls), image.table.strings[sel], image.table.strings)
    {
      hide Progress, Good, Acyclic, Lineage, Chains, OfClasses, Lists, OnLists, LineDone, CanonicalSel, NamedImp, Owns;
      ItsLine(q, i, cls);
      ShapeLists(image.superOf, image.methodsOf, image.nextOf, image.entries, lookup.chains, lookup.lists, cls);
      hide Shape;
      imp := lookup.Find(cls, sel);
      ByName(q, i, cls, image.entries, done, sel, image.table.interned);
    }

    /** The lookup of ns_send: by name, with the address of a copy in case the name is new. */
    method SendNamed(cls: u32, name: Name, copy: u32, ghost i: nat) returns (imp: u32)
      requires Valid() && Owns(q.p, i, cls)
      requires copy in image.table.strings && image.table.strings[copy] == name
      requires name in image.table.interned || |image.table.interned| < SLOTS
      modifies lookup.lines, image.table`interned, image.table.slots
      ensures Valid()
      ensures imp == NamedImp(Among(q, i, cls), name, image.table.strings)
    {
      hide Progress, Good, Acyclic, Lineage, Chains, OfClasses, Lists, OnLists, LineDone, NamedImp, Owns;
      hide Shape, Complete, EveryDone;
      ghost var before := image.table.interned;
      var sel := image.table.Sel(name, copy);
      assert Grows(before, image.table.interned);
      ProgressGrows(q.entries, image.entries, done, before, image.table.interned, image.table.strings);
      imp := Message(cls, sel, i);
    }
  }

  /** ns_objc_init. What is needed of the program as loaded: superclass names without a ring, lists that
      end and are shared by nobody, and no more selector names than the table holds. */
  method Init(image: Image, cats: seq<Category>, ghost q: Loading, ghost all: set<Name>) returns (r: Runtime)
    requires image.classes == q.p.list && image.nameOf == q.p.nameOf && image.table.strings == q.p.strings
    requires image.superOf == q.p.superOf && image.isaOf == q.p.isaOf && image.entries == q.entries && cats == q.cats
    requires Good(q.p) && Acyclic(q.p, q.rank)
    requires GoodLists(q.p, cats, image.methodsOf, image.nextOf, q.entries, q.lists)
    requires image.table.Valid() && 0 !in image.table.strings && Room(image.table.interned, all)
    requires AllNamed(image.entries, image.table.strings, all)
    requires forall i :: 0 <= i < |image.refs| ==>
                           || image.refs[i] == 0
                           || (image.refs[i] in image.table.strings && image.table.strings[image.refs[i]] in all)
    modifies image, image.table`interned, image.table.slots
    ensures r.Valid() && r.image == image && r.q == q && fresh(r) && fresh(r.lookup) && fresh(r.lookup.lines)
    ensures Room(image.table.interned, all) && Grows(old(image.table.interned), image.table.interned)
    ensures |image.refs| == |old(image.refs)|
    ensures forall i :: 0 <= i < |image.refs| ==>
                          SameRef(old(image.refs)[i], image.refs[i], image.table.interned, image.table.strings)
  {
    hide Acyclic, Separate, Progress, Linked, Room, AllNamed, Covers, SupersLinked, Shape, Lists, Attached;
    hide Attachments, Grows, EveryDone, Chains, SameRef;
    LinkShape(image, cats, q);
    ghost var entries := image.entries;
    ghost var done := image.LinkSelectors(Lists(q), all);
    ProgressKeys(entries, image.entries, done, image.table.interned, image.table.strings);
    ShapeAfter(q, image.superOf, image.isaOf, image.methodsOf, image.nextOf, image.entries);
    DoneAfter(q, done, image.isaOf);
    var lookup := new Lookup(image, Chains(q.p, q.rank, |q.p.list|), Lists(q));
    r := new Runtime(image, lookup, q, done);
  }

  /** The class loop and the category loop. */
  method LinkShape(image: Image, cats: seq<Category>, ghost q: Loading)
    requires image.classes == q.p.list && image.nameOf == q.p.nameOf && image.table.strings == q.p.strings
    requires image.superOf == q.p.superOf && image.isaOf == q.p.isaOf && image.entries == q.entries && cats == q.cats
    requires Good(q.p) && Acyclic(q.p, q.rank)
    requires GoodLists(q.p, cats, image.methodsOf, image.nextOf, q.entries, q.lists)
    modifies image`superOf, image`isaOf, image`methodsOf, image`nextOf
    ensures Complete(q) && SupersLinked(q.p, image.superOf, image.isaOf)
    ensures forall i :: 0 <= i < |q.p.list| ==>
                          q.p.list[i] in image.isaOf && image.isaOf[q.p.list[i]] == q.p.isaOf[q.p.list[i]]
    ensures forall i :: 0 <= i < |q.p.list| ==> q.p.list[i] in Lists(q) && q.p.isaOf[q.p.list[i]] in Lists(q)
    ensures forall i :: 0 <= i < |q.p.list| ==> q.p.list[i] in q.lists && q.p.isaOf[q.p.list[i]] in q.lists
    ensures forall t :: t in Lists(q) ==> t in image.methodsOf && Linked(image.nextOf, image.methodsOf[t], Lists(q)[t])
    ensures forall t, l :: t in Lists(q) && l in Lists(q)[t] ==> l in q.entries
  {
    hide Acyclic, Separate, Linked, MetaStep, SupersLinked, Attached, Attachments;
    image.LinkClasses();
    Supers(q.p, image, image.superOf, image.isaOf);
    AttachmentsKeep(cats, image.classes, image.nameOf, q.p.isaOf, image.isaOf);
    image.LinkCategories(cats, q.lists);
    ListsInEntries(Attachments(cats, q.p.list, q.p.nameOf, q.p.isaOf), q.lists, q.entries);
    OnLinkedTargets(image, q);
    LinesOnLists(q);
  }

  lemma ProgressKeys(e0: Entries, entries: Entries, done: set<u32>, interned: map<Name, u32>,
                     strings: Strings)
    requires Progress(e0, entries, done, interned, strings)
    ensures entries.Keys == e0.Keys
  {
  }

  lemma OnLinkedTargets(image: Image, q: Loading)
    requires Good(q.p) && image.OnTargets(Attachments(q.cats, q.p.list, q.p.nameOf, q.p.isaOf), q.lists)
    ensures forall t :: t in Lists(q) ==> t in image.methodsOf && Linked(image.nextOf, image.methodsOf[t], Lists(q)[t])
  {
    hide Linked, Attached;
  }

  lemma Supers(p: Classes, image: Image, superOf: Links, isaOf: Links)
    requires Good(p) && image.classes == p.list && image.nameOf == p.nameOf && image.table.strings == p.strings
    requires forall i :: 0 <= i < |p.list| ==> image.Linked1(i, p.superOf, p.isaOf, superOf, isaOf)
    ensures SupersLinked(p, superOf, isaOf)
    ensures forall i :: 0 <= i < |p.list| ==> p.list[i] in isaOf && isaOf[p.list[i]] == p.isaOf[p.list[i]]
  {
    forall i | 0 <= i < |p.list|
      ensures MetaStep(p.list[i], superOf, isaOf) && p.list[i] in superOf && p.list[i] in isaOf
      ensures superOf[p.list[i]] == SuperOf(p, p.list[i]) && isaOf[p.list[i]] == p.isaOf[p.list[i]]
    {
      assert image.Linked1(i, p.superOf, p.isaOf, superOf, isaOf);
    }
  }

  /** Every line's classes have lists whose methods were loaded. */
  lemma LinesOnLists(q: Loading)
    requires Good(q.p) && Acyclic(q.p, q.rank)
    requires forall i :: 0 <= i < |q.p.list| ==> q.p.list[i] in q.lists && q.p.isaOf[q.p.list[i]] in q.lists
    requires forall t, l :: t in q.lists && l in Lists(q)[t] ==> l in q.entries
    ensures Complete(q)
  {
    hide Acyclic, Lineage, Owns, Lists;
    forall i, x | Owns(q.p, i, x)
      ensures OnLists(Lineage(q.p, q.rank, i, x), Lists(q), q.entries)
    {
      var cs := Lineage(q.p, q.rank, i, x);
      forall k | 0 <= k < |cs|
        ensures HasLists(cs[k], Lists(q), q.entries)
      {
        InList(q, i, x, cs[k]);
      }
    }
  }

  lemma InList(q: Loading, i: nat, x: u32, y: u32)
    requires Good(q.p) && Acyclic(q.p, q.rank) && Owns(q.p, i, x) && y in Lineage(q.p, q.rank, i, x)
    requires forall i :: 0 <= i < |q.p.list| ==> q.p.list[i] in q.lists && q.p.isaOf[q.p.list[i]] in q.lists
    ensures y in q.lists && y in Lists(q)
    ensures exists j :: 0 <= j < |q.p.list| && q.p.list[j] in q.p.isaOf
                        && (y == q.p.list[j] || y == q.p.isaOf[q.p.list[j]])
  {
    hide Good, Acyclic, Lineage;
    LineMembers(q.p, q.rank, i, x, y);
    var c :| c in q.p.list && c in q.p.isaOf && (y == c || y == q.p.isaOf[c]);
    var j :| 0 <= j < |q.p.list| && q.p.list[j] == c;
  }

  lemma ShapeAfter(q: Loading, superOf: Links, isaOf: Links, methodsOf: Links, nextOf: Links,
                   entries: Entries)
    requires Complete(q) && SupersLinked(q.p, superOf, isaOf) && entries.Keys == q.entries.Keys
    requires forall t :: t in Lists(q) ==> t in methodsOf && Linked(nextOf, methodsOf[t], Lists(q)[t])
    ensures Shape(superOf, methodsOf, nextOf, entries, Chains(q.p, q.rank, |q.p.list|), Lists(q))
  {
    hide Good, Acyclic, Lineage, Owns, Lists, SupersLinked, Linked, Chains;
    var chains := Chains(q.p, q.rank, |q.p.list|);
    forall x | x in chains
      ensures x != 0 && Linked(superOf, x, chains[x])
      ensures OnLists(chains[x], Lists(q), entries)
    {
      ChainsAre(q.p, q.rank, |q.p.list|, x);
      var i :| 0 <= i < |q.p.list| && Owns(q.p, i, x);
      LinesLinked(q.p, q.rank, superOf, isaOf, i, x);
      assert OnLists(Lineage(q.p, q.rank, i, x), Lists(q), q.entries);
    }
  }

  lemma DoneAfter(q: Loading, done: set<u32>, isaOf: Links)
    requires Complete(q) && Covers(done, q.p.list, isaOf, Lists(q))
    requires forall i :: 0 <= i < |q.p.list| ==> q.p.list[i] in q.lists && q.p.isaOf[q.p.list[i]] in q.lists
    requires forall i :: 0 <= i < |q.p.list| ==> q.p.list[i] in isaOf && isaOf[q.p.list[i]] == q.p.isaOf[q.p.list[i]]
    ensures EveryDone(q, done)
  {
    hide Acyclic, Lineage, Owns, Lists, Elements;
    forall i, x | Owns(q.p, i, x)
      ensures LineDone(Lineage(q.p, q.rank, i, x), Lists(q), done)
    {
      var cs := Lineage(q.p, q.rank, i, x);
      forall k | 0 <= k < |cs|
        ensures cs[k] in Lists(q) && Elements(Lists(q)[cs[k]]) <= done
      {
        InList(q, i, x, cs[k]);
      }
    }
  }

  lemma ItsLine(q: Loading, i: nat, x: u32)
    requires Good(q.p) && Acyclic(q.p, q.rank) && Owns(q.p, i, x)
    ensures x != 0 && x in Chains(q.p, q.rank, |q.p.list|)
    ensures Chains(q.p, q.rank, |q.p.list|)[x] == Lineage(q.p, q.rank, i, x)
  {
    ChainsAre(q.p, q.rank, |q.p.list|, x);
    assert q.p.list[i] in q.p.list;
    IsLoaded(q.p, q.p.list[i]);
  }

  lemma ShapeLists(superOf: Links, methodsOf: Links, nextOf: Links, entries: Entries,
                   chains: ListMap, lists: ListMap, x: u32)
    requires Shape(superOf, methodsOf, nextOf, entries, chains, lists) && x in chains
    ensures OnLists(chains[x], lists, entries)
  {
  }

  lemma ByName(q: Loading, i: nat, x: u32, entries: Entries, done: set<u32>, sel: u32, interned: map<Name, u32>)
    requires Complete(q) && EveryDone(q, done) && Owns(q.p, i, x) && 0 !in q.p.strings
    requires OnLists(Lineage(q.p, q.rank, i, x), Lists(q), entries)
    requires Progress(q.entries, entries, done, interned, q.p.strings)
    requires sel != 0 && CanonicalSel(sel, interned, q.p.strings)
    ensures ImpOf(OfClasses(Lineage(q.p, q.rank, i, x), Lists(q), entries), sel)
         == NamedImp(Among(q, i, x), q.p.strings[sel], q.p.strings)
  {
    hide Progress, Good, Acyclic, Lineage, Chains, OfClasses, Lists, CanonicalSel, NamedImp, ImpOf, Owns;
    var cs := Lineage(q.p, q.rank, i, x);
    assert OnLists(cs, Lists(q), q.entries) && LineDone(cs, Lists(q), done);
    SearchIsByName(cs, Lists(q), q.entries, entries, done, sel, interned, q.p.strings);
  }

  // ---- what linking a category drops ----

  /** A category's list may itself lead to further lists. Linking overwrites its `next` word, so those
      are on the target afterwards only if they were there before or are attached to it in their own
      right; when they are the category's alone, all of its lists are on the target exactly when the
      first one was the only one. */
  lemma {:induction false} TailsKept(next0: Links, l: u32, cl: seq<u32>, ats: seq<Attachment>, t: u32, before: seq<u32>)
    requires l != 0 && Linked(next0, l, cl) && Attachment(t, l) in ats
    ensures (forall x :: x in cl ==> x in Attached(ats, t, before))
       <==> forall x :: x in cl[1..] ==> x in before || Attachment(t, x) in ats
    ensures (forall x :: x in cl[1..] ==> x !in before && Attachment(t, x) !in ats) ==>
              ((forall x :: x in cl ==> x in Attached(ats, t, before)) <==> next0[l] == 0)
  {
    forall x
      ensures x in Attached(ats, t, before) <==> x in before || Attachment(t, x) in ats
    {
      AttachedMembers(ats, t, before, x);
    }
    assert cl[0] == l && forall x :: x in cl <==> x == l || x in cl[1..];
    if next0[l] == 0 {
      assert cl[1..] == [];
    } else {
      assert cl[1..] != [] && cl[1] in cl[1..] && cl[1] in cl;
    }
  }

  /** A program that loses a method: a category whose list leads to a second one, which holds it. */
  lemma MethodLost(c: u32, l: u32, tail: u32, sel: u32, next: Links, entries: Entries)
    requires l != 0 && tail != 0 && l != tail
    requires next == map[l := tail, tail := 0] && entries == map[l := [], tail := [Method(sel, 1)]]
    ensures Linked(next, l, [l, tail]) && ImpOf(OfLists([l, tail], entries), sel) == 1
    ensures Attached([Attachment(c, l)], c, []) == [l] && ImpOf(OfLists([l], entries), sel) == 0
  {
    assert [l, tail][1..] == [tail] && [tail][1..] == [] && [l][1..] == [];
    assert Linked(next, tail, [tail]);
    assert [Attachment(c, l)][..0] == [];
    assert Attached([], c, []) == [];
    assert OfLists([tail], entries) == [Method(sel, 1)];
    assert OfLists([l, tail], entries) == [Method(sel, 1)];
    assert OfLists([l], entries) == [];
  }
}
