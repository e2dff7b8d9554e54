/**
 Method lookup (lookup in runtime/nextstep/ns_objc.c): along the superclass chain, through each
 class's method lists in order, behind a direct-mapped cache that is never emptied.
 */
module ObjcLookup {
  import opened Words
  import opened Selectors
  import opened ObjcLinking

  const LINES := 16384

  datatype Line = Line(cls: u32, sel: u32, imp: u32)

  function LineOf(cls: u32, sel: u32): (h: nat)
    ensures h < LINES
  {
    Xor(Shr(cls, 3), (sel * 2654435761) % 0x1_0000_0000) % LINES
  }

  // ---- what a lookup is to find ----

  /** The methods of some lists, in order. */
  function OfLists(ls: seq<u32>, entries: Entries): seq<Method>
    requires forall i :: 0 <= i < |ls| ==> ls[i] in entries
  {
    if ls == [] then [] else entries[ls[0]] + OfLists(ls[1..], entries)
  }

  /** The methods of some classes, in order. */
  function OfClasses(cs: seq<u32>, lists: ListMap, entries: Entries): seq<Method>
    requires forall i :: 0 <= i < |cs| ==> HasLists(cs[i], lists, entries)
  {
    if cs == [] then []
    else
      assert HasLists(cs[0], lists, entries);
      OfLists(lists[cs[0]], entries) + OfClasses(cs[1..], lists, entries)
  }

  predicate HasLists(c: u32, lists: ListMap, entries: Entries) {
    c in lists && forall i :: 0 <= i < |lists[c]| ==> lists[c][i] in entries
  }

  /** The first method with this selector, or their number. */
  function First(ms: seq<Method>, sel: u32): (i: nat)
    ensures i <= |ms|
    ensures i < |ms| ==> ms[i].sel == sel
    ensures forall j :: 0 <= j < i ==> ms[j].sel != sel
  {
    if ms == [] || ms[0].sel == sel then 0 else 1 + First(ms[1..], sel)
  }

  /** Its implementation, or 0. */
  function ImpOf(ms: seq<Method>, sel: u32): u32 {
    var i := First(ms, sel);
    if i < |ms| then ms[i].imp else 0
  }

  lemma {:induction false} FirstConcat(a: seq<Method>, b: seq<Method>, sel: u32)
    ensures First(a + b, sel) == if First(a, sel) < |a| then First(a, sel) else |a| + First(b, sel)
    decreases |a|
  {
    if a == [] {
      assert a + b == b;
    } else if a[0].sel != sel {
      assert (a + b)[1..] == a[1..] + b;
      FirstConcat(a[1..], b, sel);
    }
  }

  /** The shape lookup relies on: where the chains lead, and through which lists. */
  ghost predicate Shape(superOf: Links, methodsOf: Links, nextOf: Links, entries: Entries,
                        chains: ListMap, lists: ListMap) {
    && (forall c :: c in chains ==> c != 0 && Linked(superOf, c, chains[c]))
    && (forall c, i :: c in chains && 0 <= i < |chains[c]| ==> HasLists(chains[c][i], lists, entries))
    && (forall t :: t in lists ==> t in methodsOf && Linked(nextOf, methodsOf[t], lists[t]))
  }

  class Lookup {
    const image: Image
    const lines: array<Line>
    ghost const chains: ListMap
    ghost const lists: ListMap

    ghost predicate Valid()
      reads this, image, lines
    {
      && lines.Length == LINES
      && Shape(image.superOf, image.methodsOf, image.nextOf, image.entries, chains, lists)
      && forall h :: 0 <= h < LINES ==> Right(lines[h])
    }

    /** A cache line says what a search would. */
    ghost predicate Right(l: Line)
      reads this, image
      requires Shape(image.superOf, image.methodsOf, image.nextOf, image.entries, chains, lists)
    {
      (l.cls == 0 || l.cls in chains) && l.imp == Answer(l.cls, l.sel)
    }

    /** What a search of the class finds. */
    ghost function Answer(cls: u32, sel: u32): u32
      reads this, image
      requires Shape(image.superOf, image.methodsOf, image.nextOf, image.entries, chains, lists)
      requires cls == 0 || cls in chains
    {
      if cls == 0 then 0 else ImpOf(OfClasses(chains[cls], lists, image.entries), sel)
    }

    constructor (image: Image, ghost chains: ListMap, ghost lists: ListMap)
      requires Shape(image.superOf, image.methodsOf, image.nextOf, image.entries, chains, lists)
      ensures Valid() && this.image == image && this.chains == chains && this.lists == lists && fresh(lines)
      ensures lines.Length == 16384
    {
      this.image, this.chains, this.lists := image, chains, lists;
      lines := new Line[LINES](_ => Line(0, 0, 0));
    }

    /** lookup: whatever was looked up before, the answer is that of a search. */
    method Find(cls: u32, sel: u32) returns (imp: u32)
      requires Valid() && (cls == 0 || cls in chains)
      modifies lines
      ensures Valid()
      ensures imp == Answer(cls, sel)
    {
      var h := LineOf(cls, sel);
      if lines[h].cls == cls && lines[h].sel == sel {
        assert Right(lines[h]);
        return lines[h].imp;
      }
      var found;
      found, imp := SearchClasses(cls, sel);
      if found {
        lines[h] := Line(cls, sel, imp);
      }
    }

    method SearchClasses(cls: u32, sel: u32) returns (found: bool, imp: u32)
      requires Valid() && (cls == 0 || cls in chains)
      ensures imp == Answer(cls, sel)
      ensures !found ==> imp == 0
    {
      hide OfLists, OfClasses, ImpOf, First, Right;
      var c := cls;
      NothingFound(sel);
      ghost var cs := if cls == 0 then [] else chains[cls];
      while c != 0
        invariant Linked(image.superOf, c, cs)
        invariant forall i :: 0 <= i < |cs| ==> HasLists(cs[i], lists, image.entries)
        invariant Answer(cls, sel) == ImpOf(OfClasses(cs, lists, image.entries), sel)
        decreases |cs|
      {
        ClassStep(cs, sel);
        found, imp := SearchLists(image.methodsOf[c], sel, lists[c]);
        if found {
          return;
        }
        c := image.superOf[c];
        cs := cs[1..];
      }
      found, imp := false, 0;
    }

    /** A search among no methods finds none. */
    lemma NothingFound(sel: u32)
      ensures OfClasses([], lists, image.entries) == [] && ImpOf([], sel) == 0
    {
    }

    /** The answer along a line is the first class's, or else the rest's. */
    lemma ClassStep(cs: seq<u32>, sel: u32)
      requires cs != [] && forall i :: 0 <= i < |cs| ==> HasLists(cs[i], lists, image.entries)
      ensures HasLists(cs[0], lists, image.entries)
      ensures var own := OfLists(lists[cs[0]], image.entries);
        ImpOf(OfClasses(cs, lists, image.entries), sel) ==
        if First(own, sel) < |own| then ImpOf(own, sel) else ImpOf(OfClasses(cs[1..], lists, image.entries), sel)
    {
      assert HasLists(cs[0], lists, image.entries);
      FirstConcat(OfLists(lists[cs[0]], image.entries), OfClasses(cs[1..], lists, image.entries), sel);
    }

    method SearchLists(ml: u32, sel: u32, ghost ls: seq<u32>) returns (found: bool, imp: u32)
      requires Linked(image.nextOf, ml, ls) && forall i :: 0 <= i < |ls| ==> ls[i] in image.entries
      ensures found <==> First(OfLists(ls, image.entries), sel) < |OfLists(ls, image.entries)|
      ensures imp == ImpOf(OfLists(ls, image.entries), sel)
    {
      var l := ml;
      ghost var left := ls;
      while l != 0
        invariant Linked(image.nextOf, l, left) && forall i :: 0 <= i < |left| ==> left[i] in image.entries
        invariant First(OfLists(ls, image.entries), sel) < |OfLists(ls, image.entries)|
             <==> First(OfLists(left, image.entries), sel) < |OfLists(left, image.entries)|
        invariant ImpOf(OfLists(ls, image.entries), sel) == ImpOf(OfLists(left, image.entries), sel)
        decreases |left|
      {
        FirstConcat(image.entries[l], OfLists(left[1..], image.entries), sel);
        var i := SearchEntries(image.entries[l], sel);
        if i < |image.entries[l]| {
          return true, image.entries[l][i].imp;
        }
        l := image.nextOf[l];
        left := left[1..];
      }
      found, imp := false, 0;
    }
  }

  method SearchEntries(e: seq<Method>, sel: u32) returns (i: nat)
    ensures i == First(e, sel)
  {
    i := 0;
    assert e[0..] == e;
    while i < |e|
      invariant i <= |e| && First(e, sel) == i + First(e[i..], sel)
    {
      if e[i].sel == sel {
        return;
      }
      assert e[i..][1..] == e[i + 1..];
      i := i + 1;
    }
  }

  // ---- lookup is by name ----

  /** The first method of this name, or their number. */
  function FirstNamed(ms: seq<Method>, name: Name, strings: Strings): (i: nat)
    ensures i <= |ms|
    ensures i < |ms| ==> IsNamed(ms[i], name, strings)
    ensures forall j :: 0 <= j < i ==> !IsNamed(ms[j], name, strings)
  {
    if ms == [] || IsNamed(ms[0], name, strings) then 0 else 1 + FirstNamed(ms[1..], name, strings)
  }

  predicate IsNamed(m: Method, name: Name, strings: Strings) {
    m.sel in strings && strings[m.sel] == name
  }

  /** Among canonical methods, the first with a canonical selector is the first of its name among the
      methods as loaded. */
  lemma {:induction false} FirstIsNamed(m0: seq<Method>, ms: seq<Method>, sel: u32, interned: map<Name, u32>,
                                        strings: Strings)
    requires SameNames(m0, ms, strings) && Canonical(ms, interned, strings) && 0 !in strings
    requires sel != 0 && CanonicalSel(sel, interned, strings)
    ensures First(ms, sel) == FirstNamed(m0, strings[sel], strings)
    decreases |ms|
  {
    if ms != [] {
      assert SameMethod(m0[0], ms[0], strings) && CanonicalSel(ms[0].sel, interned, strings);
      var t0, t := m0[1..], ms[1..];
      forall i | 0 <= i < |t|
        ensures SameMethod(t0[i], t[i], strings) && CanonicalSel(t[i].sel, interned, strings)
      {
        assert SameMethod(m0[i + 1], ms[i + 1], strings) && CanonicalSel(ms[i + 1].sel, interned, strings);
      }
      FirstIsNamed(t0, t, sel, interned, strings);
    }
  }

  /** Its implementation, or 0. */
  function NamedImp(ms: seq<Method>, name: Name, strings: Strings): u32 {
    var i := FirstNamed(ms, name, strings);
    if i < |ms| then ms[i].imp else 0
  }

  predicate Matched(m0: seq<Method>, ms: seq<Method>, interned: map<Name, u32>, strings: Strings) {
    SameNames(m0, ms, strings) && Canonical(ms, interned, strings)
  }

  lemma MatchedConcat(a0: seq<Method>, a: seq<Method>, b0: seq<Method>, b: seq<Method>, interned: map<Name, u32>,
                      strings: Strings)
    requires Matched(a0, a, interned, strings) && Matched(b0, b, interned, strings)
    ensures Matched(a0 + b0, a + b, interned, strings)
  {
    forall i | 0 <= i < |a0 + b0|
      ensures SameMethod((a0 + b0)[i], (a + b)[i], strings) && CanonicalSel((a + b)[i].sel, interned, strings)
    {
      if i < |a0| {
        assert SameMethod(a0[i], a[i], strings) && CanonicalSel(a[i].sel, interned, strings);
      } else {
        var j := i - |a0|;
        assert SameMethod(b0[j], b[j], strings) && CanonicalSel(b[j].sel, interned, strings);
      }
    }
  }

  lemma {:induction false} ListsMatched(ls: seq<u32>, e0: Entries, entries: Entries, done: set<u32>,
                                        interned: map<Name, u32>, strings: Strings)
    requires Progress(e0, entries, done, interned, strings)
    requires forall i :: 0 <= i < |ls| ==> ls[i] in e0 && ls[i] in entries && ls[i] in done
    ensures Matched(OfLists(ls, e0), OfLists(ls, entries), interned, strings)
    decreases |ls|
  {
    if ls != [] {
      assert Matched(e0[ls[0]], entries[ls[0]], interned, strings);
      hide Matched, Progress;
      ListsMatched(ls[1..], e0, entries, done, interned, strings);
      MatchedConcat(e0[ls[0]], entries[ls[0]], OfLists(ls[1..], e0), OfLists(ls[1..], entries), interned, strings);
    }
  }

  lemma {:induction false} ClassesMatched(cs: seq<u32>, lists: ListMap, e0: Entries,
                                          entries: Entries, done: set<u32>, interned: map<Name, u32>, strings: Strings)
    requires Progress(e0, entries, done, interned, strings)
    requires forall i :: 0 <= i < |cs| ==> HasLists(cs[i], lists, e0) && HasLists(cs[i], lists, entries)
    requires forall i :: 0 <= i < |cs| ==> cs[i] in lists && Elements(lists[cs[i]]) <= done
    ensures Matched(OfClasses(cs, lists, e0), OfClasses(cs, lists, entries), interned, strings)
    decreases |cs|
  {
    if cs != [] {
      assert HasLists(cs[0], lists, e0) && HasLists(cs[0], lists, entries);
      var ls := lists[cs[0]];
      assert Elements(ls) <= done;
      assert forall i :: 0 <= i < |ls| ==> ls[i] in Elements(ls);
      hide Matched, Progress;
      ListsMatched(ls, e0, entries, done, interned, strings);
      ClassesMatched(cs[1..], lists, e0, entries, done, interned, strings);
      MatchedConcat(OfLists(ls, e0), OfLists(ls, entries),
                    OfClasses(cs[1..], lists, e0), OfClasses(cs[1..], lists, entries), interned, strings);
    }
  }

  /** After linking, a search with a canonical selector finds, along the chain, the first method that was
      loaded under the selector's name. */
  lemma SearchIsByName(cs: seq<u32>, lists: ListMap, e0: Entries, entries: Entries,
                       done: set<u32>, sel: u32, interned: map<Name, u32>, strings: Strings)
    requires Progress(e0, entries, done, interned, strings) && 0 !in strings
    requires forall i :: 0 <= i < |cs| ==> HasLists(cs[i], lists, e0) && HasLists(cs[i], lists, entries)
    requires forall i :: 0 <= i < |cs| ==> cs[i] in lists && Elements(lists[cs[i]]) <= done
    requires sel != 0 && CanonicalSel(sel, interned, strings)
    ensures ImpOf(OfClasses(cs, lists, entries), sel) == NamedImp(OfClasses(cs, lists, e0), strings[sel], strings)
  {
    hide Progress;
    ClassesMatched(cs, lists, e0, entries, done, interned, strings);
    var m0, ms := OfClasses(cs, lists, e0), OfClasses(cs, lists, entries);
    FirstIsNamed(m0, ms, sel, interned, strings);
    var i := First(ms, sel);
    assert i < |ms| ==> SameMethod(m0[i], ms[i], strings);
  }
}
