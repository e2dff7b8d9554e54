/**
 NeXTSTEP selectors (runtime/nextstep/ns_objc.c): an open-addressed table from a name to the address
 of the first string seen with it. A selector is that address, so selectors are compared by address.
 */
module Selectors {
  import opened Words

  type Name = seq<u8>

  const SLOTS := 16384

  /** hash_str */
  function Hash(s: Name): u32 {
    if s == [] then 2166136261
    else (Xor(Hash(s[..|s| - 1]), s[|s| - 1]) * 16777619) % 0x1_0000_0000
  }

  function Home(s: Name): (h: nat)
    ensures h < SLOTS
  {
    Hash(s) % SLOTS
  }

  /** The k-th slot probed from h. */
  function Probe(h: nat, k: nat): (i: nat)
    requires h < SLOTS && k < SLOTS
    ensures i < SLOTS
  {
    if h + k < SLOTS then h + k else h + k - SLOTS
  }

  datatype Slot = Empty | Used(name: Name, va: u32)

  class Table {
    const strings: map<u32, Name>      // the string at each address
    const slots: array<Slot>
    ghost var interned: map<Name, u32>

    ghost predicate Valid()
      reads this, slots
    {
      slots.Length == SLOTS && Sound(slots[..], interned, strings)
    }

    constructor (strings: map<u32, Name>)
      ensures Valid() && interned == map[] && this.strings == strings && fresh(slots) && slots.Length == 16384
    {
      this.strings := strings;
      slots := new Slot[SLOTS](_ => Empty);
      interned := map[];
    }

    /** The probe loop: the slot that holds the name, or the empty one that ends its chain. */
    method Search(name: Name) returns (h: nat)
      requires Valid() && (name in interned || |interned| < SLOTS)
      ensures h < SLOTS
      ensures name in interned ==> slots[h].Used? && slots[h].name == name
      ensures name !in interned ==> slots[h].Empty? && EndsChain(slots[..], name, h)
    {
      hide Home, Hash, Taken, Found, Sound, Findable;
      h := Home(name);
      ghost var k := 0;
      while slots[h].Used? && slots[h].name != name
        invariant k < SLOTS && h == Probe(Home(name), k)
        invariant AllTaken(slots[..], name, k)
        decreases SLOTS - k
      {
        IsTaken(slots[..], name, k);
        MoreToProbe(slots[..], interned, strings, name, k);
        h := (h + 1) % SLOTS;
        k := k + 1;
      }
      if slots[h].Empty? {
        ChainEnds(slots[..], interned, strings, name, k);
      } else {
        UsedIsInterned(slots[..], interned, strings, h);
      }
    }

    /** sel_unique: the address of the first string seen with this name. */
    method Unique(va: u32) returns (r: u32)
      requires Valid() && va in strings && (strings[va] in interned || |interned| < SLOTS)
      modifies this`interned, slots
      ensures Valid()
      ensures interned == Intern(old(interned), strings[va], va)
      ensures r == interned[strings[va]] && r in strings && strings[r] == strings[va]
    {
      hide Sound, EndsChain;
      var name := strings[va];
      var h := Search(name);
      if slots[h].Empty? {
        Enter(slots[..], interned, strings, name, va, h);
        slots[h] := Used(name, va);
        interned := interned[name := va];
      }
      UsedIsInterned(slots[..], interned, strings, h);
      InternedIsString(slots[..], interned, strings, name);
      r := slots[h].va;
    }

    /** ns_sel; `copy` is the address of the copy the host makes of a new name. */
    method Sel(name: Name, copy: u32) returns (r: u32)
      requires Valid() && copy in strings && strings[copy] == name && (name in interned || |interned| < SLOTS)
      modifies this`interned, slots
      ensures Valid()
      ensures interned == Intern(old(interned), name, copy)
      ensures r == interned[name] && r in strings && strings[r] == name
    {
      hide Sound, EndsChain;
      var h := Search(name);
      if slots[h].Used? {
        UsedIsInterned(slots[..], interned, strings, h);
        InternedIsString(slots[..], interned, strings, name);
        return slots[h].va;
      }
      r := Unique(copy);
    }
  }

  /** What interning does: the first address of a name stays. */
  function Intern(m: map<Name, u32>, name: Name, va: u32): map<Name, u32> {
    if name in m then m else m[name := va]
  }

  /** The k-th slot probed for the name holds another. */
  predicate Taken(slots: seq<Slot>, name: Name, k: nat)
    requires |slots| == SLOTS && k < SLOTS
  {
    slots[Probe(Home(name), k)].Used? && slots[Probe(Home(name), k)].name != name
  }

  /** So do the first k. */
  predicate AllTaken(slots: seq<Slot>, name: Name, k: nat)
    requires |slots| == SLOTS && k <= SLOTS
  {
    forall j :: 0 <= j < k ==> Taken(slots, name, j)
  }

  /** The k-th slot probed for the name holds it, and those before hold others. */
  predicate Found(slots: seq<Slot>, name: Name, k: nat)
    requires |slots| == SLOTS && k < SLOTS
  {
    && slots[Probe(Home(name), k)].Used? && slots[Probe(Home(name), k)].name == name
    && AllTaken(slots, name, k)
  }

  /** Every slot probed for the name before h holds another. */
  predicate EndsChain(slots: seq<Slot>, name: Name, h: nat)
    requires |slots| == SLOTS
  {
    exists k :: 0 <= k < SLOTS && h == Probe(Home(name), k) && AllTaken(slots, name, k)
  }

  /** The table holds exactly the interned names, each once and where its probes find it, and an address
      of its own name for each. */
  ghost predicate Sound(slots: seq<Slot>, interned: map<Name, u32>, strings: map<u32, Name>) {
    && |slots| == SLOTS
    && (forall i :: 0 <= i < SLOTS && slots[i].Used? ==>
                      slots[i].name in interned && interned[slots[i].name] == slots[i].va)
    && (forall i, j :: 0 <= i < j < SLOTS && slots[i].Used? && slots[j].Used? ==> slots[i].name != slots[j].name)
    && (forall n :: n in interned ==> interned[n] in strings && strings[interned[n]] == n)
    && (forall n :: n in interned ==> Findable(slots, n))
  }

  predicate Findable(slots: seq<Slot>, name: Name)
    requires |slots| == SLOTS
  {
    exists k :: 0 <= k < SLOTS && Found(slots, name, k)
  }

  lemma IsTaken(slots: seq<Slot>, name: Name, k: nat)
    requires |slots| == SLOTS && k < SLOTS && AllTaken(slots, name, k)
    requires slots[Probe(Home(name), k)].Used? && slots[Probe(Home(name), k)].name != name
    ensures AllTaken(slots, name, k + 1)
  {
  }

  lemma UsedIsInterned(slots: seq<Slot>, interned: map<Name, u32>, strings: map<u32, Name>, h: nat)
    requires Sound(slots, interned, strings) && h < SLOTS && slots[h].Used?
    ensures slots[h].name in interned && interned[slots[h].name] == slots[h].va
  {
  }

  lemma InternedIsString(slots: seq<Slot>, interned: map<Name, u32>, strings: map<u32, Name>, name: Name)
    requires Sound(slots, interned, strings) && name in interned
    ensures interned[name] in strings && strings[interned[name]] == name
  {
  }

  lemma MoreToProbe(slots: seq<Slot>, interned: map<Name, u32>, strings: map<u32, Name>, name: Name, k: nat)
    requires Sound(slots, interned, strings) && (name in interned || |interned| < SLOTS)
    requires k < SLOTS && AllTaken(slots, name, k + 1)
    ensures k + 1 < SLOTS
  {
    if name in interned {
      var f :| 0 <= f < SLOTS && Found(slots, name, f);
      assert f <= k ==> Taken(slots, name, f);
    } else if k + 1 == SLOTS {
      forall i | 0 <= i < SLOTS
        ensures slots[i].Used?
      {
        var home := Home(name);
        var j := if i >= home then i - home else i + SLOTS - home;
        assert Taken(slots, name, j) && Probe(home, j) == i;
      }
      FullTable(slots, interned, strings, SLOTS);
    }
  }

  /** n used slots hold n names. */
  lemma {:induction false} FullTable(slots: seq<Slot>, interned: map<Name, u32>, strings: map<u32, Name>, n: nat)
    requires Sound(slots, interned, strings) && n <= SLOTS
    requires forall i :: 0 <= i < n ==> slots[i].Used?
    ensures |interned| >= n
  {
    var names := set i | 0 <= i < n :: slots[i].name;
    Distinct(slots, n);
    Subset(names, interned.Keys);
  }

  lemma {:induction false} Distinct(slots: seq<Slot>, n: nat)
    requires n <= |slots| && forall i :: 0 <= i < n ==> slots[i].Used?
    requires forall i, j :: 0 <= i < j < n ==> slots[i].name != slots[j].name
    ensures |set i | 0 <= i < n :: slots[i].name| == n
  {
    var names := set i | 0 <= i < n :: slots[i].name;
    if n > 0 {
      Distinct(slots, n - 1);
      var front := set i | 0 <= i < n - 1 :: slots[i].name;
      assert names == front + {slots[n - 1].name};
    }
  }

  lemma Subset(a: set<Name>, b: set<Name>)
    requires a <= b
    ensures |a| <= |b|
  {
    assert b == a + (b - a);
  }

  /** Reaching an empty slot means the name is not there. */
  lemma ChainEnds(slots: seq<Slot>, interned: map<Name, u32>, strings: map<u32, Name>, name: Name, k: nat)
    requires Sound(slots, interned, strings) && k < SLOTS && slots[Probe(Home(name), k)].Empty?
    requires AllTaken(slots, name, k)
    ensures name !in interned && EndsChain(slots, name, Probe(Home(name), k))
  {
    assert !Taken(slots, name, k);
    forall f | 0 <= f < SLOTS
      ensures !Found(slots, name, f)
    {
      assert f < k ==> Taken(slots, name, f);
    }
  }

  /** Filling the empty slot a search ended at keeps every other name findable. */
  lemma Enter(slots: seq<Slot>, interned: map<Name, u32>, strings: map<u32, Name>, name: Name, va: u32, h: nat)
    requires Sound(slots, interned, strings) && name !in interned && h < SLOTS && slots[h].Empty?
    requires EndsChain(slots, name, h) && va in strings && strings[va] == name
    ensures Sound(slots[h := Used(name, va)], interned[name := va], strings)
  {
    hide Home, Hash, Taken;
    var after := slots[h := Used(name, va)];
    forall n | n in interned
      ensures Findable(after, n)
    {
      var f :| 0 <= f < SLOTS && Found(slots, n, f);
      StillFound(slots, n, f, h, Used(name, va));
    }
    var k :| 0 <= k < SLOTS && h == Probe(Home(name), k) && AllTaken(slots, name, k);
    StillTaken(slots, name, k, h, Used(name, va));
    assert Found(after, name, k);
  }

  lemma StillTaken(slots: seq<Slot>, n: Name, k: nat, h: nat, s: Slot)
    requires |slots| == SLOTS && k <= SLOTS && h < SLOTS && slots[h].Empty?
    requires AllTaken(slots, n, k)
    ensures AllTaken(slots[h := s], n, k)
  {
    var after := slots[h := s];
    forall j: nat | j < k
      ensures Taken(after, n, j)
    {
      assert Taken(slots, n, j);
    }
  }

  lemma StillFound(slots: seq<Slot>, n: Name, k: nat, h: nat, s: Slot)
    requires |slots| == SLOTS && k < SLOTS && h < SLOTS && slots[h].Empty? && Found(slots, n, k)
    ensures Found(slots[h := s], n, k)
  {
    StillTaken(slots, n, k, h, s);
  }

  // ---- many selectors ----

  /** The table after interning these addresses in order. */
  function InternAll(m: map<Name, u32>, vas: seq<u32>, strings: map<u32, Name>): map<Name, u32>
    requires forall i :: 0 <= i < |vas| ==> vas[i] in strings
  {
    if vas == [] then m
    else
      var n := |vas| - 1;
      Intern(InternAll(m, vas[..n], strings), strings[vas[n]], vas[n])
  }

  /** The canonical address of vas[i] is that of the first address, in order, with the same string. */
  lemma {:induction false} FirstWins(vas: seq<u32>, strings: map<u32, Name>, i: nat)
    requires i < |vas| && forall j :: 0 <= j < |vas| ==> vas[j] in strings
    ensures strings[vas[i]] in InternAll(map[], vas, strings)
    ensures exists f :: 0 <= f <= i && IsFirst(vas, strings, i, f)
                        && InternAll(map[], vas, strings)[strings[vas[i]]] == vas[f]
    decreases |vas|
  {
    var n := |vas| - 1;
    var front := vas[..n];
    var before := InternAll(map[], front, strings);
    if i < n {
      FirstWins(front, strings, i);
      var f :| 0 <= f <= i && IsFirst(front, strings, i, f) && before[strings[front[i]]] == front[f];
      assert IsFirst(vas, strings, i, f);
    } else if strings[vas[n]] in before {
      InternedBefore(front, strings, strings[vas[n]]);
      var j :| 0 <= j < |front| && strings[front[j]] == strings[vas[n]];
      FirstWins(front, strings, j);
      var f :| 0 <= f <= j && IsFirst(front, strings, j, f) && before[strings[front[j]]] == front[f];
      assert IsFirst(vas, strings, i, f);
    } else {
      forall j | 0 <= j < n
        ensures strings[vas[j]] != strings[vas[n]]
      {
        FirstWins(front, strings, j);
        assert front[j] == vas[j];
      }
      assert IsFirst(vas, strings, i, n);
    }
  }

  predicate IsFirst(vas: seq<u32>, strings: map<u32, Name>, i: nat, f: nat)
    requires forall j :: 0 <= j < |vas| ==> vas[j] in strings
  {
    && i < |vas| && f < |vas| && strings[vas[f]] == strings[vas[i]]
    && forall j :: 0 <= j < f ==> strings[vas[j]] != strings[vas[i]]
  }

  lemma {:induction false} InternedBefore(vas: seq<u32>, strings: map<u32, Name>, name: Name)
    requires forall j :: 0 <= j < |vas| ==> vas[j] in strings
    requires name in InternAll(map[], vas, strings)
    ensures exists j :: 0 <= j < |vas| && strings[vas[j]] == name
    decreases |vas|
  {
    var n := |vas| - 1;
    if strings[vas[n]] != name {
      InternedBefore(vas[..n], strings, name);
      var j :| 0 <= j < n && strings[vas[..n][j]] == name;
      assert strings[vas[j]] == name;
    }
  }

  /** Two interned selectors have the same canonical address exactly when their names are equal,
      whatever the order they came in. */
  lemma SameSelector(vas: seq<u32>, strings: map<u32, Name>, i: nat, j: nat)
    requires i < |vas| && j < |vas| && forall k :: 0 <= k < |vas| ==> vas[k] in strings
    ensures strings[vas[i]] in InternAll(map[], vas, strings) && strings[vas[j]] in InternAll(map[], vas, strings)
    ensures InternAll(map[], vas, strings)[strings[vas[i]]] == InternAll(map[], vas, strings)[strings[vas[j]]]
       <==> strings[vas[i]] == strings[vas[j]]
  {
    FirstWins(vas, strings, i);
    FirstWins(vas, strings, j);
  }

  /** A canonical address never changes. */
  lemma {:induction false} InternedStays(m: map<Name, u32>, vas: seq<u32>, strings: map<u32, Name>, name: Name)
    requires name in m && forall k :: 0 <= k < |vas| ==> vas[k] in strings
    ensures name in InternAll(m, vas, strings) && InternAll(m, vas, strings)[name] == m[name]
    decreases |vas|
  {
    if vas != [] {
      InternedStays(m, vas[..|vas| - 1], strings, name);
    }
  }
}
