/**
 Guest C++ exceptions of 32-bit code (runtime/native32/eh32.c). fs:[0] heads a chain of records on
 the guest's stack; a C++ frame's record names its FuncInfo and holds its current state. dispatch
 first searches the chain for a try block that covers its frame's state and has a matching catch,
 and only then unwinds: the frames before it completely, the catching frame down to the try block.

 A record is known by its address. Whether a catch type takes the thrown object is a given relation.
 Funclets are guest code; they are recorded in a log and change no record.
 */
module Eh32 {
  import opened Words
  import opened Wrappers

  /** An unwind-map entry: the state to go to, and the cleanup to run on the way (0: none). */
  datatype Unwind = Unwind(next: int, action: u32)

  /** A catch clause; type 0 is catch(...). */
  datatype Handler = Handler(typ: u32, funclet: u32)

  datatype Try = Try(lo: int, hi: int, handlers: seq<Handler>)

  datatype FuncInfo = FuncInfo(unwind: seq<Unwind>, tries: seq<Try>)

  /** The parts of a record a throw does not change: the next record, and the FuncInfo if the handler
      is a C++ one. */
  datatype Rec = Rec(next: u32, fi: Option<FuncInfo>)

  const END: u32 := 0xFFFF_FFFF

  type Takes = u32 -> bool

  /** Guest code a throw runs. */
  datatype Call = Cleanup(rec: u32, action: u32) | CatchFunclet(rec: u32, funclet: u32)

  // ---- unwinding one frame ----

  /** Every entry of an unwind map leads to a lower state. */
  predicate Falling(fi: FuncInfo) {
    forall s :: 0 <= s < |fi.unwind| ==> -1 <= fi.unwind[s].next < s
  }

  /** States of the map, none above top. */
  predicate OnMap(fi: FuncInfo, p: seq<int>, top: int) {
    forall i :: 0 <= i < |p| ==> 0 <= p[i] < |fi.unwind| && p[i] <= top
  }

  /** The states left, in order, on the way from s to `to`. */
  function Path(fi: FuncInfo, s: int, to: int): (p: seq<int>)
    requires Falling(fi)
    ensures OnMap(fi, p, s)
    decreases s
  {
    if s == to || s < 0 || s >= |fi.unwind| then [] else [s] + Path(fi, fi.unwind[s].next, to)
  }

  /** Where the way ends. */
  function Final(fi: FuncInfo, s: int, to: int): int
    requires Falling(fi)
    decreases s
  {
    if s == to || s < 0 || s >= |fi.unwind| then s else Final(fi, fi.unwind[s].next, to)
  }

  /** The cleanups of the states in p, in order. */
  function Cleanups(fi: FuncInfo, rec: u32, p: seq<int>, top: int): seq<Call>
    requires OnMap(fi, p, top)
  {
    if p == [] then []
    else
      (if fi.unwind[p[0]].action != 0 then [Cleanup(rec, fi.unwind[p[0]].action)] else [])
      + Cleanups(fi, rec, p[1..], top)
  }

  function Ran(fi: FuncInfo, rec: u32, s: int, to: int): seq<Call>
    requires Falling(fi)
  {
    Cleanups(fi, rec, Path(fi, s, to), s)
  }

  /** No state is left twice: the way only falls. */
  lemma {:induction false} PathFalls(fi: FuncInfo, s: int, to: int, i: nat, j: nat)
    requires Falling(fi) && i < j < |Path(fi, s, to)|
    ensures Path(fi, s, to)[i] > Path(fi, s, to)[j]
    decreases s
  {
    var rest := Path(fi, fi.unwind[s].next, to);
    if i > 0 {
      PathFalls(fi, fi.unwind[s].next, to, i - 1, j - 1);
    }
  }

  /** The way goes from s along the map's `next` entries; it stops before `to`, or where the map ends. */
  lemma {:induction false} PathSteps(fi: FuncInfo, s: int, to: int)
    requires Falling(fi)
    ensures var p, e := Path(fi, s, to), Final(fi, s, to);
      && (if p == [] then e == s else p[0] == s && e == fi.unwind[p[|p| - 1]].next)
      && (forall i :: 0 <= i < |p| - 1 ==> p[i + 1] == fi.unwind[p[i]].next)
      && (forall i :: 0 <= i < |p| ==> p[i] != to)
      && (e == to || e < 0 || e >= |fi.unwind|)
    decreases s
  {
    if s != to && 0 <= s < |fi.unwind| {
      PathSteps(fi, fi.unwind[s].next, to);
    }
  }

  /** A state left runs its cleanup if it has one, and what runs for a way is what runs for its parts, in
      their order. */
  lemma {:induction false} CleanupsInOrder(fi: FuncInfo, rec: u32, p: seq<int>, s: int, q: seq<int>, top: int)
    requires OnMap(fi, p + [s] + q, top) && OnMap(fi, p, top) && OnMap(fi, q, top) && 0 <= s < |fi.unwind|
    ensures Cleanups(fi, rec, p + [s] + q, top) ==
            Cleanups(fi, rec, p, top)
            + (if fi.unwind[s].action != 0 then [Cleanup(rec, fi.unwind[s].action)] else [])
            + Cleanups(fi, rec, q, top)
    decreases |p|
  {
    var all := p + [s] + q;
    if p == [] {
      assert all[1..] == q;
    } else {
      assert all[0] == p[0] && all[1..] == p[1..] + [s] + q;
      CleanupsInOrder(fi, rec, p[1..], s, q, top);
    }
  }

  /** `to` is on the unwind map's way down from s. */
  predicate Reaches(fi: FuncInfo, s: int, to: int)
    requires Falling(fi)
    decreases s
  {
    s == to || (0 <= s < |fi.unwind| && Reaches(fi, fi.unwind[s].next, to))
  }

  /** Unwinding ends at its target exactly when the map leads there; -1 is reached from every state
      of the map. */
  lemma {:induction false} FinalIsTarget(fi: FuncInfo, s: int, to: int)
    requires Falling(fi)
    ensures Final(fi, s, to) == to <==> Reaches(fi, s, to)
    ensures Final(fi, s, -1) == -1 <==> -1 <= s < |fi.unwind|
    decreases s
  {
    if 0 <= s < |fi.unwind| {
      FinalIsTarget(fi, fi.unwind[s].next, to);
    }
  }

  /** Unwinding to a try block and then on to -1 runs what unwinding to -1 at once runs. */
  lemma {:induction false} UnwindInTwo(fi: FuncInfo, rec: u32, s: int, to: int)
    requires Falling(fi) && Reaches(fi, s, to) && to >= -1
    ensures Path(fi, s, -1) == Path(fi, s, to) + Path(fi, to, -1)
    decreases s
  {
    if s != to {
      UnwindInTwo(fi, rec, fi.unwind[s].next, to);
    }
  }

  // ---- searching one frame ----

  predicate Matches(h: Handler, takes: Takes) {
    h.typ == 0 || takes(h.typ)
  }

  /** The first clause that takes the object, or their number. */
  function FirstClause(hs: seq<Handler>, takes: Takes): (c: nat)
    ensures c <= |hs|
    ensures c < |hs| ==> Matches(hs[c], takes)
    ensures forall i :: 0 <= i < c ==> !Matches(hs[i], takes)
  {
    if hs == [] || Matches(hs[0], takes) then 0 else 1 + FirstClause(hs[1..], takes)
  }

  predicate Catching(t: Try, state: int, takes: Takes) {
    t.lo <= state <= t.hi && FirstClause(t.handlers, takes) < |t.handlers|
  }

  /** The first try block, in table order, that covers the state and has a matching clause; or their
      number. */
  function FirstTry(ts: seq<Try>, state: int, takes: Takes): (t: nat)
    ensures t <= |ts|
    ensures t < |ts| ==> Catching(ts[t], state, takes)
    ensures forall i :: 0 <= i < t ==> !Catching(ts[i], state, takes)
  {
    if ts == [] || Catching(ts[0], state, takes) then 0 else 1 + FirstTry(ts[1..], state, takes)
  }

  /** Clause c of try t covers the state and takes the object: it is a catch(...), or its type is the
      object's. */
  predicate IsTaken(fi: FuncInfo, state: int, t: nat, c: nat, takes: Takes) {
    && t < |fi.tries| && c < |fi.tries[t].handlers| && fi.tries[t].lo <= state <= fi.tries[t].hi
    && (fi.tries[t].handlers[c].typ == 0 || takes(fi.tries[t].handlers[c].typ))
  }

  /** The clause the two searches end at is the first one taken; they end at none only if there is none. */
  lemma FirstIsTaken(fi: FuncInfo, state: int, takes: Takes)
    ensures var t := FirstTry(fi.tries, state, takes);
      && (t < |fi.tries| ==> IsTaken(fi, state, t, FirstClause(fi.tries[t].handlers, takes), takes))
      && forall t', c' :: IsTaken(fi, state, t', c', takes) ==>
           t < t' || (t == t' && FirstClause(fi.tries[t].handlers, takes) <= c')
  {
    var t := FirstTry(fi.tries, state, takes);
    forall t': nat, c': nat | IsTaken(fi, state, t', c', takes)
      ensures t <= t' && FirstClause(fi.tries[t'].handlers, takes) <= c'
    {
      assert Matches(fi.tries[t'].handlers[c'], takes);
      assert Catching(fi.tries[t'], state, takes);
    }
  }

  // ---- the chain ----

  /** The records from head on, as a list. */
  predicate Chain(recs: map<u32, Rec>, head: u32, chain: seq<u32>)
    decreases |chain|
  {
    if chain == [] then head == END || head == 0
    else head != END && head != 0 && head == chain[0] && head in recs && Chain(recs, recs[head].next, chain[1..])
  }

  /** A chain ends at 0 or at 0xFFFFFFFF and nowhere else, and goes from each record to its next. */
  lemma ChainLinks(recs: map<u32, Rec>, head: u32, rest: seq<u32>)
    ensures Chain(recs, head, []) <==> head == 0 || head == 0xFFFF_FFFF
    ensures Chain(recs, head, [head] + rest) <==>
            head != 0 && head != 0xFFFF_FFFF && head in recs && Chain(recs, recs[head].next, rest)
  {
    assert ([head] + rest)[1..] == rest;
  }

  /** A host frame with a landing pad. */
  datatype HostFrame = HostFrame(id: nat, entryEsp: int)

  /** The newest frames from f on, or none. */
  function From(frames: seq<HostFrame>, esp: int): seq<HostFrame>
    decreases |frames|
  {
    if frames == [] || frames[0].entryEsp == esp then frames else From(frames[1..], esp)
  }

  datatype Outcome = NotCaught | NoOwner | Landed(frame: HostFrame)

  /** A catch ends in the newest host frame entered at esp, which becomes the newest of all. */
  predicate Lands(o: Outcome, before: seq<HostFrame>, after: seq<HostFrame>, esp: int) {
    var landing := From(before, esp);
    if landing == [] then o == NoOwner && after == before
    else o == Landed(landing[0]) && after == landing
  }

  /** It is the first frame entered at esp, and everything older than it stays; if there is none, nothing
      is dropped. */
  lemma LandsInFirst(o: Outcome, before: seq<HostFrame>, after: seq<HostFrame>, esp: int)
    ensures Lands(o, before, after, esp) <==>
            if forall i :: 0 <= i < |before| ==> before[i].entryEsp != esp then o == NoOwner && after == before
            else exists i ::
                   && 0 <= i < |before| && before[i].entryEsp == esp && after == before[i..] && o == Landed(before[i])
                   && forall j :: 0 <= j < i ==> before[j].entryEsp != esp
  {
    var k := FromIsFirst(before, esp);
    if k < |before| {
      assert before[k].entryEsp == esp;
      forall i | 0 <= i < |before| && before[i].entryEsp == esp && forall j :: 0 <= j < i ==> before[j].entryEsp != esp
        ensures i == k
      {
      }
    }
  }

  lemma {:induction false} FromIsFirst(frames: seq<HostFrame>, esp: int) returns (k: nat)
    ensures k <= |frames| && From(frames, esp) == frames[k..] && (k < |frames| ==> frames[k].entryEsp == esp)
    ensures forall j :: 0 <= j < k ==> frames[j].entryEsp != esp
    decreases |frames|
  {
    k := 0;
    if frames != [] && frames[0].entryEsp != esp {
      k := FromIsFirst(frames[1..], esp);
      assert frames[1..][k..] == frames[k + 1..];
      assert forall j :: 0 < j <= k ==> frames[j] == frames[1..][j - 1];
      k := k + 1;
    }
  }

  class Guest {
    const recs: map<u32, Rec>
    var state: map<u32, int>
    var head: u32
    var log: seq<Call>
    var frames: seq<HostFrame>     // t_frames, newest first

    constructor (recs: map<u32, Rec>, state: map<u32, int>, head: u32)
      ensures this.recs == recs && this.state == state && this.head == head && log == [] && frames == []
    {
      this.recs, this.state, this.head, log, frames := recs, state, head, [], [];
    }

    /** A chain of live records whose maps fall and whose addresses differ. */
    predicate ChainOk(chain: seq<u32>)
      reads this
    {
      && Chain(recs, head, chain)
      && (forall i :: 0 <= i < |chain| ==>
            chain[i] in recs && chain[i] in state && (recs[chain[i]].fi.Some? ==> Falling(recs[chain[i]].fi.value)))
      && forall i, j :: 0 <= i < j < |chain| ==> chain[i] != chain[j]
    }

    /** unwind_to: run the cleanups from the frame's current state down to `to`. */
    method UnwindTo(rec: u32, fi: FuncInfo, to: int)
      requires rec in state && Falling(fi)
      modifies this`state, this`log
      ensures state == old(state)[rec := Final(fi, old(state)[rec], to)]
      ensures log == old(log) + Ran(fi, rec, old(state)[rec], to)
    {
      var s := state[rec];
      ghost var s0, log0 := s, log;
      while s != to && s >= 0 && s < |fi.unwind|
        invariant state == old(state)[rec := s]
        invariant s <= s0
        invariant Final(fi, s, to) == Final(fi, s0, to)
        invariant log + Ran(fi, rec, s, to) == log0 + Ran(fi, rec, s0, to)
        decreases s
      {
        var next, action := fi.unwind[s].next, fi.unwind[s].action;
        RanOne(fi, rec, s, to);
        state := state[rec := next];
        if action != 0 {
          log := log + [Cleanup(rec, action)];
        }
        s := next;
      }
    }

    /** The search of one frame: its first matching clause. */
    method Search(fi: FuncInfo, st: int, takes: Takes) returns (t: nat, c: nat)
      ensures t == FirstTry(fi.tries, st, takes)
      ensures t < |fi.tries| ==> c == FirstClause(fi.tries[t].handlers, takes)
      ensures t < |fi.tries| ==> IsTaken(fi, st, t, c, takes)
      ensures forall t', c' :: IsTaken(fi, st, t', c', takes) ==> t < t' || (t == t' && c <= c')
    {
      t, c := 0, 0;
      while t < |fi.tries|
        invariant 0 <= t <= |fi.tries|
        invariant forall i :: 0 <= i < t ==> !Catching(fi.tries[i], st, takes)
        decreases |fi.tries| - t
      {
        var y := fi.tries[t];
        if y.lo <= st <= y.hi {
          c := 0;
          while c < |y.handlers|
            invariant 0 <= c <= |y.handlers|
            invariant forall i :: 0 <= i < c ==> !Matches(y.handlers[i], takes)
          {
            if Matches(y.handlers[c], takes) {
              FirstIsClause(y.handlers, takes, c);
              FirstIsTry(fi.tries, st, takes, t);
              FirstIsTaken(fi, st, takes);
              return;
            }
            c := c + 1;
          }
        }
        t := t + 1;
      }
      FirstIsTaken(fi, st, takes);
    }

    /** recomp_eh_push */
    method Push(f: HostFrame)
      modifies this`frames
      ensures frames == [f] + old(frames)
    {
      frames := [f] + frames;
    }

    /** recomp_eh_pop: a frame a longjmp has already dropped is left alone. */
    method Pop(f: HostFrame)
      modifies this`frames
      ensures f !in old(frames) ==> frames == old(frames)
      ensures forall i :: 0 <= i < |old(frames)| && old(frames)[i] == f && f !in old(frames)[..i] ==>
                            frames == old(frames)[i + 1..]
      ensures frames == Popped(old(frames), f)
    {
      var p := 0;
      while p < |frames|
        invariant 0 <= p <= |frames|
        invariant f !in frames[..p]
        invariant frames == old(frames)
      {
        if frames[p] == f {
          PoppedAt(frames[..p], f, frames[p + 1..]);
          assert frames[..p] + [f] + frames[p + 1..] == frames;
          frames := frames[p + 1..];
          return;
        }
        p := p + 1;
      }
      PoppedNone(frames, f);
    }

    /** recomp_eh_owner: the newest frame entered above esp. */
    method Owner(esp: int) returns (f: Option<HostFrame>)
      ensures f.None? ==> forall i :: 0 <= i < |frames| ==> frames[i].entryEsp <= esp
      ensures f.Some? ==>
                exists i :: 0 <= i < |frames| && frames[i] == f.value && frames[i].entryEsp > esp
                            && forall j :: 0 <= j < i ==> frames[j].entryEsp <= esp
    {
      var i := 0;
      while i < |frames|
        invariant 0 <= i <= |frames|
        invariant forall j :: 0 <= j < i ==> frames[j].entryEsp <= esp
      {
        if frames[i].entryEsp > esp {
          return Some(frames[i]);
        }
        i := i + 1;
      }
      f := None;
    }

    /** Unwind the frames of the chain before `rec`, newest first, each down to -1. */
    method UnwindInner(ghost chain: seq<u32>, top: u32, rec: u32, ghost k: nat)
      requires ChainOk(chain) && top == head && k < |chain| && chain[k] == rec
      modifies this`state, this`log
      ensures log == old(log) + InnerRan(recs, old(state), chain[..k])
      ensures state == Unwound(recs, old(state), chain[..k])
    {
      var r := top;
      ghost var i := 0;
      assert chain[0..] == chain;
      while r != rec
        invariant 0 <= i <= k && r == chain[i] && Chain(recs, r, chain[i..])
        invariant state == Unwound(recs, old(state), chain[..i])
        invariant log == old(log) + InnerRan(recs, old(state), chain[..i])
        decreases k - i
      {
        assert chain[..i + 1][..i] == chain[..i];
        assert chain[i..][1..] == chain[i + 1..];
        UnwoundElsewhere(recs, old(state), chain[..i], r);
        if recs[r].fi.Some? {
          UnwindTo(r, recs[r].fi.value, -1);
        }
        r := recs[r].next;
        i := i + 1;
      }
      assert i == k;
    }

    /** The catch itself: unwind to it, run it, land. */
    method Catch(ghost chain: seq<u32>, top: u32, rec: u32, ghost k: nat, fi: FuncInfo, y: Try,
                 c: nat) returns (o: Outcome)
      requires ChainOk(chain) && top == head && k < |chain| && chain[k] == rec
      requires recs[rec].fi == Some(fi) && c < |y.handlers|
      modifies this
      ensures head == rec
      ensures log == old(log) + InnerRan(recs, old(state), chain[..k]) + Ran(fi, rec, old(state)[rec], y.lo)
                     + [CatchFunclet(rec, y.handlers[c].funclet)]
      ensures state == Unwound(recs, old(state), chain[..k])[rec := y.hi + 1]
      ensures Lands(o, old(frames), frames, rec as int + 16)
    {
      hide Ran, Chain, InnerRan, Unwound, From, Final;
      UnwindInner(chain, top, rec, k);
      UnwoundElsewhere(recs, old(state), chain[..k], rec);
      UnwindTo(rec, fi, y.lo);
      head := rec;
      state := state[rec := y.hi + 1];
      log := log + [CatchFunclet(rec, y.handlers[c].funclet)];
      o := Land(rec as int + 16);
    }

    /** dispatch */
    method Dispatch(takes: Takes, ghost chain: seq<u32>) returns (o: Outcome)
      requires ChainOk(chain)
      modifies this
      ensures CatchingFrame(recs, old(state), chain, takes) == |chain| ==>
                o == NotCaught && state == old(state) && head == old(head) && log == old(log) && frames == old(frames)
      ensures CatchingFrame(recs, old(state), chain, takes) < |chain| ==>
                var k := CatchingFrame(recs, old(state), chain, takes);
                var y := CatchingTry(recs, old(state), chain, takes);
                && head == chain[k]
                && log == old(log) + InnerRan(recs, old(state), chain[..k])
                     + Ran(recs[chain[k]].fi.value, chain[k], old(state)[chain[k]], y.lo)
                     + [CatchFunclet(chain[k], y.handlers[FirstClause(y.handlers, takes)].funclet)]
                && state == Unwound(recs, old(state), chain[..k])[chain[k] := y.hi + 1]
                && Lands(o, old(frames), frames, chain[k] as int + 16)
      ensures o == NotCaught <==>
              forall i, t, c :: 0 <= i < |chain| ==> !IsTakenIn(recs, old(state), chain[i], t, c, takes)
    {
      hide Ran, Chain, InnerRan, Unwound, From, Final, Lands;
      ChosenClause(recs, state, chain, takes);
      var top := head;
      var rec := top;
      ghost var i := 0;
      assert chain[0..] == chain;
      ChainStep(recs, rec, chain, 0);
      while rec != 0 && rec != END
        invariant 0 <= i <= |chain| && Chain(recs, rec, chain[i..])
        invariant (rec == 0 || rec == END) <==> i == |chain|
        invariant i < |chain| ==> rec == chain[i]
        invariant state == old(state) && head == old(head) && log == old(log) && frames == old(frames)
        invariant forall j :: 0 <= j < i ==> !CatchesIn(recs, old(state), chain[j], takes)
        decreases |chain| - i
      {
        if recs[rec].fi.Some? {
          var fi, st := recs[rec].fi.value, state[rec];
          var t, c := Search(fi, st, takes);
          if t < |fi.tries| {
            FirstIsFrame(recs, state, chain, takes, i);
            o := Catch(chain, top, rec, i, fi, fi.tries[t], c);
            LandsCaught(o, old(frames), frames, rec as int + 16);
            return;
          }
        }
        ChainStep(recs, rec, chain, i);
        ChainStep(recs, recs[rec].next, chain, i + 1);
        rec := recs[rec].next;
        i := i + 1;
      }
      NoFrame(recs, state, chain, takes);
      o := NotCaught;
    }

    /** The host frame of the catching function: every newer one is dropped. */
    method Land(esp: int) returns (o: Outcome)
      modifies this`frames
      ensures Lands(o, old(frames), frames, esp)
    {
      var i := 0;
      assert frames[0..] == frames;
      while i < |frames|
        invariant 0 <= i <= |frames|
        invariant From(frames[i..], esp) == From(frames, esp)
        invariant frames == old(frames)
      {
        if frames[i].entryEsp == esp {
          frames := frames[i..];
          return Landed(frames[0]);
        }
        assert frames[i..][1..] == frames[i + 1..];
        i := i + 1;
      }
      o := NoOwner;
    }
  }

  lemma RanOne(fi: FuncInfo, rec: u32, s: int, to: int)
    requires Falling(fi) && s != to && 0 <= s < |fi.unwind|
    ensures Ran(fi, rec, s, to) ==
      (if fi.unwind[s].action != 0 then [Cleanup(rec, fi.unwind[s].action)] else [])
      + Ran(fi, rec, fi.unwind[s].next, to)
  {
    var rest := Path(fi, fi.unwind[s].next, to);
    assert Path(fi, s, to)[1..] == rest;
    CleanupsAnyTop(fi, rec, rest, s, fi.unwind[s].next);
  }

  lemma {:induction false} CleanupsAnyTop(fi: FuncInfo, rec: u32, p: seq<int>, a: int, b: int)
    requires OnMap(fi, p, a) && OnMap(fi, p, b)
    ensures Cleanups(fi, rec, p, a) == Cleanups(fi, rec, p, b)
    decreases |p|
  {
    if p != [] {
      CleanupsAnyTop(fi, rec, p[1..], a, b);
    }
  }

  lemma FirstIsClause(hs: seq<Handler>, takes: Takes, c: nat)
    requires c < |hs| && Matches(hs[c], takes)
    requires forall i :: 0 <= i < c ==> !Matches(hs[i], takes)
    ensures FirstClause(hs, takes) == c
    decreases |hs|
  {
    if c > 0 {
      assert !Matches(hs[0], takes);
      FirstIsClause(hs[1..], takes, c - 1);
    }
  }

  lemma FirstIsTry(ts: seq<Try>, state: int, takes: Takes, t: nat)
    requires t < |ts| && Catching(ts[t], state, takes)
    requires forall i :: 0 <= i < t ==> !Catching(ts[i], state, takes)
    ensures FirstTry(ts, state, takes) == t
    decreases |ts|
  {
    if t > 0 {
      assert !Catching(ts[0], state, takes);
      FirstIsTry(ts[1..], state, takes, t - 1);
    }
  }

  // ---- the host's frames ----

  /** The frames left when f is popped: those older than f; all, if f is not there. */
  function Popped(frames: seq<HostFrame>, f: HostFrame): seq<HostFrame> {
    if f !in frames then frames else if frames[0] == f then frames[1..] else Popped(frames[1..], f)
  }

  /** A pop gives back the frames there were at the push, whatever was pushed and not popped since. */
  lemma {:induction false} PoppedAt(newer: seq<HostFrame>, f: HostFrame, older: seq<HostFrame>)
    requires f !in newer
    ensures Popped(newer + [f] + older, f) == older
    decreases |newer|
  {
    var frames := newer + [f] + older;
    assert frames[|newer|] == f;
    if newer == [] {
      assert frames[1..] == older;
    } else {
      assert frames[0] == newer[0] && frames[1..] == newer[1..] + [f] + older;
      PoppedAt(newer[1..], f, older);
    }
  }

  lemma PoppedNone(frames: seq<HostFrame>, f: HostFrame)
    requires f !in frames[..|frames|]
    ensures Popped(frames, f) == frames
  {
    assert frames[..|frames|] == frames;
  }

  // ---- what dispatch is to do ----

  predicate CatchesIn(recs: map<u32, Rec>, state: map<u32, int>, rec: u32, takes: Takes) {
    rec in recs && rec in state && recs[rec].fi.Some?
    && FirstTry(recs[rec].fi.value.tries, state[rec], takes) < |recs[rec].fi.value.tries|
  }

  /** The innermost frame that catches, or the length of the chain. */
  function CatchingFrame(recs: map<u32, Rec>, state: map<u32, int>, chain: seq<u32>, takes: Takes): (k: nat)
    ensures k <= |chain|
    ensures k < |chain| ==> CatchesIn(recs, state, chain[k], takes)
    ensures forall i :: 0 <= i < k ==> !CatchesIn(recs, state, chain[i], takes)
  {
    if chain == [] || CatchesIn(recs, state, chain[0], takes) then 0
    else 1 + CatchingFrame(recs, state, chain[1..], takes)
  }

  function CatchingTry(recs: map<u32, Rec>, state: map<u32, int>, chain: seq<u32>, takes: Takes): (y: Try)
    requires CatchingFrame(recs, state, chain, takes) < |chain|
    ensures Catching(y, state[chain[CatchingFrame(recs, state, chain, takes)]], takes)
  {
    var rec := chain[CatchingFrame(recs, state, chain, takes)];
    recs[rec].fi.value.tries[FirstTry(recs[rec].fi.value.tries, state[rec], takes)]
  }

  predicate IsTakenIn(recs: map<u32, Rec>, state: map<u32, int>, rec: u32, t: nat, c: nat, takes: Takes) {
    rec in recs && rec in state && recs[rec].fi.Some? && IsTaken(recs[rec].fi.value, state[rec], t, c, takes)
  }

  /** dispatch catches in the first clause that is taken: of the chain's frames the innermost that has
      one, of its tries the first, of its clauses the first; and there is none exactly if no frame, try
      and clause of the chain takes the object. */
  lemma ChosenClause(recs: map<u32, Rec>, state: map<u32, int>, chain: seq<u32>, takes: Takes)
    ensures var k := CatchingFrame(recs, state, chain, takes);
      && (forall i, t: nat, c: nat :: 0 <= i < |chain| && IsTakenIn(recs, state, chain[i], t, c, takes) ==> k <= i)
      && (k < |chain| ==>
            && chain[k] in recs && chain[k] in state && recs[chain[k]].fi.Some?
            && exists t: nat, c: nat ::
                 && IsTakenIn(recs, state, chain[k], t, c, takes)
                 && CatchingTry(recs, state, chain, takes) == recs[chain[k]].fi.value.tries[t]
                 && c == FirstClause(CatchingTry(recs, state, chain, takes).handlers, takes)
                 && forall t': nat, c': nat ::
                      IsTakenIn(recs, state, chain[k], t', c', takes) ==> t < t' || (t == t' && c <= c'))
    ensures CatchingFrame(recs, state, chain, takes) == |chain| <==>
            forall i, t, c :: 0 <= i < |chain| ==> !IsTakenIn(recs, state, chain[i], t, c, takes)
  {
    hide FirstTry, FirstClause, IsTaken;
    var k := CatchingFrame(recs, state, chain, takes);
    forall i, t: nat, c: nat | 0 <= i < |chain| && IsTakenIn(recs, state, chain[i], t, c, takes) ensures k <= i {
      FirstIsTaken(recs[chain[i]].fi.value, state[chain[i]], takes);
      HasTries(recs[chain[i]].fi.value, state[chain[i]], t, c, takes);
      assert CatchesIn(recs, state, chain[i], takes);
    }
    if k < |chain| {
      assert CatchesIn(recs, state, chain[k], takes);
      var fi := recs[chain[k]].fi.value;
      FirstIsTaken(fi, state[chain[k]], takes);
      var t := FirstTry(fi.tries, state[chain[k]], takes);
      assert IsTakenIn(recs, state, chain[k], t, FirstClause(fi.tries[t].handlers, takes), takes);
    }
  }

  lemma HasTries(fi: FuncInfo, state: int, t: nat, c: nat, takes: Takes)
    requires IsTaken(fi, state, t, c, takes)
    ensures t < |fi.tries|
  {
  }

  lemma LandsCaught(o: Outcome, before: seq<HostFrame>, after: seq<HostFrame>, esp: int)
    requires Lands(o, before, after, esp)
    ensures o != NotCaught
  {
  }

  predicate Live(recs: map<u32, Rec>, state: map<u32, int>, rec: u32) {
    rec in recs && rec in state && recs[rec].fi.Some? && Falling(recs[rec].fi.value)
  }

  /** The cleanups of whole frames, in chain order. */
  function InnerRan(recs: map<u32, Rec>, state: map<u32, int>, rs: seq<u32>): seq<Call> {
    if rs == [] then []
    else
      var r := rs[|rs| - 1];
      InnerRan(recs, state, rs[..|rs| - 1])
        + if Live(recs, state, r) then Ran(recs[r].fi.value, r, state[r], -1) else []
  }

  /** The first frame's cleanups run first; a frame whose handler is not a C++ one has none. */
  lemma {:induction false} InnerRanFirst(recs: map<u32, Rec>, state: map<u32, int>, r: u32, rs: seq<u32>)
    ensures InnerRan(recs, state, [r] + rs) ==
            (if r in recs && r in state && recs[r].fi.Some? && Falling(recs[r].fi.value) then
               Ran(recs[r].fi.value, r, state[r], -1)
             else []) + InnerRan(recs, state, rs)
    decreases |rs|
  {
    hide Ran;
    var all := [r] + rs;
    if rs == [] {
      assert all[..0] == [];
      assert all == [r];
    } else {
      assert all[..|all| - 1] == [r] + rs[..|rs| - 1];
      InnerRanFirst(recs, state, r, rs[..|rs| - 1]);
    }
  }

  /** The states once those frames are unwound. */
  function Unwound(recs: map<u32, Rec>, state: map<u32, int>, rs: seq<u32>): map<u32, int> {
    if rs == [] then state
    else
      var r := rs[|rs| - 1];
      var front := Unwound(recs, state, rs[..|rs| - 1]);
      if Live(recs, state, r) then front[r := Final(recs[r].fi.value, state[r], -1)] else front
  }

  lemma {:induction false} UnwoundElsewhere(recs: map<u32, Rec>, state: map<u32, int>, rs: seq<u32>, r: u32)
    requires r !in rs && r in state
    ensures r in Unwound(recs, state, rs) && Unwound(recs, state, rs)[r] == state[r]
    decreases |rs|
  {
    if rs != [] {
      UnwoundElsewhere(recs, state, rs[..|rs| - 1], r);
    }
  }

  lemma ChainStep(recs: map<u32, Rec>, head: u32, chain: seq<u32>, i: nat)
    requires i <= |chain| && Chain(recs, head, chain[i..])
    ensures i < |chain| ==>
              && head == chain[i] && head != 0 && head != END && head in recs
              && Chain(recs, recs[head].next, chain[i + 1..])
    ensures i == |chain| ==> head == 0 || head == END
  {
    if i < |chain| {
      assert chain[i..][1..] == chain[i + 1..];
    }
  }

  lemma FirstIsFrame(recs: map<u32, Rec>, state: map<u32, int>, chain: seq<u32>, takes: Takes, k: nat)
    requires k < |chain| && CatchesIn(recs, state, chain[k], takes)
    requires forall i :: 0 <= i < k ==> !CatchesIn(recs, state, chain[i], takes)
    ensures CatchingFrame(recs, state, chain, takes) == k
    decreases |chain|
  {
    if k > 0 {
      assert !CatchesIn(recs, state, chain[0], takes);
      FirstIsFrame(recs, state, chain[1..], takes, k - 1);
    }
  }

  lemma NoFrame(recs: map<u32, Rec>, state: map<u32, int>, chain: seq<u32>, takes: Takes)
    requires forall i :: 0 <= i < |chain| ==> !CatchesIn(recs, state, chain[i], takes)
    ensures CatchingFrame(recs, state, chain, takes) == |chain|
  {
  }

  /** After a dispatch every C++ frame before the catching one that was in a state of its map is fully
      unwound, and no other frame's state has moved. */
  lemma {:induction false} UnwoundIsMinusOne(recs: map<u32, Rec>, state: map<u32, int>, rs: seq<u32>, i: nat)
    requires i < |rs| && Live(recs, state, rs[i]) && -1 <= state[rs[i]] < |recs[rs[i]].fi.value.unwind|
    requires forall a, b :: 0 <= a < b < |rs| ==> rs[a] != rs[b]
    ensures rs[i] in Unwound(recs, state, rs) && Unwound(recs, state, rs)[rs[i]] == -1
    decreases |rs|
  {
    var front := rs[..|rs| - 1];
    if i == |rs| - 1 {
      FinalIsTarget(recs[rs[i]].fi.value, state[rs[i]], -1);
    } else {
      assert front[i] == rs[i];
      UnwoundIsMinusOne(recs, state, front, i);
    }
  }
}
