/**
 The worker pool of runtime/win32hle/d3d_raster.c as interleaved steps: a flush posts a job, every
 thread draws its band, the flush waits for g_pending to come back to 0 and resets the command
 list. Each step is one critical section of g_mu or the drawing of one fragment; condition
 variables may wake a thread at any time, and a broadcast or signal wakes those that sleep. A flush
 of few rows, or without helpers, draws alone and posts nothing.
 */
module RasterPool {
  import opened RasterStreams
  import opened RasterBands
  import opened RasterDraw

  /** Look: about to compare g_job with seen. Asleep: in pthread_cond_wait(&g_go). Running: inside
      run_band. Finishing: about to decrement g_pending. */
  datatype WorkerPc = Look | Asleep | Running | Finishing

  datatype Worker = Worker(pc: WorkerPc, seen: nat, pos: nat)

  /** The flushing thread: outside a flush, drawing band 0, about to look at g_pending, or in
      pthread_cond_wait(&g_done). */
  datatype MainPc = Idle | Drawing | Waiting | Sleeping

  /** job, pending, workers, states and cmds are the program's. `streams` is what run_band draws in each
      thread, `pos` and Worker.pos how far each thread has drawn; `before` is the picture at the post
      and `trace` what has been drawn since. */
  datatype State = State(
    gpu: Gpu, states: seq<RState>, cmds: seq<Command>,
    job: nat, pending: nat, workers: seq<Worker>, main: MainPc, pos: nat,
    streams: seq<seq<Frag>>, pic: Picture, before: Picture, trace: seq<Event>)

  datatype Step =
    | Record(st: RState, line: bool, verts: int)   // d3d_raster_submit_*
    | Alone                                        // a flush that draws alone
    | Post                                         // lock; pending, job; broadcast; unlock
    | MainDraw | MainDone | MainLook | MainWake
    | WorkerLook(w: nat) | WorkerDraw(w: nat) | WorkerDone(w: nat) | WorkerFinish(w: nat) | WorkerWake(w: nat)

  predicate Indexed(states: seq<RState>, cmds: seq<Command>) {
    forall c :: c in cmds ==> c.state < |states|
  }

  /** What the recorded commands draw, in order. */
  function Full(s: State): seq<Frag> {
    if Indexed(s.states, s.cmds) then Stream(s.gpu, s.states, s.cmds) else []
  }

  /** What each thread draws. */
  function Shares(s: State): seq<seq<Frag>> {
    if Indexed(s.states, s.cmds) then BandsOf(s.gpu, s.states, s.cmds, |s.workers| + 1) else []
  }

  /** A flush uses its helpers from 64 rows on. */
  predicate Helped(s: State) {
    s.workers != [] && Height(s.states) >= 64
  }

  predicate Enabled(s: State, t: Step) {
    match t
    case Record(_, _, _) => s.main == Idle
    case Alone => s.main == Idle && s.cmds != [] && !Helped(s)
    case Post => s.main == Idle && s.cmds != [] && Helped(s)
    case MainDraw => s.main == Drawing && |s.streams| > 0 && s.pos < |s.streams[0]|
    case MainDone => s.main == Drawing && |s.streams| > 0 && s.pos == |s.streams[0]|
    case MainLook => s.main == Waiting
    case MainWake => s.main == Sleeping
    case WorkerLook(w) => w < |s.workers| && s.workers[w].pc == Look
    case WorkerDraw(w) =>
      w < |s.workers| && w + 1 < |s.streams| && s.workers[w].pc == Running && s.workers[w].pos < |s.streams[w + 1]|
    case WorkerDone(w) =>
      w < |s.workers| && w + 1 < |s.streams| && s.workers[w].pc == Running && s.workers[w].pos == |s.streams[w + 1]|
    case WorkerFinish(w) => w < |s.workers| && s.workers[w].pc == Finishing && s.pending > 0
    case WorkerWake(w) => w < |s.workers| && s.workers[w].pc == Asleep
  }

  function Woken(w: Worker): Worker {
    if w.pc == Asleep then w.(pc := Look) else w
  }

  function WakeAll(ws: seq<Worker>): seq<Worker> {
    seq(|ws|, i requires 0 <= i < |ws| => Woken(ws[i]))
  }

  function Draw(s: State, b: nat, f: Frag): State {
    s.(pic := Apply(s.pic, f), trace := s.trace + [Event(b, f)])
  }

  /** push_cmd, with push_state. */
  function Pushed(s: State, st: RState, line: bool, verts: int): State {
    var states := if s.states != [] && s.states[|s.states| - 1] == st then s.states else s.states + [st];
    s.(states := states, cmds := s.cmds + [Command(|states| - 1, line, verts)])
  }

  function Do(s: State, t: Step): State
    requires Enabled(s, t)
  {
    match t
    case Record(st, line, verts) => Pushed(s, st, line, verts)
    case Alone => s.(pic := ApplyAll(s.pic, Full(s)), states := [], cmds := [])
    case Post =>
      s.(job := s.job + 1, pending := |s.workers|, workers := WakeAll(s.workers), main := Drawing, pos := 0,
         streams := Shares(s), before := s.pic, trace := [])
    case MainDraw => Draw(s, 0, s.streams[0][s.pos]).(pos := s.pos + 1)
    case MainDone => s.(main := Waiting)
    case MainLook => if s.pending == 0 then s.(main := Idle, states := [], cmds := []) else s.(main := Sleeping)
    case MainWake => s.(main := Waiting)
    case WorkerLook(w) =>
      if s.workers[w].seen == s.job then s.(workers := s.workers[w := s.workers[w].(pc := Asleep)])
      else s.(workers := s.workers[w := Worker(Running, s.job, 0)])
    case WorkerDraw(w) =>
      Draw(s, w + 1, s.streams[w + 1][s.workers[w].pos])
        .(workers := s.workers[w := s.workers[w].(pos := s.workers[w].pos + 1)])
    case WorkerDone(w) => s.(workers := s.workers[w := s.workers[w].(pc := Finishing)])
    case WorkerFinish(w) =>
      s.(pending := s.pending - 1, workers := s.workers[w := s.workers[w].(pc := Look)],
         main := if s.pending == 1 && s.main == Sleeping then Waiting else s.main)
    case WorkerWake(w) => s.(workers := s.workers[w := s.workers[w].(pc := Look)])
  }

  // ---- the invariant ----

  /** The worker has not finished the current job. */
  predicate Unfinished(w: Worker, job: nat) {
    w.seen != job || w.pc == Running || w.pc == Finishing
  }

  function Count(ws: seq<Worker>, job: nat): nat {
    if ws == [] then 0 else Count(ws[..|ws| - 1], job) + if Unfinished(ws[|ws| - 1], job) then 1 else 0
  }

  /** A worker is at most one job behind, and behind only when it is awake and about to look; it is
      in or past run_band only for the current job of a flush under way. */
  predicate WorkerOk(s: State, i: nat)
    requires i < |s.workers|
  {
    var w := s.workers[i];
    && (w.seen == s.job || (w.seen + 1 == s.job && w.pc == Look && s.main != Idle))
    && (w.pc == Running || w.pc == Finishing ==> s.main != Idle)
  }

  /** How much of its stream a thread has drawn. */
  function Progress(s: State, b: nat): nat
    requires b < |s.streams| && b <= |s.workers|
  {
    if b == 0 then (if s.main == Drawing then s.pos else |s.streams[0]|)
    else
      var w := s.workers[b - 1];
      if w.seen != s.job then 0 else if w.pc == Running then w.pos else |s.streams[b]|
  }

  ghost predicate BandOk(s: State, b: nat)
    requires b < |s.streams| && b <= |s.workers|
  {
    Progress(s, b) <= |s.streams[b]| && By(s.trace, b) == s.streams[b][..Progress(s, b)]
  }

  /** The drawing of a flush under way: every thread's events are what it has drawn of its stream,
      and the picture is the one at the post with the trace drawn over it. */
  ghost predicate DrawingOk(s: State) {
    && |s.streams| == |s.workers| + 1
    && (exists top: int, height: nat :: Cut(s, top, height))
    && (forall b :: 0 <= b < |s.streams| ==> BandOk(s, b))
    && (forall i :: 0 <= i < |s.trace| ==> s.trace[i].band < |s.streams|)
    && s.pic == ApplyAll(s.before, Drawn(s.trace))
  }

  ghost predicate Cut(s: State, top: int, height: nat) {
    s.streams == BandStreams(Full(s), top, height, |s.workers| + 1) && Rows(Full(s), top, top + height) == Full(s)
  }

  ghost predicate Inv(s: State) {
    && (forall i :: 0 <= i < |s.workers| ==> WorkerOk(s, i))
    && s.pending == Count(s.workers, s.job)
    && (s.main == Sleeping ==> s.pending > 0)
    && (s.main != Idle ==> DrawingOk(s))
    && Indexed(s.states, s.cmds)
  }

  /** No job yet; the workers have just been created. */
  ghost predicate Init(s: State) {
    s.job == 0 && s.pending == 0 && s.main == Idle && s.states == [] && s.cmds == []
    && forall i :: 0 <= i < |s.workers| ==> s.workers[i] == Worker(Look, 0, 0)
  }

  // ---- counting ----

  lemma {:induction false} CountSet(ws: seq<Worker>, job: nat, i: nat, w: Worker)
    requires i < |ws|
    ensures Count(ws[i := w], job) + (if Unfinished(ws[i], job) then 1 else 0)
      == Count(ws, job) + if Unfinished(w, job) then 1 else 0
    decreases |ws|
  {
    var front := ws[..|ws| - 1];
    if i == |ws| - 1 {
      assert ws[i := w][..|ws| - 1] == front;
    } else {
      assert ws[i := w][..|ws| - 1] == front[i := w];
      CountSet(front, job, i, w);
    }
  }

  lemma {:induction false} CountAll(ws: seq<Worker>, job: nat)
    requires forall i :: 0 <= i < |ws| ==> Unfinished(ws[i], job)
    ensures Count(ws, job) == |ws|
    decreases |ws|
  {
    if ws != [] {
      var front := ws[..|ws| - 1];
      assert forall i :: 0 <= i < |front| ==> front[i] == ws[i];
      CountAll(front, job);
    }
  }

  lemma {:induction false} CountNone(ws: seq<Worker>, job: nat)
    ensures Count(ws, job) == 0 <==> forall i :: 0 <= i < |ws| ==> !Unfinished(ws[i], job)
    decreases |ws|
  {
    if ws != [] {
      var front := ws[..|ws| - 1];
      CountNone(front, job);
      if Count(ws, job) == 0 {
        forall i | 0 <= i < |ws| ensures !Unfinished(ws[i], job) {
          assert i < |front| ==> front[i] == ws[i];
        }
      } else if !Unfinished(ws[|ws| - 1], job) {
        var i :| 0 <= i < |front| && Unfinished(front[i], job);
        assert Unfinished(ws[i], job);
      }
    }
  }

  // ---- the invariant is kept ----

  lemma ByAppend(tr: seq<Event>, e: Event, b: nat)
    ensures By(tr + [e], b) == By(tr, b) + if e.band == b then [e.frag] else []
    ensures Drawn(tr + [e]) == Drawn(tr) + [e.frag]
  {
    assert (tr + [e])[..|tr|] == tr;
  }

  ghost predicate SameList(s: State, s': State) {
    s'.gpu == s.gpu && s'.states == s.states && s'.cmds == s.cmds
  }

  lemma DrawStep(before: Picture, tr: seq<Event>, e: Event)
    ensures ApplyAll(before, Drawn(tr + [e])) == Apply(ApplyAll(before, Drawn(tr)), e.frag)
  {
    ByAppend(tr, e, 0);
    assert (Drawn(tr) + [e.frag])[..|Drawn(tr)|] == Drawn(tr);
  }

  /** One thread draws the next fragment of its stream. */
  lemma DrawKeepsBands(s: State, s': State, d: nat, f: Frag)
    requires s.main != Idle && DrawingOk(s) && d < |s.streams|
    requires Progress(s, d) < |s.streams[d]| && f == s.streams[d][Progress(s, d)]
    requires s'.streams == s.streams && SameList(s, s') && |s'.workers| == |s.workers|
    requires s'.before == s.before && s'.pic == Apply(s.pic, f) && s'.trace == s.trace + [Event(d, f)]
    requires forall b :: 0 <= b < |s.streams| ==> Progress(s', b) == Progress(s, b) + if b == d then 1 else 0
    ensures DrawingOk(s')
  {
    hide Progress, BandStreams, Apply, ApplyAll, Drawn, By, Rows;
    DrawStep(s.before, s.trace, Event(d, f));
    forall b | 0 <= b < |s'.streams| ensures BandOk(s', b) {
      assert BandOk(s, b);
      ByAppend(s.trace, Event(d, f), b);
    }
    var top, height :| Cut(s, top, height);
    assert Cut(s', top, height);
  }

  /** A step that draws nothing and moves no thread along its stream. */
  lemma QuietKeepsBands(s: State, s': State)
    requires DrawingOk(s)
    requires s'.streams == s.streams && SameList(s, s') && |s'.workers| == |s.workers|
    requires s'.before == s.before && s'.pic == s.pic && s'.trace == s.trace
    requires forall b :: 0 <= b < |s.streams| ==> Progress(s', b) == Progress(s, b)
    ensures DrawingOk(s')
  {
    hide Progress, BandStreams, Rows;
    forall b | 0 <= b < |s'.streams| ensures BandOk(s', b) {
      assert BandOk(s, b);
    }
    var top, height :| Cut(s, top, height);
    assert Cut(s', top, height);
  }

  lemma PostKeeps(s: State)
    requires Inv(s) && Enabled(s, Post)
    ensures Inv(Do(s, Post))
  {
    hide Rows, BandStreams, BandsOf, Stream, Top, Height;
    var s' := Do(s, Post);
    BandsAreCut(s.gpu, s.states, s.cmds, |s.workers| + 1);
    StreamInRows(s.gpu, s.states, s.cmds);
    forall i | 0 <= i < |s'.workers| ensures WorkerOk(s', i) && Unfinished(s'.workers[i], s'.job) {
      assert WorkerOk(s, i);
    }
    CountAll(s'.workers, s'.job);
    assert Cut(s', Top(s.states), Height(s.states));
    forall b | 0 <= b < |s'.streams| ensures BandOk(s', b) {
      assert b > 0 ==> WorkerOk(s, b - 1) && Unfinished(s'.workers[b - 1], s'.job);
      assert Progress(s', b) == 0;
    }
  }

  lemma ListStepKeeps(s: State, t: Step)
    requires Inv(s) && Enabled(s, t) && (t.Record? || t.Alone?)
    ensures Inv(Do(s, t))
  {
    hide ApplyAll, Full, Height;
    var s' := Do(s, t);
    forall i | 0 <= i < |s'.workers| ensures WorkerOk(s', i) {
      assert WorkerOk(s, i);
    }
  }

  lemma WorkerStepKeeps(s: State, t: Step)
    requires Inv(s) && Enabled(s, t)
    requires t.WorkerLook? || t.WorkerDraw? || t.WorkerDone? || t.WorkerFinish? || t.WorkerWake?
    ensures Inv(Do(s, t))
  {
    hide Rows, BandStreams, Apply, DrawingOk, Count;
    var s' := Do(s, t);
    var w := t.w;
    assert WorkerOk(s, w);
    CountSet(s.workers, s.job, w, s'.workers[w]);
    forall i | 0 <= i < |s'.workers| ensures WorkerOk(s', i) {
      assert WorkerOk(s, i);
    }
    if s.main != Idle {
      SameStreams(s);
      if t.WorkerDraw? {
        DrawKeepsBands(s, s', w + 1, s.streams[w + 1][s.workers[w].pos]);
      } else {
        QuietKeepsBands(s, s');
      }
    }
  }

  lemma SameStreams(s: State)
    requires DrawingOk(s)
    ensures |s.streams| == |s.workers| + 1
  {
  }

  lemma MainStepKeeps(s: State, t: Step)
    requires Inv(s) && Enabled(s, t)
    requires t.MainDraw? || t.MainDone? || t.MainLook? || t.MainWake?
    ensures Inv(Do(s, t))
  {
    hide Rows, BandStreams, Apply, DrawingOk, Count;
    var s' := Do(s, t);
    CountNone(s.workers, s.job);
    forall i | 0 <= i < |s'.workers| ensures WorkerOk(s', i) {
      assert WorkerOk(s, i);
      assert s.pending == 0 ==> !Unfinished(s.workers[i], s.job);
    }
    if s'.main != Idle {
      SameStreams(s);
      if t.MainDraw? {
        DrawKeepsBands(s, s', 0, s.streams[0][s.pos]);
      } else {
        QuietKeepsBands(s, s');
      }
    }
  }

  lemma StepKeeps(s: State, t: Step)
    requires Inv(s) && Enabled(s, t)
    ensures Inv(Do(s, t))
  {
    hide Inv, Enabled, Do;
    if t.Post? {
      PostKeeps(s);
    } else if t.Record? || t.Alone? {
      ListStepKeeps(s, t);
    } else if t.MainDraw? || t.MainDone? || t.MainLook? || t.MainWake? {
      MainStepKeeps(s, t);
    } else {
      WorkerStepKeeps(s, t);
    }
  }

  lemma InitInv(s: State)
    requires Init(s)
    ensures Inv(s)
  {
    CountNone(s.workers, s.job);
  }

  /** A run: states joined by steps, from a start. */
  ghost predicate Run(states: seq<State>, steps: seq<Step>) {
    && |states| == |steps| + 1 && Init(states[0])
    && forall i :: 0 <= i < |steps| ==> Enabled(states[i], steps[i]) && states[i + 1] == Do(states[i], steps[i])
  }

  lemma {:induction false} RunKeeps(states: seq<State>, steps: seq<Step>, i: nat)
    requires Run(states, steps) && i < |states|
    ensures Inv(states[i])
    decreases i
  {
    hide Inv, Init, Do, Enabled;
    if i == 0 {
      InitInv(states[0]);
    } else {
      RunKeeps(states, steps, i - 1);
      StepKeeps(states[i - 1], steps[i - 1]);
    }
  }

  // ---- what it gives ----

  /** In every reachable state each worker is at most one job behind and g_pending counts exactly
      the workers that have not finished the current job. */
  lemma PendingCounts(states: seq<State>, steps: seq<Step>, i: nat)
    requires Run(states, steps) && i < |states|
    ensures var s := states[i];
      && s.pending == Count(s.workers, s.job)
      && forall w :: 0 <= w < |s.workers| ==> s.workers[w].seen <= s.job <= s.workers[w].seen + 1
  {
    RunKeeps(states, steps, i);
    var s := states[i];
    forall w | 0 <= w < |s.workers| ensures s.workers[w].seen <= s.job <= s.workers[w].seen + 1 {
      assert WorkerOk(s, w);
    }
  }

  /** The commands are touched (recorded or reset) only when no worker is in run_band. */
  lemma NobodyDrawsWhenListChanges(states: seq<State>, steps: seq<Step>, i: nat)
    requires Run(states, steps) && i < |steps| && !SameList(states[i], states[i + 1])
    ensures forall w :: 0 <= w < |states[i].workers| ==> states[i].workers[w].pc != Running
  {
    hide DrawingOk, Full, Shares, Helped, Pushed, WorkerOk, Draw, WakeAll;
    RunKeeps(states, steps, i);
    var s := states[i];
    OnlyWhenIdle(s, steps[i]);
    CountNone(s.workers, s.job);
    hide Count, Do, Enabled, Run;
    forall w | 0 <= w < |s.workers| ensures s.workers[w].pc != Running {
      NotRunning(s, w);
    }
  }

  /** Between flushes there is one to start exactly when commands are recorded; it uses the helpers exactly
      when there are some and its rows are 64 or more. */
  lemma FlushStarts(states: seq<State>, steps: seq<Step>, i: nat)
    requires Run(states, steps) && i < |states| && states[i].main == Idle
    ensures Enabled(states[i], Alone) || Enabled(states[i], Post) <==> states[i].cmds != []
    ensures Enabled(states[i], Post) <==>
            && states[i].cmds != [] && states[i].workers != []
            && exists b, t :: Edges(states[i].states, b, t) && b - t >= 64
    ensures !(Enabled(states[i], Alone) && Enabled(states[i], Post))
  {
    hide Height, Run, Edges;
    HeightAtLeast(states[i].states, 64);
  }

  /** The list changes only outside a flush, or as one ends. */
  lemma OnlyWhenIdle(s: State, t: Step)
    requires Enabled(s, t) && !SameList(s, Do(s, t))
    ensures s.main == Idle || s.pending == 0
  {
    hide Full, Shares, Helped, Pushed, WakeAll, ApplyAll, Apply;
  }

  lemma NotRunning(s: State, w: nat)
    requires w < |s.workers| && WorkerOk(s, w)
    requires s.main == Idle || !Unfinished(s.workers[w], s.job)
    ensures s.workers[w].pc != Running
  {
  }

  /** When a flush returns, whatever the interleaving of all threads, every pixel is what drawing the
      recorded commands in order, each with its own state, over the picture at the post would have
      left. */
  lemma FlushDrawsInOrder(states: seq<State>, steps: seq<Step>, i: nat, l: Loc)
    requires Run(states, steps) && i < |steps| && states[i].main == Waiting && states[i + 1].main == Idle
    ensures var s := states[i];
      Indexed(s.states, s.cmds) && states[i + 1].pic(l) == ApplyAll(s.before, Stream(s.gpu, s.states, s.cmds))(l)
  {
    hide Rows, ApplyAll, Drawn, Stream, Pushed, Shares, Helped, WakeAll, Apply, BandStreams;
    RunKeeps(states, steps, i);
    var s := states[i];
    ReturnsDone(s, steps[i]);
    hide Do, Enabled;
    var top, height :| Cut(s, top, height);
    CountNone(s.workers, s.job);
    forall b | 0 <= b < |s.streams| ensures By(s.trace, b) == s.streams[b] {
      assert BandOk(s, b);
      if b > 0 {
        assert WorkerOk(s, b - 1) && !Unfinished(s.workers[b - 1], s.job);
      }
    }
    assert Interleaves(s.trace, BandStreams(Full(s), top, height, |s.workers| + 1));
    BandsDrawInOrder(s.trace, Full(s), top, height, |s.workers| + 1, s.before, l);
  }

  lemma ReturnsDone(s: State, t: Step)
    requires Enabled(s, t) && s.main == Waiting && Do(s, t).main == Idle
    ensures s.pending == 0 && Do(s, t).pic == s.pic
  {
    hide Full, Shares, Helped, Pushed, WakeAll, ApplyAll, Apply;
  }

  /** A command is recorded with its own state, although equal states are stored once. */
  lemma RecordAdds(s: State, st: RState, line: bool, verts: int)
    requires Indexed(s.states, s.cmds)
    ensures Full(Pushed(s, st, line, verts)) == Full(s) + Frags(s.gpu, st, Command(0, line, verts))
  {
    hide Frags;
    var s' := Pushed(s, st, line, verts);
    var c := Command(|s'.states| - 1, line, verts);
    assert s'.cmds[..|s'.cmds| - 1] == s.cmds;
    StreamExtends(s.gpu, s.states, s'.states, s.cmds);
    FragsByVerts(s.gpu, st, |s'.states| - 1, 0, line, verts);
  }

  // ---- whole runs ----

  /** What the flushes that have returned after i steps were to draw, in the order it was recorded. */
  ghost function Flushed(states: seq<State>, steps: seq<Step>, i: nat): seq<Frag>
    requires |states| == |steps| + 1 && i <= |steps|
  {
    if i == 0 then []
    else
      var ends := steps[i - 1].Alone? || (states[i - 1].main != Idle && states[i].main == Idle);
      Flushed(states, steps, i - 1) + if ends then Full(states[i - 1]) else []
  }

  ghost predicate SamePicture(p: Picture, q: Picture) {
    forall l: Loc :: p(l) == q(l)
  }

  lemma SameApplied(p: Picture, q: Picture, f: Frag)
    requires SamePicture(p, q)
    ensures SamePicture(Apply(p, f), Apply(q, f))
  {
  }

  lemma {:induction false} SameDrawn(p: Picture, q: Picture, fs: seq<Frag>)
    requires SamePicture(p, q)
    ensures SamePicture(ApplyAll(p, fs), ApplyAll(q, fs))
    decreases |fs|
  {
    hide Apply, SamePicture;
    if fs != [] {
      SameDrawn(p, q, fs[..|fs| - 1]);
      SameApplied(ApplyAll(p, fs[..|fs| - 1]), ApplyAll(q, fs[..|fs| - 1]), fs[|fs| - 1]);
    }
  }

  /** What has been flushed, over the picture at the start: outside a flush the picture, within one the
      picture at its post. */
  ghost predicate Shown(s: State, p: Picture, fs: seq<Frag>) {
    SamePicture(if s.main == Idle then s.pic else s.before, ApplyAll(p, fs))
  }

  /** In every run of recordings and flushes, large and small, between flushes the picture is the one at
      the start with all flushed commands drawn over it in the order they were recorded. */
  lemma {:induction false} RunDrawsInOrder(states: seq<State>, steps: seq<Step>, i: nat)
    requires Run(states, steps) && i <= |steps|
    ensures Shown(states[i], states[0].pic, Flushed(states, steps, i))
    decreases i
  {
    hide ApplyAll, Full, Shares, Helped, Apply, Inv;
    if i > 0 {
      RunDrawsInOrder(states, steps, i - 1);
      var s, s', p := states[i - 1], states[i], states[0].pic;
      var fs := Flushed(states, steps, i - 1);
      assert Enabled(s, steps[i - 1]) && s' == Do(s, steps[i - 1]);
      assert fs + [] == fs;
      RunKeeps(states, steps, i - 1);
      BeforeStays(s, steps[i - 1]);
      hide Do, Enabled;
      if s.main != Idle && s'.main == Idle {
        forall l: Loc ensures s'.pic(l) == ApplyAll(s.before, Full(s))(l) {
          FlushReturns(states, steps, i - 1, l);
        }
        SameDrawn(s.before, ApplyAll(p, fs), Full(s));
        ApplyAppend(p, fs, Full(s));
      } else if steps[i - 1].Alone? {
        SameDrawn(s.pic, ApplyAll(p, fs), Full(s));
        ApplyAppend(p, fs, Full(s));
      }
    } else {
      ApplyNone(states[0].pic);
    }
  }

  /** Which picture a step changes. */
  lemma BeforeStays(s: State, t: Step)
    requires Inv(s) && Enabled(s, t)
    ensures var s' := Do(s, t);
      && (t.Alone? ==> s.main == Idle && s'.main == Idle && s'.pic == ApplyAll(s.pic, Full(s)))
      && (s.main == Idle && s'.main == Idle && !t.Alone? ==> s'.pic == s.pic)
      && (s.main == Idle && s'.main != Idle ==> s'.before == s.pic)
      && (s.main != Idle && s'.main != Idle ==> s'.before == s.before)
  {
    hide Full, Shares, Helped, WakeAll, ApplyAll, Apply, DrawingOk, Count;
    if t.WorkerLook? || t.WorkerDraw? || t.WorkerDone? || t.WorkerFinish? || t.WorkerWake? {
      assert WorkerOk(s, t.w);
    }
  }

  lemma FlushReturns(states: seq<State>, steps: seq<Step>, i: nat, l: Loc)
    requires Run(states, steps) && i < |steps| && states[i].main != Idle && states[i + 1].main == Idle
    ensures states[i + 1].pic(l) == ApplyAll(states[i].before, Full(states[i]))(l)
  {
    hide ApplyAll, Shares, Helped, Apply, Inv, Stream;
    FlushDrawsInOrder(states, steps, i, l);
  }

  // ---- progress ----

  /** A step other than recording, posting, or a spurious wake-up. */
  predicate Working(t: Step) {
    !t.Record? && !t.Alone? && !t.Post? && !t.MainWake? && !t.WorkerWake?
  }

  /** While a flush is under way some thread can take a working step: no wake-up is lost. */
  lemma FlushNeverStuck(states: seq<State>, steps: seq<Step>, i: nat) returns (t: Step)
    requires Run(states, steps) && i < |states| && states[i].main != Idle
    ensures Working(t) && Enabled(states[i], t)
  {
    hide Rows, BandStreams, Full, Cut, Do, Helped, Height, By, Drawn, ApplyAll;
    RunKeeps(states, steps, i);
    var s := states[i];
    hide Run;
    assert BandOk(s, 0);
    if s.main == Drawing {
      t := if s.pos < |s.streams[0]| then MainDraw else MainDone;
    } else if s.main == Waiting {
      t := MainLook;
    } else {
      CountNone(s.workers, s.job);
      var w :| 0 <= w < |s.workers| && Unfinished(s.workers[w], s.job);
      assert WorkerOk(s, w) && BandOk(s, w + 1);
      match s.workers[w].pc
      case Look => t := WorkerLook(w);
      case Running => t := if s.workers[w].pos < |s.streams[w + 1]| then WorkerDraw(w) else WorkerDone(w);
      case Finishing => t := WorkerFinish(w);
      case Asleep => assert false;
    }
  }

  /** The working steps a worker may still take in this flush. */
  function WorkerRank(w: Worker, job: nat, len: nat): nat {
    match w.pc
    case Asleep => 0
    case Look => if w.seen == job then 1 else 5 + len
    case Running => if w.pos <= len then 4 + (len - w.pos) else 4
    case Finishing => 3
  }

  function WorkersRank(ws: seq<Worker>, job: nat, streams: seq<seq<Frag>>): nat
    requires |ws| < |streams|
  {
    if ws == [] then 0
    else WorkersRank(ws[..|ws| - 1], job, streams) + WorkerRank(ws[|ws| - 1], job, |streams[|ws|]|)
  }

  function MainRank(s: State): nat
    requires |s.streams| > 0
  {
    match s.main
    case Drawing => if s.pos <= |s.streams[0]| then 2 + (|s.streams[0]| - s.pos) else 2
    case Waiting => 1
    case _ => 0
  }

  function Rank(s: State): nat
    requires |s.streams| == |s.workers| + 1
  {
    MainRank(s) + WorkersRank(s.workers, s.job, s.streams)
  }

  lemma {:induction false} RankSet(ws: seq<Worker>, job: nat, streams: seq<seq<Frag>>, i: nat, w: Worker)
    requires i < |ws| < |streams|
    ensures WorkersRank(ws[i := w], job, streams) + WorkerRank(ws[i], job, |streams[i + 1]|)
      == WorkersRank(ws, job, streams) + WorkerRank(w, job, |streams[i + 1]|)
    decreases |ws|
  {
    hide WorkerRank;
    var front := ws[..|ws| - 1];
    if i == |ws| - 1 {
      assert ws[i := w][..|ws| - 1] == front;
    } else {
      assert ws[i := w][..|ws| - 1] == front[i := w];
      RankSet(front, job, streams, i, w);
    }
  }

  /** Every working step brings the flush nearer its end: between spurious wake-ups a flush takes at
      most Rank steps, and FlushNeverStuck says it can always take one. */
  lemma FlushProgresses(states: seq<State>, steps: seq<Step>, i: nat)
    requires Run(states, steps) && i < |steps| && states[i].main != Idle && Working(steps[i])
    ensures |states[i].streams| == |states[i].workers| + 1 && |states[i + 1].streams| == |states[i + 1].workers| + 1
    ensures Rank(states[i + 1]) < Rank(states[i])
  {
    hide Rows, BandStreams, Apply, ApplyAll, Drawn, By, Count, Full, Cut, Shares, Helped, Pushed, WakeAll;
    RunKeeps(states, steps, i);
    var s, t := states[i], steps[i];
    var s' := states[i + 1];
    if t.WorkerLook? || t.WorkerDraw? || t.WorkerDone? || t.WorkerFinish? {
      assert WorkerOk(s, t.w) && BandOk(s, t.w + 1);
      RankSet(s.workers, s.job, s.streams, t.w, s'.workers[t.w]);
    } else {
      assert BandOk(s, 0);
    }
  }
}
