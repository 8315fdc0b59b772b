/** The same start and stop calls, move by move: several threads may call `gps_start`
    and `gps_stop`, and other callers and the manager threads run between the moves. The
    opening of a stop (the test of the thread id, the request, the read of the id for the
    join) is one move, and so is its clean-up. The flags are plain variables, so nothing
    but the callers keeps the moves apart. */
module Interleaving {
  import L = Lifecycle

  /** Where a manager thread is: not scheduled yet, past `gps_thread_stat = 1`, past
      `garden_force_stop = 1` and in its entry point, or back from it. */
  datatype Phase = Created | Started | Running | Leaving

  datatype Thread = Thread(phase: Phase, cmd: int)

  /** Where a caller is: not in a call, past the test of `gps_thread_stat` in a start, or
      waiting in `pthread_join` for a thread it asked to stop. */
  datatype Call = Idle | Starting(kind: L.StartKind) | Stopping(joined: int)

  datatype Fine = Fine(
    stat: int, tid: int, force: int, defaultType: int,
    threads: map<int, Thread>, calls: seq<Call>)

  datatype Move =
    | Check(caller: nat, kind: L.StartKind) | Create(caller: nat, newTid: int)
    | Prologue(thread: int) | Enter(thread: int) | Leave(thread: int) | Epilogue(thread: int)
    | Ask(caller: nat) | Joined(caller: nat)

  predicate At(f: Fine, t: int, phase: Phase) {
    t in f.threads && f.threads[t].phase == phase
  }

  /** An id for a new thread: not that of a live one, nor of an ended one that can still
      be joined. */
  predicate Unused(f: Fine, t: int) {
    && t != 0 && t != f.tid && t !in f.threads
    && (forall c | 0 <= c < |f.calls| && f.calls[c].Stopping? :: f.calls[c].joined != t)
  }

  predicate Enabled(f: Fine, m: Move) {
    match m
    case Check(c, _) => c < |f.calls| && f.calls[c].Idle?
    case Create(c, t) => c < |f.calls| && f.calls[c].Starting? && Unused(f, t)
    case Prologue(t) => At(f, t, Created)
    case Enter(t) => At(f, t, Started)
    case Leave(t) => At(f, t, Running)
    case Epilogue(t) => At(f, t, Leaving)
    case Ask(c) => c < |f.calls| && f.calls[c].Idle?
    case Joined(c) => c < |f.calls| && f.calls[c].Stopping? && f.calls[c].joined !in f.threads
  }

  function Advance(f: Fine, t: int, phase: Phase): map<int, Thread>
    requires t in f.threads
  {
    f.threads[t := f.threads[t].(phase := phase)]
  }

  function Apply(f: Fine, m: Move): Fine
    requires Enabled(f, m)
  {
    match m
    case Check(c, kind) =>
      if f.stat != 0 then f else f.(calls := f.calls[c := Starting(kind)])
    case Create(c, t) =>
      var cmd := L.CommandType(f.defaultType, f.calls[c].kind);
      f.(tid := t, threads := f.threads[t := Thread(Created, cmd)], calls := f.calls[c := Idle])
    case Prologue(t) => f.(stat := 1, threads := Advance(f, t, Started))
    case Enter(t) => f.(force := 1, threads := Advance(f, t, Running))
    case Leave(t) => f.(threads := Advance(f, t, Leaving))
    case Epilogue(t) => f.(stat := 0, threads := f.threads - {t})
    case Ask(c) =>
      if f.tid == 0 then f else f.(force := 0, calls := f.calls[c := Stopping(f.tid)])
    case Joined(c) => f.(tid := 0, stat := 0, calls := f.calls[c := Idle])
  }

  // ---------------------------------------------------------------- calls kept apart

  /** No manager is between its creation and its entry point. */
  ghost predicate Entered(f: Fine) {
    forall t | t in f.threads :: f.threads[t].phase in {Running, Leaving}
  }

  /** No call is under way, and no manager is between its creation and its entry point. */
  ghost predicate Quiet(f: Fine) {
    && (forall c | 0 <= c < |f.calls| :: f.calls[c].Idle?)
    && Entered(f)
  }

  /** A caller that begins a start or a stop only when nothing else is under way, as
      if a lock were held from the call to the manager's entry point. */
  ghost predicate Exclusive(f: Fine, m: Move) {
    m.Check? || m.Ask? ==> Quiet(f)
  }

  ghost predicate Invariant(f: Fine) {
    && (f.threads == map[] || (f.tid != 0 && f.threads.Keys == {f.tid}))
    && f.stat == (if f.threads == map[] || f.threads[f.tid].phase == Created then 0 else 1)
    && (forall c, d | 0 <= c < d < |f.calls| :: f.calls[c].Idle? || f.calls[d].Idle?)
    && (forall c | 0 <= c < |f.calls| && f.calls[c].Starting? :: f.threads == map[])
    && (forall c | 0 <= c < |f.calls| && f.calls[c].Stopping? ::
          f.calls[c].joined == f.tid != 0 && f.force == 0
          && (f.threads != map[] ==> f.threads[f.tid].phase in {Running, Leaving}))
    && ((forall c | 0 <= c < |f.calls| :: !f.calls[c].Stopping?) ==>
          f.force == 1 || f.tid == 0 || (f.threads != map[] && f.threads[f.tid].phase in {Created, Started}))
    && (f.tid == 0 ==> f.force == 0)
  }

  /** The coarse state a fine one stands for: a start counts from the creation of the
      thread, a stop from the end of its join. */
  ghost function Coarse(f: Fine, noStart: bool, count: int): L.State {
    L.State(if f.threads == map[] then 0 else 1, f.tid, if f.tid == 0 then 0 else 1, f.defaultType,
            noStart, count, map t | t in f.threads :: f.threads[t].cmd)
  }

  lemma ExclusiveKeepsInvariant(f: Fine, m: Move)
    requires Invariant(f) && Enabled(f, m) && Exclusive(f, m)
    ensures Invariant(Apply(f, m))
  {
    var f' := Apply(f, m);
    if !m.Joined? && !(m.Ask? && f.tid != 0) {
      assert forall c | 0 <= c < |f.calls| :: f'.calls[c].Stopping? <==> f.calls[c].Stopping?;
    }
    if m.Ask? && f.tid != 0 {
      assert f'.calls[m.caller].Stopping?;
    }
  }

  /** The coarse step that a move makes, if any; `kind` is what the last start asked for. */
  function CoarseStep(m: Move, kind: L.StartKind, s: L.State): L.State {
    match m
    case Create(_, t) => L.Start(s, kind, t)
    case Joined(_) => L.Stop(s)
    case Epilogue(t) => L.ManagerReturns(s, t)
    case _ => s
  }

  lemma CoarseOneManager(f: Fine, noStart: bool, count: int)
    requires Invariant(f) && 0 <= count <= 10 && (noStart ==> count == 0)
    ensures L.OneManager(Coarse(f, noStart, count))
  {
    var s := Coarse(f, noStart, count);
    assert s.live.Keys == f.threads.Keys;
  }

  // ---------------------------------------------------------------- runs

  predicate CanRun(f: Fine, moves: seq<Move>)
    decreases |moves|
  {
    moves == [] || (Enabled(f, moves[0]) && CanRun(Apply(f, moves[0]), moves[1..]))
  }

  function RunMoves(f: Fine, moves: seq<Move>): Fine
    requires CanRun(f, moves)
    decreases |moves|
  {
    if moves == [] then f else RunMoves(Apply(f, moves[0]), moves[1..])
  }

  ghost predicate ExclusiveRun(f: Fine, moves: seq<Move>)
    requires CanRun(f, moves)
    decreases |moves|
  {
    moves == [] || (Exclusive(f, moves[0]) && ExclusiveRun(Apply(f, moves[0]), moves[1..]))
  }

  lemma {:induction false} ExclusiveRunsKeepInvariant(f: Fine, moves: seq<Move>)
    requires Invariant(f) && CanRun(f, moves) && ExclusiveRun(f, moves)
    ensures Invariant(RunMoves(f, moves))
    decreases |moves|
  {
    if moves == [] {
    } else {
      ExclusiveKeepsInvariant(f, moves[0]);
      ExclusiveRunsKeepInvariant(Apply(f, moves[0]), moves[1..]);
    }
  }

  /** Before any call; every caller is idle. */
  ghost predicate Unstarted(f: Fine) {
    && f.stat == 0 && f.tid == 0 && f.force == 0 && f.threads == map[]
    && (forall c | 0 <= c < |f.calls| :: f.calls[c].Idle?)
  }

  /** What a manager has in the flags: its name, and the status from its prologue to its end. */
  ghost predicate Named(f: Fine) {
    && (f.threads != map[] ==> f.threads.Keys == {f.tid})
    && (f.stat == 1 <==> f.threads != map[] && f.threads[f.tid].phase != Created)
    && (f.stat == 0 || f.stat == 1)
  }

  /** The real flags, whatever is under way: at most one manager, which
      `garden_mgr_tid` names; the status is 1 exactly from its prologue to its end; and
      `garden_force_stop` is 0 while a stop waits or no thread is named, and 1 otherwise
      once the named manager has entered. */
  ghost predicate FlagsAgree(f: Fine) {
    && Named(f)
    && (f.tid == 0 || StopWaits(f) ==> f.force == 0)
    && (f.tid != 0 && !StopWaits(f) && Entered(f) ==> f.force == 1)
  }

  ghost predicate StopWaits(f: Fine) {
    exists c :: 0 <= c < |f.calls| && f.calls[c].Stopping?
  }

  /** From the start of the program, over any run whose calls are kept apart, there is at
      most one manager, and the program's flags say so. */
  lemma {:induction false} ExclusiveRunsOneManager(f: Fine, moves: seq<Move>)
    requires Unstarted(f) && CanRun(f, moves) && ExclusiveRun(f, moves)
    ensures FlagsAgree(RunMoves(f, moves))
    ensures L.OneManager(Coarse(RunMoves(f, moves), false, 0))
  {
    ExclusiveRunsKeepInvariant(f, moves);
    CoarseOneManager(RunMoves(f, moves), false, 0);
    InvariantFlagsAgree(RunMoves(f, moves));
  }

  lemma InvariantFlagsAgree(f: Fine)
    requires Invariant(f)
    ensures FlagsAgree(f)
  {
  }

  /** The kind of the last start asked for. */
  function KindAfter(m: Move, kind: L.StartKind): L.StartKind {
    if m.Check? then m.kind else kind
  }

  /** The coarse steps that a run of moves makes, made one after the other. They are read
      off the moves alone. */
  function CoarseRun(moves: seq<Move>, kind: L.StartKind, s: L.State): L.State
    decreases |moves|
  {
    if moves == [] then s else
      CoarseRun(moves[1..], KindAfter(moves[0], kind), CoarseStep(moves[0], kind, s))
  }

  // ---------------------------------------------------------------- starts kept apart

  ghost predicate NobodyStarts(f: Fine) {
    forall d | 0 <= d < |f.calls| :: !f.calls[d].Starting?
  }

  /** A caller that begins a start only when nothing else is under way, and a stop whenever
      no caller is past the test of a start. */
  ghost predicate Careful(f: Fine, m: Move) {
    && (m.Check? ==> Quiet(f))
    && (m.Ask? ==> NobodyStarts(f))
  }

  /** Any number of stops are under way and no start is: a manager is the one that the
      thread id names, and the status is as it should be. A stop that ends late clears flags
      that are clear already. */
  ghost predicate OnlyStops(f: Fine) {
    && NobodyStarts(f)
    && (f.threads == map[] || (f.tid != 0 && f.threads.Keys == {f.tid}))
    && f.stat == (if f.threads == map[] || f.threads[f.tid].phase == Created then 0 else 1)
    && (forall d | 0 <= d < |f.calls| && f.calls[d].Stopping? ::
          f.calls[d].joined == f.tid || (f.tid == 0 && f.threads == map[]))
  }

  /** One caller is past the test, with no manager there, and no other call is under way. */
  ghost predicate OneStart(f: Fine) {
    && f.threads == map[] && f.stat == 0
    && (exists c :: 0 <= c < |f.calls| && OnlyCaller(f, c) && f.calls[c].Starting?)
  }

  ghost predicate OnlyCaller(f: Fine, c: nat) {
    forall d | 0 <= d < |f.calls| && d != c :: f.calls[d].Idle?
  }

  ghost predicate Orderly(f: Fine) {
    OnlyStops(f) || OneStart(f)
  }

  /** Calls kept apart are a special case. */
  lemma ExclusiveIsCareful(f: Fine, m: Move)
    requires Invariant(f)
    ensures Orderly(f) && (Exclusive(f, m) ==> Careful(f, m))
  {
    if c :| 0 <= c < |f.calls| && f.calls[c].Starting? {
      forall d | 0 <= d < |f.calls| && d != c ensures f.calls[d].Idle? {
        assert c < d || d < c;
      }
      assert OnlyCaller(f, c);
    }
  }

  lemma CarefulKeepsOrderly(f: Fine, m: Move)
    requires Orderly(f) && Enabled(f, m) && Careful(f, m)
    ensures Orderly(Apply(f, m))
  {
    hide OneStart, OnlyStops;
    if OneStart(f) {
      CarefulAfterStart(f, m);
    } else if m.Check? {
      CheckAfterStops(f, m);
    } else if m.Ask? {
      AskAfterStops(f, m);
    } else {
      OnlyStopsKept(f, m);
    }
  }

  lemma CheckAfterStops(f: Fine, m: Move)
    requires OnlyStops(f) && m.Check? && Enabled(f, m) && Quiet(f)
    ensures Orderly(Apply(f, m))
  {
    if f.stat == 0 {
      assert f.threads != map[] ==> f.tid in f.threads;
      assert OnlyCaller(Apply(f, m), m.caller) && Apply(f, m).calls[m.caller].Starting?;
    }
  }

  lemma AskAfterStops(f: Fine, m: Move)
    requires OnlyStops(f) && m.Ask? && Enabled(f, m)
    ensures OnlyStops(Apply(f, m))
  {
    var f' := Apply(f, m);
    assert forall d | 0 <= d < |f.calls| :: f'.calls[d] == f.calls[d] || f'.calls[d] == Stopping(f.tid);
  }

  lemma OnlyStopsKept(f: Fine, m: Move)
    requires OnlyStops(f) && Enabled(f, m) && !m.Check? && !m.Ask?
    ensures OnlyStops(Apply(f, m))
  {
    var f' := Apply(f, m);
    assert !m.Create?;
    assert forall d | 0 <= d < |f.calls| :: f'.calls[d] == f.calls[d] || f'.calls[d].Idle?;
  }

  lemma CarefulAfterStart(f: Fine, m: Move)
    requires OneStart(f) && Enabled(f, m) && Careful(f, m)
    ensures Orderly(Apply(f, m))
  {
    var c :| 0 <= c < |f.calls| && OnlyCaller(f, c) && f.calls[c].Starting?;
    assert m.Create? && m.caller == c;
    assert forall d | 0 <= d < |f.calls| :: Apply(f, m).calls[d].Idle?;
  }

  ghost predicate CarefulRun(f: Fine, moves: seq<Move>)
    requires CanRun(f, moves)
    decreases |moves|
  {
    moves == [] || (Careful(f, moves[0]) && CarefulRun(Apply(f, moves[0]), moves[1..]))
  }

  lemma {:induction false} CarefulRunsKeepOrderly(f: Fine, moves: seq<Move>)
    requires Orderly(f) && CanRun(f, moves) && CarefulRun(f, moves)
    ensures Orderly(RunMoves(f, moves))
    decreases |moves|
  {
    if moves == [] {
    } else {
      CarefulKeepsOrderly(f, moves[0]);
      CarefulRunsKeepOrderly(Apply(f, moves[0]), moves[1..]);
    }
  }

  /** At most one manager, and once everything has settled the two flags agree with it. */
  ghost predicate Sound(f: Fine) {
    && (forall t, u | t in f.threads && u in f.threads :: t == u)
    && (Quiet(f) ==> (f.stat == 1 <==> f.threads != map[]) && (f.threads != map[] ==> f.tid in f.threads))
  }

  /** From the start of the program there is at most one manager, named and flagged, over any
      run whose starts wait for quiet and whose stops wait only for callers past the test of a
      start. Stops may overlap each other and a manager on its way to its entry. */
  lemma {:induction false} CarefulRunsOneManager(f: Fine, moves: seq<Move>)
    requires Unstarted(f) && CanRun(f, moves) && CarefulRun(f, moves)
    ensures Orderly(RunMoves(f, moves)) && Named(RunMoves(f, moves)) && Sound(RunMoves(f, moves))
  {
    assert OnlyStops(f);
    CarefulRunsKeepOrderly(f, moves);
  }

  /** A caller past the test asked for `kind`. */
  ghost predicate KindIs(f: Fine, kind: L.StartKind) {
    forall c | 0 <= c < |f.calls| && f.calls[c].Starting? :: f.calls[c].kind == kind
  }

  /** And what they do is what the atomic machine does, one step for each creation, join and
      return; a second stop of the same manager does nothing more. */
  lemma CarefulSimulates(f: Fine, m: Move, kind: L.StartKind, noStart: bool, count: int)
    requires Orderly(f) && Enabled(f, m) && Careful(f, m) && KindIs(f, kind)
    ensures Coarse(Apply(f, m), noStart, count) == CoarseStep(m, kind, Coarse(f, noStart, count))
    ensures KindIs(Apply(f, m), KindAfter(m, kind))
  {
    assert m.Create? ==> f.threads == map[];
  }

  lemma {:induction false} CarefulRunsRefine(
      f: Fine, moves: seq<Move>, kind: L.StartKind, noStart: bool, count: int)
    requires Orderly(f) && CanRun(f, moves) && CarefulRun(f, moves) && KindIs(f, kind)
    ensures Coarse(RunMoves(f, moves), noStart, count) == CoarseRun(moves, kind, Coarse(f, noStart, count))
    decreases |moves|
  {
    hide Coarse, Orderly, Careful, CoarseStep, KindIs;
    if moves == [] {
    } else {
      CarefulSimulates(f, moves[0], kind, noStart, count);
      CarefulKeepsOrderly(f, moves[0]);
      CarefulRunsRefine(Apply(f, moves[0]), moves[1..], KindAfter(moves[0], kind), noStart, count);
    }
  }

  // ---------------------------------------------------------------- calls that overlap

  /** The calls under way go on, and no new one begins. */
  predicate NoNewCalls(moves: seq<Move>) {
    forall m | m in moves :: !m.Check? && !m.Ask?
  }

  ghost predicate SoundFromHere(f: Fine) {
    forall moves | NoNewCalls(moves) && CanRun(f, moves) :: Sound(RunMoves(f, moves))
  }

  lemma {:induction false} NoNewCallsAreCareful(f: Fine, moves: seq<Move>)
    requires NoNewCalls(moves) && CanRun(f, moves)
    ensures CarefulRun(f, moves)
    decreases |moves|
  {
    if moves == [] {
    } else {
      assert moves[0] in moves && forall m | m in moves[1..] :: m in moves;
      NoNewCallsAreCareful(Apply(f, moves[0]), moves[1..]);
    }
  }

  lemma OrderlySoundFromHere(f: Fine)
    requires Orderly(f)
    ensures SoundFromHere(f)
  {
    forall moves | NoNewCalls(moves) && CanRun(f, moves) ensures Sound(RunMoves(f, moves)) {
      NoNewCallsAreCareful(f, moves);
      CarefulRunsKeepOrderly(f, moves);
      assert Orderly(RunMoves(f, moves));
    }
  }

  lemma UnsoundNow(f: Fine)
    requires !Sound(f)
    ensures !SoundFromHere(f)
  {
    assert CanRun(f, []) && RunMoves(f, []) == f && NoNewCalls([]);
  }

  lemma UnsoundLater(f: Fine, m: Move)
    requires Enabled(f, m) && !m.Check? && !m.Ask? && !SoundFromHere(Apply(f, m))
    ensures !SoundFromHere(f)
  {
    hide Sound;
    var rest :| NoNewCalls(rest) && CanRun(Apply(f, m), rest) && !Sound(RunMoves(Apply(f, m), rest));
    RunOne(f, m, rest);
    assert NoNewCalls([m] + rest) && !Sound(RunMoves(f, [m] + rest));
  }

  lemma RunTwo(f: Fine, m: Move, n: Move)
    requires Enabled(f, m) && Enabled(Apply(f, m), n)
    ensures CanRun(f, [m, n]) && RunMoves(f, [m, n]) == Apply(Apply(f, m), n)
  {
    var g := Apply(f, m);
    assert [m, n][1..] == [n] && [n][1..] == [];
    assert CanRun(Apply(g, n), []) && CanRun(g, [n]);
    assert RunMoves(g, [n]) == RunMoves(Apply(g, n), []);
  }

  /** An id above all those in use. */
  function NewId(f: Fine): (t: int)
    requires f.threads.Keys <= {f.tid}
    ensures Unused(f, t)
  {
    var above := AboveJoined(f.calls);
    if f.tid < above then above else f.tid + 1
  }

  function AboveJoined(calls: seq<Call>): (t: int)
    ensures 0 < t && forall c | 0 <= c < |calls| && calls[c].Stopping? :: calls[c].joined < t
  {
    if calls == [] then 1 else
      var t, last := AboveJoined(calls[..|calls| - 1]), calls[|calls| - 1];
      if last.Stopping? && t <= last.joined then last.joined + 1 else t
  }

  /** Two callers past the test: two managers. */
  lemma DoubleStart(f: Fine, c: nat, d: nat)
    requires f.threads == map[] && c < |f.calls| && d < |f.calls| && c != d
    requires f.calls[c].Starting? && f.calls[d].Starting?
    ensures !SoundFromHere(f)
  {
    var t := NewId(f);
    StartOverCreated(Apply(f, Create(c, t)), d, t);
    UnsoundLater(f, Create(c, t));
  }

  /** A start between another start's creation and its manager's prologue: two managers. */
  lemma StartOverCreated(f: Fine, c: nat, t: int)
    requires f.threads.Keys == {t} == {f.tid} && c < |f.calls| && f.calls[c].Starting?
    ensures !SoundFromHere(f)
  {
    var u := NewId(f);
    var g := Apply(f, Create(c, u));
    assert t in f.threads && t in g.threads && u in g.threads;
    UnsoundNow(g);
    UnsoundLater(f, Create(c, u));
  }

  /** A start between the end of a stopped thread and the stop's own clean-up: the new
      manager runs, and the flags say that there is none. */
  lemma StartOverJoin(f: Fine, c: nat, d: nat)
    requires f.threads == map[] && c < |f.calls| && d < |f.calls|
    requires f.calls[c].Starting? && f.calls[d].Stopping?
    requires forall e | 0 <= e < |f.calls| && e != c :: !f.calls[e].Starting?
    ensures !SoundFromHere(f)
  {
    var t := NewId(f);
    var f1 := Apply(f, Create(c, t));
    var f2 := Apply(f1, Prologue(t));
    var f3 := Apply(f2, Enter(t));
    var f4 := Apply(f3, Joined(d));
    assert t in f4.threads;
    NameLost(f4, |f4.calls|);
    UnsoundLater(f3, Joined(d));
    UnsoundLater(f2, Enter(t));
    UnsoundLater(f1, Prologue(t));
    UnsoundLater(f, Create(c, t));
  }

  /** A manager that no flag knows, with the first `n` callers at most in stops that can end:
      once they have, all is quiet, and the flags are wrong. */
  lemma {:induction false} NameLost(f: Fine, n: nat)
    requires f.tid == 0 && f.stat == 0 && f.threads != map[] && Entered(f) && n <= |f.calls|
    requires forall d | 0 <= d < |f.calls| ::
      f.calls[d].Idle? || (d < n && f.calls[d].Stopping? && f.calls[d].joined !in f.threads)
    ensures !SoundFromHere(f)
    decreases n
  {
    if n == 0 {
      assert Quiet(f) && !Sound(f);
      UnsoundNow(f);
    } else if f.calls[n - 1].Idle? {
      NameLost(f, n - 1);
    } else {
      NameLost(Apply(f, Joined(n - 1)), n - 1);
      UnsoundLater(f, Joined(n - 1));
    }
  }

  /** A start that finds the status 0 is safe, whatever the scheduler then does with the
      calls and threads under way, if and only if nothing else was under way. */
  lemma StartSafeIffQuiet(f: Fine, c: nat, kind: L.StartKind)
    requires Orderly(f) && Enabled(f, Check(c, kind)) && f.stat == 0
    ensures SoundFromHere(Apply(f, Check(c, kind))) <==> Quiet(f)
  {
    var g := Apply(f, Check(c, kind));
    if Quiet(f) {
      CarefulKeepsOrderly(f, Check(c, kind));
      OrderlySoundFromHere(g);
    } else if d :| 0 <= d < |f.calls| && f.calls[d].Starting? {
      DoubleStart(g, c, d);
    } else if f.threads != map[] {
      StartOverCreated(g, c, f.tid);
    } else {
      var d :| 0 <= d < |f.calls| && f.calls[d].Stopping?;
      StartOverJoin(g, c, d);
    }
  }

  /** Only managers of the requested kind for the given type are there or to come. */
  ghost predicate Requested(f: Fine, defaultType: int, kind: L.StartKind) {
    && f.defaultType == defaultType && KindIs(f, kind)
    && (forall t | t in f.threads :: L.IsCommand(f.threads[t].cmd, defaultType, kind.Cold?))
  }

  lemma {:induction false} RequestedStays(f: Fine, moves: seq<Move>, defaultType: int, kind: L.StartKind)
    requires Requested(f, defaultType, kind) && NoNewCalls(moves) && CanRun(f, moves)
    ensures Requested(RunMoves(f, moves), defaultType, kind)
    decreases |moves|
  {
    if moves == [] {
    } else {
      var m := moves[0];
      assert m in moves && forall m' | m' in moves[1..] :: m' in moves;
      RequestedKept(f, m, defaultType, kind);
      RequestedStays(Apply(f, m), moves[1..], defaultType, kind);
    }
  }

  lemma RequestedKept(f: Fine, m: Move, defaultType: int, kind: L.StartKind)
    requires Requested(f, defaultType, kind) && Enabled(f, m) && !m.Check? && !m.Ask?
    ensures Requested(Apply(f, m), defaultType, kind)
  {
    var f' := Apply(f, m);
    L.CommandTypeIs(defaultType, kind);
    assert forall c | 0 <= c < |f.calls| :: f'.calls[c] == f.calls[c] || f'.calls[c].Idle?;
  }

  /** A start made when all is quiet leads to a manager of the kind the call asked for, and
      to no other, however the calls and threads under way are scheduled. */
  lemma StartRunsRequested(f: Fine, c: nat, kind: L.StartKind, moves: seq<Move>)
    requires Orderly(f) && Quiet(f) && f.stat == 0 && Enabled(f, Check(c, kind))
    requires NoNewCalls(moves) && CanRun(Apply(f, Check(c, kind)), moves)
    ensures var g := RunMoves(Apply(f, Check(c, kind)), moves);
      forall t | t in g.threads :: L.IsCommand(g.threads[t].cmd, f.defaultType, kind.Cold?)
  {
    assert f.threads != map[] ==> f.tid in f.threads;
    RequestedStays(Apply(f, Check(c, kind)), moves, f.defaultType, kind);
  }

  // ---------------------------------------------------------------- stops

  /** While the call waits, the flag it cleared stays cleared. */
  ghost predicate Stands(f: Fine, c: nat) {
    c < |f.calls| && f.calls[c].Stopping? ==> f.force == 0
  }

  /** It does so whatever the scheduler makes of the calls and threads under way. */
  ghost predicate StandsFromHere(f: Fine, c: nat) {
    forall moves | NoNewCalls(moves) && CanRun(f, moves) :: Stands(RunMoves(f, moves), c)
  }

  /** No start is under way: no caller is past the test of the status, and no manager is
      on its way to its entry point. */
  ghost predicate NoStartUnderWay(f: Fine) {
    && NobodyStarts(f)
    && Entered(f)
  }

  /** Every start that is tried finds the status set, and is refused. */
  predicate StartsRefused(f: Fine, moves: seq<Move>)
    requires CanRun(f, moves)
    decreases |moves|
  {
    moves == [] || ((moves[0].Check? ==> f.stat != 0) && StartsRefused(Apply(f, moves[0]), moves[1..]))
  }

  lemma {:induction false} NoNewCallsNoStarts(f: Fine, moves: seq<Move>)
    requires NoNewCalls(moves) && CanRun(f, moves)
    ensures StartsRefused(f, moves)
    decreases |moves|
  {
    if moves == [] {
    } else {
      assert moves[0] in moves && forall m | m in moves[1..] :: m in moves;
      NoNewCallsNoStarts(Apply(f, moves[0]), moves[1..]);
    }
  }

  lemma {:induction false} NobodySetsForce(f: Fine, moves: seq<Move>)
    requires NoStartUnderWay(f) && f.force == 0 && CanRun(f, moves) && StartsRefused(f, moves)
    ensures RunMoves(f, moves).force == 0
    decreases |moves|
  {
    if moves == [] {
    } else {
      NobodySetsForce(Apply(f, moves[0]), moves[1..]);
    }
  }

  /** A request made when no start was under way stands through any run, new calls included,
      until some start finds the status clear: further stops and refused starts leave it. */
  lemma {:induction false} StopStandsUntilStart(f: Fine, c: nat, moves: seq<Move>)
    requires NoStartUnderWay(f) && Enabled(f, Ask(c)) && f.tid != 0
    requires CanRun(Apply(f, Ask(c)), moves) && StartsRefused(Apply(f, Ask(c)), moves)
    ensures RunMoves(Apply(f, Ask(c)), moves).force == 0
  {
    NobodySetsForce(Apply(f, Ask(c)), moves);
  }

  lemma RunOne(f: Fine, m: Move, rest: seq<Move>)
    requires Enabled(f, m) && CanRun(Apply(f, m), rest)
    ensures CanRun(f, [m] + rest) && RunMoves(f, [m] + rest) == RunMoves(Apply(f, m), rest)
  {
    assert ([m] + rest)[1..] == rest;
  }

  /** A manager that has yet to enter overwrites the request when it does: the caller
      then waits for a manager that nobody is asking to stop. */
  lemma EarlyStopIsLost(g: Fine, c: nat, t: int)
    requires c < |g.calls| && g.calls[c].Stopping? && (At(g, t, Created) || At(g, t, Started))
    ensures !StandsFromHere(g, c)
  {
    var moves := if At(g, t, Created) then [Prologue(t), Enter(t)] else [Enter(t)];
    if At(g, t, Created) {
      RunTwo(g, Prologue(t), Enter(t));
    } else {
      assert CanRun(Apply(g, Enter(t)), []) && [Enter(t)] + [] == [Enter(t)];
      RunOne(g, Enter(t), []);
    }
    assert NoNewCalls(moves) && !Stands(RunMoves(g, moves), c);
  }

  /** And so does the manager of a caller that is past the test of the status. */
  lemma StopDuringStartIsLost(g: Fine, c: nat, d: nat)
    requires g.threads == map[] && c < |g.calls| && d < |g.calls|
    requires g.calls[c].Stopping? && g.calls[d].Starting?
    ensures !StandsFromHere(g, c)
  {
    var t := NewId(g);
    var m := Create(d, t);
    var h := Apply(g, m);
    RunTwo(h, Prologue(t), Enter(t));
    var rest := [Prologue(t), Enter(t)];
    RunOne(g, m, rest);
    assert NoNewCalls([m] + rest) && !Stands(RunMoves(g, [m] + rest), c);
  }

  /** A stop's request stands until its join is done, under every schedule of the calls and
      threads under way, if and only if no start was under way when it was asked for. */
  lemma StopStandsIffNoStart(f: Fine, c: nat)
    requires Orderly(f) && Enabled(f, Ask(c)) && f.tid != 0
    ensures StandsFromHere(Apply(f, Ask(c)), c) <==> NoStartUnderWay(f)
  {
    var g := Apply(f, Ask(c));
    if NoStartUnderWay(f) {
      forall moves | NoNewCalls(moves) && CanRun(g, moves) ensures Stands(RunMoves(g, moves), c) {
        NoNewCallsNoStarts(g, moves);
        NobodySetsForce(g, moves);
      }
    } else if d :| 0 <= d < |f.calls| && f.calls[d].Starting? {
      StopDuringStartIsLost(g, c, d);
    } else {
      EarlyStopIsLost(g, c, f.tid);
    }
  }

  /** A stop is safe under every schedule of the calls and threads under way, whatever manager
      it meets, if and only if no caller was past the test of the status: only such a caller's
      manager can fall between the stop's join and its clean-up. */
  lemma StopSafeIffNobodyStarts(f: Fine, c: nat)
    requires Orderly(f) && Enabled(f, Ask(c)) && f.tid != 0
    ensures SoundFromHere(Apply(f, Ask(c))) <==> NobodyStarts(f)
  {
    var g := Apply(f, Ask(c));
    if d :| 0 <= d < |f.calls| && f.calls[d].Starting? {
      StartOverJoin(g, d, c);
    } else {
      CarefulKeepsOrderly(f, Ask(c));
      OrderlySoundFromHere(g);
    }
  }

  /** So when calls are kept apart, every waiting stop's request stands. */
  lemma ExclusiveStopStands(f: Fine, moves: seq<Move>, c: nat)
    requires Invariant(f) && CanRun(f, moves) && ExclusiveRun(f, moves)
    ensures var g := RunMoves(f, moves);
      c < |g.calls| && g.calls[c].Stopping? ==> g.force == 0 && g.calls[c].joined == g.tid
  {
    ExclusiveRunsKeepInvariant(f, moves);
  }
}
