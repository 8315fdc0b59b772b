/** Start, stop, reset and supervision of the GPS manager thread. One step is one
    command handled, one watchdog round, or one manager thread returning: a start
    includes the new thread's prologue, a stop includes the join. */
module Lifecycle {
  import W = Watchdog

  datatype StartKind = Warm | Cold

  const GPS_TYPE_AGPS := 0
  const GPS_TYPE_SGPS := 1
  const GPS_TYPE_SGPS_WITH_XTRA := 2

  const SET_GPS_COLD_START := "set_start_c"
  const SET_GPS_WARM_START := "set_start_w"
  const GET_GPS_STAT := "get_stat"
  const SET_GPS_STOP := "set_stop"
  const SET_GPS_RESET_COLD_BOOT := "set_reset_c"
  const SET_GPS_RESET_WARM_BOOT := "set_reset_w"

  /** The command type a manager runs: one of GPS_CMD_TYPE_AGPS_WARM_START (1) up to
      GPS_CMD_TYPE_SGPS_WITH_XTRA_COLD_START (6). An unknown default type means AGPS. */
  function CommandType(defaultType: int, kind: StartKind): int {
    var base :=
      if defaultType == GPS_TYPE_SGPS then 3
      else if defaultType == GPS_TYPE_SGPS_WITH_XTRA then 5
      else 1;
    if kind.Warm? then base else base + 1
  }

  /** The commands are 1 to 6, two for each type: the odd one starts warm, the even one cold. */
  predicate IsCommand(cmd: int, defaultType: int, cold: bool) {
    && 1 <= cmd <= 6
    && (cmd % 2 == 0 <==> cold)
    && (cmd - 1) / 2 == (if 0 <= defaultType <= 2 then defaultType else 0)
  }

  lemma CommandTypeIs(defaultType: int, kind: StartKind)
    ensures IsCommand(CommandType(defaultType, kind), defaultType, kind.Cold?)
  {
  }

  /** The daemon's statics and the counter of its main loop, with the manager threads
      that are alive (thread id to command type) as the operating system knows them. */
  datatype State = State(
    threadStat: int, mgrTid: int, forceStop: int, defaultType: int,
    noStart: bool, count: int, live: map<int, int>)

  const INITIAL := State(0, 0, 0, GPS_TYPE_AGPS, false, 0, map[])

  // ---------------------------------------------------------------- the steps

  /** `gps_start`, up to and including the prologue of the thread it creates. `tid` is
      the id `pthread_create` gives that thread. */
  function Start(s: State, kind: StartKind, tid: int): State {
    if s.threadStat != 0 then s else
      s.(mgrTid := tid, threadStat := 1, forceStop := 1,
         live := s.live[tid := CommandType(s.defaultType, kind)])
  }

  /** `gps_stop`: ask the named thread to stop, wait until it has, and forget it. */
  function Stop(s: State): State {
    if s.mgrTid == 0 then s else
      s.(forceStop := 0, live := s.live - {s.mgrTid}, mgrTid := 0, threadStat := 0)
  }

  /** A manager thread's entry point returns, asked to or not, and its thread ends. */
  function ManagerReturns(s: State, tid: int): State {
    if tid !in s.live then s else s.(live := s.live - {tid}, threadStat := 0)
  }

  function Round(s: State, tid: int): State {
    var v := W.Judge(s.count, s.noStart, W.Seen(s.threadStat, s.mgrTid));
    if v.restart then Start(s.(count := v.count), Warm, tid) else s.(count := v.count)
  }

  /** A message on the manager's port. */
  function Handle(s: State, msg: string, tid: int): State {
    if msg == SET_GPS_COLD_START then Start(s, Cold, tid)
    else if msg == SET_GPS_WARM_START then Start(s, Warm, tid)
    else if msg == SET_GPS_STOP then Stop(s)
    else if msg == SET_GPS_RESET_COLD_BOOT then Start(Stop(s), Cold, tid)
    else if msg == SET_GPS_RESET_WARM_BOOT then Start(Stop(s), Warm, tid)
    else s
  }

  /** The reply to a message, empty for an unknown one. */
  function Reply(s: State, msg: string): string {
    if msg == GET_GPS_STAT then
      GET_GPS_STAT + "," + (if s.threadStat == 0 then "0" else "1") + ",OK"
    else if msg in {SET_GPS_COLD_START, SET_GPS_WARM_START, SET_GPS_STOP,
                    SET_GPS_RESET_COLD_BOOT, SET_GPS_RESET_WARM_BOOT} then
      msg + ",OK"
    else ""
  }

  /** What `main` does with its arguments before the watchdog loop. */
  function Boot(args: seq<string>, tid: int): State {
    if |args| == 1 then Start(INITIAL, Warm, tid)
    else if |args| == 2 then BootMode(INITIAL, args[1], tid)
    else if |args| == 3 then
      var t := if args[1] == "sgps" then GPS_TYPE_SGPS
               else if args[1] == "sgps_xtra" then GPS_TYPE_SGPS_WITH_XTRA
               else GPS_TYPE_AGPS;
      BootMode(INITIAL.(defaultType := t), args[2], tid)
    else INITIAL
  }

  function BootMode(s: State, mode: string, tid: int): State {
    if mode == "warm" then Start(s, Warm, tid)
    else if mode == "cold" then Start(s, Cold, tid)
    else if mode == "nostart" then s.(noStart := true)
    else s
  }

  // ---------------------------------------------------------------- the daemon

  class Daemon {
    var threadStat: int
    var mgrTid: int
    var forceStop: int
    var defaultType: int
    var noStart: bool
    var count: int
    /** The manager threads that are alive; the operating system's, not the program's. */
    var live: map<int, int>

    ghost function Contents(): State
      reads this
    {
      State(threadStat, mgrTid, forceStop, defaultType, noStart, count, live)
    }

    constructor (args: seq<string>, tid: int)
      ensures Contents() == Boot(args, tid)
    {
      threadStat, mgrTid, forceStop, defaultType := 0, 0, 0, GPS_TYPE_AGPS;
      noStart, count, live := false, 0, map[];
      new;
      if |args| == 1 {
        defaultType := GPS_TYPE_AGPS;
        GpsStart(Warm, tid);
      }
      if |args| == 2 {
        defaultType := GPS_TYPE_AGPS;
        ApplyMode(args[1], tid);
      }
      if |args| == 3 {
        if args[1] == "agps" {
          defaultType := GPS_TYPE_AGPS;
        } else if args[1] == "sgps" {
          defaultType := GPS_TYPE_SGPS;
        } else if args[1] == "sgps_xtra" {
          defaultType := GPS_TYPE_SGPS_WITH_XTRA;
        }
        ApplyMode(args[2], tid);
      }
      count := 0;
    }

    method ApplyMode(mode: string, tid: int)
      modifies this
      ensures Contents() == BootMode(old(Contents()), mode, tid)
    {
      if mode == "warm" {
        GpsStart(Warm, tid);
      } else if mode == "cold" {
        GpsStart(Cold, tid);
      } else if mode == "nostart" {
        noStart := true;
      }
    }

    method GpsStart(kind: StartKind, tid: int)
      modifies this
      ensures Contents() == Start(old(Contents()), kind, tid)
    {
      if threadStat != 0 {
        return;
      }
      var gpsType;
      match defaultType {
        case 1 => gpsType := if kind.Warm? then 3 else 4;
        case 2 => gpsType := if kind.Warm? then 5 else 6;
        case _ => gpsType := if kind.Warm? then 1 else 2;
      }
      mgrTid := tid;
      live := live[tid := gpsType];
      threadStat := 1;
      forceStop := 1;
    }

    method GpsStop()
      modifies this
      ensures Contents() == Stop(old(Contents()))
    {
      if mgrTid == 0 {
        return;
      }
      forceStop := 0;
      live := live - {mgrTid};
      mgrTid := 0;
      threadStat := 0;
    }

    method Receive(msg: string, tid: int) returns (reply: string)
      modifies this
      ensures Contents() == Handle(old(Contents()), msg, tid)
      ensures reply == Reply(old(Contents()), msg)
    {
      reply := "";
      if msg == GET_GPS_STAT {
        var runFlag := if threadStat == 0 then "0" else "1";
        reply := GET_GPS_STAT + "," + runFlag + ",OK";
      } else if msg == SET_GPS_COLD_START {
        GpsStart(Cold, tid);
        reply := SET_GPS_COLD_START + ",OK";
      } else if msg == SET_GPS_WARM_START {
        GpsStart(Warm, tid);
        reply := SET_GPS_WARM_START + ",OK";
      } else if msg == SET_GPS_STOP {
        GpsStop();
        reply := SET_GPS_STOP + ",OK";
      } else if msg == SET_GPS_RESET_COLD_BOOT {
        GpsStop();
        GpsStart(Cold, tid);
        reply := SET_GPS_RESET_COLD_BOOT + ",OK";
      } else if msg == SET_GPS_RESET_WARM_BOOT {
        GpsStop();
        GpsStart(Warm, tid);
        reply := SET_GPS_RESET_WARM_BOOT + ",OK";
      }
    }

    method WatchdogRound(tid: int)
      modifies this
      ensures Contents() == Round(old(Contents()), tid)
    {
      if threadStat == 0 && !noStart {
        if mgrTid != 0 {
          count := count + 1;
        }
      }
      if count > W.LIMIT {
        count := 0;
        GpsStart(Warm, tid);
      }
    }
  }

  // ---------------------------------------------------------------- runs

  datatype Event = Message(text: string, tid: int) | Tick(tid: int) | Returned(tid: int)

  function Step(s: State, e: Event): State {
    match e
    case Message(text, tid) => Handle(s, text, tid)
    case Tick(tid) => Round(s, tid)
    case Returned(tid) => ManagerReturns(s, tid)
  }

  /** A new thread's id is not 0 and not that of a living thread. */
  predicate Possible(s: State, e: Event) {
    e.Returned? || (e.tid != 0 && e.tid !in s.live)
  }

  predicate PossibleRun(s: State, events: seq<Event>)
    decreases |events|
  {
    events == [] || (Possible(s, events[0]) && PossibleRun(Step(s, events[0]), events[1..]))
  }

  function Run(s: State, events: seq<Event>): State
    decreases |events|
  {
    if events == [] then s else Run(Step(s, events[0]), events[1..])
  }

  /** `gps_thread_stat` is 1 exactly when a manager is alive; then it is the only one,
      `garden_mgr_tid` names it, and it has not been asked to stop. */
  ghost predicate OneManager(s: State) {
    && 0 <= s.count <= W.LIMIT
    && (s.threadStat == 0 || s.threadStat == 1)
    && (s.threadStat == 0 ==> s.live == map[])
    && (s.threadStat == 1 ==> s.mgrTid != 0 && s.live.Keys == {s.mgrTid} && s.forceStop == 1)
    && (s.noStart ==> s.count == 0)
  }

  lemma StepKeepsOneManager(s: State, e: Event)
    requires OneManager(s) && Possible(s, e)
    ensures OneManager(Step(s, e))
  {
    if s.threadStat == 1 {
      assert s.mgrTid in s.live;
      assert (s.live - {s.mgrTid}).Keys == {};
    }
  }

  lemma {:induction false} RunKeepsOneManager(s: State, events: seq<Event>)
    requires OneManager(s) && PossibleRun(s, events)
    ensures OneManager(Run(s, events))
    decreases |events|
  {
    if events == [] {
    } else {
      StepKeepsOneManager(s, events[0]);
      RunKeepsOneManager(Step(s, events[0]), events[1..]);
    }
  }

  /** From any start of the daemon, through any run, there are never two managers. */
  lemma OneManagerAlways(args: seq<string>, tid: int, events: seq<Event>)
    requires tid != 0 && PossibleRun(Boot(args, tid), events)
    ensures OneManager(Run(Boot(args, tid), events))
    ensures |Run(Boot(args, tid), events).live| == Run(Boot(args, tid), events).threadStat <= 1
  {
    RunKeepsOneManager(Boot(args, tid), events);
    var s := Run(Boot(args, tid), events);
    assert s.threadStat == 1 ==> |s.live| == |s.live.Keys| == |{s.mgrTid}|;
  }

  // ---------------------------------------------------------------- what messages do

  /** `s'` is `s` with one manager, `tid`, new, named and flagged, of the kind and type asked
      for; the type itself, the nostart flag and the counter are as before. */
  ghost predicate RunsAlone(s: State, s': State, tid: int, cold: bool) {
    && s'.live.Keys == {tid} && IsCommand(s'.live[tid], s.defaultType, cold)
    && s' == s.(mgrTid := tid, threadStat := 1, forceStop := 1, live := s'.live)
  }

  /** A start message starts a manager of its kind if none runs, and does nothing otherwise. */
  lemma StartMessage(s: State, msg: string, tid: int)
    requires OneManager(s) && msg in {"set_start_c", "set_start_w"}
    ensures var s' := Step(s, Message(msg, tid));
      if s.live == map[] then RunsAlone(s, s', tid, msg == "set_start_c") else s' == s
  {
    CommandTypeIs(s.defaultType, if msg == "set_start_c" then Cold else Warm);
    assert s.threadStat == 1 ==> s.mgrTid in s.live;
  }

  /** Whatever was running, after a reset the requested kind runs, alone and named. */
  lemma ResetRunsRequested(s: State, msg: string, tid: int)
    requires OneManager(s) && msg in {"set_reset_c", "set_reset_w"}
    ensures RunsAlone(s, Step(s, Message(msg, tid)), tid, msg == "set_reset_c")
  {
    CommandTypeIs(s.defaultType, if msg == "set_reset_c" then Cold else Warm);
    NothingAfterStop(s);
  }

  lemma NothingAfterStop(s: State)
    requires OneManager(s)
    ensures Stop(s) == s.(live := map[], mgrTid := 0, threadStat := 0,
                          forceStop := if s.mgrTid == 0 then s.forceStop else 0)
  {
    assert s.threadStat == 1 ==> s.live - {s.mgrTid} == map[];
  }

  /** A stop message leaves no manager and no name; any other text, a status query included,
      changes nothing. */
  lemma OtherMessage(s: State, msg: string, tid: int)
    requires OneManager(s) && msg !in {"set_start_c", "set_start_w", "set_reset_c", "set_reset_w"}
    ensures Step(s, Message(msg, tid)) ==
      if msg == "set_stop"
      then s.(live := map[], mgrTid := 0, threadStat := 0, forceStop := if s.mgrTid == 0 then s.forceStop else 0)
      else s
  {
    NothingAfterStop(s);
  }

  /** The status reply says 1 exactly when a manager is alive; a command is confirmed by its
      own text; nothing else is answered. */
  lemma RepliesAre(s: State, msg: string)
    requires OneManager(s)
    ensures msg == "get_stat" ==> Reply(s, msg) == if s.live == map[] then "get_stat,0,OK" else "get_stat,1,OK"
    ensures msg in {"set_start_c", "set_start_w", "set_stop", "set_reset_c", "set_reset_w"} ==>
      Reply(s, msg) == msg + ",OK"
    ensures Reply(s, msg) == "" <==>
      msg !in {"get_stat", "set_start_c", "set_start_w", "set_stop", "set_reset_c", "set_reset_w"}
  {
    assert s.threadStat == 1 ==> s.mgrTid in s.live;
  }

  /** What the command line leaves: one manager of its kind and type for `warm`, `cold` or no
      argument at all, and none for any other. */
  lemma BootRuns(args: seq<string>, tid: int)
    ensures var s := Boot(args, tid);
      var mode := if |args| == 1 then "warm" else if |args| in {2, 3} then args[|args| - 1] else "";
      var named := if |args| == 3 then args[1] else "agps";
      var gpsType := if named == "sgps" then 1 else if named == "sgps_xtra" then 2 else 0;
      var idle := State(0, 0, 0, gpsType, mode == "nostart", 0, map[]);
      if mode in {"warm", "cold"} then RunsAlone(idle, s, tid, mode == "cold") else s == idle
  {
    CommandTypeIs(Boot(args, tid).defaultType, Warm);
    CommandTypeIs(Boot(args, tid).defaultType, Cold);
  }

  // ---------------------------------------------------------------- a stop sticks

  /** Messages that start nothing: a status query, a stop, anything unknown. */
  predicate StartsNothing(e: Event) {
    e.Message? ==> e.text !in {"set_start_c", "set_start_w", "set_reset_c", "set_reset_w"}
  }

  ghost predicate Off(s: State) {
    s.threadStat == 0 && s.mgrTid == 0 && s.live == map[]
  }

  lemma {:induction false} OffStaysOff(s: State, events: seq<Event>)
    requires OneManager(s) && Off(s) && forall e | e in events :: StartsNothing(e)
    ensures Off(Run(s, events))
    decreases |events|
  {
    if events == [] {
    } else {
      assert events[0] in events;
      assert forall e | e in events[1..] :: e in events;
      OffStaysOff(Step(s, events[0]), events[1..]);
    }
  }

  /** After a stop command only a start or reset command brings a manager back: no
      number of watchdog rounds does. */
  lemma StopSticks(s: State, tid: int, events: seq<Event>)
    requires OneManager(s) && forall e | e in events :: StartsNothing(e)
    ensures Off(Run(s, [Message("set_stop", tid)] + events))
  {
    OtherMessage(s, "set_stop", tid);
    OffStaysOff(Step(s, Message("set_stop", tid)), events);
    assert ([Message("set_stop", tid)] + events)[1..] == events;
  }

  /** Rounds of the watchdog and nothing else; `tids` are the ids offered to them. */
  function Ticks(tids: seq<int>): (events: seq<Event>)
    ensures |events| == |tids| && forall i | 0 <= i < |tids| :: events[i] == Tick(tids[i])
  {
    if tids == [] then [] else [Tick(tids[0])] + Ticks(tids[1..])
  }

  lemma {:induction false} RunningTicks(s: State, tids: seq<int>)
    requires s.threadStat == 1 && 0 <= s.count <= 10
    ensures Run(s, Ticks(tids)) == s
  {
    if tids == [] {
    } else {
      assert Ticks(tids)[1..] == Ticks(tids[1..]);
      RunningTicks(s, tids[1..]);
    }
  }

  lemma OneTick(s: State, tid: int)
    requires OneManager(s) && s.live == map[]
    ensures var s' := Step(s, Tick(tid));
      if s.noStart || s.mgrTid == 0 then s' == s
      else if s.count < 10 then s' == s.(count := s.count + 1) && OneManager(s')
      else RunsAlone(s.(count := 0), s', tid, false)
  {
    assert s.threadStat == 1 ==> s.mgrTid in s.live;
    CommandTypeIs(s.defaultType, Warm);
  }

  lemma {:induction false} IdleTicks(s: State, tids: seq<int>)
    requires s.threadStat == 0 && 0 <= s.count <= 10 && (s.noStart || s.mgrTid == 0)
    ensures Run(s, Ticks(tids)) == s
  {
    if tids == [] {
    } else {
      assert Ticks(tids)[1..] == Ticks(tids[1..]);
      IdleTicks(s, tids[1..]);
    }
  }

  lemma {:induction false} CountingTicks(s: State, tids: seq<int>)
    requires OneManager(s) && s.live == map[] && !s.noStart && s.mgrTid != 0
    ensures var s' := Run(s, Ticks(tids));
      if s.count + |tids| <= 10 then s' == s.(count := s.count + |tids|)
      else RunsAlone(s.(count := 0), s', tids[10 - s.count], false)
    decreases |tids|
  {
    hide Step, RunsAlone, Run, Ticks;
    NoTicks(s);
    if tids == [] {
    } else {
      FirstTick(s, tids);
      OneTick(s, tids[0]);
      if s.count < 10 {
        CountingTicks(Step(s, Tick(tids[0])), tids[1..]);
      } else {
        AloneTicks(s.(count := 0), Step(s, Tick(tids[0])), tids[0], tids[1..]);
      }
    }
  }

  lemma NoTicks(s: State)
    ensures Run(s, Ticks([])) == s
  {
  }

  lemma FirstTick(s: State, tids: seq<int>)
    requires tids != []
    ensures Run(s, Ticks(tids)) == Run(Step(s, Tick(tids[0])), Ticks(tids[1..]))
  {
    assert Ticks(tids)[1..] == Ticks(tids[1..]);
  }

  lemma AloneTicks(s: State, s': State, tid: int, tids: seq<int>)
    requires RunsAlone(s, s', tid, false) && 0 <= s.count <= 10
    ensures Run(s', Ticks(tids)) == s'
  {
    RunningTicks(s', tids);
  }

  /** A manager that is gone is replaced after exactly as many rounds as the counter still
      lacks to eleven; one that was stopped, or any manager under `nostart`, never. */
  lemma {:induction false} RestartAfterEleven(s: State, tids: seq<int>)
    requires OneManager(s) && s.live == map[]
    ensures var s' := Run(s, Ticks(tids));
      if s.noStart || s.mgrTid == 0 then s' == s
      else if s.count + |tids| <= 10 then s' == s.(count := s.count + |tids|)
      else RunsAlone(s.(count := 0), s', tids[10 - s.count], false)
  {
    hide RunsAlone, Step, Run, Ticks;
    assert s.threadStat == 1 ==> s.mgrTid in s.live;
    if s.noStart || s.mgrTid == 0 {
      IdleTicks(s, tids);
    } else {
      CountingTicks(s, tids);
    }
  }

  /** So a manager that returned by itself is replaced: with `k` rounds counted already, after
      exactly `11 - k` more, by a warm one of the configured type. */
  lemma ReturnedIsReplaced(s: State, tids: seq<int>)
    requires OneManager(s) && s.live != map[]
    ensures var s' := Run(s, [Returned(s.mgrTid)] + Ticks(tids));
      if s.noStart then s' == s.(live := map[], threadStat := 0)
      else if |tids| < 11 - s.count then s' == s.(live := map[], threadStat := 0, count := s.count + |tids|)
      else RunsAlone(s.(count := 0), s', tids[10 - s.count], false)
  {
    var s1 := Step(s, Returned(s.mgrTid));
    assert s.live - {s.mgrTid} == map[];
    assert ([Returned(s.mgrTid)] + Ticks(tids))[1..] == Ticks(tids);
    RestartAfterEleven(s1, tids);
  }

  /** Started with `nostart`, the watchdog never creates a thread in any run. */
  lemma {:induction false} NoStartRoundsCreateNothing(s: State, events: seq<Event>, tid: int)
    requires s.noStart && s.count == 0
    ensures Round(Run(s, events), tid) == Run(s, events)
    decreases |events|
  {
    if events == [] {
    } else {
      NoStartRoundsCreateNothing(Step(s, events[0]), events[1..], tid);
    }
  }

  /** Started with `nostart`, nothing runs until a start or reset command arrives. */
  lemma NoStartWaitsForCommand(args: seq<string>, tid: int, events: seq<Event>)
    requires |args| in {2, 3} && args[|args| - 1] == "nostart"
    requires forall e | e in events :: StartsNothing(e)
    ensures Off(Run(Boot(args, tid), events))
  {
    OffStaysOff(Boot(args, tid), events);
  }
}
