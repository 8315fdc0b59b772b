/** The watchdog loop of the daemon's main function, seen from the loop alone: what it
    reads of the manager's state may be anything at any tick. */
module Watchdog {
  /** GPS_THREAD_INVALID_CHK_CNT. */
  const LIMIT := 10

  /** What one round reads of `gps_thread_stat` and `garden_mgr_tid`. */
  datatype Seen = Seen(threadStat: int, mgrTid: int)

  datatype Verdict = Verdict(count: int, restart: bool)

  /** A manager thread was created and is not running, and may be restarted. */
  predicate Suspicious(noStart: bool, seen: Seen) {
    seen.threadStat == 0 && !noStart && seen.mgrTid != 0
  }

  /** One round of the loop. */
  method Round(count: int, noStart: bool, seen: Seen) returns (count': int, restart: bool)
    requires 0 <= count <= 10
    ensures 0 <= count' <= 10
    ensures (if Suspicious(noStart, seen) then 1 else 0) == count' - count + (if restart then 11 else 0)
    ensures Verdict(count', restart) == Judge(count, noStart, seen)
  {
    count' := count;
    restart := false;
    if seen.threadStat == 0 && !noStart {
      if seen.mgrTid != 0 {
        count' := count' + 1;
      }
    }
    if count' > LIMIT {
      count' := 0;
      restart := true;
    }
  }

  function Judge(count: int, noStart: bool, seen: Seen): Verdict {
    var c := if Suspicious(noStart, seen) then count + 1 else count;
    if c > LIMIT then Verdict(0, true) else Verdict(c, false)
  }

  /** The counter after the rounds that read `history`, which started at 0. */
  function CountAfter(noStart: bool, history: seq<Seen>): int {
    if history == [] then 0 else
      Judge(CountAfter(noStart, history[..|history| - 1]), noStart, history[|history| - 1]).count
  }

  function Restarts(noStart: bool, history: seq<Seen>): nat {
    if history == [] then 0 else
      var n := |history| - 1;
      Restarts(noStart, history[..n])
      + if Judge(CountAfter(noStart, history[..n]), noStart, history[n]).restart then 1 else 0
  }

  function SuspiciousRounds(noStart: bool, history: seq<Seen>): nat {
    if history == [] then 0 else
      SuspiciousRounds(noStart, history[..|history| - 1])
      + if Suspicious(noStart, history[|history| - 1]) then 1 else 0
  }

  /** Every restart is paid for with eleven suspicious rounds, and the counter holds
      the ones not yet spent. */
  lemma {:induction false} Accounting(noStart: bool, history: seq<Seen>)
    ensures 0 <= CountAfter(noStart, history) <= 10
    ensures SuspiciousRounds(noStart, history) == 11 * Restarts(noStart, history) + CountAfter(noStart, history)
  {
    if history == [] {
    } else {
      Accounting(noStart, history[..|history| - 1]);
    }
  }

  /** The rounds that read a named manager that is not running. */
  function Lost(history: seq<Seen>): seq<Seen> {
    if history == [] then [] else
      var last := history[|history| - 1];
      Lost(history[..|history| - 1]) + if last.threadStat == 0 && last.mgrTid != 0 then [last] else []
  }

  /** So without `nostart` the restarts are one for every eleven rounds that read a named
      manager that is not running, and the counter is what is left over. No other round counts. */
  lemma {:induction false} RestartsAre(history: seq<Seen>)
    ensures Restarts(false, history) == |Lost(history)| / 11
    ensures CountAfter(false, history) == |Lost(history)| % 11
  {
    LostAreSuspicious(history);
    Accounting(false, history);
  }

  lemma {:induction false} LostAreSuspicious(history: seq<Seen>)
    ensures SuspiciousRounds(false, history) == |Lost(history)|
  {
    if history == [] {
    } else {
      LostAreSuspicious(history[..|history| - 1]);
    }
  }

  /** With `nostart` the watchdog restarts nothing, whatever it sees. */
  lemma {:induction false} NoStartNeverRestarts(history: seq<Seen>)
    ensures Restarts(true, history) == 0 && CountAfter(true, history) == 0
  {
    if history == [] {
    } else {
      NoStartNeverRestarts(history[..|history| - 1]);
    }
  }
}
