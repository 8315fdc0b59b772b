/** What the message loop of an ended port finds when it looks at its run flag: its slot
    may have been taken again by ports started in the meantime. */
module ServerLoops {
  import opened Search
  import opened ServerSlots
  import opened ServerRuns

  // -------------------------------------------------- many starts before the loop looks

  predicate Starts(ops: seq<Op>) {
    forall op | op in ops :: op.Begin?
  }

  function FreeBelow(slots: seq<Slot>, i: nat): set<int>
    requires i <= |slots|
  {
    set j | 0 <= j < i && slots[j].port == 0
  }

  /** The ports that `ops` start anew, each counted once. */
  function NewPorts(held: set<int>, ops: seq<Op>): set<int> {
    set k | 0 <= k < |ops| && ops[k].port !in held :: ops[k].port
  }

  lemma NewPortsCons(held: set<int>, ops: seq<Op>)
    requires ops != []
    ensures NewPorts(held, ops)
      == NewPorts(held + {ops[0].port}, ops[1..]) + if ops[0].port in held then {} else {ops[0].port}
    ensures ops[0].port in held ==> held + {ops[0].port} == held
  {
    var p, rest := ops[0].port, ops[1..];
    forall q ensures q in NewPorts(held, ops) <==> (q in NewPorts(held + {p}, rest) || (q == p && p !in held)) {
      if q in NewPorts(held, ops) && q != p {
        var k :| 0 <= k < |ops| && ops[k].port == q && q !in held;
        assert rest[k - 1].port == q;
      }
      if q in NewPorts(held + {p}, rest) {
        var k :| 0 <= k < |rest| && rest[k].port == q;
        assert ops[k + 1].port == q;
      }
      if q == p && p !in held {
        assert ops[0].port == q;
      }
    }
  }

  /** One start: a held port leaves a free slot and those below it alone; a new one takes a
      free slot below, or, if there is none, this one. */
  lemma StartTakes(t: Table, port: int, i: nat)
    requires Good(t.slots) && t.init && Allowed(t, Begin(port))
    requires i < |t.slots| && t.slots[i].port == 0 && t.slots[i].run == 0
    ensures var slots, free := Start(t, port).slots, FreeBelow(t.slots, i);
      if port in Held(t.slots) then slots[i] == t.slots[i] && FreeBelow(slots, i) == free
      else if free == {} then slots[i].run != 0
      else slots[i] == t.slots[i] && |FreeBelow(slots, i)| == |free| - 1
  {
    hide Ports, Held, IndexOf, AllClear;
    HeldIdx(t.slots, port);
    var slots, k := Start(t, port).slots, ThreadIdx(t.slots, port);
    if port !in Held(t.slots) {
      FirstHole(t.slots, i);
      FirstHole(t.slots, k);
      if FreeBelow(t.slots, i) != {} {
        assert k < i;
        assert FreeBelow(slots, i) == FreeBelow(t.slots, i) - {k};
      }
    }
  }

  lemma {:induction false} RunningStays(t: Table, ops: seq<Op>, i: nat)
    requires t.init && AllowedRun(t, ops) && Starts(ops) && i < |t.slots| && t.slots[i].run != 0
    ensures |Run(t, ops).slots| == |t.slots| && Run(t, ops).slots[i].run != 0
    decreases |ops|
  {
    if ops == [] {
    } else {
      assert ops[0] in ops && forall op | op in ops[1..] :: op in ops;
      RunningStays(Apply(t, ops[0]), ops[1..], i);
    }
  }

  /** Over any run of starts a free slot's loop flag is set again exactly when more new ports
      are started than there are free slots below it, however the starts are ordered. */
  lemma {:induction false} FreeSlotStartedIff(t: Table, ops: seq<Op>, i: nat)
    requires Good(t.slots) && t.init && AllowedRun(t, ops) && Starts(ops)
    requires i < |t.slots| && t.slots[i].port == 0 && t.slots[i].run == 0
    ensures |Run(t, ops).slots| == |t.slots|
    ensures Run(t, ops).slots[i].run != 0 <==> |NewPorts(Held(t.slots), ops)| > |FreeBelow(t.slots, i)|
    decreases |ops|
  {
    hide Good, Allowed, Held, FreeBelow, NewPorts, Start;
    if ops == [] {
      NoNewPorts(Held(t.slots));
    } else {
      var port, rest, t' := ops[0].port, ops[1..], Apply(t, ops[0]);
      assert ops[0] in ops && forall op | op in rest :: op in ops;
      StepKeepsGood(t, ops[0]);
      StepTakes(t, ops[0]);
      StartTakes(t, port, i);
      NewPortsCons(Held(t.slots), ops);
      NewPortsOther(Held(t'.slots), rest);
      if port !in Held(t.slots) && FreeBelow(t.slots, i) == {} {
        RunningStays(t', rest, i);
      } else {
        FreeSlotStartedIff(t', rest, i);
      }
    }
  }

  lemma NoNewPorts(held: set<int>)
    ensures NewPorts(held, []) == {}
  {
  }

  lemma NewPortsOther(held: set<int>, ops: seq<Op>)
    ensures NewPorts(held, ops) !! held
  {
  }

  /** So after a port's end its loop, which looks only between two waits, goes on after any
      run of starts exactly when these start more ports not held than there were free slots
      below the loop's. */
  lemma {:induction false} EndedLoopRunsIff(t: Table, port: int, ops: seq<Op>)
    requires Good(t.slots) && t.init && port in Held(t.slots)
    requires Allowed(t, Finish(port)) && AllowedRun(End(t, port), ops) && Starts(ops)
    ensures var i := ThreadIdx(t.slots, port);
      && 0 <= i < |t.slots| == |Run(End(t, port), ops).slots|
      && (Run(End(t, port), ops).slots[i].run != 0
          <==> |NewPorts(Held(t.slots) - {port}, ops)| > |FreeBelow(t.slots, i)|)
  {
    hide Held, Ports, IndexOf, NewPorts;
    HeldIdx(t.slots, port);
    StepKeepsGood(t, Finish(port));
    StepTakes(t, Finish(port));
    var i := ThreadIdx(t.slots, port);
    assert FreeBelow(End(t, port).slots, i) == FreeBelow(t.slots, i);
    FreeSlotStartedIff(End(t, port), ops, i);
  }

  // -------------------------------------------------- starts and ends in any order

  predicate StartsAndEnds(ops: seq<Op>) {
    forall op | op in ops :: !op.Lookup?
  }

  /** A slot is free and idle, or held and running: so it is while ports are only started
      and ended. */
  predicate Settled(s: Slot) {
    s.port != 0 <==> s.run != 0
  }

  lemma SlotAfter(t: Table, op: Op, i: nat)
    requires Good(t.slots) && t.init && Allowed(t, op) && !op.Lookup?
    requires i < |t.slots| && Settled(t.slots[i])
    ensures var s, s' := t.slots[i], Apply(t, op).slots[i];
      && Settled(s')
      && s'.port == if s.port != 0 then (if op == Finish(s.port) then 0 else s.port)
         else if op.Begin? && op.port !in Held(t.slots) && FreeBelow(t.slots, i) == {} then op.port
         else 0
  {
    hide Ports, Held, IndexOf, AllClear;
    HeldIdx(t.slots, op.port);
    if t.slots[i].port == 0 && op.Begin? {
      StartTakes(t, op.port, i);
      FirstHole(t.slots, i);
    }
  }

  /** The start at place `k` of a run takes slot `i` for good: its port is new, all lower
      slots are held, the slot is free, and the port is not ended later. */
  ghost predicate TakesForGood(t: Table, ops: seq<Op>, i: nat, k: nat)
    requires i < |t.slots|
  {
    && k < |ops| && AllowedRun(t, ops[..k])
    && var t' := Run(t, ops[..k]);
      && ops[k].Begin? && Finish(ops[k].port) !in ops[k + 1..]
      && ops[k].port !in Held(t'.slots)
      && i < |t'.slots| && t'.slots[i].port == 0 && FreeBelow(t'.slots, i) == {}
  }

  ghost predicate SomeTakes(t: Table, ops: seq<Op>, i: nat)
    requires i < |t.slots|
  {
    exists k: nat :: TakesForGood(t, ops, i, k)
  }

  ghost predicate PortTakes(t: Table, ops: seq<Op>, i: nat, port: int)
    requires i < |t.slots|
  {
    exists k: nat :: TakesForGood(t, ops, i, k) && ops[k].port == port
  }

  lemma PortTakesCons(t: Table, ops: seq<Op>, i: nat, port: int)
    requires ops != [] && Allowed(t, ops[0]) && i < |t.slots|
    ensures PortTakes(t, ops, i, port) <==>
      (TakesForGood(t, ops, i, 0) && ops[0].port == port) || PortTakes(Apply(t, ops[0]), ops[1..], i, port)
  {
    if k: nat :| TakesForGood(t, ops, i, k) && ops[k].port == port && k != 0 {
      TakesLater(t, ops, i, k - 1);
    }
    if k: nat :| TakesForGood(Apply(t, ops[0]), ops[1..], i, k) && ops[1..][k].port == port {
      TakesLater(t, ops, i, k);
    }
  }

  lemma TakesLater(t: Table, ops: seq<Op>, i: nat, k: nat)
    requires ops != [] && Allowed(t, ops[0]) && i < |t.slots|
    ensures TakesForGood(t, ops, i, k + 1) <==> TakesForGood(Apply(t, ops[0]), ops[1..], i, k)
  {
    if k + 1 < |ops| {
      assert ops[..k + 1][0] == ops[0] && ops[..k + 1][1..] == ops[1..][..k];
      assert ops[1..][k + 1..] == ops[k + 2..];
    }
  }

  /** Over any run of starts and ends a port holds a slot at the end exactly when it held it
      and was not ended, or one of its starts took it for good. */
  lemma {:induction false} SlotHeldIff(t: Table, ops: seq<Op>, i: nat, port: int)
    requires Good(t.slots) && t.init && AllowedRun(t, ops) && StartsAndEnds(ops)
    requires i < |t.slots| && Settled(t.slots[i]) && port != 0
    ensures |Run(t, ops).slots| == |t.slots| && Settled(Run(t, ops).slots[i])
    ensures Run(t, ops).slots[i].port == port
      <==> (t.slots[i].port == port && Finish(port) !in ops) || PortTakes(t, ops, i, port)
    decreases |ops|
  {
    hide Good, ThreadIdx, Held, FreeBelow, Apply, TakesForGood, PortTakes;
    if ops == [] {
      NoneTakes(t, i, port);
    } else {
      var rest, t' := ops[1..], Apply(t, ops[0]);
      assert ops[0] in ops && forall op | op in rest :: op in ops;
      assert forall op :: op in ops <==> op == ops[0] || op in rest;
      StepKeepsGood(t, ops[0]);
      InitStays(t, ops[0]);
      SlotAfter(t, ops[0], i);
      SlotHeldIff(t', rest, i, port);
      TakesFirst(t, ops, i);
      PortTakesCons(t, ops, i, port);
    }
  }

  lemma NoneTakes(t: Table, i: nat, port: int)
    requires i < |t.slots|
    ensures !PortTakes(t, [], i, port)
  {
  }

  /** So its loop flag is set at the end exactly when the port that held it was not ended, or
      some start took it for good. */
  lemma {:induction false} SlotRunsIff(t: Table, ops: seq<Op>, i: nat)
    requires Good(t.slots) && t.init && AllowedRun(t, ops) && StartsAndEnds(ops)
    requires i < |t.slots| && Settled(t.slots[i])
    ensures |Run(t, ops).slots| == |t.slots|
    ensures Run(t, ops).slots[i].run != 0
      <==> (t.slots[i].port != 0 && Finish(t.slots[i].port) !in ops) || SomeTakes(t, ops, i)
  {
    hide Good, ThreadIdx, Held, FreeBelow, Apply, Run, TakesForGood;
    SlotHeldIff(t, ops, i, 1);
    var held := t.slots[i].port;
    if held != 0 && Finish(held) !in ops {
      SlotHeldIff(t, ops, i, held);
    }
    if k: nat :| TakesForGood(t, ops, i, k) {
      TakerAllowed(t, ops, i, k);
      SlotHeldIff(t, ops, i, ops[k].port);
    }
    var port := Run(t, ops).slots[i].port;
    if port != 0 {
      SlotHeldIff(t, ops, i, port);
    }
  }

  lemma TakerAllowed(t: Table, ops: seq<Op>, i: nat, k: nat)
    requires AllowedRun(t, ops) && i < |t.slots| && TakesForGood(t, ops, i, k)
    ensures k < |ops| && ops[k].port != 0 && PortTakes(t, ops, i, ops[k].port)
  {
    EachAllowed(t, ops, k);
  }

  lemma {:induction false} EachAllowed(t: Table, ops: seq<Op>, k: nat)
    requires AllowedRun(t, ops) && k < |ops|
    ensures ops[k].port != 0
    decreases |ops|
  {
    hide Apply, ThreadIdx;
    if k == 0 {
    } else {
      EachAllowed(Apply(t, ops[0]), ops[1..], k - 1);
    }
  }

  lemma InitStays(t: Table, op: Op)
    requires Allowed(t, op) && t.init
    ensures Apply(t, op).init
  {
  }

  lemma TakesFirst(t: Table, ops: seq<Op>, i: nat)
    requires ops != [] && i < |t.slots|
    ensures TakesForGood(t, ops, i, 0) <==>
      && ops[0].Begin? && Finish(ops[0].port) !in ops[1..] && ops[0].port !in Held(t.slots)
      && t.slots[i].port == 0 && FreeBelow(t.slots, i) == {}
  {
    assert ops[..0] == [];
  }

  /** So however many ports are started and ended before an ended port's loop looks, it goes
      on exactly when one of the starts took its slot for good. */
  lemma {:induction false} EndedLoopFlagIff(t: Table, port: int, ops: seq<Op>)
    requires Good(t.slots) && t.init && port in Held(t.slots)
    requires Allowed(t, Finish(port)) && AllowedRun(End(t, port), ops) && StartsAndEnds(ops)
    ensures var i := ThreadIdx(t.slots, port);
      && 0 <= i < |t.slots| == |Run(End(t, port), ops).slots|
      && (Run(End(t, port), ops).slots[i].run != 0 <==> SomeTakes(End(t, port), ops, i))
  {
    hide Held, Ports, IndexOf, SomeTakes;
    HeldIdx(t.slots, port);
    StepKeepsGood(t, Finish(port));
    SlotRunsIff(End(t, port), ops, ThreadIdx(t.slots, port));
  }

  // -------------------------------------------------- what a thread reads when it first runs

  lemma {:induction false} RunKeepsTidy(t: Table, ops: seq<Op>)
    requires Good(t.slots) && Tidy(t.slots) && Indexed(t.slots) && t.init && AllowedRun(t, ops)
    ensures Tidy(Run(t, ops).slots) && Indexed(Run(t, ops).slots)
    decreases |ops|
  {
    hide Good, Tidy, Indexed, Allowed, Apply;
    if ops == [] {
    } else {
      StepKeepsGood(t, ops[0]);
      StepKeepsTidyIff(t, ops[0]);
      InitStays(t, ops[0]);
      RunKeepsTidy(Apply(t, ops[0]), ops[1..]);
    }
  }

  /** The first start spoils the table, and the next start or end, of whatever port, puts that
      right: it gets slot 0, the one that the first loop is in. */
  lemma TidyFromSecondCall(first: int, op: Op)
    requires first != 0 && op.port != 0 && !op.Lookup?
    ensures Allowed(Initial(), Begin(first)) && Allowed(Start(Initial(), first), op)
    ensures var t := Apply(Start(Initial(), first), op);
      t.init && Good(t.slots) && Tidy(t.slots) && Indexed(t.slots)
  {
    InitialGood();
    AllFree(Initial().slots, first);
    FirstStartLeaves(Initial(), first, op.port);
    var t := Start(Initial(), first);
    StepKeepsGood(Initial(), Begin(first));
    StepKeepsGood(t, op);
    assert forall k | 0 < k < |t.slots| :: t.slots[k] == CLEAR;
    HeldIdx(t.slots, op.port);
    assert forall k | 0 < k < |t.slots| :: Apply(t, op).slots[k] == CLEAR;
  }

  /** A started thread copies its argument out of its slot when it first runs. Whatever was
      started and ended before that, it reads what it was started with if and only if its port
      was not ended, or a later start of the same port took the slot for good. Otherwise it
      reads port 0 and index 0, or the argument of the port that has the slot by then. */
  lemma {:induction false} OwnArgumentIff(t: Table, port: int, ops: seq<Op>)
    requires Good(t.slots) && Tidy(t.slots) && Indexed(t.slots) && t.init
    requires Allowed(t, Begin(port)) && AllowedRun(Start(t, port), ops) && StartsAndEnds(ops)
    ensures var i, t' := ThreadIdx(t.slots, port), Start(t, port);
      && 0 <= i < |t'.slots| == |Run(t', ops).slots|
      && var s := Run(t', ops).slots[i];
        && ((s.argPort == port && s.argIndex == i) <==> Finish(port) !in ops || PortTakes(t', ops, i, port))
        && (s == CLEAR || s == Slot(s.port, 1, s.port, i))
  {
    hide Held, Ports, IndexOf, AllClear, PortTakes;
    var i, t' := ThreadIdx(t.slots, port), Start(t, port);
    HeldIdx(t.slots, port);
    StepKeepsGood(t, Begin(port));
    StepKeepsTidyIff(t, Begin(port));
    assert t'.slots[i].port == port && t'.slots[i].run == 1;
    RunKeepsTidy(t', ops);
    SlotHeldIff(t', ops, i, port);
    assert TidySlot(Run(t', ops).slots[i]);
  }
}
