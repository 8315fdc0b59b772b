/** What whole runs of lookups, starts and ends do to the server's slot table. */
module ServerRuns {
  import opened Search
  import opened ServerSlots

  // -------------------------------------------------- the table as a set of ports

  predicate Room(held: set<int>, port: int) {
    port in held || |held| < MAX_MSG_LOOP_CNT
  }

  /** The table as its callers see it: the ports that hold a slot, and whether the
      first start has come. */
  datatype Taken = Taken(held: set<int>, init: bool)

  /** The effect of an operation. The first start forgets every port, its own too. */
  function Take(t: Taken, op: Op): Taken {
    match op
    case Lookup(p) => t.(held := if Room(t.held, p) then t.held + {p} else t.held)
    case Begin(p) => Taken(if t.init then t.held + {p} else {}, true)
    case Finish(p) => t.(held := t.held - {p})
  }

  ghost function View(t: Table): Taken {
    Taken(Held(t.slots), t.init)
  }

  /** A lookup finds no slot exactly when twenty other ports hold one. */
  lemma LookupFailsIffFull(slots: seq<Slot>, port: int)
    requires Good(slots) && port != 0
    ensures ThreadIdx(slots, port) == -1 <==> port !in Held(slots) && |Held(slots)| == 20
    ensures ThreadIdx(slots, port) != -1 <==> Room(Held(slots), port)
  {
    hide IndexOf, Ports, Held, Good;
    HeldIdx(slots, port);
    FullIffNoHole(slots);
  }

  lemma FullIffNoHole(slots: seq<Slot>)
    requires Good(slots)
    ensures 0 !in Ports(slots) <==> |Held(slots)| == MAX_MSG_LOOP_CNT
    ensures |Held(slots)| <= MAX_MSG_LOOP_CNT
  {
    HeldAndFree(slots);
    CountFree(Ports(slots), Held(slots));
  }

  lemma CountFree(ports: seq<int>, held: set<int>)
    requires forall p :: p in held <==> p in ports && p != 0
    requires 0 !in ports ==> Distinct(ports)
    ensures 0 !in ports <==> |held| == |ports|
    ensures |held| <= |ports|
  {
    ElementsBound(ports);
    if 0 in ports {
      forall p ensures p in Elements(ports) <==> p in held + {0} {
        assert p in Elements(ports) <==> p in ports;
      }
      assert Elements(ports) == held + {0} && 0 !in held;
    } else {
      assert Elements(ports) == held;
      DistinctCount(ports);
    }
  }

  lemma HeldAndFree(slots: seq<Slot>)
    ensures forall p :: p in Held(slots) <==> p in Ports(slots) && p != 0
  {
    forall p ensures p in Held(slots) <==> p in Ports(slots) && p != 0 {
      if p in Ports(slots) && p != 0 {
        var i :| 0 <= i < |slots| && Ports(slots)[i] == p;
        assert slots[i].port == p;
      }
      if p in Held(slots) {
        var i :| 0 <= i < |slots| && slots[i].port == p && p != 0;
        assert Ports(slots)[i] == p;
      }
    }
  }

  lemma ClaimHolds(slots: seq<Slot>, port: int)
    requires Good(slots) && port != 0
    ensures Good(Claim(slots, port))
    ensures Held(Claim(slots, port)) == if ThreadIdx(slots, port) != -1 then Held(slots) + {port} else Held(slots)
    ensures ThreadIdx(slots, port) != -1 ==>
      Claim(slots, port)[ThreadIdx(slots, port)].port == port
  {
    hide IndexOf;
    HeldIdx(slots, port);
    StepKeepsGood(Table(slots, true), Lookup(port));
    var i, claimed := ThreadIdx(slots, port), Claim(slots, port);
    if port !in Held(slots) && i != -1 {
      assert claimed == slots[i := slots[i].(port := port)];
      assert claimed[i].port == port;
      forall p ensures p in Held(slots) ==> p in Held(claimed) {
        if p in Held(slots) {
          var k :| 0 <= k < |slots| && slots[k].port == p && p != 0;
          assert claimed[k].port == p;
        }
      }
    }
  }

  /** Storing a slot without changing which port it is for. */
  lemma SamePort(slots: seq<Slot>, i: nat, s: Slot)
    requires i < |slots| && s.port == slots[i].port
    ensures Held(slots[i := s]) == Held(slots)
  {
    var t := slots[i := s];
    assert forall k | 0 <= k < |slots| :: t[k].port == slots[k].port;
  }

  lemma ClearedHolds(slots: seq<Slot>, i: nat)
    requires Good(slots) && i < |slots| && slots[i].port != 0
    ensures Held(slots[i := CLEAR]) == Held(slots) - {slots[i].port}
  {
    var t := slots[i := CLEAR];
    forall p ensures p in Held(slots) - {slots[i].port} ==> p in Held(t) {
      if p in Held(slots) && p != slots[i].port {
        var k :| 0 <= k < |slots| && slots[k].port == p && p != 0;
        assert t[k].port == p;
      }
    }
  }

  lemma NothingHeld(slots: seq<Slot>)
    requires forall i | 0 <= i < |slots| :: slots[i].port == 0
    ensures Held(slots) == {}
  {
  }

  lemma StepTakes(t: Table, op: Op)
    requires Good(t.slots) && Allowed(t, op)
    ensures View(Apply(t, op)) == Take(View(t), op)
  {
    hide Claim, ThreadIdx, Held, AllClear;
    LookupFailsIffFull(t.slots, op.port);
    ClaimHolds(t.slots, op.port);
    var i, claimed := ThreadIdx(t.slots, op.port), Claim(t.slots, op.port);
    match op
    case Lookup(p) =>
    case Begin(p) =>
      if t.init {
        SamePort(claimed, i, claimed[i].(run := 1, argPort := p, argIndex := i));
      } else {
        NothingHeld(Start(t, p).slots);
      }
    case Finish(p) => ClearedHolds(claimed, i);
  }

  // -------------------------------------------------- runs

  predicate AllowedRun(t: Table, ops: seq<Op>)
    decreases |ops|
  {
    ops == [] || (Allowed(t, ops[0]) && AllowedRun(Apply(t, ops[0]), ops[1..]))
  }

  function Run(t: Table, ops: seq<Op>): Table
    requires AllowedRun(t, ops)
    decreases |ops|
  {
    if ops == [] then t else Run(Apply(t, ops[0]), ops[1..])
  }

  function TakeAll(t: Taken, ops: seq<Op>): Taken
    decreases |ops|
  {
    if ops == [] then t else TakeAll(Take(t, ops[0]), ops[1..])
  }

  lemma {:induction false} RunTakes(t: Table, ops: seq<Op>)
    requires Good(t.slots) && AllowedRun(t, ops)
    ensures Good(Run(t, ops).slots) && View(Run(t, ops)) == TakeAll(View(t), ops)
    decreases |ops|
  {
    hide View, Good, Apply, Allowed, Take;
    if ops == [] {
    } else {
      StepKeepsGood(t, ops[0]);
      StepTakes(t, ops[0]);
      RunTakes(Apply(t, ops[0]), ops[1..]);
    }
  }

  lemma InitialGood()
    ensures Good(Initial().slots) && Indexed(Initial().slots) && Tidy(Initial().slots)
    ensures View(Initial()) == Taken({}, false)
  {
    NothingHeld(Initial().slots);
  }

  /** Over any run of the program the table stands for the set of ports taken and not
      ended since, up to twenty of them, which the first start empties. Held ports stay
      distinct. */
  lemma {:induction false} RunHolds(ops: seq<Op>)
    requires AllowedRun(Initial(), ops)
    ensures Good(Run(Initial(), ops).slots)
    ensures View(Run(Initial(), ops)) == TakeAll(Taken({}, false), ops)
  {
    InitialGood();
    RunTakes(Initial(), ops);
  }

  lemma StepKeepsSlot(t: Table, op: Op, port: int, i: nat)
    requires Good(t.slots) && Allowed(t, op) && i < |t.slots| && t.slots[i].port == port != 0
    requires op != Finish(port) && !IsFirstStart(t, op)
    ensures Apply(t, op).slots[i].port == port
  {
    hide Ports, IndexOf, Held, AllClear;
    HeldIdx(t.slots, op.port);
  }

  /** A held port keeps its slot until it is ended or the first start comes, whatever
      comes and goes around it. */
  lemma {:induction false} HeldKeepsSlot(t: Table, ops: seq<Op>, port: int, i: nat)
    requires Good(t.slots) && AllowedRun(t, ops)
    requires i < |t.slots| && t.slots[i].port == port != 0 && Finish(port) !in ops
    requires t.init || forall op | op in ops :: !op.Begin?
    ensures |Run(t, ops).slots| == |t.slots| && Run(t, ops).slots[i].port == port
    decreases |ops|
  {
    if ops == [] {
    } else {
      assert ops[0] in ops && forall op | op in ops[1..] :: op in ops;
      StepKeepsGood(t, ops[0]);
      StepKeepsSlot(t, ops[0], port, i);
      HeldKeepsSlot(Apply(t, ops[0]), ops[1..], port, i);
    }
  }

  /** And a lookup resolves a port to the one slot that it holds. */
  lemma LookupResolves(slots: seq<Slot>, port: int, i: nat)
    requires Good(slots) && i < |slots| && slots[i].port == port != 0
    ensures ThreadIdx(slots, port) == i && Claim(slots, port) == slots
  {
    HeldIdx(slots, port);
    assert Ports(slots)[i] == port;
  }

  /** A new port is given the lowest free slot, and only the slot's port changes. */
  lemma LookupTakesLowest(slots: seq<Slot>, port: int)
    requires Good(slots) && port != 0 && port !in Held(slots) && |Held(slots)| < 20
    ensures var i, slots' := ThreadIdx(slots, port), Claim(slots, port);
      && 0 <= i < |slots| && slots[i].port == 0 && (forall j | 0 <= j < i :: slots[j].port != 0)
      && slots'[i] == Slot(port, slots[i].run, slots[i].argPort, slots[i].argIndex)
      && (forall j | 0 <= j < |slots| && j != i :: slots'[j] == slots[j])
  {
    LookupFailsIffFull(slots, port);
    HeldIdx(slots, port);
    FirstHole(slots, ThreadIdx(slots, port));
  }

  /** Looking a port up for the first time and ending it again leaves the table as it was
      if and only if the slot it took was clear; a loop still running there is ended. */
  lemma EndUndoesLookupIff(t: Table, port: int)
    requires Good(t.slots) && port != 0 && port !in Held(t.slots) && ThreadIdx(t.slots, port) != -1
    ensures ThreadIdx(Claim(t.slots, port), port) == ThreadIdx(t.slots, port)
    ensures var ended := End(t.(slots := Claim(t.slots, port)), port);
      && ended == End(t, port)
      && (ended == t <==> t.slots[ThreadIdx(t.slots, port)] == CLEAR)
  {
    hide Ports, IndexOf, Held;
    HeldIdx(t.slots, port);
    ClaimHolds(t.slots, port);
    HeldIdx(Claim(t.slots, port), port);
    assert End(t, port).slots[ThreadIdx(t.slots, port)] == CLEAR;
  }

  // -------------------------------------------------- the first start

  lemma AllFree(slots: seq<Slot>, port: int)
    requires |slots| == MAX_MSG_LOOP_CNT && (forall i | 0 <= i < |slots| :: slots[i].port == 0) && port != 0
    ensures ThreadIdx(slots, port) == 0
  {
    assert Ports(slots)[0] == 0;
    IndexOfIs(Ports(slots), 0, 0);
  }

  /** The first start forgets every port, its own too, and leaves its loop running in a
      slot that counts as free. The next lookup, of whatever port, takes slot 0. */
  lemma FirstStartLeaves(t: Table, port: int, other: int)
    requires Good(t.slots) && !t.init && port != 0 && ThreadIdx(t.slots, port) != -1 && other != 0
    ensures var i, t' := ThreadIdx(t.slots, port), Start(t, port);
      && Held(t'.slots) == {}
      && t'.slots[i] == Slot(0, 1, port, i)
      && (forall j | 0 <= j < |t'.slots| && j != i :: t'.slots[j] == CLEAR)
      && ThreadIdx(t'.slots, other) == 0
  {
    var t' := Start(t, port);
    NothingHeld(t'.slots);
    AllFree(t'.slots, other);
  }

  /** So when the program starts its first loop, that loop sits in slot 0, and the next
      port started takes the slot over. Ending the first port then ends its loop if and
      only if that next port was the first port again. */
  lemma EndStopsFirstLoopIff(first: int, next: int)
    requires first != 0 && next != 0
    ensures Allowed(Initial(), Begin(first))
    ensures var t := Start(Initial(), first);
      && Allowed(t, Begin(next))
      && var t' := Start(t, next);
        && t'.slots[0] == Slot(next, 1, next, 0)
        && Allowed(t', Finish(first))
        && (End(t', first).slots[0].run == 0 <==> next == first)
  {
    AllFree(Initial().slots, first);
    var t := Start(Initial(), first);
    FirstStartLeaves(Initial(), first, next);
    var t' := Start(t, next);
    assert Ports(t'.slots)[0] == next && Ports(t'.slots)[1] == 0;
    if next == first {
      IndexOfIs(Ports(t'.slots), first, 0);
    } else {
      assert first !in Ports(t'.slots);
      IndexOfIs(Ports(t'.slots), 0, 1);
    }
  }

  // -------------------------------------------------- a slot used again

  lemma FirstHole(slots: seq<Slot>, i: nat)
    requires i < |slots| && slots[i].port == 0
    ensures 0 in Ports(slots)
    ensures IndexOf(Ports(slots), 0) == i <==> forall j | 0 <= j < i :: slots[j].port != 0
  {
    var ports := Ports(slots);
    assert ports[i] == 0;
    var k := IndexOf(ports, 0);
    assert forall j | 0 <= j < k :: ports[j] == ports[..k][j];
    if forall j | 0 <= j < i :: slots[j].port != 0 {
      IndexOfIs(ports, 0, i);
    }
  }

  /** A message loop runs while its slot's run flag is set. If some port is started before
      an ended port's loop has looked, the loop finds the flag set again exactly when that
      start got its slot: no slot below was free, and the port held no other. */
  lemma EndedLoopGoesOnIff(t: Table, port: int, other: int)
    requires Good(t.slots) && port != 0 && port in Held(t.slots) && other != 0
    ensures ThreadIdx(t.slots, port) != -1 && ThreadIdx(End(t, port).slots, other) != -1
    ensures var i := ThreadIdx(t.slots, port);
      Start(End(t, port), other).slots[i].run != 0
      <==> (other == port || other !in Held(t.slots)) && forall j | 0 <= j < i :: t.slots[j].port != 0
  {
    hide Held, AllClear, Ports, IndexOf;
    var i := ThreadIdx(t.slots, port);
    HeldIdx(t.slots, port);
    StepKeepsGood(t, Finish(port));
    StepTakes(t, Finish(port));
    var ended := End(t, port);
    HeldIdx(ended.slots, other);
    FirstHole(ended.slots, i);
    assert Claim(t.slots, port) == t.slots;
    assert forall j | 0 <= j < i :: ended.slots[j] == t.slots[j];
  }
}
