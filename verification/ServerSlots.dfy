/** The server's table of message loops: a port takes the first free slot, and an ended
    port leaves a hole. */
module ServerSlots {
  import opened Search

  const MAX_MSG_LOOP_CNT := 20

  /** `MGR_MSG_LOOP_T` with its thread argument, without the thread id and callback. */
  datatype Slot = Slot(port: int, run: int, argPort: int, argIndex: int)

  const CLEAR := Slot(0, 0, 0, 0)

  function Ports(slots: seq<Slot>): (ports: seq<int>)
    ensures |ports| == |slots| && forall i | 0 <= i < |slots| :: ports[i] == slots[i].port
  {
    if slots == [] then [] else Ports(slots[..|slots| - 1]) + [slots[|slots| - 1].port]
  }

  // ---------------------------------------------------------------- the functions

  /** `_get_thread_idx`: the slot of the port, or the first free one, or -1. */
  function ThreadIdx(slots: seq<Slot>, port: int): (idx: int)
    ensures -1 <= idx < |slots|
  {
    if port in Ports(slots) then IndexOf(Ports(slots), port)
    else if 0 in Ports(slots) then IndexOf(Ports(slots), 0)
    else -1
  }

  /** The table after the call: a free slot found for a new port is taken. */
  function Claim(slots: seq<Slot>, port: int): (slots': seq<Slot>)
    ensures |slots'| == |slots|
  {
    if port in Ports(slots) || 0 !in Ports(slots) then slots else
      var i := IndexOf(Ports(slots), 0);
      slots[i := slots[i].(port := port)]
  }

  /** The table and the `init_flag` of `_loop_mgr_init`. */
  datatype Table = Table(slots: seq<Slot>, init: bool)

  function AllClear(n: nat): (slots: seq<Slot>)
    ensures |slots| == n && forall i | 0 <= i < n :: slots[i] == CLEAR
  {
    if n == 0 then [] else AllClear(n - 1) + [CLEAR]
  }

  /** Static storage when the program starts. */
  function Initial(): Table {
    Table(AllClear(MAX_MSG_LOOP_CNT), false)
  }

  /** `udp_ipc_server_start`, up to the creation of the loop's thread. The slot is looked
      up first, and the first call then clears the table before it fills that slot in. */
  function Start(t: Table, port: int): (t': Table)
    requires ThreadIdx(t.slots, port) != -1
    ensures |t'.slots| == |t.slots|
  {
    var i := ThreadIdx(t.slots, port);
    var slots := if t.init then Claim(t.slots, port) else AllClear(|t.slots|);
    Table(slots[i := slots[i].(run := 1, argPort := port, argIndex := i)], true)
  }

  /** `udp_ipc_server_end`. */
  function End(t: Table, port: int): (t': Table)
    requires ThreadIdx(t.slots, port) != -1
    ensures |t'.slots| == |t.slots|
  {
    t.(slots := Claim(t.slots, port)[ThreadIdx(t.slots, port) := CLEAR])
  }

  // ---------------------------------------------------------------- in place

  class Server {
    /** `g_mgr_msg_loop`. */
    const loops: array<Slot>
    var initFlag: bool

    ghost predicate Valid()
    {
      loops.Length == MAX_MSG_LOOP_CNT
    }

    ghost function Contents(): Table
      reads this, loops
    {
      Table(loops[..], initFlag)
    }

    constructor ()
      ensures Valid() && fresh(loops) && Contents() == Initial()
    {
      loops := new Slot[MAX_MSG_LOOP_CNT](_ => CLEAR);
      initFlag := false;
      new;
      assert loops[..] == AllClear(MAX_MSG_LOOP_CNT);
    }

    /** `_loop_mgr_init`. */
    method LoopMgrInit()
      requires Valid()
      modifies this`initFlag, loops
      ensures initFlag && loops[..] == if old(initFlag) then old(loops[..]) else AllClear(MAX_MSG_LOOP_CNT)
    {
      if initFlag {
        return;
      }
      for i := 0 to MAX_MSG_LOOP_CNT
        invariant forall j | 0 <= j < i :: loops[j] == CLEAR
      {
        loops[i] := CLEAR;
      }
      initFlag := true;
      assert loops[..] == AllClear(MAX_MSG_LOOP_CNT);
    }

    method GetThreadIdx(port: int) returns (idx: int)
      requires Valid()
      modifies loops
      ensures idx == ThreadIdx(old(loops[..]), port) && loops[..] == Claim(old(loops[..]), port)
    {
      ghost var slots := loops[..];
      ghost var ports := Ports(slots);
      idx := -1;
      for i := 0 to MAX_MSG_LOOP_CNT
        invariant loops[..] == slots && idx == -1 && forall j | 0 <= j < i :: ports[j] != port
      {
        if loops[i].port == port {
          IndexOfIs(ports, port, i);
          idx := i;
          break;
        }
      }
      if idx == -1 {
        for i := 0 to MAX_MSG_LOOP_CNT
          invariant loops[..] == slots && idx == -1 && forall j | 0 <= j < i :: ports[j] != 0
        {
          if loops[i].port == 0 {
            IndexOfIs(ports, 0, i);
            loops[i] := loops[i].(port := port);
            assert loops[..] == slots[i := slots[i].(port := port)];
            idx := i;
            break;
          }
        }
      }
    }

    /** There has to be a slot: the function does not test the index it gets. */
    method ServerStart(port: int)
      requires Valid() && ThreadIdx(loops[..], port) != -1
      modifies this`initFlag, loops
      ensures Contents() == Start(old(Contents()), port)
    {
      var i := GetThreadIdx(port);
      LoopMgrInit();
      ghost var slots := loops[..];
      loops[i] := loops[i].(argPort := port);
      loops[i] := loops[i].(argIndex := i);
      loops[i] := loops[i].(run := 1);
      assert loops[..] == slots[i := slots[i].(run := 1, argPort := port, argIndex := i)];
    }

    method ServerEnd(port: int)
      requires Valid() && ThreadIdx(loops[..], port) != -1
      modifies loops
      ensures Contents() == End(old(Contents()), port)
    {
      var i := GetThreadIdx(port);
      ghost var slots := loops[..];
      loops[i] := CLEAR;
      assert loops[..] == slots[i := CLEAR];
    }
  }

  // ---------------------------------------------------------------- the invariants

  /** The ports that hold a slot. */
  function Held(slots: seq<Slot>): set<int> {
    set i | 0 <= i < |slots| && slots[i].port != 0 :: slots[i].port
  }

  /** Held ports are distinct, however many holes there are between them. */
  ghost predicate Good(slots: seq<Slot>) {
    && |slots| == MAX_MSG_LOOP_CNT
    && (forall i, j | 0 <= i < j < |slots| && slots[i].port != 0 :: slots[i].port != slots[j].port)
  }

  /** A running loop's argument names its own slot. */
  ghost predicate Indexed(slots: seq<Slot>) {
    forall i | 0 <= i < |slots| && slots[i].run != 0 :: slots[i].run == 1 && slots[i].argIndex == i
  }

  /** A free slot is clear, and a running loop's argument names its slot's port. */
  ghost predicate Tidy(slots: seq<Slot>) {
    forall i | 0 <= i < |slots| :: TidySlot(slots[i])
  }

  predicate TidySlot(s: Slot) {
    && (s.port == 0 ==> s == CLEAR)
    && (s.run != 0 ==> s.argPort == s.port)
  }

  datatype Op = Lookup(port: int) | Begin(port: int) | Finish(port: int)

  /** Callers pass real ports and start or end a loop only when the table has a slot. */
  predicate Allowed(t: Table, op: Op) {
    op.port != 0 && (op.Lookup? || ThreadIdx(t.slots, op.port) != -1)
  }

  function Apply(t: Table, op: Op): (t': Table)
    requires Allowed(t, op)
    ensures |t'.slots| == |t.slots|
  {
    match op
    case Lookup(p) => t.(slots := Claim(t.slots, p))
    case Begin(p) => Start(t, p)
    case Finish(p) => End(t, p)
  }

  /** The start that clears the table. */
  predicate IsFirstStart(t: Table, op: Op) {
    op.Begin? && !t.init
  }

  /** The slot of a held port, or a free one. */
  lemma HeldIdx(slots: seq<Slot>, port: int)
    requires Good(slots) && port != 0
    ensures port in Held(slots) <==> port in Ports(slots)
    ensures port in Held(slots) ==>
      var i := ThreadIdx(slots, port);
      0 <= i < |slots| && slots[i].port == port && forall j | 0 <= j < |slots| && j != i :: slots[j].port != port
    ensures port !in Held(slots) && 0 in Ports(slots) ==>
      var i := ThreadIdx(slots, port); 0 <= i < |slots| && slots[i].port == 0
  {
    var ports := Ports(slots);
    if port in ports {
      var i := IndexOf(ports, port);
      assert slots[i].port == port;
      forall j | 0 <= j < |slots| && j != i ensures slots[j].port != port {
        assert if i < j then slots[i].port != slots[j].port else ports[..i][j] != port;
      }
    }
  }

  lemma StepKeepsGood(t: Table, op: Op)
    requires Good(t.slots) && Allowed(t, op)
    ensures Good(Apply(t, op).slots)
    ensures Indexed(t.slots) ==> Indexed(Apply(t, op).slots)
  {
    hide Ports, Held, IndexOf, AllClear;
    HeldIdx(t.slots, op.port);
  }

  /** Tidiness is kept by every operation but one: the program's first start spoils it. */
  lemma StepKeepsTidyIff(t: Table, op: Op)
    requires Good(t.slots) && Tidy(t.slots) && Allowed(t, op)
    ensures Tidy(Apply(t, op).slots) <==> !IsFirstStart(t, op)
  {
    hide Ports, Held, IndexOf, AllClear;
    HeldIdx(t.slots, op.port);
    if IsFirstStart(t, op) {
      assert !TidySlot(Apply(t, op).slots[ThreadIdx(t.slots, op.port)]);
    }
  }
}
