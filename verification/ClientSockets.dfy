/** The client's socket cache: ports are given table indices, and each index caches at
    most one open descriptor. */
module ClientSockets {
  import opened Search

  const MAX_REUSE_SOCK_CNT := 10

  /** The two static arrays, with the descriptors the operating system holds open for
      them and the receive timeout set on each. */
  datatype Cache = Cache(mgr: seq<int>, sock: seq<int>, open: set<int>, timeouts: map<int, int>)

  ghost predicate Shaped(c: Cache) {
    |c.mgr| == MAX_REUSE_SOCK_CNT && |c.sock| == MAX_REUSE_SOCK_CNT
  }

  const EMPTY := Cache(Zeros(MAX_REUSE_SOCK_CNT), Zeros(MAX_REUSE_SOCK_CNT), {}, map[])

  // ---------------------------------------------------------------- the functions

  /** `_get_sock_idx`: the index of the port, or the first free one, or 0. */
  function SockIdx(mgr: seq<int>, port: int): (idx: nat)
    requires |mgr| == MAX_REUSE_SOCK_CNT
    ensures idx < MAX_REUSE_SOCK_CNT
  {
    if port in mgr then IndexOf(mgr, port)
    else if 0 in mgr then IndexOf(mgr, 0)
    else 0
  }

  /** The table after the call: a free index found for a new port is taken. */
  function Claim(mgr: seq<int>, port: int): (mgr': seq<int>)
    requires |mgr| == MAX_REUSE_SOCK_CNT
    ensures |mgr'| == |mgr|
  {
    if port !in mgr && 0 in mgr then mgr[IndexOf(mgr, 0) := port] else mgr
  }

  /** `_init_ipc_sock`; `created` is what `socket` returns if it is called. */
  function InitSock(c: Cache, timeout: int, port: int, created: int): (r: (Cache, int))
    requires Shaped(c)
    ensures Shaped(r.0)
  {
    var idx, mgr := SockIdx(c.mgr, port), Claim(c.mgr, port);
    if c.sock[idx] > 0 then (c.(mgr := mgr), c.sock[idx])
    else if created == -1 then (c.(mgr := mgr), -1)
    else (Cache(mgr, c.sock[idx := created], c.open + {created}, c.timeouts[created := timeout]), created)
  }

  /** `_close_ipc_sock`. */
  function CloseSock(c: Cache, port: int): (c': Cache)
    requires Shaped(c)
    ensures Shaped(c')
  {
    var idx := SockIdx(c.mgr, port);
    c.(mgr := Claim(c.mgr, port), sock := c.sock[idx := -1],
       open := if c.sock[idx] > 0 then c.open - {c.sock[idx]} else c.open)
  }

  /** One send, and what the system calls in it return (-1 for a `socket` call that is
      not reached): `udp_ipc_broadcast_send` with timeout 0, `udp_ipc_broadcast_send_recv`
      with the caller's. */
  datatype Request = Request(port: int, timeout: int, created: int, sent: bool)

  /** The descriptor the datagram went out on and its receive timeout. */
  datatype Outcome = Failed | SentOn(fd: int, timeout: int)

  function Send(c: Cache, r: Request): (Cache, Outcome)
    requires Shaped(c)
    ensures Shaped(Send(c, r).0)
  {
    var (c1, fd) := InitSock(c, r.timeout, r.port, r.created);
    if fd < 0 || !r.sent then (CloseSock(c1, r.port), Failed)
    else (c1, SentOn(fd, if fd in c1.timeouts then c1.timeouts[fd] else 0))
  }

  // ---------------------------------------------------------------- in place

  class Client {
    const gSockMgr: array<int>
    const gSock: array<int>
    /** The operating system's side: descriptors open, and SO_RCVTIMEO of each. */
    var open: set<int>
    var timeouts: map<int, int>

    ghost predicate Valid()
      reads this, gSockMgr, gSock
    {
      gSockMgr != gSock && Shaped(Contents())
    }

    ghost function Contents(): Cache
      reads this, gSockMgr, gSock
    {
      Cache(gSockMgr[..], gSock[..], open, timeouts)
    }

    constructor ()
      ensures Valid() && fresh(gSockMgr) && fresh(gSock) && Contents() == EMPTY
    {
      gSockMgr := new int[MAX_REUSE_SOCK_CNT](_ => 0);
      gSock := new int[MAX_REUSE_SOCK_CNT](_ => 0);
      open, timeouts := {}, map[];
      new;
      assert gSockMgr[..] == EMPTY.mgr && gSock[..] == EMPTY.sock;
    }

    method GetSockIdx(port: int) returns (idx: nat)
      requires Valid()
      modifies gSockMgr
      ensures Valid() && idx == SockIdx(old(gSockMgr[..]), port)
      ensures gSockMgr[..] == Claim(old(gSockMgr[..]), port)
    {
      ghost var mgr := gSockMgr[..];
      for i := 0 to MAX_REUSE_SOCK_CNT
        invariant gSockMgr[..] == mgr && forall j | 0 <= j < i :: mgr[j] != port
      {
        if gSockMgr[i] == port {
          IndexOfIs(mgr, port, i);
          return i;
        }
      }
      assert port !in mgr;
      for i := 0 to MAX_REUSE_SOCK_CNT
        invariant gSockMgr[..] == mgr && forall j | 0 <= j < i :: mgr[j] != 0
      {
        if gSockMgr[i] == 0 {
          IndexOfIs(mgr, 0, i);
          gSockMgr[i] := port;
          assert gSockMgr[..] == mgr[i := port];
          return i;
        }
      }
      assert 0 !in mgr;
      return 0;
    }

    method InitIpcSock(timeout: int, port: int, created: int) returns (fd: int)
      requires Valid()
      modifies this, gSockMgr, gSock
      ensures Valid() && (Contents(), fd) == InitSock(old(Contents()), timeout, port, created)
    {
      var idx := GetSockIdx(port);
      if gSock[idx] > 0 {
        return gSock[idx];
      }
      if -1 == created {
        return -1;
      }
      open := open + {created};
      timeouts := timeouts[created := timeout];
      ghost var sock := gSock[..];
      gSock[idx] := created;
      assert gSock[..] == sock[idx := created];
      return gSock[idx];
    }

    method CloseIpcSock(port: int)
      requires Valid()
      modifies this, gSockMgr, gSock
      ensures Valid() && Contents() == CloseSock(old(Contents()), port)
    {
      var idx := GetSockIdx(port);
      if gSock[idx] > 0 {
        open := open - {gSock[idx]};
      }
      ghost var sock := gSock[..];
      gSock[idx] := -1;
      assert gSock[..] == sock[idx := -1];
    }

    method BroadcastSend(port: int, created: int, sent: bool)
      requires Valid()
      modifies this, gSockMgr, gSock
      ensures Valid() && Contents() == Send(old(Contents()), Request(port, 0, created, sent)).0
    {
      var fd := InitIpcSock(0, port, created);
      if fd < 0 {
        CloseIpcSock(port);
        return;
      }
      if !sent {
        CloseIpcSock(port);
        return;
      }
    }

    /** `received` is what `recvfrom` returns if it is reached. */
    method BroadcastSendRecv(port: int, timeout: int, created: int, sent: bool, received: int) returns (size: int)
      requires Valid()
      modifies this, gSockMgr, gSock
      ensures Valid() && Contents() == Send(old(Contents()), Request(port, timeout, created, sent)).0
      ensures size == if Send(old(Contents()), Request(port, timeout, created, sent)).1 == Failed then -1 else received
    {
      var fd := InitIpcSock(timeout, port, created);
      if fd < 0 {
        CloseIpcSock(port);
        return -1;
      }
      if !sent {
        CloseIpcSock(port);
        return -1;
      }
      return received;
    }
  }
}
