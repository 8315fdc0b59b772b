/** What whole runs of sends do to the client's socket cache. */
module ClientRuns {
  import opened Search
  import opened ClientSockets

  function Run(c: Cache, requests: seq<Request>): (c': Cache)
    requires Shaped(c)
    ensures Shaped(c')
    decreases |requests|
  {
    if requests == [] then c else Run(Send(c, requests[0]).0, requests[1..])
  }

  // -------------------------------------------------- descriptors are not leaked

  /** Whether the request gets as far as calling `socket`. */
  predicate Creates(c: Cache, r: Request)
    requires Shaped(c)
  {
    c.sock[SockIdx(c.mgr, r.port)] <= 0
  }

  /** `socket` fails with -1 or returns a descriptor that is not open already. */
  predicate Possible(c: Cache, r: Request) {
    r.created == -1 || (0 <= r.created && r.created !in c.open)
  }

  predicate PossibleRun(c: Cache, requests: seq<Request>)
    requires Shaped(c)
    decreases |requests|
  {
    requests == [] || (Possible(c, requests[0]) && PossibleRun(Send(c, requests[0]).0, requests[1..]))
  }

  /** `socket` returned descriptor 0 at some point of the run. */
  predicate GotZero(c: Cache, requests: seq<Request>)
    requires Shaped(c)
    decreases |requests|
  {
    requests != [] &&
    ((Creates(c, requests[0]) && requests[0].created == 0) || GotZero(Send(c, requests[0]).0, requests[1..]))
  }

  /** The cached descriptors are open, each at one index only, and every open one but
      0 is cached. */
  ghost predicate Conserved(c: Cache) {
    && Shaped(c)
    && (forall i | 0 <= i < |c.sock| && c.sock[i] > 0 :: c.sock[i] in c.open)
    && (forall i, j | 0 <= i < j < |c.sock| && c.sock[i] > 0 :: c.sock[i] != c.sock[j])
    && (forall fd | fd in c.open && fd != 0 :: fd > 0 && fd in c.sock)
  }

  ghost predicate NothingLeaked(c: Cache) {
    forall fd :: fd in c.open <==> fd > 0 && fd in c.sock
  }

  lemma StoredAt(s: seq<int>, i: nat, x: int, fd: int)
    requires i < |s|
    ensures fd in s[i := x] ==> fd == x || fd in s
    ensures fd in s && fd != s[i] ==> fd in s[i := x]
    ensures x in s[i := x]
  {
    assert s[i := x][i] == x;
    if fd in s && fd != s[i] {
      var k :| 0 <= k < |s| && s[k] == fd;
      assert s[i := x][k] == fd;
    }
  }

  lemma InitConserves(c: Cache, timeout: int, port: int, created: int)
    requires Conserved(c) && (created == -1 || (0 <= created && created !in c.open))
    ensures var (c', fd) := InitSock(c, timeout, port, created);
      && Conserved(c') && (fd > 0 ==> fd in c'.open)
      && (0 in c'.open <==> 0 in c.open || (c.sock[SockIdx(c.mgr, port)] <= 0 && created == 0))
  {
    var idx := SockIdx(c.mgr, port);
    forall fd | fd in c.sock ensures fd != c.sock[idx] ==> fd in c.sock[idx := created] {
      StoredAt(c.sock, idx, created, fd);
    }
    StoredAt(c.sock, idx, created, created);
  }

  /** Closing gives back the descriptor cached for the port, which is open: nothing is
      closed twice. */
  lemma CloseConserves(c: Cache, port: int)
    requires Conserved(c)
    ensures var c' := CloseSock(c, port);
      && Conserved(c') && (0 in c'.open <==> 0 in c.open)
      && c'.open == c.open - (set i | 0 <= i < |c.sock| && c.sock[i] > 0 && i == SockIdx(c.mgr, port) :: c.sock[i])
  {
    var idx := SockIdx(c.mgr, port);
    forall fd | fd in c.sock ensures fd != c.sock[idx] ==> fd in c.sock[idx := -1] {
      StoredAt(c.sock, idx, -1, fd);
    }
  }

  /** A send fails exactly when no descriptor can be had or `sendto` fails, and then leaves
      nothing cached for the port. Otherwise it goes out on the cached descriptor, or on the
      new one, which is cached from then on. */
  lemma SendDoes(c: Cache, r: Request)
    requires Conserved(c) && Possible(c, r)
    ensures var (c', o) := Send(c, r);
      var idx := SockIdx(c'.mgr, r.port);
      var fd := if Creates(c, r) then r.created else c.sock[SockIdx(c.mgr, r.port)];
      if fd == -1 || !r.sent then o == Failed && c'.sock[idx] == -1 && (fd > 0 ==> fd !in c'.open)
      else o.SentOn? && o.fd == fd == c'.sock[idx] && fd in c'.open
  {
    SameIdx(c.mgr, r.port);
    SameIdx(Claim(c.mgr, r.port), r.port);
  }

  lemma SameIdx(mgr: seq<int>, port: int)
    requires |mgr| == MAX_REUSE_SOCK_CNT
    ensures SockIdx(Claim(mgr, port), port) == SockIdx(mgr, port)
  {
    if port !in mgr && 0 in mgr {
      IndexOfIs(Claim(mgr, port), port, SockIdx(mgr, port));
    }
  }

  lemma SendConserves(c: Cache, r: Request)
    requires Conserved(c) && Possible(c, r)
    ensures var c' := Send(c, r).0;
      Conserved(c') && (0 in c'.open <==> 0 in c.open || (Creates(c, r) && r.created == 0))
  {
    assert Shaped(c);
    hide Claim, SockIdx, Conserved, CloseSock, InitSock;
    InitConserves(c, r.timeout, r.port, r.created);
    var (c1, fd) := InitSock(c, r.timeout, r.port, r.created);
    if fd < 0 || !r.sent {
      CloseConserves(c1, r.port);
    }
  }

  lemma {:induction false} RunConserves(c: Cache, requests: seq<Request>)
    requires Conserved(c) && PossibleRun(c, requests)
    ensures Conserved(Run(c, requests))
    ensures 0 in Run(c, requests).open <==> 0 in c.open || GotZero(c, requests)
    decreases |requests|
  {
    assert Shaped(c);
    hide Conserved, Send, Creates;
    if requests == [] {
    } else {
      SendConserves(c, requests[0]);
      RunConserves(Send(c, requests[0]).0, requests[1..]);
    }
  }

  /** Over any run, on any ports: the open descriptors are exactly the positive entries
      of `g_sock` if and only if `socket` never returned 0. That one descriptor is taken
      for an unused entry, so it is neither reused nor closed. */
  lemma {:induction false} NoLeakIffNeverZero(requests: seq<Request>)
    requires PossibleRun(EMPTY, requests)
    ensures NothingLeaked(Run(EMPTY, requests)) <==> !GotZero(EMPTY, requests)
  {
    RunConserves(EMPTY, requests);
    var c := Run(EMPTY, requests);
    assert Conserved(c);
    if 0 !in c.open {
      forall fd ensures fd in c.open <==> fd > 0 && fd in c.sock {
        if fd > 0 && fd in c.sock {
          var i :| 0 <= i < |c.sock| && c.sock[i] == fd;
        }
      }
    }
  }

  // -------------------------------------------------- indices

  /** The port table that holds `known`, in the order the ports came. */
  function Table(known: seq<int>): (mgr: seq<int>)
    requires |known| <= MAX_REUSE_SOCK_CNT
    ensures |mgr| == MAX_REUSE_SOCK_CNT
  {
    known + Zeros(MAX_REUSE_SOCK_CNT - |known|)
  }

  ghost predicate Ports(known: seq<int>) {
    |known| <= MAX_REUSE_SOCK_CNT && Distinct(known) && 0 !in known
  }

  function Learn(known: seq<int>, port: int): seq<int> {
    if port !in known && |known| < MAX_REUSE_SOCK_CNT then known + [port] else known
  }

  /** The index a port has in the end: its place among the known ports, or 0. */
  function Place(known: seq<int>, port: int): nat {
    if port in known then IndexOf(known, port) else 0
  }

  lemma KnownPort(known: seq<int>, port: int)
    requires Ports(known) && port in known
    ensures port in Table(known) && IndexOf(Table(known), port) == IndexOf(known, port)
  {
    var i := IndexOf(known, port);
    assert forall j | 0 <= j < i :: known[j] == known[..i][j];
    assert Table(known)[i] == port;
    IndexOfIs(Table(known), port, i);
  }

  lemma NewPort(known: seq<int>, port: int)
    requires Ports(known) && port !in known && port != 0
    ensures port !in Table(known)
    ensures |known| < MAX_REUSE_SOCK_CNT ==>
      && 0 in Table(known) && IndexOf(Table(known), 0) == |known|
      && Table(known)[|known| := port] == Table(known + [port]) && Ports(known + [port])
    ensures |known| == MAX_REUSE_SOCK_CNT ==> 0 !in Table(known)
  {
    var mgr, n := Table(known), |known|;
    if n < MAX_REUSE_SOCK_CNT {
      assert mgr[n] == 0;
      IndexOfIs(mgr, 0, n);
      assert mgr[n := port] == Table(known + [port]);
    } else {
      assert mgr == known;
    }
  }

  lemma LookupLearns(known: seq<int>, port: int)
    requires Ports(known) && port != 0
    ensures Ports(Learn(known, port)) && Claim(Table(known), port) == Table(Learn(known, port))
    ensures SockIdx(Table(known), port) == Place(Learn(known, port), port)
  {
    hide Table, IndexOf;
    if port in known {
      KnownPort(known, port);
    } else {
      NewPort(known, port);
      if |known| < MAX_REUSE_SOCK_CNT {
        IndexOfIs(known + [port], port, |known|);
      }
    }
  }

  /** The ports that have an index after lookups of `ports`. Once ten are known, lookups
      of other ports fall back to index 0. */
  function KnownAfter(known: seq<int>, ports: seq<int>): seq<int>
    decreases |ports|
  {
    if ports == [] then known else KnownAfter(Learn(known, ports[0]), ports[1..])
  }

  /** The indices that lookups of `ports`, one after the other, return. */
  function Indices(mgr: seq<int>, ports: seq<int>): (ids: seq<nat>)
    requires |mgr| == MAX_REUSE_SOCK_CNT
    ensures |ids| == |ports|
    decreases |ports|
  {
    if ports == [] then [] else [SockIdx(mgr, ports[0])] + Indices(Claim(mgr, ports[0]), ports[1..])
  }

  lemma {:induction false} KnownGrows(known: seq<int>, ports: seq<int>)
    requires Ports(known) && 0 !in ports
    ensures var all := KnownAfter(known, ports);
      && known <= all && Ports(all)
      && (forall p :: p in all ==> p in known || p in ports)
      && (forall p :: p in ports ==> p in all || |all| == MAX_REUSE_SOCK_CNT)
    decreases |ports|
  {
    if ports == [] {
    } else {
      assert ports[0] in ports && forall p | p in ports[1..] :: p in ports;
      LookupLearns(known, ports[0]);
      KnownGrows(Learn(known, ports[0]), ports[1..]);
      var all := KnownAfter(known, ports);
      forall p ensures p in all ==> p in known || p in ports {
        assert p in Learn(known, ports[0]) ==> p in known || p == ports[0];
      }
      forall p ensures p in ports ==> p in all || |all| == MAX_REUSE_SOCK_CNT {
        assert p in ports ==> p == ports[0] || p in ports[1..];
        assert |Learn(known, ports[0])| == MAX_REUSE_SOCK_CNT || ports[0] in Learn(known, ports[0]);
      }
    }
  }

  lemma PlaceInLonger(known: seq<int>, all: seq<int>, port: int)
    requires Ports(known) && Ports(all) && known <= all
    requires port in known || |known| == MAX_REUSE_SOCK_CNT
    ensures Place(known, port) == Place(all, port)
  {
    if port in known {
      var i := IndexOf(known, port);
      assert forall j | 0 <= j < i :: known[j] == known[..i][j];
      IndexOfIs(all, port, i);
    } else {
      assert known == all;
    }
  }

  lemma {:induction false} IndicesArePlaces(known: seq<int>, ports: seq<int>)
    requires Ports(known) && 0 !in ports
    ensures forall i | 0 <= i < |ports| ::
      Indices(Table(known), ports)[i] == Place(KnownAfter(known, ports), ports[i])
    decreases |ports|
  {
    hide Table, IndexOf, SockIdx, Claim;
    if ports == [] {
    } else {
      assert ports[0] in ports && forall p | p in ports[1..] :: p in ports;
      var next := Learn(known, ports[0]);
      LookupLearns(known, ports[0]);
      KnownGrows(next, ports[1..]);
      assert ports[0] in next || |next| == MAX_REUSE_SOCK_CNT;
      PlaceInLonger(next, KnownAfter(next, ports[1..]), ports[0]);
      IndicesArePlaces(next, ports[1..]);
    }
  }

  /** A port gets the same index every time it is looked up. */
  lemma {:induction false} IndexIsPermanent(ports: seq<int>, i: nat, j: nat)
    requires 0 !in ports && i < |ports| && j < |ports| && ports[i] == ports[j]
    ensures var ids := Indices(EMPTY.mgr, ports); ids[i] == ids[j]
  {
    assert EMPTY.mgr == Table([]);
    IndicesArePlaces([], ports);
  }

  ghost predicate IndicesApart(mgr: seq<int>, ports: seq<int>)
    requires |mgr| == MAX_REUSE_SOCK_CNT
  {
    forall i, j | 0 <= i < |ports| && 0 <= j < |ports| && ports[i] != ports[j] ::
      Indices(mgr, ports)[i] != Indices(mgr, ports)[j]
  }

  /** No two of the looked-up ports share an index if and only if there are at most
      ten of them. */
  lemma {:induction false} IndicesApartIffTen(ports: seq<int>)
    requires 0 !in ports
    ensures IndicesApart(EMPTY.mgr, ports) <==> |Elements(ports)| <= 10
  {
    assert EMPTY.mgr == Table([]);
    hide Table, Indices, IndexOf, KnownAfter;
    var all := KnownAfter([], ports);
    KnownGrows([], ports);
    IndicesArePlaces([], ports);
    DistinctCount(all);
    if p :| p in ports && p !in all {
      Overflowing(Table([]), ports, all, p);
    } else {
      AllPlaced(Table([]), ports, all);
    }
  }

  lemma AllPlaced(mgr: seq<int>, ports: seq<int>, all: seq<int>)
    requires |mgr| == MAX_REUSE_SOCK_CNT
    requires Ports(all) && forall p :: p in all <==> p in ports
    requires forall i | 0 <= i < |ports| :: Indices(mgr, ports)[i] == Place(all, ports[i])
    ensures IndicesApart(mgr, ports) && |Elements(ports)| <= MAX_REUSE_SOCK_CNT
  {
    hide Indices;
    DistinctCount(all);
    assert Elements(ports) == Elements(all);
    forall i, j | 0 <= i < |ports| && 0 <= j < |ports| && ports[i] != ports[j]
      ensures Place(all, ports[i]) != Place(all, ports[j])
    {
      assert ports[i] in ports && ports[j] in ports;
      assert all[Place(all, ports[i])] == ports[i] && all[Place(all, ports[j])] == ports[j];
    }
  }

  lemma Overflowing(mgr: seq<int>, ports: seq<int>, all: seq<int>, p: int)
    requires |mgr| == MAX_REUSE_SOCK_CNT
    requires Ports(all) && |all| == MAX_REUSE_SOCK_CNT && p in ports && p !in all
    requires forall q :: q in all ==> q in ports
    requires forall i | 0 <= i < |ports| :: Indices(mgr, ports)[i] == Place(all, ports[i])
    ensures !IndicesApart(mgr, ports) && |Elements(ports)| > MAX_REUSE_SOCK_CNT
  {
    hide Indices;
    DistinctCount(all);
    assert Elements(all) + {p} <= Elements(ports);
    SubsetCount(Elements(all) + {p}, Elements(ports));
    assert all[0] in all;
    var i :| 0 <= i < |ports| && ports[i] == all[0];
    var j :| 0 <= j < |ports| && ports[j] == p;
    IndexOfIs(all, all[0], 0);
    assert Place(all, ports[i]) == 0 == Place(all, ports[j]);
  }

  lemma SubsetCount(s: set<int>, t: set<int>)
    requires s <= t
    ensures |s| <= |t|
  {
    assert t == s + (t - s);
  }

  // -------------------------------------------------- the cache is a map from ports

  datatype Connection = Connection(fd: int, timeout: int)

  /** What the cache stands for: the ports with an open descriptor. */
  type Connections = map<int, Connection>

  function Connected(m: Connections, r: Request): Connections {
    if r.port in m || r.created == -1 then m else m[r.port := Connection(r.created, r.timeout)]
  }

  function SendOn(m: Connections, r: Request): (Connections, Outcome) {
    var m1 := Connected(m, r);
    if r.port in m1 && r.sent then (m1, SentOn(m1[r.port].fd, m1[r.port].timeout))
    else (m1 - {r.port}, Failed)
  }

  ghost predicate Represents(c: Cache, known: seq<int>, m: Connections) {
    Conserved(c) && Linked(c, known, m)
  }

  ghost predicate Linked(c: Cache, known: seq<int>, m: Connections) {
    && Shaped(c) && Ports(known) && c.mgr == Table(known)
    && (forall p | p in m :: p in known)
    && (forall i | |known| <= i < MAX_REUSE_SOCK_CNT :: c.sock[i] <= 0)
    && (forall i | 0 <= i < |known| :: Entry(c.sock[i], c.timeouts, known[i], m))
  }

  /** The entry of a known port holds its connection, or no descriptor. */
  ghost predicate Entry(fd: int, timeouts: map<int, int>, port: int, m: Connections) {
    if port in m then fd > 0 && fd in timeouts && m[port] == Connection(fd, timeouts[fd]) else fd <= 0
  }

  /** `socket` fails or returns a fresh positive descriptor, and there is an index for
      the port. */
  predicate Served(c: Cache, known: seq<int>, r: Request) {
    && (r.created == -1 || (r.created > 0 && r.created !in c.open))
    && r.port != 0 && (r.port in known || |known| < MAX_REUSE_SOCK_CNT)
  }

  lemma InitRepresents(c: Cache, known: seq<int>, m: Connections, r: Request)
    requires Represents(c, known, m) && Served(c, known, r)
    ensures var (c1, fd) := InitSock(c, r.timeout, r.port, r.created);
      var m1 := Connected(m, r);
      && Represents(c1, Learn(known, r.port), m1) && r.port in Learn(known, r.port)
      && (if r.port in m1
          then fd == m1[r.port].fd > 0 && fd in c1.timeouts && c1.timeouts[fd] == m1[r.port].timeout
          else fd == -1)
  {
    hide Table, SockIdx, Claim, Conserved, InitSock;
    InitConserves(c, r.timeout, r.port, r.created);
    if r.created > 0 {
      FreshNotCached(c, r.created);
    }
    InitLinks(c, known, m, r);
  }

  lemma FreshNotCached(c: Cache, fd: int)
    requires Conserved(c) && fd > 0 && fd !in c.open
    ensures fd !in c.sock
  {
  }

  lemma InitLinks(c: Cache, known: seq<int>, m: Connections, r: Request)
    requires Linked(c, known, m) && Served(c, known, r) && (r.created > 0 ==> r.created !in c.sock)
    ensures var (c1, fd) := InitSock(c, r.timeout, r.port, r.created);
      var m1 := Connected(m, r);
      && Linked(c1, Learn(known, r.port), m1) && r.port in Learn(known, r.port)
      && (if r.port in m1
          then fd == m1[r.port].fd > 0 && fd in c1.timeouts && c1.timeouts[fd] == m1[r.port].timeout
          else fd == -1)
  {
    hide Table, SockIdx, Claim, Place;
    LookupLearns(known, r.port);
    var (c1, fd) := InitSock(c, r.timeout, r.port, r.created);
    var known1, m1 := Learn(known, r.port), Connected(m, r);
    PlaceIs(known1, r.port);
    forall i | 0 <= i < |known1| ensures Entry(c1.sock[i], c1.timeouts, known1[i], m1) {
      assert c.sock[i] in c.sock;
      if known1[i] != r.port {
        assert known1[i] == known[i] && Entry(c.sock[i], c.timeouts, known[i], m);
      }
    }
  }

  lemma PlaceIs(known: seq<int>, port: int)
    requires Ports(known) && port in known
    ensures var idx := Place(known, port);
      idx < |known| && forall i | 0 <= i < |known| :: known[i] == port <==> i == idx
  {
  }

  lemma CloseRepresents(c: Cache, known: seq<int>, m: Connections, port: int)
    requires Represents(c, known, m) && port in known
    ensures Represents(CloseSock(c, port), known, m - {port})
  {
    hide Table, SockIdx, Claim, Conserved, CloseSock;
    CloseConserves(c, port);
    CloseLinks(c, known, m, port);
  }

  lemma CloseLinks(c: Cache, known: seq<int>, m: Connections, port: int)
    requires Linked(c, known, m) && port in known
    ensures Linked(CloseSock(c, port), known, m - {port})
  {
    hide Table, SockIdx, Claim, Place;
    LookupLearns(known, port);
    PlaceIs(known, port);
    var c1 := CloseSock(c, port);
    forall i | 0 <= i < |known| ensures Entry(c1.sock[i], c1.timeouts, known[i], m - {port}) {
      assert Entry(c.sock[i], c.timeouts, known[i], m);
    }
  }

  lemma WellShaped(c: Cache, known: seq<int>, m: Connections)
    requires Represents(c, known, m)
    ensures Shaped(c) && Ports(known)
  {
  }

  lemma SendRepresents(c: Cache, known: seq<int>, m: Connections, r: Request)
    requires Represents(c, known, m) && Served(c, known, r)
    ensures var (c', o) := Send(c, r);
      Represents(c', Learn(known, r.port), SendOn(m, r).0) && o == SendOn(m, r).1
  {
    hide Represents, InitSock, CloseSock, Learn;
    WellShaped(c, known, m);
    InitRepresents(c, known, m, r);
    var (c1, fd) := InitSock(c, r.timeout, r.port, r.created);
    if fd < 0 || !r.sent {
      CloseRepresents(c1, Learn(known, r.port), Connected(m, r), r.port);
    }
  }

  function Outcomes(c: Cache, requests: seq<Request>): seq<Outcome>
    requires Shaped(c)
    decreases |requests|
  {
    if requests == [] then [] else
      var (c', o) := Send(c, requests[0]);
      [o] + Outcomes(c', requests[1..])
  }

  function MapOutcomes(m: Connections, requests: seq<Request>): seq<Outcome>
    decreases |requests|
  {
    if requests == [] then [] else
      var (m', o) := SendOn(m, requests[0]);
      [o] + MapOutcomes(m', requests[1..])
  }

  function MapRun(m: Connections, requests: seq<Request>): Connections
    decreases |requests|
  {
    if requests == [] then m else MapRun(SendOn(m, requests[0]).0, requests[1..])
  }

  function PortsOf(requests: seq<Request>): set<int> {
    set i | 0 <= i < |requests| :: requests[i].port
  }

  /** Over a run every `socket` call fails or returns a fresh positive descriptor. */
  predicate PositiveRun(c: Cache, requests: seq<Request>)
    requires Shaped(c)
    decreases |requests|
  {
    requests == [] ||
    (Possible(c, requests[0]) && requests[0].created != 0 && PositiveRun(Send(c, requests[0]).0, requests[1..]))
  }

  lemma {:induction false} RunRepresents(c: Cache, known: seq<int>, m: Connections, requests: seq<Request>)
    requires Represents(c, known, m) && PositiveRun(c, requests)
    requires 0 !in PortsOf(requests) && |Elements(known) + PortsOf(requests)| <= MAX_REUSE_SOCK_CNT
    ensures Outcomes(c, requests) == MapOutcomes(m, requests)
    ensures exists all :: Represents(Run(c, requests), all, MapRun(m, requests))
    decreases |requests|
  {
    hide Represents, Send, SendOn, PortsOf, Elements, Learn;
    WellShaped(c, known, m);
    if requests == [] {
      assert Represents(Run(c, requests), known, MapRun(m, requests));
    } else {
      FirstFits(known, requests);
      SendRepresents(c, known, m, requests[0]);
      var c', m', rest := Send(c, requests[0]).0, SendOn(m, requests[0]).0, requests[1..];
      RunRepresents(c', Learn(known, requests[0].port), m', rest);
      var all :| Represents(Run(c', rest), all, MapRun(m', rest));
      assert Represents(Run(c, requests), all, MapRun(m, requests));
    }
  }

  lemma FirstFits(known: seq<int>, requests: seq<Request>)
    requires Ports(known) && requests != [] && 0 !in PortsOf(requests)
    requires |Elements(known) + PortsOf(requests)| <= MAX_REUSE_SOCK_CNT
    ensures var port, rest := requests[0].port, requests[1..];
      && port != 0 && (port in known || |known| < MAX_REUSE_SOCK_CNT)
      && 0 !in PortsOf(rest) && |Elements(Learn(known, port)) + PortsOf(rest)| <= MAX_REUSE_SOCK_CNT
  {
    var port, rest := requests[0].port, requests[1..];
    PortsOfSplit(requests);
    HasIndex(known, port, Elements(known) + PortsOf(requests));
    LearnElements(known, port);
    assert Elements(Learn(known, port)) + PortsOf(rest) == Elements(known) + PortsOf(requests);
  }

  lemma PortsOfSplit(requests: seq<Request>)
    requires requests != []
    ensures PortsOf(requests) == {requests[0].port} + PortsOf(requests[1..])
  {
    var rest := requests[1..];
    assert forall i | 0 <= i < |rest| :: rest[i] == requests[i + 1];
    forall p ensures p in PortsOf(requests) ==> p in {requests[0].port} + PortsOf(rest) {
      if p in PortsOf(requests) {
        var i :| 0 <= i < |requests| && requests[i].port == p;
        if i > 0 {
          assert rest[i - 1].port == p;
        }
      }
    }
  }

  lemma HasIndex(known: seq<int>, port: int, ports: set<int>)
    requires Ports(known) && Elements(known) <= ports && port in ports && |ports| <= MAX_REUSE_SOCK_CNT
    ensures port in known || |known| < MAX_REUSE_SOCK_CNT
  {
    DistinctCount(known);
    if port !in known {
      SubsetCount(Elements(known) + {port}, ports);
    }
  }

  lemma LearnElements(known: seq<int>, port: int)
    requires port in known || |known| < MAX_REUSE_SOCK_CNT
    ensures Elements(Learn(known, port)) == Elements(known) + {port}
  {
    if port !in known {
      assert forall x :: x in known + [port] <==> x in known || x == port;
    }
  }

  lemma EmptyRepresents()
    ensures Represents(EMPTY, [], map[])
  {
    assert EMPTY.mgr == Table([]);
  }

  /** With at most ten ports the cache is a map: every send goes out on the descriptor,
      with the receive timeout, that the port was first used with since its last close. */
  lemma {:induction false} CacheIsMap(requests: seq<Request>)
    requires PositiveRun(EMPTY, requests)
    requires 0 !in PortsOf(requests) && |PortsOf(requests)| <= 10
    ensures Outcomes(EMPTY, requests) == MapOutcomes(map[], requests)
  {
    EmptyRepresents();
    assert Elements([]) + PortsOf(requests) == PortsOf(requests);
    RunRepresents(EMPTY, [], map[], requests);
  }

  lemma {:induction false} LastMapOutcome(m: Connections, requests: seq<Request>, r: Request)
    ensures MapOutcomes(m, requests + [r]) == MapOutcomes(m, requests) + [SendOn(MapRun(m, requests), r).1]
    decreases |requests|
  {
    if requests == [] {
      assert MapOutcomes(m, [r]) == [SendOn(m, r).1] + MapOutcomes(SendOn(m, r).0, []);
    } else {
      LastMapOutcome(SendOn(m, requests[0]).0, requests[1..], r);
      assert (requests + [r])[1..] == requests[1..] + [r];
    }
  }

  /** The receive timeout that a send asks for is the one it gets if and only if its port was
      not connected before it, or was connected with the same one. */
  lemma {:induction false} OwnTimeoutIff(requests: seq<Request>, r: Request)
    requires PositiveRun(EMPTY, requests + [r])
    requires 0 !in PortsOf(requests + [r]) && |PortsOf(requests + [r])| <= 10
    ensures |Outcomes(EMPTY, requests + [r])| == |requests| + 1
    ensures var o, m := Outcomes(EMPTY, requests + [r])[|requests|], MapRun(map[], requests);
      o.SentOn? ==> (o.timeout == r.timeout <==> r.port !in m || m[r.port].timeout == r.timeout)
  {
    hide PositiveRun, PortsOf, Outcomes, MapRun, Elements;
    CacheIsMap(requests + [r]);
    LastMapOutcome(map[], requests, r);
    OutcomesLength(map[], requests);
  }

  lemma {:induction false} OutcomesLength(m: Connections, requests: seq<Request>)
    ensures |MapOutcomes(m, requests)| == |requests|
    decreases |requests|
  {
    if requests == [] {
    } else {
      OutcomesLength(SendOn(m, requests[0]).0, requests[1..]);
    }
  }

  /** And different ports never share a descriptor. */
  lemma {:induction false} PortsShareNothing(requests: seq<Request>, p: int, q: int)
    requires PositiveRun(EMPTY, requests)
    requires 0 !in PortsOf(requests) && |PortsOf(requests)| <= 10
    requires p in MapRun(map[], requests) && q in MapRun(map[], requests) && p != q
    ensures MapRun(map[], requests)[p].fd != MapRun(map[], requests)[q].fd
  {
    EmptyRepresents();
    assert Elements([]) + PortsOf(requests) == PortsOf(requests);
    RunRepresents(EMPTY, [], map[], requests);
    var all :| Represents(Run(EMPTY, requests), all, MapRun(map[], requests));
    FdsApart(Run(EMPTY, requests), all, MapRun(map[], requests));
  }

  lemma FdsApart(c: Cache, known: seq<int>, m: Connections)
    requires Represents(c, known, m)
    ensures forall p, q | p in m && q in m && p != q :: m[p].fd != m[q].fd
  {
    hide Table;
    forall p, q | p in m && q in m && p != q ensures m[p].fd != m[q].fd {
      var i :| 0 <= i < |known| && known[i] == p;
      var j :| 0 <= j < |known| && known[j] == q;
      assert i < j || j < i;
    }
  }
}
