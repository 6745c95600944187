/** The listening-socket set of server.c: listenToPort binds the configured
    addresses one by one into a fixed-size array of fds, rolling everything
    back on a hard error; createSocketAcceptHandler registers all of them
    with the event loop or none; closeSocketListeners unregisters and closes
    them.

    The operating system and the event loop are the class Host. Its methods
    stand for anetTcpServer/anetTcp6Server, anetSetSockMarkId, anetNonBlock,
    anetCloexec, aeCreateFileEvent, aeDeleteFileEvent and close: they take
    the answer the system gives (a descriptor or an errno, success or
    failure) as a parameter, keep the open descriptors and the registered
    descriptors as ghost sets, and log every call in a ghost trace.

    Each operation is specified by a function on World, a value that holds
    the fd array, the count, both ghost sets and the trace; each method is
    proved to move the world exactly as its function says. */
module Listeners {

  const CONFIG_BINDADDR_MAX: int := 16

  const C_OK: int := 0
  const C_ERR: int := -1
  const ANET_ERR: int := -1
  const AE_OK: int := 0
  const AE_ERR: int := -1

  /** errno values, as Linux numbers them. */
  const EADDRNOTAVAIL: int := 99
  const ENOPROTOOPT: int := 92
  const EPROTONOSUPPORT: int := 93
  const ESOCKTNOSUPPORT: int := 94
  const EPFNOSUPPORT: int := 96
  const EAFNOSUPPORT: int := 97

  datatype Family = Inet4 | Inet6

  /** A configured bind address after parsing: whether it was marked
      optional, and the host to bind. */
  datatype BindAddr = BindAddr(optional: bool, host: string)

  /** A leading `-` marks the address optional and is not part of the host. */
  function ParseBindAddr(addr: string): (b: BindAddr)
    ensures b.optional <==> |addr| > 0 && addr[0] == '-'
    ensures addr == (if b.optional then "-" else "") + b.host
  {
    if |addr| > 0 && addr[0] == '-' then BindAddr(true, addr[1..]) else BindAddr(false, addr)
  }

  /** `strchr(addr, ':')` picks the IPv6 creator. */
  function FamilyOf(host: string): (f: Family)
    ensures f == Inet6 <==> ':' in host
  {
    if ':' in host then Inet6 else Inet4
  }

  /** Errors after which listenToPort goes on with the next address: an
      address that is not available, when it was marked optional, and a
      protocol or address family the system does not support. */
  predicate Skippable(errno: int, optional: bool) {
    (errno == EADDRNOTAVAIL && optional)
    || errno == ENOPROTOOPT || errno == EPROTONOSUPPORT
    || errno == ESOCKTNOSUPPORT || errno == EPFNOSUPPORT
    || errno == EAFNOSUPPORT
  }

  /** What the system answers to a request to create a listening socket. */
  datatype Reply = Bound(fd: nat) | Refused(errno: int)

  /** The calls made to the system and the event loop, in order. */
  datatype Call =
    | Listen(family: Family, host: string, port: int, backlog: int)
    | SetMark(fd: int, id: int)
    | NonBlock(fd: int)
    | Cloexec(fd: int)
    | Register(fd: int)
    | Unregister(fd: int)
    | Close(fd: int)

  /** The fields of `server` that listenToPort reads. */
  datatype Config = Config(bindaddr: seq<string>, tcpBacklog: int, socketMarkId: nat)

  /** The fd array and count of a `socketFds`, the descriptors that are
      open and registered, and the calls made so far. */
  datatype World = World(fds: seq<int>, count: int, open: set<int>, registered: set<int>, calls: seq<Call>)

  predicate Fits(w: World) {
    |w.fds| == CONFIG_BINDADDR_MAX && 0 <= w.count <= |w.fds|
  }

  /** A new world and the code the C function returns. */
  datatype Outcome = Outcome(world: World, code: int)

  /** The fds in slots first..last-1 that are not ANET_ERR. */
  function Listed(fds: seq<int>, first: int, last: int): set<int>
    requires 0 <= first <= last <= |fds|
  {
    set i | first <= i < last && fds[i] != ANET_ERR :: fds[i]
  }

  /** All fds in slots first..last-1. */
  function Range(fds: seq<int>, first: int, last: int): set<int>
    requires 0 <= first <= last <= |fds|
  {
    set i | first <= i < last :: fds[i]
  }

  // ---------------------------------------------------------------------
  // closeSocketListeners

  /** The loop of closeSocketListeners from slot j on, then `count = 0`. */
  function CloseFrom(w: World, j: int): (r: World)
    requires 0 <= j <= w.count <= |w.fds|
    ensures r.count == 0 && r.fds == w.fds
    decreases w.count - j
  {
    if j == w.count then w.(count := 0)
    else if w.fds[j] == ANET_ERR then CloseFrom(w, j + 1)
    else
      var fd := w.fds[j];
      CloseFrom(w.(registered := w.registered - {fd}, open := w.open - {fd},
                   calls := w.calls + [Unregister(fd), Close(fd)]), j + 1)
  }

  /** The calls closeSocketListeners makes for slots first..last-1. */
  function CloseCalls(fds: seq<int>, first: int, last: int): seq<Call>
    requires 0 <= first <= last <= |fds|
    decreases last - first
  {
    if first == last then []
    else
      var here := if fds[first] == ANET_ERR then [] else [Unregister(fds[first]), Close(fds[first])];
      here + CloseCalls(fds, first + 1, last)
  }

  lemma ListedStep(fds: seq<int>, first: int, last: int)
    requires 0 <= first < last <= |fds|
    ensures Listed(fds, first, last)
      == (if fds[first] == ANET_ERR then {} else {fds[first]}) + Listed(fds, first + 1, last)
  {
  }

  /** closeSocketListeners unregisters and closes every listed fd, skips the
      ANET_ERR slots, logs an unregister and a close per listed fd in slot
      order, and empties the set; the slots themselves are left as they
      are. */
  lemma {:induction false} CloseEffect(w: World, j: int)
    requires 0 <= j <= w.count <= |w.fds|
    ensures CloseFrom(w, j) == w.(count := 0,
                                  open := w.open - Listed(w.fds, j, w.count),
                                  registered := w.registered - Listed(w.fds, j, w.count),
                                  calls := w.calls + CloseCalls(w.fds, j, w.count))
    decreases w.count - j
  {
    if j < w.count {
      ListedStep(w.fds, j, w.count);
      var fd := w.fds[j];
      if fd == ANET_ERR {
        CloseEffect(w, j + 1);
      } else {
        var w1 := w.(registered := w.registered - {fd}, open := w.open - {fd},
                     calls := w.calls + [Unregister(fd), Close(fd)]);
        CloseEffect(w1, j + 1);
        assert w1.calls + CloseCalls(w.fds, j + 1, w.count) == w.calls + CloseCalls(w.fds, j, w.count);
      }
    }
  }

  /** Closing an empty set changes nothing, so closing twice is closing
      once. */
  lemma CloseIdempotent(w: World)
    requires 0 <= w.count <= |w.fds|
    ensures CloseFrom(CloseFrom(w, 0), 0) == CloseFrom(w, 0)
  {
  }

  // ---------------------------------------------------------------------
  // listenToPort

  /** `anetSetSockMarkId` is called only with a configured mark. */
  function Marks(fd: int, id: int): seq<Call> {
    if id > 0 then [SetMark(fd, id)] else []
  }

  /** The creator call for one address and the write of its result into
      slot `count`. */
  function Created(w: World, addr: string, cfg: Config, port: int, reply: Reply): World
    requires Fits(w) && w.count < |w.fds|
  {
    var b := ParseBindAddr(addr);
    w.(fds := w.fds[w.count := if reply.Bound? then reply.fd else ANET_ERR],
       open := w.open + (if reply.Bound? then {reply.fd} else {}),
       calls := w.calls + [Listen(FamilyOf(b.host), b.host, port, cfg.tcpBacklog)])
  }

  /** The socket options of a new listener, and the increment of `count`. */
  function Configured(w: World, fd: int, id: int): World {
    w.(calls := w.calls + Marks(fd, id) + [NonBlock(fd), Cloexec(fd)], count := w.count + 1)
  }

  /** One address of the loop of listenToPort, up to the error handling. */
  function Bind(w: World, addr: string, cfg: Config, port: int, reply: Reply): World
    requires Fits(w) && w.count < |w.fds|
  {
    var w1 := Created(w, addr, cfg, port, reply);
    if reply.Bound? then Configured(w1, reply.fd, cfg.socketMarkId) else w1
  }

  /** The error that makes listenToPort give up. */
  predicate Aborts(addr: string, reply: Reply) {
    reply.Refused? && !Skippable(reply.errno, ParseBindAddr(addr).optional)
  }

  /** How bind errors are sorted: an unavailable address is skipped exactly
      when it was marked optional, the unsupported-protocol errors are
      skipped either way, and every other error ends the loop. */
  lemma BindErrors(host: string, errno: int)
    ensures !Aborts("-" + host, Refused(EADDRNOTAVAIL))
    ensures (|host| == 0 || host[0] != '-') ==> Aborts(host, Refused(EADDRNOTAVAIL))
    ensures errno in {ENOPROTOOPT, EPROTONOSUPPORT, ESOCKTNOSUPPORT, EPFNOSUPPORT, EAFNOSUPPORT} ==>
      !Aborts(host, Refused(errno)) && !Aborts("-" + host, Refused(errno))
    ensures errno !in {EADDRNOTAVAIL, ENOPROTOOPT, EPROTONOSUPPORT, ESOCKTNOSUPPORT, EPFNOSUPPORT, EAFNOSUPPORT} ==>
      Aborts(host, Refused(errno)) && Aborts("-" + host, Refused(errno))
  {
    assert ("-" + host)[0] == '-';
  }

  /** The loop of listenToPort from address j on. */
  function ListenFrom(w: World, cfg: Config, port: int, replies: seq<Reply>, j: int): (r: Outcome)
    requires Fits(w) && 0 <= j <= |cfg.bindaddr| == |replies|
    requires w.count + (|cfg.bindaddr| - j) <= |w.fds|
    ensures Fits(r.world) && (r.code == C_OK || r.code == C_ERR)
    ensures r.code == C_ERR ==> r.world.count == 0
    ensures r.code == C_OK ==> w.count <= r.world.count && r.world.registered == w.registered
    decreases |cfg.bindaddr| - j
  {
    if j == |cfg.bindaddr| then Outcome(w, C_OK)
    else
      var w1 := Bind(w, cfg.bindaddr[j], cfg, port, replies[j]);
      if Aborts(cfg.bindaddr[j], replies[j]) then Outcome(CloseFrom(w1, 0), C_ERR)
      else ListenFrom(w1, cfg, port, replies, j + 1)
  }

  /** The descriptors of the successful replies, in order. */
  function BoundFds(replies: seq<Reply>): seq<int> {
    if |replies| == 0 then []
    else (if replies[0].Bound? then [replies[0].fd] else []) + BoundFds(replies[1..])
  }

  function Elems(s: seq<int>): set<int> {
    set i | 0 <= i < |s| :: s[i]
  }

  lemma ElemsCons(x: int, s: seq<int>)
    ensures Elems([x] + s) == {x} + Elems(s)
  {
    assert ([x] + s)[0] == x;
    forall y | y in Elems(s)
      ensures y in Elems([x] + s)
    {
      var i :| 0 <= i < |s| && s[i] == y;
      assert ([x] + s)[i + 1] == y;
    }
    forall y | y in Elems([x] + s)
      ensures y in {x} + Elems(s)
    {
      var i :| 0 <= i < |[x] + s| && ([x] + s)[i] == y;
      if i > 0 {
        assert s[i - 1] == y;
      }
    }
  }

  /** No successful reply hands out a descriptor that is already open or
      that an earlier reply handed out: the system gives fresh
      descriptors. */
  predicate Fresh(replies: seq<Reply>, j: int, open: set<int>) {
    && (forall i :: 0 <= j <= i < |replies| && replies[i].Bound? ==> replies[i].fd !in open)
    && (forall i, k :: 0 <= j <= i < k < |replies| && replies[i].Bound? && replies[k].Bound? ==>
          replies[i].fd != replies[k].fd)
  }
  /** What one address does to the slots, the descriptor sets and the trace:
      the slots below `count` are kept, nothing is registered or
      unregistered, calls are only appended; a refused address leaves the
      count and the open set alone, a bound one lands in slot `count`, is
      opened and is counted. */
  predicate Stepped(w: World, w1: World, reply: Reply)
    requires Fits(w)
  {
    && Fits(w1) && w1.fds[..w.count] == w.fds[..w.count] && w1.registered == w.registered
    && |w.calls| < |w1.calls| && w1.calls[..|w.calls|] == w.calls
    && (reply.Refused? ==> w1.count == w.count && w1.open == w.open)
    && (reply.Bound? ==> w1.count == w.count + 1 && w1.fds[w.count] == reply.fd
                         && w1.open == w.open + {reply.fd})
  }

  /** Calls were only appended, and none of the new ones sets a socket
      mark. */
  predicate NoMarksAfter(calls: seq<Call>, calls': seq<Call>) {
    && |calls| <= |calls'| && calls'[..|calls|] == calls
    && forall i :: |calls| <= i < |calls'| ==> !calls'[i].SetMark?
  }

  /** One address: the creator is called first, with the host stripped of
      its optional marker and the family its colons select; then the world
      moves as Stepped says, and without a configured mark no mark is
      set. */
  lemma BindEffect(w: World, addr: string, cfg: Config, port: int, reply: Reply)
    requires Fits(w) && w.count < |w.fds|
    ensures var w1 := Bind(w, addr, cfg, port, reply);
      var host := if |addr| > 0 && addr[0] == '-' then addr[1..] else addr;
      && Stepped(w, w1, reply)
      && w1.calls[|w.calls|] == Listen(if ':' in host then Inet6 else Inet4, host, port, cfg.tcpBacklog)
      && (cfg.socketMarkId == 0 ==> NoMarksAfter(w.calls, w1.calls))
      && (reply.Bound? && cfg.socketMarkId > 0 ==>
            w1.calls[|w.calls| + 1] == SetMark(reply.fd, cfg.socketMarkId))
      && (reply.Bound? ==> w1.calls[|w1.calls| - 2..] == [NonBlock(reply.fd), Cloexec(reply.fd)])
  {
  }

  /** With no bind address there is nothing to do. */
  lemma ListenNoAddresses(w: World, cfg: Config, port: int)
    requires Fits(w) && cfg.bindaddr == []
    ensures ListenFrom(w, cfg, port, [], 0) == Outcome(w, C_OK)
  {
  }

  /** listenToPort succeeds exactly when every error it meets is
      skippable. */
  lemma {:induction false} ListenSucceedsIff(w: World, cfg: Config, port: int, replies: seq<Reply>, j: int)
    requires Fits(w) && 0 <= j <= |cfg.bindaddr| == |replies|
    requires w.count + (|cfg.bindaddr| - j) <= |w.fds|
    ensures var o := ListenFrom(w, cfg, port, replies, j);
      (o.code == C_OK || o.code == C_ERR)
      && (o.code == C_OK <==> forall i :: j <= i < |replies| ==> !Aborts(cfg.bindaddr[i], replies[i]))
    decreases |cfg.bindaddr| - j
  {
    if j < |cfg.bindaddr| && !Aborts(cfg.bindaddr[j], replies[j]) {
      ListenSucceedsIff(Bind(w, cfg.bindaddr[j], cfg, port, replies[j]), cfg, port, replies, j + 1);
    }
  }

  /** The fds `bound` were appended to the set in order, and opened. */
  predicate Appended(w: World, w': World, bound: seq<int>) {
    && Fits(w) && Fits(w')
    && w'.count == w.count + |bound|
    && w'.fds[..w'.count] == w.fds[..w.count] + bound
    && w'.open == w.open + Elems(bound) && w'.registered == w.registered
  }

  lemma BoundFdsStep(replies: seq<Reply>, j: int)
    requires 0 <= j < |replies|
    ensures BoundFds(replies[j..])
      == (if replies[j].Bound? then [replies[j].fd] else []) + BoundFds(replies[j + 1..])
  {
    assert replies[j..][1..] == replies[j + 1..];
  }

  lemma AppendedStep(w: World, w1: World, w': World, reply: Reply, rest: seq<int>)
    requires Fits(w) && Stepped(w, w1, reply) && Appended(w1, w', rest)
    ensures Appended(w, w', (if reply.Bound? then [reply.fd] else []) + rest)
  {
    if reply.Bound? {
      var fd := reply.fd;
      assert w1.fds[..w1.count] == w1.fds[..w.count] + [fd];
      ElemsCons(fd, rest);
      assert w'.fds[..w'.count] == w.fds[..w.count] + ([fd] + rest);
    } else {
      assert w1.fds[..w1.count] == w.fds[..w.count];
      assert [] + rest == rest;
    }
  }

  /** On success the new fds follow the old ones in configuration order, the
      count grew by their number and they are all open; nothing was
      registered or unregistered. */
  lemma {:induction false} ListenOkEffect(w: World, cfg: Config, port: int, replies: seq<Reply>, j: int)
    requires Fits(w) && 0 <= j <= |cfg.bindaddr| == |replies|
    requires w.count + (|cfg.bindaddr| - j) <= |w.fds|
    requires ListenFrom(w, cfg, port, replies, j).code == C_OK
    ensures Appended(w, ListenFrom(w, cfg, port, replies, j).world, BoundFds(replies[j..]))
    decreases |cfg.bindaddr| - j
  {
    if j == |cfg.bindaddr| {
      assert replies[j..] == [];
      assert w.fds[..w.count] + [] == w.fds[..w.count];
      assert Elems([]) == {};
    } else {
      var w1 := Bind(w, cfg.bindaddr[j], cfg, port, replies[j]);
      BindEffect(w, cfg.bindaddr[j], cfg, port, replies[j]);
      ListenOkEffect(w1, cfg, port, replies, j + 1);
      BoundFdsStep(replies, j);
      AppendedStep(w, w1, ListenFrom(w1, cfg, port, replies, j + 1).world, replies[j], BoundFds(replies[j + 1..]));
    }
  }

  /** The trace `calls'` continues the trace `calls`. */
  predicate Extends(calls: seq<Call>, calls': seq<Call>) {
    |calls| <= |calls'| && calls'[..|calls|] == calls
  }

  lemma ExtendsTrans(a: seq<Call>, b: seq<Call>, c: seq<Call>)
    requires Extends(a, b) && Extends(b, c)
    ensures Extends(a, c)
  {
    assert c[..|a|] == c[..|b|][..|a|];
  }

  /** A listener's socket options appear in the trace: it was made
      non-blocking and close-on-exec, and it carries the configured mark, if
      any. */
  predicate ConfiguredIn(calls: seq<Call>, fd: int, id: int) {
    && NonBlock(fd) in calls && Cloexec(fd) in calls
    && (id > 0 ==> SetMark(fd, id) in calls)
  }

  lemma ConfiguredExtends(calls: seq<Call>, calls': seq<Call>, fd: int, id: int)
    requires ConfiguredIn(calls, fd, id) && Extends(calls, calls')
    ensures ConfiguredIn(calls', fd, id)
  {
    forall c | c in calls
      ensures c in calls'
    {
      var i :| 0 <= i < |calls| && calls[i] == c;
      assert calls'[i] == calls'[..|calls|][i];
    }
  }

  /** One address only appends to the trace. */
  lemma BindExtends(w: World, addr: string, cfg: Config, port: int, reply: Reply)
    requires Fits(w) && w.count < |w.fds|
    ensures Extends(w.calls, Bind(w, addr, cfg, port, reply).calls)
  {
    BindEffect(w, addr, cfg, port, reply);
  }

  /** One bound address leaves its fd configured. */
  lemma BindConfigures(w: World, addr: string, cfg: Config, port: int, reply: Reply)
    requires Fits(w) && w.count < |w.fds| && reply.Bound?
    ensures ConfiguredIn(Bind(w, addr, cfg, port, reply).calls, reply.fd, cfg.socketMarkId)
  {
    var w1 := Bind(w, addr, cfg, port, reply);
    BindEffect(w, addr, cfg, port, reply);
    var n := |w1.calls|;
    assert w1.calls[n - 2] == w1.calls[n - 2..][0];
    assert w1.calls[n - 1] == w1.calls[n - 2..][1];
  }

  /** Every fd bound by the replies from j on is configured in `calls`. */
  predicate AllConfigured(calls: seq<Call>, replies: seq<Reply>, j: int, id: int) {
    forall i :: 0 <= i < |replies| && j <= i && replies[i].Bound? ==> ConfiguredIn(calls, replies[i].fd, id)
  }

  /** One address in front of the rest of the loop: the trace still only
      grows, and the fd bound at j joins those configured. */
  lemma AllConfiguredStep(calls: seq<Call>, calls1: seq<Call>, calls': seq<Call>,
                          replies: seq<Reply>, j: int, id: int)
    requires 0 <= j < |replies|
    requires Extends(calls, calls1) && Extends(calls1, calls') && AllConfigured(calls', replies, j + 1, id)
    requires replies[j].Bound? ==> ConfiguredIn(calls1, replies[j].fd, id)
    ensures Extends(calls, calls') && AllConfigured(calls', replies, j, id)
  {
    ExtendsTrans(calls, calls1, calls');
    if replies[j].Bound? {
      ConfiguredExtends(calls1, calls', replies[j].fd, id);
    }
  }

  /** On success every descriptor the loop bound was made non-blocking and
      close-on-exec, and was given the configured mark, if any. */
  lemma {:induction false} ListenConfigures(w: World, cfg: Config, port: int, replies: seq<Reply>, j: int)
    requires Fits(w) && 0 <= j <= |cfg.bindaddr| == |replies|
    requires w.count + (|cfg.bindaddr| - j) <= |w.fds|
    requires ListenFrom(w, cfg, port, replies, j).code == C_OK
    ensures var calls' := ListenFrom(w, cfg, port, replies, j).world.calls;
      Extends(w.calls, calls') && AllConfigured(calls', replies, j, cfg.socketMarkId)
    decreases |cfg.bindaddr| - j
  {
    if j == |cfg.bindaddr| {
      assert w.calls[..|w.calls|] == w.calls;
    } else {
      var w1 := Bind(w, cfg.bindaddr[j], cfg, port, replies[j]);
      assert ListenFrom(w, cfg, port, replies, j) == ListenFrom(w1, cfg, port, replies, j + 1);
      var calls' := ListenFrom(w1, cfg, port, replies, j + 1).world.calls;
      BindExtends(w, cfg.bindaddr[j], cfg, port, replies[j]);
      if replies[j].Bound? {
        BindConfigures(w, cfg.bindaddr[j], cfg, port, replies[j]);
      }
      ListenConfigures(w1, cfg, port, replies, j + 1);
      AllConfiguredStep(w.calls, w1.calls, calls', replies, j, cfg.socketMarkId);
    }
  }

  /** The listed fds grow by the fd a step binds. */
  lemma ListedStepped(w: World, w1: World, reply: Reply)
    requires Fits(w) && Stepped(w, w1, reply)
    ensures Listed(w1.fds, 0, w1.count)
      == Listed(w.fds, 0, w.count) + (if reply.Bound? then {reply.fd} else {})
  {
    assert Listed(w1.fds, 0, w.count) == Listed(w.fds, 0, w.count) by {
      assert forall i :: 0 <= i < w.count ==> w1.fds[i] == w1.fds[..w.count][i];
      assert forall i :: 0 <= i < w.count ==> w.fds[i] == w.fds[..w.count][i];
    }
    if reply.Bound? {
      ListedSnoc(w1.fds, w.count);
    }
  }

  lemma ListedSnoc(fds: seq<int>, n: int)
    requires 0 <= n < |fds|
    ensures Listed(fds, 0, n + 1) == Listed(fds, 0, n) + (if fds[n] == ANET_ERR then {} else {fds[n]})
  {
  }

  lemma FreshStep(replies: seq<Reply>, j: int, open: set<int>)
    requires 0 <= j < |replies| && Fresh(replies, j, open)
    ensures Fresh(replies, j + 1, open + (if replies[j].Bound? then {replies[j].fd} else {}))
  {
  }

  /** On a hard error the set is emptied, and the descriptors that are open
      afterwards are exactly those that were open before minus those that
      were listed before: every descriptor the call opened is closed
      again. */
  lemma {:induction false} ListenAbortEffect(w: World, cfg: Config, port: int, replies: seq<Reply>, j: int)
    requires Fits(w) && 0 <= j <= |cfg.bindaddr| == |replies|
    requires w.count + (|cfg.bindaddr| - j) <= |w.fds|
    requires Fresh(replies, j, w.open)
    requires ListenFrom(w, cfg, port, replies, j).code == C_ERR
    ensures var w' := ListenFrom(w, cfg, port, replies, j).world;
      && w'.count == 0
      && w'.open == w.open - Listed(w.fds, 0, w.count)
    decreases |cfg.bindaddr| - j
  {
    var w1 := Bind(w, cfg.bindaddr[j], cfg, port, replies[j]);
    BindEffect(w, cfg.bindaddr[j], cfg, port, replies[j]);
    ListedStepped(w, w1, replies[j]);
    if Aborts(cfg.bindaddr[j], replies[j]) {
      CloseEffect(w1, 0);
    } else {
      FreshStep(replies, j, w.open);
      ListenAbortEffect(w1, cfg, port, replies, j + 1);
    }
  }

  lemma NoMarksTrans(a: seq<Call>, b: seq<Call>, c: seq<Call>)
    requires NoMarksAfter(a, b) && NoMarksAfter(b, c)
    ensures NoMarksAfter(a, c)
  {
    assert c[..|a|] == c[..|b|][..|a|];
    assert forall i :: |a| <= i < |b| ==> c[i] == c[..|b|][i];
  }

  /** The socket mark is set only when one is configured. */
  lemma {:induction false} ListenMarks(w: World, cfg: Config, port: int, replies: seq<Reply>, j: int)
    requires Fits(w) && 0 <= j <= |cfg.bindaddr| == |replies|
    requires w.count + (|cfg.bindaddr| - j) <= |w.fds|
    requires cfg.socketMarkId == 0
    ensures NoMarksAfter(w.calls, ListenFrom(w, cfg, port, replies, j).world.calls)
    decreases |cfg.bindaddr| - j
  {
    if j == |cfg.bindaddr| {
      assert w.calls[..|w.calls|] == w.calls;
    } else {
      var w1 := Bind(w, cfg.bindaddr[j], cfg, port, replies[j]);
      BindEffect(w, cfg.bindaddr[j], cfg, port, replies[j]);
      if Aborts(cfg.bindaddr[j], replies[j]) {
        CloseEffect(w1, 0);
        NoMarksInClose(w1.calls, w1.fds, 0, w1.count);
        NoMarksTrans(w.calls, w1.calls, CloseFrom(w1, 0).calls);
      } else {
        ListenMarks(w1, cfg, port, replies, j + 1);
        NoMarksTrans(w.calls, w1.calls, ListenFrom(w1, cfg, port, replies, j + 1).world.calls);
      }
    }
  }

  /** The calls of closeSocketListeners include no socket mark. */
  lemma {:induction false} CloseCallsNoMarks(fds: seq<int>, first: int, last: int)
    requires 0 <= first <= last <= |fds|
    ensures forall i :: 0 <= i < |CloseCalls(fds, first, last)| ==> !CloseCalls(fds, first, last)[i].SetMark?
    decreases last - first
  {
    if first < last {
      CloseCallsNoMarks(fds, first + 1, last);
      var here: seq<Call> := if fds[first] == ANET_ERR then [] else [Unregister(fds[first]), Close(fds[first])];
      var rest := CloseCalls(fds, first + 1, last);
      assert CloseCalls(fds, first, last) == here + rest;
      forall i | 0 <= i < |here + rest|
        ensures !(here + rest)[i].SetMark?
      {
        if i >= |here| {
          assert (here + rest)[i] == rest[i - |here|];
        } else {
          assert (here + rest)[i] == here[i];
        }
      }
    }
  }

  /** closeSocketListeners sets no mark. */
  lemma NoMarksInClose(calls: seq<Call>, fds: seq<int>, first: int, last: int)
    requires 0 <= first <= last <= |fds|
    ensures NoMarksAfter(calls, calls + CloseCalls(fds, first, last))
  {
    var cc := CloseCalls(fds, first, last);
    CloseCallsNoMarks(fds, first, last);
    assert (calls + cc)[..|calls|] == calls;
    forall i | |calls| <= i < |calls + cc|
      ensures !(calls + cc)[i].SetMark?
    {
      assert (calls + cc)[i] == cc[i - |calls|];
      assert !cc[i - |calls|].SetMark?;
    }
  }

  // ---------------------------------------------------------------------
  // createSocketAcceptHandler

  /** The rollback loop: unregister slots j, j-1, ..., 0. */
  function Rollback(w: World, j: int): (r: World)
    requires -1 <= j < |w.fds|
    ensures r.fds == w.fds && r.count == w.count && r.open == w.open
    ensures r.registered <= w.registered && |r.calls| == |w.calls| + j + 1
    decreases j + 1
  {
    if j < 0 then w
    else Rollback(w.(registered := w.registered - {w.fds[j]}, calls := w.calls + [Unregister(w.fds[j])]), j - 1)
  }

  /** The loop of createSocketAcceptHandler from slot j on; `answers[i]`
      says whether registering slot i succeeds. */
  function RegisterFrom(w: World, answers: seq<bool>, j: int): (r: Outcome)
    requires 0 <= j <= w.count <= |w.fds| && w.count <= |answers|
    ensures r.code == C_OK || r.code == C_ERR
    ensures r.world.fds == w.fds && r.world.count == w.count && r.world.open == w.open
    decreases w.count - j
  {
    if j == w.count then Outcome(w, C_OK)
    else
      var w1 := w.(calls := w.calls + [Register(w.fds[j])]);
      if answers[j] then RegisterFrom(w1.(registered := w1.registered + {w.fds[j]}), answers, j + 1)
      else Outcome(Rollback(w1, j - 1), C_ERR)
  }

  /** The unregister calls of the rollback from slot j down to slot 0. */
  function UnregistersDown(fds: seq<int>, j: int): seq<Call>
    requires -1 <= j < |fds|
    decreases j + 1
  {
    if j < 0 then [] else [Unregister(fds[j])] + UnregistersDown(fds, j - 1)
  }

  /** The register calls for slots first..last-1. */
  function Registers(fds: seq<int>, first: int, last: int): seq<Call>
    requires 0 <= first <= last <= |fds|
    decreases last - first
  {
    if first == last then [] else [Register(fds[first])] + Registers(fds, first + 1, last)
  }

  /** The rollback visits the slots in reverse: its m-th call unregisters
      slot j - m. */
  lemma {:induction false} UnregistersReversed(fds: seq<int>, j: int)
    requires -1 <= j < |fds|
    ensures |UnregistersDown(fds, j)| == j + 1
    ensures forall m :: 0 <= m <= j ==> UnregistersDown(fds, j)[m] == Unregister(fds[j - m])
    decreases j + 1
  {
    if j >= 0 {
      UnregistersReversed(fds, j - 1);
    }
  }

  /** Rolling back from slot j unregisters the fds of slots 0..j and logs
      the unregistrations from slot j down. */
  lemma {:induction false} RollbackEffect(w: World, j: int)
    requires -1 <= j < |w.fds|
    ensures Rollback(w, j) == w.(registered := w.registered - Range(w.fds, 0, j + 1),
                                 calls := w.calls + UnregistersDown(w.fds, j))
    decreases j + 1
  {
    if j >= 0 {
      var w1 := w.(registered := w.registered - {w.fds[j]}, calls := w.calls + [Unregister(w.fds[j])]);
      RollbackEffect(w1, j - 1);
      assert Range(w.fds, 0, j + 1) == Range(w.fds, 0, j) + {w.fds[j]};
      assert w1.calls + UnregistersDown(w.fds, j - 1) == w.calls + UnregistersDown(w.fds, j);
    }
  }

  /** createSocketAcceptHandler succeeds exactly when every registration
      succeeds, and then every fd of the set is registered. */
  lemma {:induction false} RegisterOkIff(w: World, answers: seq<bool>, j: int)
    requires 0 <= j <= w.count <= |w.fds| && w.count <= |answers|
    ensures var o := RegisterFrom(w, answers, j);
      && (o.code == C_OK || o.code == C_ERR)
      && (o.code == C_OK <==> forall i :: j <= i < w.count ==> answers[i])
      && (o.code == C_OK ==> o.world == w.(registered := w.registered + Range(w.fds, j, w.count),
                                           calls := w.calls + Registers(w.fds, j, w.count)))
    decreases w.count - j
  {
    if j < w.count && answers[j] {
      var w1 := w.(calls := w.calls + [Register(w.fds[j])]);
      var w2 := w1.(registered := w1.registered + {w.fds[j]});
      RegisterOkIff(w2, answers, j + 1);
      assert Range(w.fds, j, w.count) == {w.fds[j]} + Range(w.fds, j + 1, w.count);
      assert w1.calls + Registers(w.fds, j + 1, w.count) == w.calls + Registers(w.fds, j, w.count);
    }
  }

  /** When registering slot k is the first failure, slots 0..k-1 are
      unregistered again in reverse order and the call reports C_ERR. A
      descriptor outside slots 0..k-1 keeps the registration it had before
      the call; nothing else changes. */
  lemma RegisterRollback(w: World, answers: seq<bool>, k: int)
    requires 0 <= k < w.count <= |w.fds| && w.count <= |answers|
    requires !answers[k] && forall i :: 0 <= i < k ==> answers[i]
    ensures var o := RegisterFrom(w, answers, 0);
      && o.code == C_ERR
      && o.world == w.(registered := w.registered - Range(w.fds, 0, k),
                       calls := w.calls + Registers(w.fds, 0, k + 1) + UnregistersDown(w.fds, k - 1))
  {
    RegisterFailsAt(w, answers, 0, k);
  }

  lemma {:induction false} RegisterFailsAt(w: World, answers: seq<bool>, j: int, k: int)
    requires 0 <= j <= k < w.count <= |w.fds| && w.count <= |answers|
    requires !answers[k] && forall i :: j <= i < k ==> answers[i]
    ensures RegisterFrom(w, answers, j) ==
      Outcome(w.(registered := (w.registered + Range(w.fds, j, k)) - Range(w.fds, 0, k),
                 calls := w.calls + Registers(w.fds, j, k + 1) + UnregistersDown(w.fds, k - 1)), C_ERR)
    decreases k - j
  {
    var w1 := w.(calls := w.calls + [Register(w.fds[j])]);
    if j == k {
      RollbackEffect(w1, k - 1);
      assert Range(w.fds, j, k) == {};
      assert Registers(w.fds, k, k + 1) == [Register(w.fds[k])];
    } else {
      var w2 := w1.(registered := w1.registered + {w.fds[j]});
      RegisterFailsAt(w2, answers, j + 1, k);
      assert Range(w.fds, j, k) == {w.fds[j]} + Range(w.fds, j + 1, k);
      assert w1.calls + Registers(w.fds, j + 1, k + 1) == w.calls + Registers(w.fds, j, k + 1);
    }
  }

  // ---------------------------------------------------------------------
  // The imperative side

  /** `socketFds`: a fixed array of CONFIG_BINDADDR_MAX slots and the number
      of slots in use. */
  class SocketFds {
    var fd: array<int>
    var count: int

    predicate Valid()
      reads this
    {
      fd.Length == CONFIG_BINDADDR_MAX && 0 <= count <= fd.Length
    }

    constructor ()
      ensures Valid() && count == 0 && fresh(fd)
    {
      fd := new int[CONFIG_BINDADDR_MAX];
      count := 0;
    }
  }

  /** The system and the event loop, seen through the calls server.c makes. */
  class Host {
    ghost var open: set<int>
    ghost var registered: set<int>
    ghost var calls: seq<Call>

    constructor ()
      ensures open == {} && registered == {} && calls == []
    {
      open := {};
      registered := {};
      calls := [];
    }

    /** anetTcpServer (family Inet4) and anetTcp6Server (family Inet6):
        a listening socket, or ANET_ERR and the errno. */
    method TcpServer(family: Family, port: int, host: string, backlog: int, reply: Reply)
      returns (fd: int, errno: int)
      modifies this
      ensures calls == old(calls) + [Listen(family, host, port, backlog)]
      ensures fd == (if reply.Bound? then reply.fd else ANET_ERR)
      ensures reply.Refused? ==> errno == reply.errno
      ensures open == old(open) + (if reply.Bound? then {reply.fd} else {})
      ensures registered == old(registered)
    {
      calls := calls + [Listen(family, host, port, backlog)];
      match reply
      case Bound(f) =>
        open := open + {f};
        fd, errno := f, 0;
      case Refused(e) =>
        fd, errno := ANET_ERR, e;
    }

    /** anetSetSockMarkId. */
    method SetSockMarkId(fd: int, id: int)
      modifies this
      ensures calls == old(calls) + [SetMark(fd, id)]
      ensures open == old(open) && registered == old(registered)
    {
      calls := calls + [SetMark(fd, id)];
    }

    /** anetNonBlock. */
    method SetNonBlock(fd: int)
      modifies this
      ensures calls == old(calls) + [NonBlock(fd)]
      ensures open == old(open) && registered == old(registered)
    {
      calls := calls + [NonBlock(fd)];
    }

    /** anetCloexec. */
    method SetCloexec(fd: int)
      modifies this
      ensures calls == old(calls) + [Cloexec(fd)]
      ensures open == old(open) && registered == old(registered)
    {
      calls := calls + [Cloexec(fd)];
    }

    /** aeCreateFileEvent for AE_READABLE; `ok` is whether the event loop
        accepts it. */
    method CreateFileEvent(fd: int, ok: bool) returns (r: int)
      modifies this
      ensures calls == old(calls) + [Register(fd)]
      ensures r == (if ok then AE_OK else AE_ERR)
      ensures registered == old(registered) + (if ok then {fd} else {})
      ensures open == old(open)
    {
      calls := calls + [Register(fd)];
      if ok {
        registered := registered + {fd};
        r := AE_OK;
      } else {
        r := AE_ERR;
      }
    }

    /** aeDeleteFileEvent for AE_READABLE. */
    method DeleteFileEvent(fd: int)
      modifies this
      ensures calls == old(calls) + [Unregister(fd)]
      ensures registered == old(registered) - {fd} && open == old(open)
    {
      calls := calls + [Unregister(fd)];
      registered := registered - {fd};
    }

    /** close. */
    method CloseFd(fd: int)
      modifies this
      ensures calls == old(calls) + [Close(fd)]
      ensures open == old(open) - {fd} && registered == old(registered)
    {
      calls := calls + [Close(fd)];
      open := open - {fd};
    }
  }

  ghost function Snapshot(sfd: SocketFds, host: Host): World
    reads sfd, sfd.fd, host
  {
    World(sfd.fd[..], sfd.count, host.open, host.registered, host.calls)
  }

  /** closeSocketListeners. */
  method CloseSocketListeners(sfd: SocketFds, host: Host)
    requires sfd.Valid()
    modifies sfd, host
    ensures sfd.Valid() && sfd.fd == old(sfd.fd)
    ensures Snapshot(sfd, host) == CloseFrom(old(Snapshot(sfd, host)), 0)
  {
    ghost var w0 := Snapshot(sfd, host);
    var j := 0;
    while j < sfd.count
      invariant 0 <= j <= sfd.count && sfd.count == w0.count
      invariant sfd.Valid() && sfd.fd == old(sfd.fd) && sfd.fd[..] == w0.fds
      invariant CloseFrom(Snapshot(sfd, host), j) == CloseFrom(w0, 0)
    {
      ghost var w := Snapshot(sfd, host);
      if sfd.fd[j] != ANET_ERR {
        host.DeleteFileEvent(sfd.fd[j]);
        host.CloseFd(sfd.fd[j]);
        assert w.calls + [Unregister(w.fds[j])] + [Close(w.fds[j])] == w.calls + [Unregister(w.fds[j]), Close(w.fds[j])];
      }
      j := j + 1;
    }
    sfd.count := 0;
  }

  /** createSocketAcceptHandler; `answers[j]` is whether the event loop
      accepts slot j. */
  method CreateSocketAcceptHandler(sfd: SocketFds, host: Host, answers: seq<bool>) returns (r: int)
    requires sfd.Valid() && sfd.count <= |answers|
    modifies host
    ensures Outcome(Snapshot(sfd, host), r) == RegisterFrom(old(Snapshot(sfd, host)), answers, 0)
  {
    ghost var w0 := Snapshot(sfd, host);
    var j := 0;
    while j < sfd.count
      invariant 0 <= j <= sfd.count
      invariant RegisterFrom(Snapshot(sfd, host), answers, j) == RegisterFrom(w0, answers, 0)
    {
      ghost var w := Snapshot(sfd, host);
      var res := host.CreateFileEvent(sfd.fd[j], answers[j]);
      if res == AE_ERR {
        ghost var w1 := Snapshot(sfd, host);
        assert w1 == w.(calls := w.calls + [Register(w.fds[j])]);
        ghost var k := j;
        j := j - 1;
        while j >= 0
          invariant -1 <= j < k
          invariant Rollback(Snapshot(sfd, host), j) == Rollback(w1, k - 1)
        {
          host.DeleteFileEvent(sfd.fd[j]);
          j := j - 1;
        }
        return C_ERR;
      }
      j := j + 1;
    }
    return C_OK;
  }

  /** The start of one iteration of listenToPort: strip the optional
      marker, create the socket with the creator the address selects, store
      the result in slot `count`. */
  method OpenListener(sfd: SocketFds, host: Host, bindaddr: string, cfg: Config, port: int, reply: Reply)
    returns (optional: bool, errno: int)
    requires sfd.Valid() && sfd.count < sfd.fd.Length
    modifies sfd.fd, host
    ensures Snapshot(sfd, host) == Created(old(Snapshot(sfd, host)), bindaddr, cfg, port, reply)
    ensures optional == ParseBindAddr(bindaddr).optional
    ensures reply.Refused? ==> errno == reply.errno
  {
    var addr := bindaddr;
    optional := |addr| > 0 && addr[0] == '-';
    if optional {
      addr := addr[1..];
    }
    var fd;
    if ':' in addr {
      fd, errno := host.TcpServer(Inet6, port, addr, cfg.tcpBacklog, reply);
    } else {
      fd, errno := host.TcpServer(Inet4, port, addr, cfg.tcpBacklog, reply);
    }
    sfd.fd[sfd.count] := fd;
  }

  /** listenToPort; `replies[j]` is what the system answers for the j-th
      configured address. */
  method ListenToPort(port: int, sfd: SocketFds, host: Host, cfg: Config, replies: seq<Reply>)
    returns (r: int)
    requires sfd.Valid() && |replies| == |cfg.bindaddr|
    requires sfd.count + |cfg.bindaddr| <= CONFIG_BINDADDR_MAX
    modifies sfd, sfd.fd, host
    ensures sfd.Valid() && sfd.fd == old(sfd.fd)
    ensures Outcome(Snapshot(sfd, host), r) == ListenFrom(old(Snapshot(sfd, host)), cfg, port, replies, 0)
  {
    if |cfg.bindaddr| == 0 {
      return C_OK;
    }
    ghost var w0 := Snapshot(sfd, host);
    var j := 0;
    while j < |cfg.bindaddr|
      invariant 0 <= j <= |cfg.bindaddr|
      invariant sfd.Valid() && sfd.fd == old(sfd.fd)
      invariant sfd.count + (|cfg.bindaddr| - j) <= CONFIG_BINDADDR_MAX
      invariant ListenFrom(Snapshot(sfd, host), cfg, port, replies, j) == ListenFrom(w0, cfg, port, replies, 0)
    {
      var abort := BindAddress(sfd, host, cfg.bindaddr[j], cfg, port, replies[j]);
      if abort {
        CloseSocketListeners(sfd, host);
        return C_ERR;
      }
      j := j + 1;
    }
    return C_OK;
  }

  /** The body of the loop of listenToPort for one address, up to the
      error handling: it reports whether the error is one that ends the
      loop. */
  method BindAddress(sfd: SocketFds, host: Host, bindaddr: string, cfg: Config, port: int, reply: Reply)
    returns (abort: bool)
    requires sfd.Valid() && sfd.count < sfd.fd.Length
    modifies sfd, sfd.fd, host
    ensures sfd.Valid() && sfd.fd == old(sfd.fd)
    ensures abort == Aborts(bindaddr, reply)
    ensures Snapshot(sfd, host) == Bind(old(Snapshot(sfd, host)), bindaddr, cfg, port, reply)
  {
    var optional, errno := OpenListener(sfd, host, bindaddr, cfg, port, reply);
    if sfd.fd[sfd.count] == ANET_ERR {
      if (errno == EADDRNOTAVAIL && optional)
        || errno == ENOPROTOOPT || errno == EPROTONOSUPPORT
        || errno == ESOCKTNOSUPPORT || errno == EPFNOSUPPORT
        || errno == EAFNOSUPPORT
      {
        return false;
      }
      return true;
    }
    ghost var w1 := Snapshot(sfd, host);
    if cfg.socketMarkId > 0 {
      host.SetSockMarkId(sfd.fd[sfd.count], cfg.socketMarkId);
    }
    host.SetNonBlock(sfd.fd[sfd.count]);
    host.SetCloexec(sfd.fd[sfd.count]);
    sfd.count := sfd.count + 1;
    assert Snapshot(sfd, host) == Configured(w1, reply.fd, cfg.socketMarkId);
    return false;
  }

  /** How server start-up ends. */
  datatype Start = Serving | ListenFailed | AcceptFailed

  /** The listening part of server start-up: bind only when a port is
      configured, then register the set with the event loop. */
  function StartFrom(w: World, cfg: Config, port: int, replies: seq<Reply>, answers: seq<bool>): (r: (World, Start))
    requires Fits(w) && |replies| == |cfg.bindaddr| && w.count + |cfg.bindaddr| <= |w.fds|
    requires w.count + |cfg.bindaddr| <= |answers|
    ensures Fits(r.0)
    ensures r.1 == ListenFailed ==> port != 0 && r.0.count == 0
    ensures r.1 != ListenFailed ==> w.count <= r.0.count
  {
    var l := if port != 0 then ListenFrom(w, cfg, port, replies, 0) else Outcome(w, C_OK);
    ListenFits(w, cfg, port, replies, 0);
    if l.code == C_ERR then (l.world, ListenFailed)
    else
      var a := RegisterFrom(l.world, answers, 0);
      (a.world, if a.code == C_OK then Serving else AcceptFailed)
  }

  /** The count never goes past the configured addresses. */
  lemma {:induction false} ListenFits(w: World, cfg: Config, port: int, replies: seq<Reply>, j: int)
    requires Fits(w) && 0 <= j <= |cfg.bindaddr| == |replies|
    requires w.count + (|cfg.bindaddr| - j) <= |w.fds|
    ensures var w' := ListenFrom(w, cfg, port, replies, j).world;
      Fits(w') && w'.fds[w.count + (|cfg.bindaddr| - j)..] == w.fds[w.count + (|cfg.bindaddr| - j)..]
      && w'.count <= w.count + (|cfg.bindaddr| - j)
    decreases |cfg.bindaddr| - j
  {
    if j < |cfg.bindaddr| {
      var w1 := Bind(w, cfg.bindaddr[j], cfg, port, replies[j]);
      if Aborts(cfg.bindaddr[j], replies[j]) {
        CloseEffect(w1, 0);
      } else {
        ListenFits(w1, cfg, port, replies, j + 1);
      }
    }
  }

  /** With port 0 nothing is bound: the set is registered as it is. */
  lemma StartWithoutPort(w: World, cfg: Config, replies: seq<Reply>, answers: seq<bool>)
    requires Fits(w) && |replies| == |cfg.bindaddr| && w.count + |cfg.bindaddr| <= |w.fds|
    requires w.count + |cfg.bindaddr| <= |answers|
    ensures var (w', s) := StartFrom(w, cfg, 0, replies, answers);
      s != ListenFailed && w'.fds == w.fds && w'.count == w.count && w'.open == w.open
      && (s == Serving <==> forall i :: 0 <= i < w.count ==> answers[i])
  {
    RegisterOkIff(w, answers, 0);
    if exists k :: 0 <= k < w.count && !answers[k] {
      var k := FirstFalse(answers, w.count);
      RegisterRollback(w, answers, k);
    }
  }

  /** The first slot whose registration fails. */
  function FirstFalse(answers: seq<bool>, n: int): (k: int)
    requires 0 <= n <= |answers| && exists k :: 0 <= k < n && !answers[k]
    ensures 0 <= k < n && !answers[k] && forall i :: 0 <= i < k ==> answers[i]
    decreases n
  {
    if !answers[n - 1] && forall i :: 0 <= i < n - 1 ==> answers[i] then n - 1
    else FirstFalse(answers, n - 1)
  }

  /** The start-up sequence: `if (server.port != 0 && listenToPort(...) ==
      C_ERR)` exits, a failed createSocketAcceptHandler panics. */
  method StartListening(port: int, sfd: SocketFds, host: Host, cfg: Config, replies: seq<Reply>, answers: seq<bool>)
    returns (s: Start)
    requires sfd.Valid() && |replies| == |cfg.bindaddr|
    requires sfd.count + |cfg.bindaddr| <= CONFIG_BINDADDR_MAX
    requires sfd.count + |cfg.bindaddr| <= |answers|
    modifies sfd, sfd.fd, host
    ensures sfd.Valid() && sfd.fd == old(sfd.fd)
    ensures (Snapshot(sfd, host), s) == StartFrom(old(Snapshot(sfd, host)), cfg, port, replies, answers)
  {
    ghost var w0 := Snapshot(sfd, host);
    if port != 0 {
      var r := ListenToPort(port, sfd, host, cfg, replies);
      if r == C_ERR {
        return ListenFailed;
      }
    }
    ListenFits(w0, cfg, port, replies, 0);
    var a := CreateSocketAcceptHandler(sfd, host, answers);
    if a != C_OK {
      return AcceptFailed;
    }
    return Serving;
  }
}
