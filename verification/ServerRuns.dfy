/**
  What the connection machine of src/async/server.c guarantees in every state that any schedule of
  events leads to.
 */
module ServerRuns {
  import opened AsyncServer
  import opened Handlers
  import opened Sequences
  import opened Wrappers

  // ----- one state

  ghost predicate IsRegistered(s: Server, fd: nat, r: Registration) {
    fd in s.loop.handlers && s.loop.handlers[fd] == r && fd in s.loop.kernel && s.loop.kernel[fd] == r.events
  }

  /** A listed connection is registered as itself, for what its state waits for, and the kernel watches that. */
  lemma ConnectionsAreRegistered(s: Server, i: nat)
    requires RegistryMatches(s) && i < |s.conns|
    ensures IsRegistered(s, s.conns[i].fd, Registration(EventsOf(s.conns[i]), ConnectionTarget(s.conns[i].id)))
  {
    hide AsMap;
    assert Expected(s)[i] == HandlerOf(s.conns[i]);
    AsMapAt(Expected(s), i);
  }

  lemma ListenerIsRegistered(s: Server)
    requires RegistryMatches(s) && s.listenFd.Some?
    ensures IsRegistered(s, s.listenFd.value, Registration(READ, LISTEN_TARGET))
  {
    hide AsMap;
    var last := |s.conns|;
    assert Expected(s)[last] == Handler(s.listenFd.value, Registration(READ, LISTEN_TARGET));
    AsMapAt(Expected(s), last);
  }

  /** Nothing else is registered: a descriptor in the registry is the listening one or a listed connection's. */
  lemma NothingElseIsRegistered(s: Server, fd: nat)
    requires RegistryMatches(s) && fd in s.loop.handlers
    ensures s.listenFd == Some(fd) || exists i :: 0 <= i < |s.conns| && s.conns[i].fd == fd
  {
    hide AsMap;
    AsMapKeys(Expected(s));
    var i :| 0 <= i < |Expected(s)| && Expected(s)[i].fd == fd;
    if i < |s.conns| {
      assert Expected(s)[i] == HandlerOf(s.conns[i]);
    }
  }

  /** The connection with the id of a listed one is that one. */
  lemma IdsAreUnique(s: Server, i: nat)
    requires Counted(s) && i < |s.conns|
    ensures ConnPosition(s.conns, s.conns[i].id) == i
  {
    assert ConnPosition(s.conns, s.conns[i].id) <= i;
  }

  /**
    Dispatch data never dangles: the data registered for a descriptor with the connection callback is
    a connection that is still listed, and the one that owns the descriptor.
   */
  lemma DispatchDataIsLive(s: Server, fd: nat)
    requires Inv(s) && fd in s.loop.handlers && s.loop.handlers[fd].target.callback == CONNECTION_CALLBACK
    ensures var i := ConnPosition(s.conns, s.loop.handlers[fd].target.data);
            i < |s.conns| && s.conns[i].fd == fd
  {
    hide AsMap, UniqueFds, ConnPosition, Conserved, Census;
    NothingElseIsRegistered(s, fd);
    if s.listenFd == Some(fd) {
      ListenerIsRegistered(s);
    } else {
      var i :| 0 <= i < |s.conns| && s.conns[i].fd == fd;
      ConnectionsAreRegistered(s, i);
      IdsAreUnique(s, i);
    }
  }

  lemma InvListens(s: Server)
    requires Inv(s) && s.listenFd.Some?
    ensures IsRegistered(s, s.listenFd.value, Registration(READ, LISTEN_TARGET))
  {
    hide RegistryMatches, Conserved, Census;
    ListenerIsRegistered(s);
  }

  // ----- schedules

  function StepAll(s: Server, events: seq<Event>): Server
    decreases |events|
  {
    if events == [] then s else StepAll(Step(s, events[0]), events[1..])
  }

  ghost predicate AllFeasible(s: Server, events: seq<Event>)
    decreases |events|
  {
    events == [] || (Feasible(s, events[0]) && AllFeasible(Step(s, events[0]), events[1..]))
  }

  /** The states of a run are those that its events lead to. */
  lemma {:induction false} RunIsStepAll(states: seq<Server>, events: seq<Event>, maxConnections: nat, k: nat)
    requires IsRun(states, events, maxConnections) && k <= |events|
    ensures AllFeasible(states[k], events[k..]) && StepAll(states[k], events[k..]) == states[|events|]
    decreases |events| - k
  {
    hide Step, Feasible;
    if k < |events| {
      assert Feasible(states[k], events[k]) && states[k + 1] == Step(states[k], events[k]);
      assert events[k..][0] == events[k] && events[k..][1..] == events[k + 1..];
      RunIsStepAll(states, events, maxConnections, k + 1);
    }
  }

  // ----- the census

  /** No connection is closed twice, and none that has been closed is still listed. */
  lemma ClosedOnce(s: Server)
    requires Census(s)
    ensures forall i, j :: 0 <= i < j < |s.closed| ==> s.closed[i].id != s.closed[j].id
    ensures forall i, j :: 0 <= i < |s.closed| && 0 <= j < |s.conns| ==> s.closed[i].id != s.conns[j].id
  {
    var closed, listed := Ids(s.closed), Ids(s.conns);
    forall i, j | 0 <= i < j < |s.closed|
      ensures s.closed[i].id != s.closed[j].id
    {
      if closed[i] == closed[j] {
        OccursTwice(closed, i, j);
        UpToOnce(s.totalConnections, closed[i]);
      }
    }
    forall i, j | 0 <= i < |s.closed| && 0 <= j < |s.conns|
      ensures s.closed[i].id != s.conns[j].id
    {
      if closed[i] == listed[j] {
        assert closed[i] in multiset(closed) && closed[i] in multiset(listed);
        UpToOnce(s.totalConnections, closed[i]);
      }
    }
  }

  // ----- the idle sweep

  function Fresh(conns: seq<Conn>, now: int): seq<Conn> {
    if conns == [] then []
    else (if IsIdle(conns[0], now) then [] else [conns[0]]) + Fresh(conns[1..], now)
  }

  function Stale(conns: seq<Conn>, now: int): seq<Conn> {
    if conns == [] then []
    else (if IsIdle(conns[0], now) then [conns[0]] else []) + Stale(conns[1..], now)
  }

  /**
    The sweep is a filter: the connections that are not idle stay, in order, each idle one is closed
    once, in order, and the count goes down by one for each.
   */
  lemma {:induction false} SweepIsFilter(s: Server, i: nat, now: int)
    requires i <= |s.conns|
    ensures var t := SweepFrom(s, i, now);
            && t.conns == s.conns[..i] + Fresh(s.conns[i..], now)
            && t.closed == s.closed + Stale(s.conns[i..], now)
            && t.connCount == s.connCount - |Stale(s.conns[i..], now)|
            && t.listenFd == s.listenFd && t.running == s.running
    decreases |s.conns| - i
  {
    hide IsIdle, Epoll.Apply;
    var rest := s.conns[i..];
    if i == |s.conns| {
      assert s.conns[..i] + [] == s.conns && s.closed + [] == s.closed;
    } else {
      assert rest[0] == s.conns[i] && rest[1..] == s.conns[i + 1..];
      if IsIdle(s.conns[i], now) {
        var c := Close(s, i);
        assert c.conns[..i] == s.conns[..i] && c.conns[i..] == s.conns[i + 1..];
        SweepIsFilter(c, i, now);
        Associate(s.closed, [s.conns[i]], Stale(rest[1..], now));
        assert [] + Fresh(rest[1..], now) == Fresh(rest[1..], now);
      } else {
        SweepIsFilter(s, i + 1, now);
        assert s.conns[..i + 1] == s.conns[..i] + [s.conns[i]];
        Associate(s.conns[..i], [s.conns[i]], Fresh(rest[1..], now));
        assert [] + Stale(rest[1..], now) == Stale(rest[1..], now);
      }
    }
  }

  // ----- stop

  lemma {:induction false} CloseAllEmpties(s: Server)
    ensures CloseAll(s).conns == [] && CloseAll(s).listenFd == s.listenFd && CloseAll(s).running == s.running
    ensures CloseAll(s).closed == s.closed + s.conns
    decreases |s.conns|
  {
    hide Epoll.Apply;
    if s.conns == [] {
      assert s.closed + [] == s.closed;
    } else {
      var c := Close(s, 0);
      assert c.conns == s.conns[1..] && s.conns == [s.conns[0]] + s.conns[1..];
      CloseAllEmpties(c);
      Associate(s.closed, [s.conns[0]], s.conns[1..]);
    }
  }

  /** After stop nothing is listed and nothing registered, and everything that was listed has been closed. */
  lemma StopLeavesNothing(s: Server)
    requires Inv(s) && s.running
    ensures var t := StopServer(s);
            && t.conns == [] && t.connCount == 0 && !t.running && t.listenFd.None?
            && t.loop == Epoll.Loop(map[], map[])
            && t.closed == s.closed + s.conns
  {
    hide CloseAll, ConservesBytes, SentPrefix, Census;
    StopKeepsInv(s);
    var l := Epoll.Apply(s.loop, DelFd(s.listenFd.value));
    CloseAllEmpties(s.(running := false, listenFd := None, loop := l));
    var t := StopServer(s);
    assert Expected(t) == [];
  }

  // ----- a connection through the steps

  /** The same connection, later: bytes built or taken by send are never taken back. */
  predicate Continues(c: Conn, d: Conn) {
    d.id == c.id && d.fd == c.fd && c.built <= d.built && c.wire <= d.wire
  }

  ghost predicate Survives(c: Conn, t: Server) {
    exists d :: d in t.conns + t.closed && Continues(c, d)
  }

  /** Every connection goes on, listed or closed; what is closed stays as it is; the limit stays. */
  ghost predicate Extends(s: Server, t: Server) {
    && t.maxConnections == s.maxConnections
    && s.closed <= t.closed
    && forall c :: c in s.conns ==> Survives(c, t)
  }

  lemma ExtendsItself(s: Server)
    ensures Extends(s, s)
  {
    forall c | c in s.conns
      ensures Survives(c, s)
    {
      assert c in s.conns + s.closed && Continues(c, c);
    }
  }

  lemma ExtendsOn(s: Server, t: Server, u: Server)
    requires Extends(s, t) && Extends(t, u)
    ensures Extends(s, u)
  {
    forall c | c in s.conns
      ensures Survives(c, u)
    {
      var d :| d in t.conns + t.closed && Continues(c, d);
      if d in t.conns {
        assert Survives(d, u);
        var e :| e in u.conns + u.closed && Continues(d, e);
        assert Continues(c, e);
      } else {
        assert d in u.closed;
      }
    }
  }

  /** Replacing a connection by a continuation of it, and leaving or closing it, extends the state. */
  lemma ReplacingExtends(s: Server, i: nat, d: Conn, t: Server)
    requires i < |s.conns| && Continues(s.conns[i], d) && t.maxConnections == s.maxConnections
    requires (t.conns == s.conns[i := d] && t.closed == s.closed)
             || (t.conns == RemoveAt(s.conns, i) && t.closed == s.closed + [d])
    ensures Extends(s, t)
  {
    forall c | c in s.conns
      ensures Survives(c, t)
    {
      var k :| 0 <= k < |s.conns| && s.conns[k] == c;
      if k == i {
        assert t.conns == s.conns[i := d] ==> t.conns[i] == d;
        assert d in t.conns + t.closed;
      } else {
        assert t.conns == s.conns[i := d] ==> t.conns[k] == c;
        assert t.conns == RemoveAt(s.conns, i) ==> t.conns[if k < i then k else k - 1] == c;
        assert c in t.conns + t.closed && Continues(c, c);
      }
    }
  }

  lemma CloseExtends(s: Server, i: nat)
    requires i < |s.conns|
    ensures Extends(s, Close(s, i))
  {
    hide Extends, RemoveAt;
    ReplacingExtends(s, i, s.conns[i], Close(s, i));
  }

  lemma {:induction false} SweepExtends(s: Server, i: nat, now: int)
    requires i <= |s.conns|
    ensures Extends(s, SweepFrom(s, i, now))
    decreases |s.conns| - i
  {
    hide Extends, Close, IsIdle;
    if i == |s.conns| {
      ExtendsItself(s);
    } else if IsIdle(s.conns[i], now) {
      CloseShortens(s, i);
      CloseExtends(s, i);
      SweepExtends(Close(s, i), i, now);
      ExtendsOn(s, Close(s, i), SweepFrom(s, i, now));
    } else {
      SweepExtends(s, i + 1, now);
    }
  }

  lemma {:induction false} CloseAllExtends(s: Server)
    ensures Extends(s, CloseAll(s))
    decreases |s.conns|
  {
    hide Extends, Close;
    if s.conns == [] {
      ExtendsItself(s);
    } else {
      CloseShortens(s, 0);
      CloseExtends(s, 0);
      CloseAllExtends(Close(s, 0));
      ExtendsOn(s, Close(s, 0), CloseAll(s));
    }
  }

  lemma AdmitExtends(s: Server, fd: nat, now: int, l: Epoll.Loop)
    ensures Extends(s, Admit(s, fd, now).(loop := l))
  {
    var t := Admit(s, fd, now).(loop := l);
    forall c | c in s.conns
      ensures Survives(c, t)
    {
      assert c in t.conns + t.closed && Continues(c, c);
    }
  }

  lemma {:induction false} AcceptsExtend(s: Server, now: int, accepts: seq<AcceptResult>)
    ensures Extends(s, AcceptAll(s, now, accepts))
    decreases |accepts|
  {
    hide Extends, Epoll.Apply, Epoll.AddSucceeds, Close;
    ExtendsItself(s);
    if accepts != [] && s.running && s.connCount < s.maxConnections {
      var a := accepts[0];
      var t := AcceptOne(s, now, a);
      if a.Accepted? && a.nonblocking && a.memory {
        var op := AddFd(a.fd, ConnectionTarget(s.totalConnections), a.entryMemory);
        var admitted := Admit(s, a.fd, now).(loop := Epoll.Apply(s.loop, op));
        AdmitExtends(s, a.fd, now, Epoll.Apply(s.loop, op));
        CloseExtends(admitted, 0);
        ExtendsOn(s, admitted, Close(admitted, 0));
      }
      AcceptsExtend(t, now, accepts[1..]);
      ExtendsOn(s, t, AcceptAll(t, now, accepts[1..]));
    }
  }

  lemma UpdateExtends(s: Server, i: nat, d: Conn, l: Epoll.Loop)
    requires i < |s.conns| && Continues(s.conns[i], d)
    ensures Extends(s, SetConn(s, i, d)) && Extends(s, SetConn(s, i, d).(loop := l))
  {
    hide Extends, Continues;
    ReplacingExtends(s, i, d, SetConn(s, i, d));
    ReplacingExtends(s, i, d, SetConn(s, i, d).(loop := l));
  }

  lemma ReadExtends(s: Server, i: nat, read: ReadResult)
    requires i < |s.conns|
    ensures Extends(s, OnRead(s, i, read))
  {
    hide Extends, Close, Epoll.Apply, BuildResponse;
    match read {
      case ReadFailed => CloseExtends(s, i);
      case Incomplete => ExtendsItself(s);
      case Complete(keepAliveHeader, response) =>
        var c := s.conns[i].(keepAlive := s.conns[i].keepAlive || keepAliveHeader, phase := Processing);
        var t := SetConn(s, i, c);
        UpdateExtends(s, i, c, s.loop);
        if response.Some? {
          var b := BuildResponse(response.value, c.keepAlive);
          ExtendsItself(t);
          if b.Some? {
            var d := c.(phase := Writing, sendBuf := b.value, sendOffset := 0, built := c.built + b.value);
            UpdateExtends(t, i, d, Epoll.Apply(t.loop, ModFd(c.fd, WRITE)));
          }
          ExtendsOn(s, t, OnRead(s, i, read));
        }
    }
  }

  lemma WriteExtends(s: Server, i: nat, send: SendResult)
    requires i < |s.conns| && SendFits(s.conns[i], send)
    ensures Extends(s, OnWrite(s, i, send))
  {
    hide Extends, Close, Epoll.Apply;
    if send.SendFailed? || (send.Took? && send.n == 0) {
      CloseExtends(s, i);
    } else if send.WouldBlock? {
      ExtendsItself(s);
    } else {
      var c := s.conns[i];
      var end := c.sendOffset + send.n;
      var sent := c.(sendOffset := end, wire := c.wire + c.sendBuf[c.sendOffset..end]);
      var t := SetConn(s, i, sent);
      UpdateExtends(s, i, sent, s.loop);
      if end >= |c.sendBuf| {
        UpdateExtends(t, i, sent.(phase := Reading, sendBuf := [], sendOffset := 0),
                      Epoll.Apply(t.loop, ModFd(c.fd, READ)));
        CloseExtends(t, i);
        ExtendsOn(s, t, Finish(t, i));
      }
    }
  }

  lemma ConnectionStepExtends(s: Server, i: nat, events: Events, now: int, read: ReadResult, send: SendResult)
    requires i < |s.conns| && SendFits(s.conns[i], send)
    ensures Extends(s, OnConnection(s, i, events, now, read, send))
  {
    hide Extends, Close, OnRead, OnWrite;
    var active := SetConn(s, i, s.conns[i].(lastActivity := now));
    UpdateExtends(s, i, s.conns[i].(lastActivity := now), s.loop);
    CloseExtends(active, i);
    ReadExtends(active, i, read);
    WriteExtends(active, i, send);
    ExtendsItself(active);
    ExtendsOn(s, active, OnConnection(s, i, events, now, read, send));
  }

  lemma StepExtends(s: Server, e: Event)
    ensures Extends(s, Step(s, e))
  {
    hide Extends, SweepFrom, AcceptAll, CloseAll, OnConnection, ConnPosition;
    ExtendsItself(s);
    match e {
      case Listen(fd, memory) => SameListsExtend(s, Step(s, e));
      case Stop =>
        if s.running {
          var l := if s.listenFd.Some? then Epoll.Apply(s.loop, DelFd(s.listenFd.value)) else s.loop;
          var t := s.(running := false, listenFd := None, loop := l);
          SameListsExtend(s, t);
          CloseAllExtends(t);
          ExtendsOn(s, t, CloseAll(t));
        }
      case ListenReady(now, accepts) =>
        var t := SweepFrom(s, 0, now);
        SweepExtends(s, 0, now);
        AcceptsExtend(t, now, accepts);
        ExtendsOn(s, t, AcceptAll(t, now, accepts));
      case ConnReady(fd, events, now, read, send) =>
        if fd in s.loop.handlers {
          var i := ConnPosition(s.conns, s.loop.handlers[fd].target.data);
          if i < |s.conns| && SendFits(s.conns[i], send) {
            ConnectionStepExtends(s, i, events, now, read, send);
          }
        }
    }
  }

  lemma SameListsExtend(s: Server, t: Server)
    requires t.conns == s.conns && t.closed == s.closed && t.maxConnections == s.maxConnections
    ensures Extends(s, t)
  {
    ExtendsItself(s);
    forall c | c in s.conns
      ensures Survives(c, t)
    {
      assert Survives(c, s);
    }
  }

  /**
    Over a run, from any state to any later one: no connection is lost, its bytes on the wire are only
    ever added to, and what has been closed stays closed.
   */
  lemma {:induction false} LaterExtends(states: seq<Server>, events: seq<Event>, maxConnections: nat, j: nat, k: nat)
    requires IsRun(states, events, maxConnections) && j <= k < |states|
    ensures Extends(states[j], states[k])
    decreases k
  {
    hide Extends, Step, Feasible;
    if j == k {
      ExtendsItself(states[k]);
    } else {
      LaterExtends(states, events, maxConnections, j, k - 1);
      assert states[k - 1 + 1] == Step(states[k - 1], events[k - 1]);
      StepExtends(states[k - 1], events[k - 1]);
      ExtendsOn(states[j], states[k - 1], states[k]);
    }
  }

  // ----- every reachable state

  /** The descriptors the server has registered. */
  ghost function ServerFds(s: Server): set<nat> {
    (if s.listenFd.Some? then {s.listenFd.value} else {}) + set i | 0 <= i < |s.conns| :: s.conns[i].fd
  }

  /**
    The agreement of server and registry, over every schedule: the count is the length of the list and
    within the limit, the registered descriptors are the listening one while the server runs and one
    per listed connection, and the kernel watches each for exactly what its connection waits for.
   */
  lemma ServerAndRegistryAgree(states: seq<Server>, events: seq<Event>, maxConnections: nat, k: nat)
    requires IsRun(states, events, maxConnections) && k < |states|
    ensures var s := states[k];
            && s.connCount == |s.conns| <= maxConnections
            && (s.running <==> s.listenFd.Some?)
            && s.loop.handlers.Keys == s.loop.kernel.Keys == ServerFds(s)
    ensures forall i, j :: 0 <= i < j < |states[k].conns| ==> states[k].conns[i].fd != states[k].conns[j].fd
    ensures forall i :: 0 <= i < |states[k].conns| ==>
              var c := states[k].conns[i];
              c.fd in states[k].loop.kernel && states[k].loop.kernel[c.fd] == if c.phase == Writing then WRITE else READ
  {
    hide Step, Feasible, AsMap, Epoll.Agrees, Conserved, Census, NewestFirst;
    ReachableStatesKeepInv(states, events, maxConnections, k);
    LaterExtends(states, events, maxConnections, 0, k);
    assert states[0] == InitialServer(maxConnections);
    var s := states[k];
    forall i | 0 <= i < |s.conns|
      ensures IsRegistered(s, s.conns[i].fd, Registration(EventsOf(s.conns[i]), ConnectionTarget(s.conns[i].id)))
    {
      ConnectionsAreRegistered(s, i);
    }
    forall i, j | 0 <= i < j < |s.conns|
      ensures s.conns[i].fd != s.conns[j].fd
    {
      assert Expected(s)[i].fd == s.conns[i].fd && Expected(s)[j].fd == s.conns[j].fd;
    }
    if s.listenFd.Some? {
      ListenerIsRegistered(s);
    }
    forall fd: nat
      ensures fd in s.loop.handlers <==> fd in ServerFds(s)
      ensures fd in s.loop.kernel <==> fd in s.loop.handlers
    {
      KernelHas(s.loop, fd);
      if fd in s.loop.handlers {
        NothingElseIsRegistered(s, fd);
      }
    }
  }

  /**
    Conservation of bytes, over every schedule of events and partial or refused sends: what send has
    taken from a connection is a beginning of what was built for it, all of it whenever the connection
    reads again, and while it writes, the rest is what is still in its buffer.
   */
  lemma BytesAreConserved(states: seq<Server>, events: seq<Event>, maxConnections: nat, k: nat)
    requires IsRun(states, events, maxConnections) && k < |states|
    ensures forall i :: 0 <= i < |states[k].conns| ==>
              var c := states[k].conns[i];
              && c.wire <= c.built
              && (c.phase == Reading ==> c.wire == c.built)
              && (c.phase == Writing ==>
                    c.sendOffset < |c.sendBuf| <= SEND_BUFFER_SIZE && c.built == c.wire + c.sendBuf[c.sendOffset..])
    ensures forall i :: 0 <= i < |states[k].closed| ==> states[k].closed[i].wire <= states[k].closed[i].built
  {
    hide IsRun, Counted, RegistryMatches, Census;
    ReachableStatesKeepInv(states, events, maxConnections, k);
  }
}
