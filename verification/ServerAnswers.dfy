/**
  What the steps of the connection machine of src/async/server.c do for a client: what becomes of an
  accepted socket, of a request, of a response that is being sent, and of a connection that fails. Each
  is about a step from any state with the invariant, and so from any state that a schedule can lead to.
 */
module ServerAnswers {
  import Epoll
  import Served = ServedResponse
  import Http = HttpResponse
  import Chunked
  import Text
  import opened AsyncServer
  import opened Handlers
  import opened Sequences
  import opened ServerRuns
  import opened Wrappers

  // ----- how a step may change the server

  /** All other descriptors are registered and watched as before. */
  ghost predicate OthersStay(s: Server, t: Server, fd: nat) {
    forall d: nat :: d != fd ==>
      LookUp(t.loop.handlers, d) == LookUp(s.loop.handlers, d) && (d in t.loop.kernel <==> d in s.loop.kernel)
      && (d in s.loop.kernel ==> t.loop.kernel[d] == s.loop.kernel[d])
  }

  /** One listed connection has become another, which is registered as itself and watched for these events. */
  ghost predicate Becomes(s: Server, t: Server, i: nat, c: Conn, waitsFor: Events)
    requires i < |s.conns|
  {
    && t == s.(conns := s.conns[i := c], loop := t.loop)
    && IsRegistered(t, c.fd, Registration(waitsFor, Target(1, c.id))) && OthersStay(s, t, c.fd)
  }

  /** One listed connection has been closed: it is neither listed, nor counted, nor registered, nor watched. */
  ghost predicate Ends(s: Server, t: Server, i: nat, c: Conn)
    requires i < |s.conns|
  {
    && t == s.(conns := s.conns[..i] + s.conns[i + 1..], connCount := s.connCount - 1, loop := t.loop,
               closed := s.closed + [c])
    && c.fd !in t.loop.handlers && c.fd !in t.loop.kernel && OthersStay(s, t, c.fd)
  }

  lemma IsRegisteredFor(s: Server, i: nat)
    requires Inv(s) && i < |s.conns|
    ensures IsRegistered(s, s.conns[i].fd, Registration(EventsOf(s.conns[i]), Target(1, s.conns[i].id)))
    ensures ConnPosition(s.conns, s.conns[i].id) == i
  {
    hide RegistryMatches, Conserved, Census, IsRegistered, ConnPosition;
    ConnectionsAreRegistered(s, i);
    IdsAreUnique(s, i);
  }

  /** The event of a descriptor reaches the connection that owns it. */
  lemma EventReaches(s: Server, i: nat, events: Events, now: int, read: ReadResult, send: SendResult)
    requires Inv(s) && i < |s.conns| && SendFits(s.conns[i], send)
    ensures Step(s, ConnReady(s.conns[i].fd, events, now, read, send)) == OnConnection(s, i, events, now, read, send)
  {
    hide Inv, OnConnection, ConnPosition;
    IsRegisteredFor(s, i);
  }

  lemma ChangedInPlace(s: Server, i: nat, c: Conn, t: Server, events: Events)
    requires Inv(s) && i < |s.conns| && c.id == s.conns[i].id && c.fd == s.conns[i].fd
    requires t == SetConn(s, i, c).(loop := Epoll.Apply(s.loop, ModFd(c.fd, events)))
    ensures Becomes(s, t, i, c, events)
  {
    hide Inv;
    IsRegisteredFor(s, i);
  }

  lemma SameEvents(s: Server, i: nat, c: Conn, t: Server)
    requires Inv(s) && i < |s.conns| && c.id == s.conns[i].id && c.fd == s.conns[i].fd && t == SetConn(s, i, c)
    ensures Becomes(s, t, i, c, EventsOf(s.conns[i]))
  {
    hide Inv, EventsOf;
    IsRegisteredFor(s, i);
  }

  lemma ClosedIsGone(s: Server, i: nat, c: Conn, t: Server)
    requires Inv(s) && i < |s.conns| && c.id == s.conns[i].id && c.fd == s.conns[i].fd
    requires t == Close(SetConn(s, i, c), i)
    ensures Ends(s, t, i, c)
  {
    hide Inv;
    IsRegisteredFor(s, i);
    assert RemoveAt(s.conns[i := c], i) == s.conns[..i] + s.conns[i + 1..];
  }

  // ----- a request

  /** What a request is answered with: the head and as much of the body as fits 65536 bytes. */
  function MessageOf(r: Response, keepAlive: bool): string {
    var all := ResponseHead(r, keepAlive) + r.body;
    if |all| > 0x1_0000 then all[..0x1_0000] else all
  }

  lemma BuiltIsMessage(r: Response, keepAlive: bool)
    ensures BuildResponse(r, keepAlive)
         == if |ResponseHead(r, keepAlive)| >= 0x1_0000 then None else Some(MessageOf(r, keepAlive))
  {
    hide ResponseHead;
    var head := ResponseHead(r, keepAlive);
    if |head| < 0x1_0000 < |head + r.body| {
      assert (head + r.body)[..0x1_0000] == head + r.body[..0x1_0000 - |head|];
    }
  }

  /**
    A complete request on a reading connection is answered in the same step, if the head of the response
    fits: the response is what there is to send, nothing of it has been sent, and the connection waits
    for the socket to take it. A response whose head does not fit is not sent.
   */
  lemma RequestIsAnswered(
    s: Server, i: nat, events: Events, now: int, keepAliveHeader: bool, response: Response, send: SendResult)
    requires Inv(s) && i < |s.conns| && SendFits(s.conns[i], send)
    requires s.conns[i].phase == Reading && events.read && !events.error
    ensures var c := s.conns[i];
            var keep := c.keepAlive || keepAliveHeader;
            var message := MessageOf(response, keep);
            var t := Step(s, ConnReady(c.fd, events, now, Complete(keepAliveHeader, Some(response)), send));
            if |ResponseHead(response, keep)| < 0x1_0000
            then Becomes(s, t, i, Conn(c.id, c.fd, Writing, message, 0, keep, now, c.built + message, c.wire),
                         Events(false, true, false))
            else Becomes(s, t, i, c.(phase := Processing, keepAlive := keep, lastActivity := now),
                         Events(true, false, false))
  {
    hide Inv, BuildResponse, ResponseHead, MessageOf, Epoll.Apply, Becomes;
    var c := s.conns[i];
    var keep := c.keepAlive || keepAliveHeader;
    EventReaches(s, i, events, now, Complete(keepAliveHeader, Some(response)), send);
    BuiltIsMessage(response, keep);
    var t := Step(s, ConnReady(c.fd, events, now, Complete(keepAliveHeader, Some(response)), send));
    var d := c.(phase := Processing, keepAlive := keep, lastActivity := now);
    if |ResponseHead(response, keep)| < 0x1_0000 {
      var message := MessageOf(response, keep);
      var e := Conn(c.id, c.fd, Writing, message, 0, keep, now, c.built + message, c.wire);
      assert s.conns[i := c.(lastActivity := now)][i := d][i := e] == s.conns[i := e];
      ChangedInPlace(s, i, e, t, WRITE);
    } else {
      assert s.conns[i := c.(lastActivity := now)][i := d] == s.conns[i := d];
      SameEvents(s, i, d, t);
    }
  }

  /** That message is a response which its client reads, with as much of the body as was sent. */
  lemma MessageReadsBack(r: Response, keepAlive: bool, g: Http.Setting)
    requires |ResponseHead(r, keepAlive)| < 0x1_0000 && 100 <= r.status <= 999
    requires !Text.HasCrlf(r.contentType) && (r.contentType != [] ==> !Text.IsBlank(r.contentType[0]))
    requires Chunked.IsPlaced(g.at, |MessageOf(r, keepAlive)|)
    ensures var message := MessageOf(r, keepAlive);
            && 0 < |message| <= 0x1_0000 && Http.Parse(message, g).Accepted?
            && Http.Seen(Http.Overwritten(message, Http.Parse(message, g).value), Http.Parse(message, g).value)
               == Http.Response(r.status, Served.ServedHeaders(r, keepAlive), Served.ServedBody(r, keepAlive))
  {
    hide BuildResponse, ResponseHead, MessageOf, Http.Parse, Http.Seen, Http.Overwritten, Text.HasCrlf;
    hide Served.ServedHeaders, Served.ServedBody;
    BuiltIsMessage(r, keepAlive);
    Served.ServedResponseReadsBack(r, keepAlive, g);
  }

  /** A request without a response, one that is not complete, and a failed read. */
  lemma OtherReads(s: Server, i: nat, events: Events, now: int, read: ReadResult, send: SendResult)
    requires Inv(s) && i < |s.conns| && SendFits(s.conns[i], send)
    requires s.conns[i].phase == Reading && events.read && !events.error
    requires read.Complete? ==> read.response.None?
    ensures var c := s.conns[i].(lastActivity := now);
            var t := Step(s, ConnReady(c.fd, events, now, read, send));
            match read
            case ReadFailed => Ends(s, t, i, c)
            case Incomplete => Becomes(s, t, i, c, Events(true, false, false))
            case Complete(keepAliveHeader, _) =>
              Becomes(s, t, i, c.(phase := Processing, keepAlive := c.keepAlive || keepAliveHeader),
                      Events(true, false, false))
  {
    hide Inv, Epoll.Apply, Becomes, Ends;
    var c := s.conns[i].(lastActivity := now);
    EventReaches(s, i, events, now, read, send);
    var t := Step(s, ConnReady(c.fd, events, now, read, send));
    match read {
      case ReadFailed => ClosedIsGone(s, i, c, t);
      case Incomplete => SameEvents(s, i, c, t);
      case Complete(keepAliveHeader, _) =>
        var d := c.(phase := Processing, keepAlive := c.keepAlive || keepAliveHeader);
        assert s.conns[i := c][i := d] == s.conns[i := d];
        SameEvents(s, i, d, t);
    }
  }

  // ----- a response on its way

  /**
    What send takes goes from the send buffer onto the wire. When that was the rest, the connection reads
    again, with an empty buffer, if it is kept alive, and is closed if it is not.
   */
  lemma AnswerIsSent(s: Server, i: nat, events: Events, now: int, read: ReadResult, n: nat)
    requires Inv(s) && i < |s.conns| && s.conns[i].phase == Writing && events.write && !events.error
    requires 0 < n <= |s.conns[i].sendBuf| - s.conns[i].sendOffset
    ensures var c := s.conns[i];
            var end := c.sendOffset + n;
            var sent := c.(sendOffset := end, wire := c.wire + c.sendBuf[c.sendOffset..end], lastActivity := now);
            var t := Step(s, ConnReady(c.fd, events, now, read, Took(n)));
            if end < |c.sendBuf| then Becomes(s, t, i, sent, Events(false, true, false))
            else if !c.keepAlive then Ends(s, t, i, sent)
            else Becomes(s, t, i, sent.(phase := Reading, sendBuf := [], sendOffset := 0), Events(true, false, false))
  {
    hide Inv, Epoll.Apply, Becomes, Ends;
    var c := s.conns[i];
    var end := c.sendOffset + n;
    var sent := c.(sendOffset := end, wire := c.wire + c.sendBuf[c.sendOffset..end], lastActivity := now);
    EventReaches(s, i, events, now, read, Took(n));
    var t := Step(s, ConnReady(c.fd, events, now, read, Took(n)));
    assert s.conns[i := c.(lastActivity := now)][i := sent] == s.conns[i := sent];
    if end < |c.sendBuf| {
      SameEvents(s, i, sent, t);
    } else if !c.keepAlive {
      ClosedIsGone(s, i, sent, t);
    } else {
      var idle := sent.(phase := Reading, sendBuf := [], sendOffset := 0);
      assert s.conns[i := sent][i := idle] == s.conns[i := idle];
      ChangedInPlace(s, i, idle, t, READ);
    }
  }

  /** A send that would block leaves everything for later; one that fails or takes nothing ends the connection. */
  lemma OtherSends(s: Server, i: nat, events: Events, now: int, read: ReadResult, send: SendResult)
    requires Inv(s) && i < |s.conns| && s.conns[i].phase == Writing && events.write && !events.error
    requires SendFits(s.conns[i], send) && (send.Took? ==> send.n == 0)
    ensures var c := s.conns[i].(lastActivity := now);
            var t := Step(s, ConnReady(c.fd, events, now, read, send));
            if send.WouldBlock? then Becomes(s, t, i, c, Events(false, true, false)) else Ends(s, t, i, c)
  {
    hide Inv, Epoll.Apply, Becomes, Ends;
    var c := s.conns[i].(lastActivity := now);
    EventReaches(s, i, events, now, read, send);
    var t := Step(s, ConnReady(c.fd, events, now, read, send));
    if send.WouldBlock? {
      SameEvents(s, i, c, t);
    } else {
      ClosedIsGone(s, i, c, t);
    }
  }

  // ----- other events

  /** An error ends the connection, whatever it is doing. */
  lemma ErrorsEnd(s: Server, i: nat, events: Events, now: int, read: ReadResult, send: SendResult)
    requires Inv(s) && i < |s.conns| && SendFits(s.conns[i], send) && events.error
    ensures Ends(s, Step(s, ConnReady(s.conns[i].fd, events, now, read, send)), i, s.conns[i].(lastActivity := now))
  {
    hide Inv, Epoll.Apply, Ends;
    EventReaches(s, i, events, now, read, send);
    ClosedIsGone(s, i, s.conns[i].(lastActivity := now), Step(s, ConnReady(s.conns[i].fd, events, now, read, send)));
  }

  /** An event that the connection is not waiting for only counts as activity. */
  lemma OtherEventsTouch(s: Server, i: nat, events: Events, now: int, read: ReadResult, send: SendResult)
    requires Inv(s) && i < |s.conns| && SendFits(s.conns[i], send) && !events.error
    requires s.conns[i].phase == Reading ==> !events.read
    requires s.conns[i].phase == Writing ==> !events.write
    ensures var c := s.conns[i].(lastActivity := now);
            Becomes(s, Step(s, ConnReady(c.fd, events, now, read, send)), i, c,
                    if c.phase == Writing then Events(false, true, false) else Events(true, false, false))
  {
    hide Inv, Epoll.Apply, Becomes;
    EventReaches(s, i, events, now, read, send);
    SameEvents(s, i, s.conns[i].(lastActivity := now), Step(s, ConnReady(s.conns[i].fd, events, now, read, send)));
  }

  // ----- sockets

  /** Idle means more than ten seconds without an event. */
  lemma IdleMeans(c: Conn, now: int)
    ensures IsIdle(c, now) <==> now - c.lastActivity > 10
  {
  }

  /** The sweep leaves the connections with an event in the last ten seconds and closes the others. */
  lemma {:induction false} FreshAre(conns: seq<Conn>, now: int)
    ensures forall c :: c in Fresh(conns, now) <==> c in conns && now - c.lastActivity <= 10
    ensures forall c :: c in Stale(conns, now) <==> c in conns && now - c.lastActivity > 10
    ensures |Fresh(conns, now)| + |Stale(conns, now)| == |conns|
  {
    if conns != [] {
      FreshAre(conns[1..], now);
      IdleMeans(conns[0], now);
      assert conns == [conns[0]] + conns[1..];
    }
  }

  /** Starting to listen registers the socket for reading, or leaves the server as it was. */
  lemma ListenStarts(s: Server, fd: nat, memory: bool)
    requires Inv(s) && !s.running && fd !in s.loop.handlers
    ensures var t := Step(s, Listen(fd, memory));
            if memory
            then t == s.(running := true, listenFd := Some(fd), loop := t.loop) && OthersStay(s, t, fd)
              && IsRegistered(t, fd, Registration(Events(true, false, false), Target(0, 0)))
            else t == s
  {
    hide RegistryMatches, Conserved, Census;
    InvMatches(s);
    RegistryIsWatched(s, fd);
  }

  lemma RegistryIsWatched(s: Server, fd: nat)
    requires RegistryMatches(s)
    ensures fd in s.loop.kernel <==> fd in s.loop.handlers
  {
    hide AsMap, Expected, UniqueFds;
  }

  /** Accepting in two goes is accepting once. */
  lemma {:induction false} AcceptAllAppend(s: Server, now: int, first: seq<AcceptResult>, more: seq<AcceptResult>)
    ensures AcceptAll(s, now, first + more) == AcceptAll(AcceptAll(s, now, first), now, more)
    decreases |first|
  {
    hide AcceptOne;
    if first == [] {
      assert first + more == more;
    } else if s.running && s.connCount < s.maxConnections {
      assert (first + more)[1..] == first[1..] + more;
      AcceptAllAppend(AcceptOne(s, now, first[0]), now, first[1..], more);
    } else if more != [] {
      assert (first + more) != [];
    }
  }

  ghost predicate IsAdmitted(s: Server, t: Server, c: Conn) {
    && t == s.(conns := [c] + s.conns, connCount := s.connCount + 1, totalConnections := s.totalConnections + 1,
               loop := t.loop)
    && IsRegistered(t, c.fd, Registration(Events(true, false, false), Target(1, c.id))) && OthersStay(s, t, c.fd)
  }

  ghost predicate IsRefused(s: Server, t: Server, c: Conn) {
    && t == s.(totalConnections := s.totalConnections + 1, closed := s.closed + [c], loop := t.loop)
    && c.fd !in t.loop.handlers && c.fd !in t.loop.kernel && OthersStay(s, t, c.fd)
  }

  /**
    A socket that is accepted with room for it becomes the first listed connection, reading and
    registered for that; one that cannot be registered is closed again.
   */
  lemma AcceptedIsListed(s: Server, now: int, a: AcceptResult)
    requires Inv(s) && s.running && s.connCount < s.maxConnections && (a.Accepted? ==> a.fd !in s.loop.handlers)
    ensures var t := AcceptAll(s, now, [a]);
            if a.AcceptError? || !a.nonblocking || !a.memory then t == s
            else
              var c := Conn(s.totalConnections, a.fd, Reading, [], 0, false, now, [], []);
              if a.entryMemory then IsAdmitted(s, t, c) else IsRefused(s, t, c)
  {
    hide RegistryMatches, Conserved, Census, Inv;
    InvMatches(s);
    assert [a][1..] == [];
    if a.Accepted? {
      RegistryIsWatched(s, a.fd);
      var c := Conn(s.totalConnections, a.fd, Reading, [], 0, false, now, [], []);
      assert RemoveAt([c] + s.conns, 0) == s.conns;
    }
  }

  /** An event of the listening socket first sweeps out the idle connections, then accepts. */
  lemma ListenReadyMeans(s: Server, now: int, accepts: seq<AcceptResult>)
    requires Inv(s) && s.listenFd.Some?
    ensures exists swept ::
              && Inv(swept) && swept.conns == Fresh(s.conns, now) && swept.closed == s.closed + Stale(s.conns, now)
              && swept.connCount == |Fresh(s.conns, now)| && swept.running && swept.listenFd == s.listenFd
              && swept.totalConnections == s.totalConnections && swept.maxConnections == s.maxConnections
              && Step(s, ListenReady(now, accepts)) == AcceptAll(swept, now, accepts)
  {
    hide Inv, AcceptAll, SweepFrom, Fresh, Stale;
    var swept := SweepFrom(s, 0, now);
    SweepKeepsInv(s, 0, now);
    SweepIsFilter(s, 0, now);
    SweepKeepsTotals(s, 0, now);
    assert s.conns[0..] == s.conns && s.conns[..0] + Fresh(s.conns, now) == Fresh(s.conns, now);
    InvCounts(s);
    InvCounts(swept);
  }

  lemma {:induction false} SweepKeepsTotals(s: Server, i: nat, now: int)
    requires i <= |s.conns|
    ensures var t := SweepFrom(s, i, now);
            t.totalConnections == s.totalConnections && t.maxConnections == s.maxConnections
    decreases |s.conns| - i
  {
    hide IsIdle, Epoll.Apply;
    if i < |s.conns| {
      if IsIdle(s.conns[i], now) {
        SweepKeepsTotals(Close(s, i), i, now);
      } else {
        SweepKeepsTotals(s, i + 1, now);
      }
    }
  }

  lemma InvCounts(s: Server)
    requires Inv(s)
    ensures s.connCount == |s.conns| && (s.running <==> s.listenFd.Some?)
  {
    hide RegistryMatches, Conserved, Census;
  }

  /** Stopping a running server closes everything it has; there is nothing to stop otherwise. */
  lemma StopMeans(s: Server)
    requires Inv(s)
    ensures Step(s, Stop)
         == if !s.running then s
            else s.(conns := [], connCount := 0, running := false, listenFd := None,
                    loop := Epoll.Loop(map[], map[]), closed := s.closed + s.conns)
  {
    if s.running {
      hide Inv, CloseAll;
      StopLeavesNothing(s);
      CloseAllKeepsRest(s.(running := false, listenFd := None,
                           loop := if s.listenFd.Some? then Epoll.Apply(s.loop, DelFd(s.listenFd.value)) else s.loop));
    }
  }

  lemma {:induction false} CloseAllKeepsRest(s: Server)
    ensures var t := CloseAll(s);
            t.totalConnections == s.totalConnections && t.maxConnections == s.maxConnections
    decreases |s.conns|
  {
    hide Epoll.Apply;
    if s.conns != [] {
      CloseAllKeepsRest(Close(s, 0));
    }
  }
}
