/**
  The server of src/async/server.c as an object: the singly linked connection list that its handlers
  splice and update in place, over the epoll registry. Every method is tied to the step it performs.
 */
module ServerObjects {
  import opened AsyncServer
  import opened Handlers
  import opened Sequences
  import opened ServerRuns
  import opened Wrappers

  /** A connection. What was built and what send took are recorded beside the fields of the source. */
  class ConnNode {
    const id: nat
    const fd: nat
    var phase: Phase
    var sendBuf: string
    var sendOffset: nat
    var keepAlive: bool
    var lastActivity: int
    ghost var built: string
    ghost var wire: string
    var next: ConnNode?

    constructor (id: nat, fd: nat, now: int)
      ensures this.id == id && this.fd == fd && next == null
      ensures Value() == Conn(id, fd, Reading, [], 0, false, now, [], [])
    {
      this.id, this.fd, phase, sendBuf, sendOffset := id, fd, Reading, [], 0;
      keepAlive, lastActivity, built, wire, next := false, now, [], [], null;
    }

    ghost function Value(): Conn
      reads this`phase, this`sendBuf, this`sendOffset, this`keepAlive, this`lastActivity, this`built, this`wire
    {
      Conn(id, fd, phase, sendBuf, sendOffset, keepAlive, lastActivity, built, wire)
    }

    method Touch(now: int)
      modifies this`lastActivity
      ensures Value() == old(Value()).(lastActivity := now)
    {
      lastActivity := now;
    }

    method BeginProcessing(keepAliveHeader: bool)
      modifies this`keepAlive, this`phase
      ensures Value() == old(Value()).(keepAlive := old(keepAlive) || keepAliveHeader, phase := Processing)
    {
      if keepAliveHeader {
        keepAlive := true;
      }
      phase := Processing;
    }

    method BeginWriting(response: string)
      modifies this`phase, this`sendBuf, this`sendOffset, this`built
      ensures var c := old(Value());
              Value() == c.(phase := Writing, sendBuf := response, sendOffset := 0, built := c.built + response)
    {
      sendBuf := response;
      sendOffset := 0;
      phase := Writing;
      built := built + response;
    }

    /** send has taken some bytes. */
    method Advance(n: nat)
      requires sendOffset + n <= |sendBuf|
      modifies this`sendOffset, this`wire
      ensures var c := old(Value());
              Value() == c.(sendOffset := c.sendOffset + n, wire := c.wire + c.sendBuf[c.sendOffset..c.sendOffset + n])
    {
      wire := wire + sendBuf[sendOffset..sendOffset + n];
      sendOffset := sendOffset + n;
    }

    method BeginReading()
      modifies this`phase, this`sendBuf, this`sendOffset
      ensures Value() == old(Value()).(phase := Reading, sendBuf := [], sendOffset := 0)
    {
      phase := Reading;
      sendBuf := [];
      sendOffset := 0;
    }
  }

  class ServerObject {
    var connections: ConnNode?
    var connCount: int
    const maxConnections: nat
    var running: bool
    var listenFd: Option<nat>
    var totalConnections: nat
    const loop: Epoll.EpollRegistry
    /** The connections that the data of registrations point to. */
    var objects: map<nat, ConnNode>

    ghost var nodes: seq<ConnNode>
    ghost var contents: seq<Conn>
    ghost var closed: seq<Conn>
    ghost var repr: set<ConnNode>

    ghost function NodeAt(i: nat): ConnNode?
      requires i <= |nodes|
      reads this`nodes
    {
      if i < |nodes| then nodes[i] else null
    }

    ghost predicate Linked()
      reads this`nodes, this`repr, this`connections, repr`next
    {
      && (forall i :: 0 <= i < |nodes| ==> nodes[i] in repr)
      && (forall i, j :: 0 <= i < j < |nodes| ==> nodes[i] != nodes[j])
      && connections == NodeAt(0)
      && forall i :: 0 <= i < |nodes| ==> nodes[i].next == NodeAt(i + 1)
    }

    ghost predicate Recorded()
      reads this`nodes, this`contents, this`repr, repr
    {
      && |contents| == |nodes|
      && forall i :: 0 <= i < |nodes| ==> nodes[i] in repr && nodes[i].Value() == contents[i]
    }

    /** The data that a listed connection is registered with leads to it. */
    ghost predicate Pointed()
      reads this`nodes, this`objects, this`totalConnections
    {
      forall i :: 0 <= i < |nodes| ==>
        nodes[i].id < totalConnections && nodes[i].id in objects && objects[nodes[i].id] == nodes[i]
    }

    ghost predicate Valid()
      reads this, repr, loop, loop.list, loop.list.repr
    {
      Linked() && Recorded() && Pointed() && loop.Valid()
    }

    ghost function Abs(): Server
      reads this, loop, loop.list
    {
      Server(contents, connCount, maxConnections, running, listenFd, loop.Abs(), totalConnections, closed)
    }

    constructor (maxConnections: nat)
      ensures Valid() && fresh(loop) && fresh(loop.list) && loop.list.repr == {} && repr == {}
      ensures Abs() == InitialServer(maxConnections)
    {
      this.maxConnections := maxConnections;
      connections, connCount, running, listenFd, totalConnections, objects := null, 0, false, None, 0, map[];
      loop := new Epoll.EpollRegistry();
      nodes, contents, closed, repr := [], [], [], {};
    }

    /** Deletes a descriptor from the loop. */
    method Deregister(fd: nat)
      requires Valid()
      modifies loop, loop.list, loop.list.repr
      ensures Valid() && loop.list.repr == old(loop.list.repr)
      ensures loop.Abs() == old(Epoll.Apply(loop.Abs(), DelFd(fd)))
    {
      hide Linked, Recorded, Pointed, Epoll.EpollRegistry.Valid, Epoll.Apply, Epoll.Result;
      var _ := loop.DelHandler(fd, Epoll.Env(true, true));
    }

    /** The connection before one in the list, if any. */
    method Predecessor(conn: ConnNode, ghost i: nat) returns (prev: ConnNode?)
      requires Linked() && i < |nodes| && nodes[i] == conn
      ensures if i == 0 then prev == null else prev == nodes[i - 1]
    {
      prev := null;
      var p := connections;
      ghost var k := 0;
      while p != null && p != conn
        invariant k <= i && p == NodeAt(k)
        invariant if k == 0 then prev == null else prev == nodes[k - 1]
        decreases i - k
      {
        prev := p;
        p := p.next;
        k := k + 1;
      }
    }

    /** Sets the pointer that leads to a connection past it. */
    method Relink(prev: ConnNode?, conn: ConnNode, ghost i: nat)
      requires Linked() && i < |nodes| && nodes[i] == conn
      requires if i == 0 then prev == null else prev == nodes[i - 1]
      modifies this`connections, this`nodes, repr`next
      ensures Linked() && nodes == old(RemoveAt(nodes, i))
    {
      hide RemoveAt;
      if prev == null {
        connections := conn.next;
      } else {
        prev.next := conn.next;
      }
      nodes := RemoveAt(nodes, i);
    }

    method Unlink(conn: ConnNode, ghost i: nat)
      requires Linked() && Recorded() && i < |nodes| && nodes[i] == conn
      modifies this`connections, this`nodes, this`contents, repr`next
      ensures Linked() && Recorded()
      ensures nodes == old(RemoveAt(nodes, i)) && contents == old(RemoveAt(contents, i))
    {
      hide RemoveAt, Linked;
      var prev := Predecessor(conn, i);
      Relink(prev, conn, i);
      contents := RemoveAt(contents, i);
    }

    method CloseConnection(conn: ConnNode, ghost i: nat)
      requires Valid() && i < |nodes| && nodes[i] == conn && i < |contents|
      modifies this, repr, loop, loop.list, loop.list.repr
      ensures Valid() && repr == old(repr) && loop.list.repr == old(loop.list.repr)
      ensures nodes == old(RemoveAt(nodes, i)) && i <= |nodes| == |contents|
      ensures Abs() == old(Close(Abs(), i))
    {
      hide Linked, RemoveAt, Epoll.EpollRegistry.Valid, Epoll.EpollRegistry.Abs, Epoll.Apply;
      Deregister(conn.fd);
      closed := closed + [contents[i]];
      Unlink(conn, i);
      connCount := connCount - 1;
    }

    /** Links a new connection in at the head. */
    method LinkHead(conn: ConnNode)
      requires Linked() && conn !in repr
      modifies this`connections, this`nodes, this`repr, conn`next
      ensures Linked() && repr == old(repr) + {conn} && nodes == [conn] + old(nodes)
    {
      conn.next := connections;
      connections := conn;
      ghost var was := nodes;
      nodes, repr := [conn] + nodes, repr + {conn};
      forall i | 1 <= i < |nodes|
        ensures nodes[i] == was[i - 1] && nodes[i] != conn && nodes[i].next == NodeAt(i + 1)
      {
      }
    }

    method Insert(conn: ConnNode)
      requires Linked() && Recorded() && conn !in repr
      modifies this`connections, this`nodes, this`contents, this`repr, conn`next
      ensures Linked() && Recorded() && repr == old(repr) + {conn}
      ensures nodes == [conn] + old(nodes) && contents == [old(conn.Value())] + old(contents)
    {
      hide Linked, ConnNode.Value;
      LinkHead(conn);
      contents := [conn.Value()] + contents;
      assert forall i :: 1 <= i < |nodes| ==> nodes[i] == old(nodes)[i - 1] && contents[i] == old(contents)[i - 1];
    }

    method CreateConnection(fd: nat, now: int) returns (conn: ConnNode)
      requires Valid()
      modifies this
      ensures Valid() && fresh(repr - old(repr)) && conn.fd == fd && conn.id == old(totalConnections)
      ensures nodes == [conn] + old(nodes)
      ensures Abs() == old(Admit(Abs(), fd, now))
    {
      hide Linked, Recorded, ConnNode.Value, Epoll.EpollRegistry.Valid, Epoll.EpollRegistry.Abs;
      conn := new ConnNode(totalConnections, fd, now);
      ghost var was := nodes;
      Insert(conn);
      objects := objects[conn.id := conn];
      connCount := connCount + 1;
      totalConnections := totalConnections + 1;
      assert forall i :: 1 <= i < |nodes| ==> nodes[i] == was[i - 1];
    }

    /** Setting the pointer past a closed connection once more changes nothing. */
    method SetAgain(prev: ConnNode?, next: ConnNode?, ghost i: nat)
      requires Linked() && i <= |nodes| && next == NodeAt(i)
      requires if i == 0 then prev == null else prev == nodes[i - 1]
      modifies this`connections, repr`next
      ensures Linked() && connections == old(connections)
      ensures forall n :: n in repr ==> n.next == old(n.next)
    {
      if prev != null {
        prev.next := next;
      } else {
        connections := next;
      }
    }

    /** The node at a position, its successor and its value. */
    lemma Look(i: nat)
      requires Valid() && i <= |nodes|
      ensures |contents| == |nodes| && connections == NodeAt(0)
      ensures i < |nodes| ==> nodes[i] in repr && nodes[i].next == NodeAt(i + 1) && nodes[i].Value() == contents[i]
    {
    }

    /**
      The idle sweep. Closing a connection has unlinked it already; the sweep then sets the same
      pointer again, to the connection it saved before.
     */
    method CheckAndCloseIdle(now: int)
      requires Valid()
      modifies this, repr, loop, loop.list, loop.list.repr
      ensures Valid() && repr == old(repr) && loop.list.repr == old(loop.list.repr)
      ensures Abs() == old(SweepFrom(Abs(), 0, now))
    {
      hide Linked, Recorded, Pointed, Close, Epoll.EpollRegistry.Valid, Epoll.EpollRegistry.Abs;
      var conn := connections;
      var prev: ConnNode? := null;
      ghost var i := 0;
      Look(0);
      while conn != null
        invariant Valid() && repr == old(repr) && loop.list.repr == old(loop.list.repr)
        invariant i <= |nodes| == |contents| && conn == NodeAt(i)
        invariant if i == 0 then prev == null else prev == nodes[i - 1]
        invariant old(SweepFrom(Abs(), 0, now)) == SweepFrom(Abs(), i, now)
        decreases |nodes| - i
      {
        Look(i);
        var next := conn.next;
        if (now - conn.lastActivity) * 1000 > IDLE_LIMIT_MS {
          CloseConnection(conn, i);
          SetAgain(prev, next, i);
          conn := next;
        } else {
          prev := conn;
          conn := next;
          i := i + 1;
        }
      }
    }

    /** One accepted socket. */
    method Accept(now: int, a: AcceptResult)
      requires Valid()
      modifies this, repr, loop, loop.list, loop.list.repr
      ensures Valid() && fresh(repr - old(repr)) && fresh(loop.list.repr - old(loop.list.repr))
      ensures Abs() == old(AcceptOne(Abs(), now, a))
    {
      hide Linked, Recorded, Pointed, Close, RemoveAt, Epoll.EpollRegistry.Valid, Epoll.Apply, Epoll.AddSucceeds;
      if a.AcceptError? {
        return;
      }
      if !a.nonblocking {
        return;
      }
      if !a.memory {
        return;
      }
      var conn := CreateConnection(a.fd, now);
      var r := loop.AddHandler(a.fd, READ, Some(ConnectionTarget(conn.id)), Epoll.Env(a.entryMemory, true));
      if r < 0 {
        CloseConnection(conn, 0);
      }
    }

    /** The listening socket is ready: sweep, then accept until the socket or the limit says stop. */
    method ListenHandler(now: int, accepts: seq<AcceptResult>)
      requires Valid()
      modifies this, repr, loop, loop.list, loop.list.repr
      ensures Valid() && fresh(repr - old(repr)) && fresh(loop.list.repr - old(loop.list.repr))
      ensures Abs() == old(AcceptAll(SweepFrom(Abs(), 0, now), now, accepts))
    {
      hide Linked, Recorded, Pointed, SweepFrom, AcceptOne, Epoll.EpollRegistry.Valid;
      CheckAndCloseIdle(now);
      ghost var swept := Abs();
      assert accepts[0..] == accepts;
      var j := 0;
      while running && connCount < maxConnections
        invariant Valid() && fresh(repr - old(repr)) && fresh(loop.list.repr - old(loop.list.repr))
        invariant j <= |accepts|
        invariant AcceptAll(swept, now, accepts) == AcceptAll(Abs(), now, accepts[j..])
        decreases |accepts| - j
      {
        if j == |accepts| {
          break;
        }
        assert accepts[j..][0] == accepts[j] && accepts[j..][1..] == accepts[j + 1..];
        Accept(now, accepts[j]);
        j := j + 1;
      }
    }

    /** Changes what the loop watches a connection for. */
    method Watch(fd: nat, events: Events)
      requires Valid()
      modifies loop, loop.list, loop.list.repr
      ensures Valid() && loop.list.repr == old(loop.list.repr)
      ensures loop.Abs() == old(Epoll.Apply(loop.Abs(), ModFd(fd, events)))
    {
      hide Linked, Recorded, Pointed, Epoll.EpollRegistry.Valid, Epoll.Apply, Epoll.Result;
      var _ := loop.ModHandler(fd, events, Epoll.Env(true, true));
    }

    // ----- a connection's fields, and the list they are recorded in

    /** No other position of the list holds the connection. */
    lemma HeldOnce(conn: ConnNode, i: nat)
      requires Linked() && i < |nodes| && nodes[i] == conn
      ensures forall k :: 0 <= k < |nodes| && k != i ==> nodes[k] != conn
    {
    }

    lemma Fields(conn: ConnNode)
      ensures var c := conn.Value();
              c.sendOffset == conn.sendOffset && c.sendBuf == conn.sendBuf && c.keepAlive == conn.keepAlive
    {
    }

    method Touch(conn: ConnNode, ghost i: nat, now: int)
      requires Linked() && Recorded() && i < |nodes| && nodes[i] == conn
      modifies this`contents, conn`lastActivity
      ensures Recorded() && contents == old(contents[i := contents[i].(lastActivity := now)])
    {
      hide ConnNode.Value, Linked;
      HeldOnce(conn, i);
      conn.Touch(now);
      contents := contents[i := conn.Value()];
    }

    method StartProcessing(conn: ConnNode, ghost i: nat, keepAliveHeader: bool)
      requires Linked() && Recorded() && i < |nodes| && nodes[i] == conn
      modifies this`contents, conn`keepAlive, conn`phase
      ensures Recorded()
      ensures var c := old(contents)[i];
              contents == old(contents)[i := c.(keepAlive := c.keepAlive || keepAliveHeader, phase := Processing)]
    {
      hide ConnNode.Value, Linked;
      HeldOnce(conn, i);
      Fields(conn);
      conn.BeginProcessing(keepAliveHeader);
      contents := contents[i := conn.Value()];
    }

    method StartWriting(conn: ConnNode, ghost i: nat, response: string)
      requires Linked() && Recorded() && i < |nodes| && nodes[i] == conn
      modifies this`contents, conn`phase, conn`sendBuf, conn`sendOffset, conn`built
      ensures Recorded()
      ensures var c := old(contents)[i];
              contents == old(contents)[i := c.(phase := Writing, sendBuf := response, sendOffset := 0,
                                                built := c.built + response)]
    {
      hide ConnNode.Value, Linked;
      HeldOnce(conn, i);
      conn.BeginWriting(response);
      contents := contents[i := conn.Value()];
    }

    method Advance(conn: ConnNode, ghost i: nat, n: nat)
      requires Linked() && Recorded() && i < |nodes| && nodes[i] == conn
      requires conn.sendOffset + n <= |conn.sendBuf|
      modifies this`contents, conn`sendOffset, conn`wire
      ensures Recorded()
      ensures var c := old(contents)[i];
              contents == old(contents)[i := c.(sendOffset := c.sendOffset + n,
                                                wire := c.wire + c.sendBuf[c.sendOffset..c.sendOffset + n])]
    {
      hide ConnNode.Value, Linked;
      HeldOnce(conn, i);
      Fields(conn);
      conn.Advance(n);
      contents := contents[i := conn.Value()];
    }

    method StartReading(conn: ConnNode, ghost i: nat)
      requires Linked() && Recorded() && i < |nodes| && nodes[i] == conn
      modifies this`contents, conn`phase, conn`sendBuf, conn`sendOffset
      ensures Recorded()
      ensures contents == old(contents[i := contents[i].(phase := Reading, sendBuf := [], sendOffset := 0)])
    {
      hide ConnNode.Value, Linked;
      HeldOnce(conn, i);
      conn.BeginReading();
      contents := contents[i := conn.Value()];
    }

    // ----- the handlers

    /** Puts a response into the send buffer of a connection and waits for the socket to take it. */
    method SendResponse(conn: ConnNode, ghost i: nat, response: Response)
      requires Valid() && i < |nodes| == |contents| && nodes[i] == conn
      modifies this`contents, repr, loop, loop.list, loop.list.repr
      ensures Valid() && loop.list.repr == old(loop.list.repr) && |nodes| == |contents|
      ensures Abs() == old(Respond(Abs(), i, response))
    {
      hide Linked, Recorded, Pointed, Epoll.EpollRegistry.Valid, Epoll.EpollRegistry.Abs, Epoll.Apply, BuildResponse;
      Look(i);
      var b := BuildResponse(response, conn.keepAlive);
      if b.None? {
        return;
      }
      StartWriting(conn, i, b.value);
      Watch(conn.fd, WRITE);
    }

    /** What the handler of the request does, once reading has been tried. */
    method HandleRead(conn: ConnNode, ghost i: nat, read: ReadResult)
      requires Valid() && i < |nodes| == |contents| && nodes[i] == conn
      modifies this, repr, loop, loop.list, loop.list.repr
      ensures Valid() && repr == old(repr) && loop.list.repr == old(loop.list.repr)
      ensures Abs() == old(OnRead(Abs(), i, read))
    {
      hide Linked, Recorded, Pointed, Epoll.EpollRegistry.Valid, Epoll.EpollRegistry.Abs, Epoll.Apply, Respond, Close;
      match read {
        case ReadFailed =>
          CloseConnection(conn, i);
        case Incomplete =>
        case Complete(keepAliveHeader, response) =>
          Look(i);
          StartProcessing(conn, i, keepAliveHeader);
          if response.Some? {
            SendResponse(conn, i, response.value);
          }
      }
    }

    /** Offers the rest of the send buffer to send: 0 if all of it is sent now, 1 if not, -1 on failure. */
    method WriteResponse(conn: ConnNode, ghost i: nat, send: SendResult) returns (result: int)
      requires Valid() && i < |nodes| == |contents| && nodes[i] == conn && SendFits(contents[i], send)
      modifies this`contents, repr
      ensures Valid() && |nodes| == |contents|
      ensures result == -1 || result == 0 || result == 1
      ensures result == -1 <==> send.SendFailed? || send == Took(0)
      ensures send.Took? && send.n > 0 ==>
                var c := old(contents[i]);
                var end := c.sendOffset + send.n;
                && contents == old(contents)[i := c.(sendOffset := end, wire := c.wire + c.sendBuf[c.sendOffset..end])]
                && (result == 0 <==> end >= |c.sendBuf|)
      ensures !(send.Took? && send.n > 0) ==> contents == old(contents) && result != 0
    {
      hide Linked, Recorded, Pointed, Epoll.EpollRegistry.Valid, Epoll.EpollRegistry.Abs;
      Look(i);
      match send {
        case SendFailed => return -1;
        case WouldBlock => return 1;
        case Took(n) =>
          if n == 0 {
            return -1;
          }
          Advance(conn, i, n);
          Look(i);
          return if conn.sendOffset >= |conn.sendBuf| then 0 else 1;
      }
    }

    method HandleWrite(conn: ConnNode, ghost i: nat, send: SendResult)
      requires Valid() && i < |nodes| == |contents| && nodes[i] == conn && SendFits(contents[i], send)
      modifies this, repr, loop, loop.list, loop.list.repr
      ensures Valid() && repr == old(repr) && loop.list.repr == old(loop.list.repr)
      ensures Abs() == old(OnWrite(Abs(), i, send))
    {
      hide Linked, Recorded, Pointed, Epoll.EpollRegistry.Valid, Epoll.EpollRegistry.Abs, Epoll.Apply, Close;
      var result := WriteResponse(conn, i, send);
      if result < 0 {
        CloseConnection(conn, i);
      } else if result == 0 {
        Look(i);
        if conn.keepAlive {
          StartReading(conn, i);
          Watch(conn.fd, READ);
        } else {
          CloseConnection(conn, i);
        }
      }
    }

    /** A connection is ready: errors end it, otherwise its state says whether to read or to write. */
    method ConnectionHandler(conn: ConnNode, ghost i: nat, events: Events, now: int, read: ReadResult, send: SendResult)
      requires Valid() && i < |nodes| == |contents| && nodes[i] == conn && SendFits(contents[i], send)
      modifies this, repr, loop, loop.list, loop.list.repr
      ensures Valid() && repr == old(repr) && loop.list.repr == old(loop.list.repr)
      ensures Abs() == old(OnConnection(Abs(), i, events, now, read, send))
    {
      hide Linked, Recorded, Pointed, Epoll.EpollRegistry.Valid, Epoll.EpollRegistry.Abs, OnRead, OnWrite, Close;
      Look(i);
      Touch(conn, i, now);
      if events.error {
        CloseConnection(conn, i);
        return;
      }
      match conn.phase {
        case Reading =>
          if events.read {
            HandleRead(conn, i, read);
          }
        case Processing =>
        case Writing =>
          if events.write {
            HandleWrite(conn, i, send);
          }
      }
    }

    // ----- starting and stopping

    method Listen(fd: nat, entryMemory: bool) returns (r: int)
      requires Valid()
      modifies this`running, this`listenFd, loop, loop.list
      ensures Valid() && fresh(loop.list.repr - old(loop.list.repr))
      ensures Abs() == old(StartListening(Abs(), fd, entryMemory)) && (r == 0 <==> running)
    {
      hide Linked, Recorded, Pointed, Epoll.EpollRegistry.Valid, Epoll.EpollRegistry.Abs, Epoll.AddSucceeds;
      listenFd := Some(fd);
      running := true;
      r := loop.AddHandler(fd, READ, Some(LISTEN_TARGET), Epoll.Env(entryMemory, true));
      if r < 0 {
        listenFd := None;
        running := false;
        return -1;
      }
      return 0;
    }

    /** Stops listening and closes every connection, taking the next one before each is closed. */
    method Stop()
      requires Valid()
      modifies this, repr, loop, loop.list, loop.list.repr
      ensures Valid() && repr == old(repr) && loop.list.repr == old(loop.list.repr)
      ensures Abs() == old(StopServer(Abs()))
    {
      hide Linked, Recorded, Pointed, Epoll.EpollRegistry.Valid, Epoll.EpollRegistry.Abs, Epoll.Apply, Close;
      if !running {
        return;
      }
      running := false;
      if listenFd.Some? {
        Deregister(listenFd.value);
        listenFd := None;
      }
      var conn := connections;
      Look(0);
      while conn != null
        invariant Valid() && repr == old(repr) && loop.list.repr == old(loop.list.repr)
        invariant |nodes| == |contents| && conn == NodeAt(0)
        invariant old(StopServer(Abs())) == CloseAll(Abs())
        decreases |nodes|
      {
        Look(0);
        var next := conn.next;
        CloseConnection(conn, 0);
        conn := next;
      }
    }

    // ----- dispatch

    lemma PointedTo(i: nat)
      requires Valid() && i < |nodes|
      ensures |contents| == |nodes| && contents[i].id in objects && objects[contents[i].id] == nodes[i]
    {
    }

    /** The data of a registration is followed to the connection it points to, which is still listed. */
    method Follow(fd: nat, data: nat) returns (conn: ConnNode, ghost i: nat)
      requires Valid() && Inv(Abs()) && fd in loop.Abs().handlers
      requires loop.Abs().handlers[fd].target == Target(CONNECTION_CALLBACK, data)
      ensures i == ConnPosition(contents, data) < |nodes| == |contents| && nodes[i] == conn && conn.fd == fd
    {
      hide Linked, Recorded, Pointed, Epoll.EpollRegistry.Valid, Epoll.EpollRegistry.Abs, Inv;
      DispatchDataIsLive(Abs(), fd);
      i := ConnPosition(contents, data);
      Look(0);
      Look(i);
      PointedTo(i);
      conn := objects[data];
      assert conn.Value() == contents[i];
    }

    /** A call, or one ready descriptor: what the registry holds for it says which handler runs, and on what. */
    method Dispatch(e: Event)
      requires Valid() && Inv(Abs()) && Feasible(Abs(), e)
      modifies this, repr, loop, loop.list, loop.list.repr
      ensures Valid() && fresh(repr - old(repr)) && fresh(loop.list.repr - old(loop.list.repr))
      ensures Inv(Abs()) && Abs() == old(Step(Abs(), e))
    {
      hide Linked, Recorded, Pointed, Epoll.EpollRegistry.Valid, Epoll.EpollRegistry.Abs, Inv;
      hide StartListening, StopServer, AcceptAll, SweepFrom, OnConnection;
      StepKeepsInv(Abs(), e);
      match e {
        case Listen(fd, entryMemory) =>
          var _ := Listen(fd, entryMemory);
        case Stop =>
          Stop();
        case ListenReady(now, accepts) =>
          if listenFd.Some? {
            InvListens(Abs());
            var target := loop.TargetOf(listenFd.value);
            if target == Some(LISTEN_TARGET) {
              ListenHandler(now, accepts);
            }
          }
        case ConnReady(fd, events, now, read, send) =>
          var target := loop.TargetOf(fd);
          if target.Some? && target.value.callback == CONNECTION_CALLBACK {
            var conn, i := Follow(fd, target.value.data);
            Look(i);
            assert contents[i] == conn.Value();
            ConnectionHandler(conn, i, events, now, read, send);
          }
      }
    }

    /** Any schedule of calls and ready descriptors, in batches of any size. */
    method Run(events: seq<Event>)
      requires Valid() && Inv(Abs()) && AllFeasible(Abs(), events)
      modifies this, repr, loop, loop.list, loop.list.repr
      ensures Valid() && fresh(repr - old(repr)) && fresh(loop.list.repr - old(loop.list.repr))
      ensures Inv(Abs()) && Abs() == old(StepAll(Abs(), events))
    {
      hide ServerObject.Valid, ServerObject.Abs, Inv, Feasible, Step;
      ghost var start := Abs();
      assert events[0..] == events;
      for k := 0 to |events|
        invariant Valid() && fresh(repr - old(repr)) && fresh(loop.list.repr - old(loop.list.repr))
        invariant Inv(Abs()) && AllFeasible(Abs(), events[k..])
        invariant StepAll(start, events) == StepAll(Abs(), events[k..])
      {
        assert events[k..][0] == events[k] && events[k..][1..] == events[k + 1..];
        Dispatch(events[k]);
      }
    }
  }
}
