/**
  The connection machine of src/async/server.c over the epoll registry, with TLS off and system
  calls on the registry succeeding: accepting, reading, writing, closing, the idle sweep and stop,
  as steps on a state. `built` and `wire` record, for each connection, the response bytes put into
  its send buffer and the bytes that send accepted.
 */
module AsyncServer {
  import Epoll
  import opened Handlers
  import opened Sequences
  import opened Text
  import opened Wrappers

  const SEND_BUFFER_SIZE: nat := 65536
  const IDLE_LIMIT_MS: int := 10000

  /** The two callbacks the server registers; a connection is the data of its registration. */
  const LISTEN_CALLBACK: nat := 0
  const CONNECTION_CALLBACK: nat := 1

  const READ: Events := Events(true, false, false)
  const WRITE: Events := Events(false, true, false)

  /** The states a connection takes without TLS. */
  datatype Phase = Reading | Processing | Writing

  datatype Conn = Conn(
    id: nat, fd: nat, phase: Phase,
    sendBuf: string, sendOffset: nat,
    keepAlive: bool, lastActivity: int,
    built: string, wire: string)

  datatype Server = Server(
    conns: seq<Conn>, connCount: int, maxConnections: nat,
    running: bool, listenFd: Option<nat>,
    loop: Epoll.Loop, totalConnections: nat,
    closed: seq<Conn>)

  // ----- the surroundings of a step

  /** What a handler asks to be sent. */
  datatype Response = Response(status: int, contentType: string, body: string)

  datatype ReadResult = ReadFailed | Incomplete | Complete(keepAliveHeader: bool, response: Option<Response>)

  /** What send does: it takes some bytes, would block, or fails. */
  datatype SendResult = Took(n: nat) | WouldBlock | SendFailed

  /** What accept does, and whether the socket can be set up. */
  datatype AcceptResult = AcceptError | Accepted(fd: nat, nonblocking: bool, memory: bool, entryMemory: bool)

  datatype Event =
    | Listen(fd: nat, entryMemory: bool)
    | Stop
    | ListenReady(now: int, accepts: seq<AcceptResult>)
    | ConnReady(fd: nat, events: Events, now: int, read: ReadResult, send: SendResult)

  // ----- responses

  function ResponseHead(r: Response, keepAlive: bool): string {
    "HTTP/1.1 " + SignedDecimal(r.status) + " OK\r\nContent-Type: " + r.contentType
    + "\r\nContent-Length: " + Decimal(|r.body|) + "\r\n"
    + (if keepAlive then "Connection: keep-alive\r\n" else "Connection: close\r\n") + CRLF
  }

  /** The response as it is put into the send buffer: nothing if the head fills it, else cut to its size. */
  function BuildResponse(r: Response, keepAlive: bool): (b: Option<string>)
    ensures b.Some? ==> 0 < |b.value| <= SEND_BUFFER_SIZE
  {
    var head := ResponseHead(r, keepAlive);
    if |head| >= SEND_BUFFER_SIZE then None
    else
      var available := SEND_BUFFER_SIZE - |head|;
      Some(head + if |r.body| > available then r.body[..available] else r.body)
  }

  // ----- the registry

  function AddFd(fd: nat, target: Target, memory: bool): Epoll.Op {
    Epoll.Add(fd, READ, Some(target), Epoll.Env(memory, true))
  }

  function ModFd(fd: nat, events: Events): Epoll.Op {
    Epoll.Mod(fd, events, Epoll.Env(true, true))
  }

  function DelFd(fd: nat): Epoll.Op {
    Epoll.Del(fd, Epoll.Env(true, true))
  }

  // ----- steps

  /** Closes the connection at a position of the list. */
  function Close(s: Server, i: nat): Server
    requires i < |s.conns|
  {
    s.(conns := RemoveAt(s.conns, i),
       connCount := s.connCount - 1,
       loop := Epoll.Apply(s.loop, DelFd(s.conns[i].fd)),
       closed := s.closed + [s.conns[i]])
  }

  function IsIdle(c: Conn, now: int): bool {
    (now - c.lastActivity) * 1000 > IDLE_LIMIT_MS
  }

  /** The idle sweep from a position of the list on. */
  function SweepFrom(s: Server, i: nat, now: int): Server
    requires i <= |s.conns|
    decreases |s.conns| - i
  {
    if i == |s.conns| then s
    else if IsIdle(s.conns[i], now) then SweepFrom(Close(s, i), i, now)
    else SweepFrom(s, i + 1, now)
  }

  function CloseAll(s: Server): Server
    decreases |s.conns|
  {
    if s.conns == [] then s else CloseAll(Close(s, 0))
  }

  /** A new connection, at the head of the list and registered for reading. */
  function Admit(s: Server, fd: nat, now: int): Server {
    var c := Conn(s.totalConnections, fd, Reading, [], 0, false, now, [], []);
    s.(conns := [c] + s.conns, connCount := s.connCount + 1, totalConnections := s.totalConnections + 1)
  }

  function ConnectionTarget(id: nat): Target {
    Target(CONNECTION_CALLBACK, id)
  }

  const LISTEN_TARGET: Target := Target(LISTEN_CALLBACK, 0)

  /** One accepted socket: a connection, unless something on the way to its registration fails. */
  function AcceptOne(s: Server, now: int, a: AcceptResult): Server {
    if a.AcceptError? || !a.nonblocking || !a.memory then s
    else
      var op := AddFd(a.fd, ConnectionTarget(s.totalConnections), a.entryMemory);
      var admitted := Admit(s, a.fd, now).(loop := Epoll.Apply(s.loop, op));
      if Epoll.AddSucceeds(s.loop, op) then admitted else Close(admitted, 0)
  }

  /** The accept loop: until accept would block, the server is full, or it has been stopped. */
  function AcceptAll(s: Server, now: int, accepts: seq<AcceptResult>): Server
    decreases |accepts|
  {
    if accepts == [] || !s.running || s.connCount >= s.maxConnections then s
    else AcceptAll(AcceptOne(s, now, accepts[0]), now, accepts[1..])
  }

  function SetConn(s: Server, i: nat, c: Conn): Server
    requires i < |s.conns|
  {
    s.(conns := s.conns[i := c])
  }

  /** A response is put into the send buffer and the connection waits for the socket to take it. */
  function Respond(s: Server, i: nat, r: Response): Server
    requires i < |s.conns|
  {
    var c := s.conns[i];
    var b := BuildResponse(r, c.keepAlive);
    if b.None? then s
    else
      SetConn(s, i, c.(phase := Writing, sendBuf := b.value, sendOffset := 0, built := c.built + b.value))
      .(loop := Epoll.Apply(s.loop, ModFd(c.fd, WRITE)))
  }

  function OnRead(s: Server, i: nat, read: ReadResult): Server
    requires i < |s.conns|
  {
    match read
    case ReadFailed => Close(s, i)
    case Incomplete => s
    case Complete(keepAliveHeader, response) =>
      var c := s.conns[i];
      var processing := SetConn(s, i, c.(keepAlive := c.keepAlive || keepAliveHeader, phase := Processing));
      if response.None? then processing else Respond(processing, i, response.value)
  }

  /** A response sent in full makes the connection read again, or ends it. */
  function Finish(s: Server, i: nat): Server
    requires i < |s.conns|
  {
    var c := s.conns[i];
    if c.keepAlive then
      SetConn(s, i, c.(phase := Reading, sendBuf := [], sendOffset := 0))
      .(loop := Epoll.Apply(s.loop, ModFd(c.fd, READ)))
    else Close(s, i)
  }

  function OnWrite(s: Server, i: nat, send: SendResult): Server
    requires i < |s.conns| && s.conns[i].sendOffset <= |s.conns[i].sendBuf|
    requires send.Took? ==> send.n <= |s.conns[i].sendBuf| - s.conns[i].sendOffset
  {
    match send
    case SendFailed => Close(s, i)
    case WouldBlock => s
    case Took(n) =>
      if n == 0 then Close(s, i)
      else
        var c := s.conns[i];
        var end := c.sendOffset + n;
        var sent := SetConn(s, i, c.(sendOffset := end, wire := c.wire + c.sendBuf[c.sendOffset..end]));
        if end >= |c.sendBuf| then Finish(sent, i) else sent
  }

  /** send never takes more than it is offered. */
  predicate SendFits(c: Conn, send: SendResult) {
    c.sendOffset <= |c.sendBuf| && (send.Took? ==> send.n <= |c.sendBuf| - c.sendOffset)
  }

  function OnConnection(s: Server, i: nat, events: Events, now: int, read: ReadResult, send: SendResult): Server
    requires i < |s.conns| && SendFits(s.conns[i], send)
  {
    var c := s.conns[i];
    var active := SetConn(s, i, c.(lastActivity := now));
    if events.error then Close(active, i)
    else if c.phase == Reading && events.read then OnRead(active, i, read)
    else if c.phase == Writing && events.write then OnWrite(active, i, send)
    else active
  }

  /** The position of the connection with an id, or the length. */
  function ConnPosition(conns: seq<Conn>, id: nat): (k: nat)
    ensures k <= |conns| && (k < |conns| ==> conns[k].id == id)
    ensures forall i :: 0 <= i < k ==> conns[i].id != id
  {
    if conns == [] || conns[0].id == id then 0 else 1 + ConnPosition(conns[1..], id)
  }

  function StartListening(s: Server, fd: nat, memory: bool): Server {
    var op := AddFd(fd, LISTEN_TARGET, memory);
    if Epoll.AddSucceeds(s.loop, op)
    then s.(running := true, listenFd := Some(fd), loop := Epoll.Apply(s.loop, op))
    else s.(running := false, listenFd := None)
  }

  function StopServer(s: Server): Server {
    if !s.running then s
    else
      var l := if s.listenFd.Some? then Epoll.Apply(s.loop, DelFd(s.listenFd.value)) else s.loop;
      CloseAll(s.(running := false, listenFd := None, loop := l))
  }

  // ----- what every step keeps

  function EventsOf(c: Conn): Events {
    if c.phase == Writing then WRITE else READ
  }

  function HandlerOf(c: Conn): Handler {
    Handler(c.fd, Registration(EventsOf(c), ConnectionTarget(c.id)))
  }

  function HandlersOf(conns: seq<Conn>): (hs: seq<Handler>)
    ensures |hs| == |conns|
  {
    seq(|conns|, i requires 0 <= i < |conns| => HandlerOf(conns[i]))
  }

  /** What ought to be registered: every connection for what it waits for, and the listening socket. */
  function Expected(s: Server): seq<Handler> {
    HandlersOf(s.conns)
    + if s.listenFd.Some? then [Handler(s.listenFd.value, Registration(READ, LISTEN_TARGET))] else []
  }

  /** The registry holds exactly that, once each, and the kernel agrees. */
  ghost predicate RegistryMatches(s: Server) {
    UniqueFds(Expected(s)) && s.loop.handlers == AsMap(Expected(s)) && Epoll.Agrees(s.loop)
  }

  /** The bytes on the wire and the rest of the send buffer are the bytes built. */
  predicate ConservesBytes(c: Conn) {
    if c.phase == Writing
    then c.sendOffset < |c.sendBuf| <= SEND_BUFFER_SIZE && c.built == c.wire + c.sendBuf[c.sendOffset..]
    else c.sendOffset == 0 && c.wire == c.built
  }

  /** A closed connection has sent a beginning of what was built for it. */
  predicate SentPrefix(c: Conn) {
    c.wire <= c.built
  }

  function Ids(conns: seq<Conn>): seq<nat> {
    seq(|conns|, i requires 0 <= i < |conns| => conns[i].id)
  }

  /** Every connection ever created is either listed or closed, and is so once. */
  ghost predicate Census(s: Server) {
    multiset(Ids(s.conns)) + multiset(Ids(s.closed)) == multiset(UpTo(s.totalConnections))
  }

  predicate NewestFirst(conns: seq<Conn>) {
    forall i, j :: 0 <= i < j < |conns| ==> conns[i].id > conns[j].id
  }

  ghost predicate Counted(s: Server) {
    && s.connCount == |s.conns| <= s.maxConnections
    && (s.running <==> s.listenFd.Some?)
    && NewestFirst(s.conns) && (s.conns != [] ==> s.conns[0].id < s.totalConnections)
  }

  ghost predicate Conserved(s: Server) {
    && (forall i :: 0 <= i < |s.conns| ==> ConservesBytes(s.conns[i]))
    && forall i :: 0 <= i < |s.closed| ==> SentPrefix(s.closed[i])
  }

  ghost predicate Inv(s: Server) {
    Counted(s) && Conserved(s) && RegistryMatches(s) && Census(s)
  }

  // ----- the registry through one change

  lemma ExpectedAfterRemoval(s: Server, i: nat)
    requires i < |s.conns|
    ensures Expected(s.(conns := RemoveAt(s.conns, i))) == RemoveAt(Expected(s), i)
  {
    hide RemoveAt, HandlerOf;
    var t := s.(conns := RemoveAt(s.conns, i));
    assert HandlersOf(t.conns) == RemoveAt(HandlersOf(s.conns), i);
    assert forall k :: 0 <= k < |Expected(t)| ==> Expected(t)[k] == RemoveAt(Expected(s), i)[k];
  }

  lemma ExpectedAfterUpdate(s: Server, i: nat, c: Conn)
    requires i < |s.conns|
    ensures Expected(SetConn(s, i, c)) == Expected(s)[i := HandlerOf(c)]
    ensures Expected(s)[i] == HandlerOf(s.conns[i])
  {
    hide HandlerOf;
    assert HandlersOf(s.conns[i := c]) == HandlersOf(s.conns)[i := HandlerOf(c)];
  }

  /** Deleting the descriptor of a listed connection leaves exactly the others. */
  lemma RegistryAfterClose(s: Server, i: nat)
    requires RegistryMatches(s) && i < |s.conns|
    ensures RegistryMatches(Close(s, i))
  {
    hide AsMap, RemoveAt, UniqueFds, Epoll.Agrees;
    var fd := s.conns[i].fd;
    ExpectedAfterRemoval(s, i);
    ExpectedAfterUpdate(s, i, s.conns[i]);
    AsMapAt(Expected(s), i);
    RemovalRemoves(Expected(s), i);
    Epoll.AgreementKeptIff(s.loop, DelFd(fd));
    KernelHas(s.loop, fd);
    assert Expected(Close(s, i)) == Expected(s.(conns := RemoveAt(s.conns, i)));
  }

  lemma KernelHas(l: Epoll.Loop, fd: nat)
    requires Epoll.Agrees(l)
    ensures fd in l.kernel <==> fd in l.handlers
  {
  }

  /** Changing what a connection waits for changes the registry to match. */
  lemma RegistryAfterUpdate(s: Server, i: nat, c: Conn)
    requires RegistryMatches(s) && i < |s.conns| && c.id == s.conns[i].id && c.fd == s.conns[i].fd
    ensures RegistryMatches(SetConn(s, i, c).(loop := Epoll.Apply(s.loop, ModFd(c.fd, EventsOf(c)))))
    ensures EventsOf(c) == EventsOf(s.conns[i]) ==> RegistryMatches(SetConn(s, i, c))
  {
    hide AsMap, UniqueFds, Epoll.Agrees;
    var op := ModFd(c.fd, EventsOf(c));
    var t := SetConn(s, i, c).(loop := Epoll.Apply(s.loop, op));
    ExpectedAfterUpdate(s, i, c);
    AsMapAt(Expected(s), i);
    UpdateUpdates(Expected(s), i, HandlerOf(c).registration);
    Epoll.AgreementKeptIff(s.loop, op);
    assert Expected(t) == Expected(SetConn(s, i, c));
    assert Expected(s)[i := Expected(s)[i]] == Expected(s);
  }

  lemma RegistryAfterAdmission(s: Server, fd: nat, now: int, memory: bool)
    requires RegistryMatches(s) && fd !in s.loop.handlers && memory
    ensures var op := AddFd(fd, ConnectionTarget(s.totalConnections), memory);
            Epoll.AddSucceeds(s.loop, op) && RegistryMatches(Admit(s, fd, now).(loop := Epoll.Apply(s.loop, op)))
  {
    hide AsMap, UniqueFds, Epoll.Agrees;
    var op := AddFd(fd, ConnectionTarget(s.totalConnections), memory);
    KernelHas(s.loop, fd);
    var t := Admit(s, fd, now).(loop := Epoll.Apply(s.loop, op));
    AdditionAdds(HandlerOf(t.conns[0]), Expected(s));
    Epoll.AgreementKeptIff(s.loop, op);
    ExpectedAfterAdmission(s, fd, now);
    assert Expected(t) == Expected(Admit(s, fd, now));
  }

  lemma ExpectedAfterAdmission(s: Server, fd: nat, now: int)
    ensures var t := Admit(s, fd, now); Expected(t) == [HandlerOf(t.conns[0])] + Expected(s)
  {
    hide HandlerOf;
    var t := Admit(s, fd, now);
    assert HandlersOf(t.conns) == [HandlerOf(t.conns[0])] + HandlersOf(s.conns);
  }

  // ----- the census

  lemma IdsAfterRemoval(conns: seq<Conn>, i: nat)
    requires i < |conns|
    ensures multiset(Ids(RemoveAt(conns, i))) + multiset{conns[i].id} == multiset(Ids(conns))
  {
    var ids := Ids(conns);
    assert Ids(RemoveAt(conns, i)) == ids[..i] + ids[i + 1..];
    assert ids == ids[..i] + [ids[i]] + ids[i + 1..];
  }

  lemma IdsAfterAppend(conns: seq<Conn>, c: Conn)
    ensures multiset(Ids(conns + [c])) == multiset(Ids(conns)) + multiset{c.id}
    ensures multiset(Ids([c] + conns)) == multiset(Ids(conns)) + multiset{c.id}
  {
    assert Ids(conns + [c]) == Ids(conns) + [c.id];
    assert Ids([c] + conns) == [c.id] + Ids(conns);
  }

  lemma CensusAfterAdmission(s: Server, fd: nat, now: int)
    requires Census(s)
    ensures Census(Admit(s, fd, now))
  {
    hide Ids, UpTo;
    UpToNext(s.totalConnections);
    IdsAfterAppend(s.conns, Admit(s, fd, now).conns[0]);
  }

  lemma CensusAfterRefusal(s: Server, c: Conn)
    requires Census(s) && c.id == s.totalConnections
    ensures Census(s.(totalConnections := s.totalConnections + 1, closed := s.closed + [c]))
  {
    hide Ids, UpTo;
    UpToNext(s.totalConnections);
    IdsAfterAppend(s.closed, c);
  }

  lemma CensusAfterClose(s: Server, i: nat, c: Conn)
    requires Census(s) && i < |s.conns| && c.id == s.conns[i].id
    ensures Census(Close(SetConn(s, i, c), i))
  {
    hide Ids, UpTo, Epoll.Apply, RemoveAt;
    RemovalForgets(s.conns, i, c);
    IdsAfterRemoval(s.conns, i);
    IdsAfterAppend(s.closed, c);
  }

  lemma SameCensus(s: Server, t: Server)
    requires Census(s) && s.conns == t.conns && s.closed == t.closed && s.totalConnections == t.totalConnections
    ensures Census(t)
  {
  }

  // ----- closing, updating and admitting keep everything

  lemma UpdateIsOrderly(s: Server, i: nat, c: Conn)
    requires i < |s.conns| && c.id == s.conns[i].id
    ensures Ids(SetConn(s, i, c).conns) == Ids(s.conns)
    ensures NewestFirst(s.conns) ==> NewestFirst(SetConn(s, i, c).conns)
  {
    var t := SetConn(s, i, c);
    assert forall k :: 0 <= k < |s.conns| ==> t.conns[k].id == s.conns[k].id;
    assert Ids(t.conns) == Ids(s.conns);
  }

  /** A connection may be replaced by one that conserves its bytes, once the registry follows. */
  lemma UpdateKeepsInv(s: Server, i: nat, c: Conn)
    requires Inv(s) && i < |s.conns| && c.id == s.conns[i].id && c.fd == s.conns[i].fd && ConservesBytes(c)
    ensures Inv(SetConn(s, i, c).(loop := Epoll.Apply(s.loop, ModFd(c.fd, EventsOf(c)))))
    ensures EventsOf(c) == EventsOf(s.conns[i]) ==> Inv(SetConn(s, i, c))
  {
    hide RegistryMatches, Epoll.Apply, NewestFirst, ConservesBytes, SentPrefix;
    RegistryAfterUpdate(s, i, c);
    UpdateIsOrderly(s, i, c);
  }

  /** A connection may be closed, whatever has just been sent of what was built for it. */
  lemma CloseKeepsInv(s: Server, i: nat, c: Conn)
    requires Inv(s) && i < |s.conns| && c.id == s.conns[i].id && c.fd == s.conns[i].fd && SentPrefix(c)
    ensures Inv(Close(SetConn(s, i, c), i))
  {
    hide RegistryMatches, Epoll.Apply, RemoveAt, ConservesBytes, SentPrefix;
    var t := Close(SetConn(s, i, c), i);
    RemovalForgets(s.conns, i, c);
    RegistryAfterClose(s, i);
    SameRegistry(Close(s, i), t);
    CensusAfterClose(s, i, c);
    hide Census;
    assert Counted(t) && Conserved(t);
  }

  lemma RemovalForgets(conns: seq<Conn>, i: nat, c: Conn)
    requires i < |conns|
    ensures RemoveAt(conns[i := c], i) == RemoveAt(conns, i)
  {
    assert conns[i := c][..i] == conns[..i] && conns[i := c][i + 1..] == conns[i + 1..];
  }

  lemma SameRegistry(s: Server, t: Server)
    requires RegistryMatches(s) && s.conns == t.conns && s.listenFd == t.listenFd && s.loop == t.loop
    ensures RegistryMatches(t)
  {
  }

  lemma PlainCloseKeepsInv(s: Server, i: nat)
    requires Inv(s) && i < |s.conns|
    ensures Inv(Close(s, i))
  {
    hide Inv;
    assert SentPrefix(s.conns[i]) by {
      InvConserves(s, i);
    }
    CloseKeepsInv(s, i, s.conns[i]);
    assert s.conns[i := s.conns[i]] == s.conns;
    assert SetConn(s, i, s.conns[i]) == s;
  }

  lemma InvConserves(s: Server, i: nat)
    requires Inv(s) && i < |s.conns|
    ensures ConservesBytes(s.conns[i])
  {
  }

  lemma {:induction false} SweepKeepsInv(s: Server, i: nat, now: int)
    requires Inv(s) && i <= |s.conns|
    ensures Inv(SweepFrom(s, i, now))
    decreases |s.conns| - i
  {
    hide Inv, Close;
    if i < |s.conns| {
      if IsIdle(s.conns[i], now) {
        CloseShortens(s, i);
        PlainCloseKeepsInv(s, i);
        SweepKeepsInv(Close(s, i), i, now);
      } else {
        SweepKeepsInv(s, i + 1, now);
      }
    }
  }

  lemma CloseShortens(s: Server, i: nat)
    requires i < |s.conns|
    ensures |Close(s, i).conns| == |s.conns| - 1
  {
  }

  lemma {:induction false} CloseAllKeepsInv(s: Server)
    requires Inv(s)
    ensures Inv(CloseAll(s)) && CloseAll(s).conns == []
    decreases |s.conns|
  {
    hide Inv, Close;
    if s.conns != [] {
      CloseShortens(s, 0);
      PlainCloseKeepsInv(s, 0);
      CloseAllKeepsInv(Close(s, 0));
    }
  }

  lemma AdmissionKeepsInv(s: Server, fd: nat, now: int, l: Epoll.Loop)
    requires Inv(s) && s.running && s.connCount < s.maxConnections
    requires RegistryMatches(Admit(s, fd, now).(loop := l))
    ensures Inv(Admit(s, fd, now).(loop := l))
  {
    hide RegistryMatches, SentPrefix, Census;
    var t := Admit(s, fd, now).(loop := l);
    CensusAfterAdmission(s, fd, now);
    SameCensus(Admit(s, fd, now), t);
    assert forall i :: 1 <= i < |t.conns| ==> t.conns[i] == s.conns[i - 1];
  }

  lemma RefusalKeepsInv(s: Server, c: Conn)
    requires Inv(s) && c.id == s.totalConnections && SentPrefix(c)
    ensures Inv(s.(totalConnections := s.totalConnections + 1, closed := s.closed + [c]))
  {
    hide RegistryMatches, ConservesBytes, SentPrefix, Census;
    var t := s.(totalConnections := s.totalConnections + 1, closed := s.closed + [c]);
    CensusAfterRefusal(s, c);
    SameRegistry(s, t);
  }

  /** Admitting a connection keeps everything, also when its registration fails and it is closed again. */
  lemma AcceptKeepsInv(s: Server, now: int, a: AcceptResult)
    requires Inv(s) && s.running && s.connCount < s.maxConnections
    requires a.Accepted? ==> a.fd !in s.loop.handlers
    ensures Inv(AcceptOne(s, now, a)) && AcceptOne(s, now, a).running
    ensures AcceptOne(s, now, a).maxConnections == s.maxConnections
  {
    if a.Accepted? && a.nonblocking && a.memory {
      InvMatches(s);
      hide Inv, RegistryMatches, Epoll.Apply, Epoll.AddSucceeds, Admit, Close;
      var op := AddFd(a.fd, ConnectionTarget(s.totalConnections), a.entryMemory);
      AdmitKeepsLimits(s, a.fd, now);
      if a.entryMemory {
        RegistryAfterAdmission(s, a.fd, now, true);
        AdmissionKeepsInv(s, a.fd, now, Epoll.Apply(s.loop, op));
      } else {
        RefusedIsClosed(s, now, a);
        RefusalKeepsInv(s, Conn(s.totalConnections, a.fd, Reading, [], 0, false, now, [], []));
      }
    }
  }

  lemma InvMatches(s: Server)
    requires Inv(s)
    ensures RegistryMatches(s)
  {
  }

  lemma AdmitKeepsLimits(s: Server, fd: nat, now: int)
    ensures Admit(s, fd, now).running == s.running && Admit(s, fd, now).maxConnections == s.maxConnections
  {
  }

  lemma RefusedIsClosed(s: Server, now: int, a: AcceptResult)
    requires a.Accepted? && a.nonblocking && a.memory && !a.entryMemory
    requires RegistryMatches(s) && a.fd !in s.loop.handlers
    ensures var c := Conn(s.totalConnections, a.fd, Reading, [], 0, false, now, [], []);
            AcceptOne(s, now, a)
            == s.(totalConnections := s.totalConnections + 1, closed := s.closed + [c])
    ensures RegistryMatches(AcceptOne(s, now, a))
  {
    hide AsMap, UniqueFds, Epoll.Agrees;
    KernelHas(s.loop, a.fd);
    var admitted := Admit(s, a.fd, now);
    assert RemoveAt(admitted.conns, 0) == s.conns;
    SameRegistry(s, AcceptOne(s, now, a));
  }

  /** accept only returns sockets that are not in use. */
  ghost predicate FeasibleAccepts(s: Server, now: int, accepts: seq<AcceptResult>)
    decreases |accepts|
  {
    accepts == [] || !s.running || s.connCount >= s.maxConnections
    || ((accepts[0].Accepted? ==> accepts[0].fd !in s.loop.handlers)
        && FeasibleAccepts(AcceptOne(s, now, accepts[0]), now, accepts[1..]))
  }

  lemma {:induction false} AcceptAllKeepsInv(s: Server, now: int, accepts: seq<AcceptResult>)
    requires Inv(s) && FeasibleAccepts(s, now, accepts)
    ensures Inv(AcceptAll(s, now, accepts))
    decreases |accepts|
  {
    hide Inv, AcceptOne;
    if accepts != [] && s.running && s.connCount < s.maxConnections {
      AcceptKeepsInv(s, now, accepts[0]);
      AcceptAllKeepsInv(AcceptOne(s, now, accepts[0]), now, accepts[1..]);
    }
  }

  // ----- the events of one connection

  lemma RespondKeepsInv(s: Server, i: nat, r: Response)
    requires Inv(s) && i < |s.conns| && s.conns[i].phase != Writing
    ensures Inv(Respond(s, i, r))
  {
    hide Inv, BuildResponse, Epoll.Apply;
    InvConserves(s, i);
    var c := s.conns[i];
    var b := BuildResponse(r, c.keepAlive);
    if b.Some? {
      var c' := c.(phase := Writing, sendBuf := b.value, sendOffset := 0, built := c.built + b.value);
      assert c'.sendBuf[0..] == b.value;
      UpdateKeepsInv(s, i, c');
    }
  }

  lemma OnReadKeepsInv(s: Server, i: nat, read: ReadResult)
    requires Inv(s) && i < |s.conns| && s.conns[i].phase == Reading
    ensures Inv(OnRead(s, i, read))
  {
    hide Inv, Close, Respond, Epoll.Apply;
    InvConserves(s, i);
    match read {
      case ReadFailed => PlainCloseKeepsInv(s, i);
      case Incomplete =>
      case Complete(keepAliveHeader, response) =>
        var c := s.conns[i];
        var c' := c.(keepAlive := c.keepAlive || keepAliveHeader, phase := Processing);
        UpdateKeepsInv(s, i, c');
        if response.Some? {
          RespondKeepsInv(SetConn(s, i, c'), i, response.value);
        }
    }
  }

  /** Between buffer and wire no byte is lost when some are taken. */
  lemma TakingBytesConserves(c: Conn, n: nat)
    requires c.phase == Writing && ConservesBytes(c) && n <= |c.sendBuf| - c.sendOffset
    ensures var end := c.sendOffset + n;
            var sent := c.(sendOffset := end, wire := c.wire + c.sendBuf[c.sendOffset..end]);
            if end < |c.sendBuf| then ConservesBytes(sent) else sent.wire == sent.built
  {
    var end := c.sendOffset + n;
    assert c.sendBuf[c.sendOffset..] == c.sendBuf[c.sendOffset..end] + c.sendBuf[end..];
    Associate(c.wire, c.sendBuf[c.sendOffset..end], c.sendBuf[end..]);
    assert c.wire + c.sendBuf[c.sendOffset..end] + [] == c.wire + c.sendBuf[c.sendOffset..end];
  }

  /** A response sent in full may be followed by the next request or by the end. */
  lemma FinishKeepsInv(s: Server, i: nat, sent: Conn)
    requires Inv(s) && i < |s.conns| && sent.id == s.conns[i].id && sent.fd == s.conns[i].fd && sent.wire == sent.built
    ensures Inv(Finish(SetConn(s, i, sent), i))
  {
    hide Inv, Close, Epoll.Apply;
    assert SetConn(s, i, sent).conns[i] == sent;
    if sent.keepAlive {
      var idle := sent.(phase := Reading, sendBuf := [], sendOffset := 0);
      UpdateKeepsInv(s, i, idle);
      assert s.conns[i := sent][i := idle] == s.conns[i := idle];
    } else {
      CloseKeepsInv(s, i, sent);
    }
  }

  lemma OnWriteKeepsInv(s: Server, i: nat, send: SendResult)
    requires Inv(s) && i < |s.conns| && s.conns[i].phase == Writing && SendFits(s.conns[i], send)
    ensures Inv(OnWrite(s, i, send))
  {
    hide Inv, Close, Epoll.Apply, Finish, ConservesBytes, SetConn;
    InvConserves(s, i);
    var c := s.conns[i];
    if send.SendFailed? || (send.Took? && send.n == 0) {
      PlainCloseKeepsInv(s, i);
    } else if send.Took? {
      var end := c.sendOffset + send.n;
      var sent := c.(sendOffset := end, wire := c.wire + c.sendBuf[c.sendOffset..end]);
      TakingBytesConserves(c, send.n);
      if end < |c.sendBuf| {
        UpdateKeepsInv(s, i, sent);
      } else {
        FinishKeepsInv(s, i, sent);
      }
    }
  }

  /** Whatever happens on a connection, everything is kept. */
  lemma OnConnectionKeepsInv(s: Server, i: nat, events: Events, now: int, read: ReadResult, send: SendResult)
    requires Inv(s) && i < |s.conns| && SendFits(s.conns[i], send)
    ensures Inv(OnConnection(s, i, events, now, read, send))
  {
    hide Inv, Close, OnRead, OnWrite, Epoll.Apply;
    InvConserves(s, i);
    var active := s.conns[i].(lastActivity := now);
    UpdateKeepsInv(s, i, active);
    if events.error {
      PlainCloseKeepsInv(SetConn(s, i, active), i);
    } else if active.phase == Reading && events.read {
      OnReadKeepsInv(SetConn(s, i, active), i, read);
    } else if active.phase == Writing && events.write {
      OnWriteKeepsInv(SetConn(s, i, active), i, send);
    }
  }

  // ----- steps and runs

  /** What a call or a ready descriptor may find: a stopped server to start, sockets that are not in use. */
  ghost predicate Feasible(s: Server, e: Event) {
    match e
    case Listen(fd, _) => !s.running && fd !in s.loop.handlers
    case Stop => true
    case ListenReady(now, accepts) => FeasibleAccepts(SweepFrom(s, 0, now), now, accepts)
    case ConnReady(fd, _, _, _, send) =>
      forall i :: 0 <= i < |s.conns| && s.conns[i].fd == fd ==> SendFits(s.conns[i], send)
  }

  /** A ready descriptor goes to whatever callback and data the registry holds for it. */
  function Step(s: Server, e: Event): Server {
    match e
    case Listen(fd, memory) => StartListening(s, fd, memory)
    case Stop => StopServer(s)
    case ListenReady(now, accepts) =>
      if s.listenFd.Some? then AcceptAll(SweepFrom(s, 0, now), now, accepts) else s
    case ConnReady(fd, events, now, read, send) =>
      if fd !in s.loop.handlers || s.loop.handlers[fd].target.callback != CONNECTION_CALLBACK then s
      else
        var i := ConnPosition(s.conns, s.loop.handlers[fd].target.data);
        if i < |s.conns| && SendFits(s.conns[i], send) then OnConnection(s, i, events, now, read, send) else s
  }

  function InitialServer(maxConnections: nat): Server {
    Server([], 0, maxConnections, false, None, Epoll.Loop(map[], map[]), 0, [])
  }

  lemma InitialInv(maxConnections: nat)
    ensures Inv(InitialServer(maxConnections))
  {
    var s := InitialServer(maxConnections);
    assert Ids(s.conns) == [] && Ids(s.closed) == [] && UpTo(0) == [];
    assert Expected(s) == [];
  }

  lemma RegistryAfterStart(s: Server, fd: nat)
    requires RegistryMatches(s) && s.listenFd.None? && fd !in s.loop.handlers
    ensures Epoll.AddSucceeds(s.loop, AddFd(fd, LISTEN_TARGET, true))
    ensures RegistryMatches(StartListening(s, fd, true))
  {
    hide AsMap, UniqueFds, Epoll.Agrees, HandlersOf;
    var op, t := AddFd(fd, LISTEN_TARGET, true), StartListening(s, fd, true);
    KernelHas(s.loop, fd);
    var h := Handler(fd, Registration(READ, LISTEN_TARGET));
    assert Expected(s) == HandlersOf(s.conns) && Expected(t) == HandlersOf(s.conns) + [h];
    AppendedHandler(HandlersOf(s.conns), h);
    Epoll.AgreementKeptIff(s.loop, op);
  }

  lemma StartKeepsInv(s: Server, fd: nat, memory: bool)
    requires Inv(s) && !s.running && fd !in s.loop.handlers
    ensures Inv(StartListening(s, fd, memory))
  {
    hide RegistryMatches, ConservesBytes, SentPrefix, Census, NewestFirst, Epoll.Apply;
    var t := StartListening(s, fd, memory);
    SameCensus(s, t);
    if memory {
      RegistryAfterStart(s, fd);
    } else {
      SameRegistry(s, t);
    }
  }

  /** A handler adds to the map at the end of a list as it does at the head. */
  lemma AppendedHandler(hs: seq<Handler>, h: Handler)
    requires UniqueFds(hs) && h.fd !in AsMap(hs)
    ensures UniqueFds(hs + [h]) && AsMap(hs + [h]) == AsMap(hs)[h.fd := h.registration]
  {
    AsMapKeys(hs);
    forall i | 0 <= i < |hs|
      ensures hs[i].fd != h.fd
    {
      assert hs[i].fd in Fds(hs);
    }
    var all := hs + [h];
    assert UniqueFds(all);
    assert RemoveAt(all, |hs|) == hs;
    RemovalRemoves(all, |hs|);
    AsMapAt(all, |hs|);
    assert AsMap(all) == (AsMap(all) - {h.fd})[h.fd := h.registration];
  }

  /** The server once it has stopped listening, before it closes its connections. */
  function Deaf(s: Server): Server
    requires s.listenFd.Some?
  {
    s.(running := false, listenFd := None, loop := Epoll.Apply(s.loop, DelFd(s.listenFd.value)))
  }

  lemma RegistryAfterDeaf(s: Server)
    requires RegistryMatches(s) && s.listenFd.Some?
    ensures RegistryMatches(Deaf(s))
  {
    hide AsMap, UniqueFds, Epoll.Agrees, RemoveAt, HandlersOf;
    var fd, last := s.listenFd.value, |s.conns|;
    assert Expected(Deaf(s)) == RemoveAt(Expected(s), last) by {
      LastRemoved(HandlersOf(s.conns), Expected(s)[last]);
    }
    AsMapAt(Expected(s), last);
    RemovalRemoves(Expected(s), last);
    Epoll.AgreementKeptIff(s.loop, DelFd(fd));
    KernelHas(s.loop, fd);
  }

  lemma DeafKeepsInv(s: Server)
    requires Inv(s) && s.running
    ensures Inv(Deaf(s))
  {
    hide RegistryMatches, ConservesBytes, SentPrefix, Census, NewestFirst, Epoll.Apply;
    RegistryAfterDeaf(s);
    SameCensus(s, Deaf(s));
  }

  lemma StopKeepsInv(s: Server)
    requires Inv(s)
    ensures Inv(StopServer(s))
  {
    if s.running {
      DeafKeepsInv(s);
      hide RegistryMatches, Conserved, Census, CloseAll, Epoll.Apply;
      CloseAllKeepsInv(Deaf(s));
    }
  }

  lemma LastRemoved<T>(s: seq<T>, x: T)
    ensures RemoveAt(s + [x], |s|) == s
  {
  }

  /** Every step keeps the count, the bytes, the registry and the census. */
  lemma StepKeepsInv(s: Server, e: Event)
    requires Inv(s) && Feasible(s, e)
    ensures Inv(Step(s, e))
  {
    hide Inv, StartListening, StopServer, SweepFrom, AcceptAll, OnConnection, FeasibleAccepts;
    match e {
      case Listen(fd, memory) => StartKeepsInv(s, fd, memory);
      case Stop => StopKeepsInv(s);
      case ListenReady(now, accepts) =>
        if s.listenFd.Some? {
          SweepKeepsInv(s, 0, now);
          AcceptAllKeepsInv(SweepFrom(s, 0, now), now, accepts);
        }
      case ConnReady(fd, events, now, read, send) =>
        if fd in s.loop.handlers && s.loop.handlers[fd].target.callback == CONNECTION_CALLBACK {
          var i := ConnPosition(s.conns, s.loop.handlers[fd].target.data);
          if i < |s.conns| && SendFits(s.conns[i], send) {
            OnConnectionKeepsInv(s, i, events, now, read, send);
          }
        }
    }
  }

  ghost predicate IsRun(states: seq<Server>, events: seq<Event>, maxConnections: nat) {
    && |states| == |events| + 1 && states[0] == InitialServer(maxConnections)
    && forall i :: 0 <= i < |events| ==> Feasible(states[i], events[i]) && states[i + 1] == Step(states[i], events[i])
  }

  lemma {:induction false} ReachableStatesKeepInv(states: seq<Server>, events: seq<Event>, maxConnections: nat, k: nat)
    requires IsRun(states, events, maxConnections) && k < |states|
    ensures Inv(states[k])
  {
    hide Inv, Feasible, Step;
    if k == 0 {
      InitialInv(maxConnections);
    } else {
      ReachableStatesKeepInv(states, events, maxConnections, k - 1);
      assert Feasible(states[k - 1], events[k - 1]) && states[k - 1 + 1] == Step(states[k - 1], events[k - 1]);
      StepKeepsInv(states[k - 1], events[k - 1]);
    }
  }
}
