/**
  The incremental frame processor of src/websocket.c: what a connection does with each frame,
  and the loop that peels frames off the receive buffer (sections 5.4 and 5.5 of RFC 6455).

  `Dispatch` says what one frame does and `Drain` what the loop does with a buffer. Callbacks
  and sends are recorded in a trace. The class of WsConnection.dfy is the imperative form, proved
  equal to these functions.
 */
module WsStream {
  import opened Wrappers
  import opened Octets
  import opened WsFrame
  import opened Sequences

  const RECV_BUFFER_SIZE: nat := 65536
  const MAX_FRAGMENT_SIZE: nat := 10485760
  const CLOSE_NO_STATUS: nat := 1005

  datatype State = Connecting | Open | Closing | Closed

  /** Which callbacks the application installed. */
  datatype Callbacks = Callbacks(onMessage: bool, onClose: bool, onError: bool)

  /** A frame after unmasking. */
  datatype Frame = Frame(fin: bool, opcode: byte, payload: seq<byte>)

  datatype Event =
    | Message(opcode: byte, data: seq<byte>)
    | CloseReceived(code: nat, reason: seq<byte>)
    | ConnectionLost
    | UnknownOpcode
    | Sent(frame: Frame)

  datatype Conn = Conn(state: State, fragment: Option<seq<byte>>, fragmentOpcode: byte, trace: seq<Event>)

  /** How an endpoint is set up: its side and its callbacks. */
  datatype Setup = Setup(isClient: bool, callbacks: Callbacks)

  // ----- one frame

  function FrameSize(isMasked: bool, len: nat): nat {
    2 + |LengthBytes(len)| + (if isMasked then 4 else 0) + len
  }

  /** Sending encodes into a buffer of the receive buffer's size; a frame that does not fit is dropped. */
  function Send(c: Conn, isClient: bool, f: Frame): Conn {
    if FrameSize(isClient, |f.payload|) <= RECV_BUFFER_SIZE then c.(trace := c.trace + [Sent(f)]) else c
  }

  function ClosePayload(code: nat, reason: seq<byte>): seq<byte>
    requires code < 65536
  {
    if code == 0 then []
    else [code / 256, code % 256] + (if |reason| > 123 then reason[..123] else reason)
  }

  function SendClose(c: Conn, isClient: bool, code: nat, reason: seq<byte>): Conn
    requires code < 65536
  {
    Send(c.(state := Closing), isClient, Frame(true, OP_CLOSE, ClosePayload(code, reason)))
  }

  function Deliver(c: Conn, cb: Callbacks, opcode: byte, data: seq<byte>): Conn {
    if cb.onMessage then c.(trace := c.trace + [Message(opcode, data)]) else c
  }

  function OnData(c: Conn, cb: Callbacks, f: Frame): Conn {
    if !f.fin then c.(fragmentOpcode := f.opcode, fragment := Some(f.payload))
    else if c.fragment.Some? then c.(fragment := None)
    else Deliver(c, cb, f.opcode, f.payload)
  }

  function OnContinuation(c: Conn, cb: Callbacks, f: Frame): Conn {
    if c.fragment.None? || |c.fragment.value| + |f.payload| >= MAX_FRAGMENT_SIZE then c
    else
      var joined := c.fragment.value + f.payload;
      if f.fin then Deliver(c, cb, c.fragmentOpcode, joined).(fragment := None)
      else c.(fragment := Some(joined))
  }

  function CloseCode(payload: seq<byte>): (code: nat)
    ensures code < 65536
  {
    if |payload| >= 2 then payload[0] * 256 + payload[1] else CLOSE_NO_STATUS
  }

  function CloseReason(payload: seq<byte>): seq<byte> {
    if |payload| > 2 then payload[2..] else []
  }

  function OnClose(c: Conn, setup: Setup, f: Frame): Conn {
    var seen := if setup.callbacks.onClose
                then c.(trace := c.trace + [CloseReceived(CloseCode(f.payload), CloseReason(f.payload))]) else c;
    var echoed := if c.state != Closing then SendClose(seen, setup.isClient, CloseCode(f.payload), []) else seen;
    echoed.(state := Closed)
  }

  function CloseReport(setup: Setup, payload: seq<byte>): seq<Event> {
    if setup.callbacks.onClose then [CloseReceived(CloseCode(payload), CloseReason(payload))] else []
  }

  function CloseEcho(state: State, payload: seq<byte>): seq<Event> {
    if state != Closing then [Sent(Frame(true, OP_CLOSE, ClosePayload(CloseCode(payload), [])))] else []
  }

  /** A CLOSE is reported, answered unless this side is already closing, and ends the connection. */
  lemma OnCloseEffect(c: Conn, setup: Setup, f: Frame)
    ensures OnClose(c, setup, f)
         == c.(state := Closed, trace := c.trace + CloseReport(setup, f.payload) + CloseEcho(c.state, f.payload))
  {
    assert FrameSize(setup.isClient, |ClosePayload(CloseCode(f.payload), [])|) <= RECV_BUFFER_SIZE;
    assert c.trace + [] == c.trace;
  }

  function Dispatch(c: Conn, setup: Setup, f: Frame): Conn {
    if f.opcode == OP_TEXT || f.opcode == OP_BINARY then OnData(c, setup.callbacks, f)
    else if f.opcode == OP_CONTINUATION then OnContinuation(c, setup.callbacks, f)
    else if f.opcode == OP_CLOSE then OnClose(c, setup, f)
    else if f.opcode == OP_PING then Send(c, setup.isClient, Frame(true, OP_PONG, f.payload))
    else if f.opcode == OP_PONG then c
    else if setup.callbacks.onError then c.(trace := c.trace + [UnknownOpcode])
    else c
  }

  function DispatchAll(c: Conn, setup: Setup, fs: seq<Frame>): Conn
    decreases |fs|
  {
    if fs == [] then c else DispatchAll(Dispatch(c, setup, fs[0]), setup, fs[1..])
  }

  lemma {:induction false} DispatchAllAppend(c: Conn, setup: Setup, fs: seq<Frame>, gs: seq<Frame>)
    ensures DispatchAll(c, setup, fs + gs) == DispatchAll(DispatchAll(c, setup, fs), setup, gs)
    decreases |fs|
  {
    hide Dispatch;
    if fs == [] {
      assert fs + gs == gs;
    } else {
      assert (fs + gs)[1..] == fs[1..] + gs;
      DispatchAllAppend(Dispatch(c, setup, fs[0]), setup, fs[1..], gs);
    }
  }

  // ----- the buffer

  /** The first complete frame of a buffer and the number of bytes it takes up. */
  function NextFrame(buf: seq<byte>): (r: Option<(Frame, nat)>)
    ensures r.Some? ==> 2 <= r.value.1 <= |buf| && |r.value.0.payload| <= r.value.1
  {
    var parsed := ParseHeader(buf);
    if parsed.None? then None
    else
      var (h, n) := parsed.value;
      if |buf| < n + h.payloadLen then None
      else
        var body := buf[n..n + h.payloadLen];
        Some((Frame(h.fin, h.opcode, if h.mask then Masked(body, h.key) else body), n + h.payloadLen))
  }

  /** The length of a frame as the code adds it up, in sixty-four bits. */
  function FrameLength(h: Header, n: nat): nat {
    (n + h.payloadLen) % TWO_TO_THE_64
  }

  /** A header at the front of the buffer announces more than can be added up. */
  predicate WrapsAtFront(buf: seq<byte>) {
    var parsed := ParseHeader(buf);
    parsed.Some? && parsed.value.1 + parsed.value.0.payloadLen >= TWO_TO_THE_64
  }

  /** The loop comes to such a header, behind the complete frames of the buffer. */
  predicate Wraps(buf: seq<byte>)
    decreases |buf|
  {
    WrapsAtFront(buf) || (NextFrame(buf).Some? && Wraps(buf[NextFrame(buf).value.1..]))
  }

  /** The test of the loop passes exactly the complete frames, and those whose length wraps. */
  lemma FrameTestIff(buf: seq<byte>)
    requires ParseHeader(buf).Some? && |buf| <= RECV_BUFFER_SIZE
    ensures var (h, n) := ParseHeader(buf).value;
            && (|buf| >= FrameLength(h, n) <==> NextFrame(buf).Some? || WrapsAtFront(buf))
            && if WrapsAtFront(buf) then NextFrame(buf).None? else FrameLength(h, n) == n + h.payloadLen
  {
    hide ParseHeader, Masked;
    PayloadLengthFits(buf);
  }

  /** What the loop does with a buffer: the connection afterwards and the bytes left over. */
  function Drain(c: Conn, setup: Setup, buf: seq<byte>): (Conn, seq<byte>)
    decreases |buf|
  {
    var next := NextFrame(buf);
    if next.None? then (c, buf)
    else Drain(Dispatch(c, setup, next.value.0), setup, buf[next.value.1..])
  }

  lemma NextFrameStable(buf: seq<byte>, more: seq<byte>)
    requires NextFrame(buf).Some?
    ensures NextFrame(buf + more) == NextFrame(buf)
  {
    hide ParseHeader, Masked;
    ParseHeaderStable(buf, more, 0);
    var (h, n) := ParseHeader(buf).value;
    assert (buf + more)[n..n + h.payloadLen] == buf[n..n + h.payloadLen];
  }

  /** Draining in two goes is draining once. */
  lemma {:induction false} DrainInSteps(c: Conn, setup: Setup, buf: seq<byte>, more: seq<byte>)
    ensures var (c', left) := Drain(c, setup, buf);
            Drain(c, setup, buf + more) == Drain(c', setup, left + more)
    decreases |buf|
  {
    hide NextFrame, Dispatch;
    var next := NextFrame(buf);
    if next.Some? {
      NextFrameStable(buf, more);
      var n := next.value.1;
      assert (buf + more)[n..] == buf[n..] + more;
      DrainInSteps(Dispatch(c, setup, next.value.0), setup, buf[n..], more);
    }
  }

  /** Later bytes lead to a length that wraps only if all bytes together do. */
  lemma {:induction false} WrapsInSteps(c: Conn, setup: Setup, buf: seq<byte>, more: seq<byte>)
    requires Wraps(Drain(c, setup, buf).1 + more)
    ensures Wraps(buf + more)
    decreases |buf|
  {
    hide NextFrame, Dispatch, WrapsAtFront;
    var next := NextFrame(buf);
    if next.Some? {
      NextFrameStable(buf, more);
      var n := next.value.1;
      assert (buf + more)[n..] == buf[n..] + more;
      WrapsInSteps(Dispatch(c, setup, next.value.0), setup, buf[n..], more);
    }
  }

  /** What is left over is the end of what was there. */
  lemma {:induction false} DrainLeavesASuffix(c: Conn, setup: Setup, buf: seq<byte>)
    ensures var left := Drain(c, setup, buf).1;
            |left| <= |buf| && left == buf[|buf| - |left|..] && NextFrame(left).None?
    decreases |buf|
  {
    hide NextFrame, Dispatch;
    var next := NextFrame(buf);
    if next.Some? {
      DrainLeavesASuffix(Dispatch(c, setup, next.value.0), setup, buf[next.value.1..]);
    }
  }

  lemma {:induction false} DrainStaysClosed(c: Conn, setup: Setup, buf: seq<byte>)
    requires c.state == Closed
    ensures Drain(c, setup, buf).0.state == Closed
    decreases |buf|
  {
    var next := NextFrame(buf);
    if next.Some? {
      DrainStaysClosed(Dispatch(c, setup, next.value.0), setup, buf[next.value.1..]);
    }
  }

  // ----- whole runs

  /** A connection together with the bytes in its receive buffer. */
  datatype Stream = Stream(conn: Conn, buf: seq<byte>)

  /** One call of the processor when recv delivers these bytes; none means recv failed or saw the end. */
  function Receive(s: Stream, setup: Setup, incoming: seq<byte>): Stream {
    if s.conn.state == Closed then s
    else if incoming == [] then
      var seen := if setup.callbacks.onClose then s.conn.(trace := s.conn.trace + [ConnectionLost]) else s.conn;
      s.(conn := seen.(state := Closed))
    else
      var (c, left) := Drain(s.conn, setup, s.buf + incoming);
      Stream(c, left)
  }

  function ReceiveAll(s: Stream, setup: Setup, chunks: seq<seq<byte>>): Stream
    decreases |chunks|
  {
    if chunks == [] then s else ReceiveAll(Receive(s, setup, chunks[0]), setup, chunks[1..])
  }

  function Flatten(chunks: seq<seq<byte>>): seq<byte> {
    if chunks == [] then [] else chunks[0] + Flatten(chunks[1..])
  }

  /** The bytes leave the connection closed. */
  predicate Closes(s: Stream, setup: Setup, bytes: seq<byte>) {
    Drain(s.conn, setup, s.buf + bytes).0.state == Closed
  }

  /** The number of chunks that are read: up to the first one that closes the connection. */
  function ChunksRead(s: Stream, setup: Setup, before: seq<byte>, chunks: seq<seq<byte>>): (k: nat)
    ensures k <= |chunks|
    decreases |chunks|
  {
    if chunks == [] || Closes(s, setup, before) then 0
    else 1 + ChunksRead(s, setup, before + chunks[0], chunks[1..])
  }

  lemma {:induction false} ReceiveAllOnceClosed(s: Stream, setup: Setup, chunks: seq<seq<byte>>)
    requires s.conn.state == Closed
    ensures ReceiveAll(s, setup, chunks) == s
    decreases |chunks|
  {
    if chunks != [] {
      ReceiveAllOnceClosed(s, setup, chunks[1..]);
    }
  }

  /**
    Segmentation: however the bytes are cut, the outcome is one drain of everything that was read,
    and what is read stops only at the first chunk that closes the connection.
   */
  lemma {:induction false} Segmentation(s: Stream, setup: Setup, before: seq<byte>, chunks: seq<seq<byte>>)
    requires forall i :: 0 <= i < |chunks| ==> chunks[i] != []
    ensures var (c, left) := Drain(s.conn, setup, s.buf + before);
            var k := ChunksRead(s, setup, before, chunks);
            var (c', left') := Drain(s.conn, setup, s.buf + (before + Flatten(chunks[..k])));
            ReceiveAll(Stream(c, left), setup, chunks) == Stream(c', left')
    decreases |chunks|
  {
    hide NextFrame, Dispatch;
    var (c, left) := Drain(s.conn, setup, s.buf + before);
    var k := ChunksRead(s, setup, before, chunks);
    if chunks == [] || c.state == Closed {
      assert Flatten(chunks[..0]) == [] && before + [] == before;
      if chunks != [] {
        ReceiveAllOnceClosed(Stream(c, left), setup, chunks);
      }
    } else {
      var more := before + chunks[0];
      assert s.buf + more == (s.buf + before) + chunks[0];
      DrainInSteps(s.conn, setup, s.buf + before, chunks[0]);
      Segmentation(s, setup, more, chunks[1..]);
      assert chunks[..k][1..] == chunks[1..][..k - 1];
      assert before + Flatten(chunks[..k]) == more + Flatten(chunks[1..][..k - 1]);
    }
  }

  // ----- runs over encoded frames

  function Content(f: WireFrame): Frame {
    Frame(f.fin, f.opcode % 16, f.payload)
  }

  function Contents(ws: seq<WireFrame>): (fs: seq<Frame>)
    ensures |fs| == |ws|
  {
    seq(|ws|, i requires 0 <= i < |ws| => Content(ws[i]))
  }

  function Encodings(ws: seq<WireFrame>): (parts: seq<seq<byte>>)
    ensures |parts| == |ws|
  {
    seq(|ws|, i requires 0 <= i < |ws| => Encode(ws[i]))
  }

  function EncodeAll(ws: seq<WireFrame>): seq<byte> {
    Flatten(Encodings(ws))
  }

  ghost predicate AllWellFormed(ws: seq<WireFrame>) {
    forall i :: 0 <= i < |ws| ==> WellFormed(ws[i])
  }

  lemma NextFrameOfEncoding(f: WireFrame, rest: seq<byte>)
    requires WellFormed(f)
    ensures NextFrame(Encode(f) + rest) == Some((Content(f), |Encode(f)|))
  {
    hide ParseHeader, HeaderBytes, Masked;
    ParseInvertsEncode(f, rest);
    EncodedParts(f, rest);
    if f.key.Some? {
      MaskingIsAnInvolution(f.payload, f.key.value);
    }
  }

  lemma NoFrameInAProperPrefix(f: WireFrame, cut: nat)
    requires WellFormed(f) && cut < |Encode(f)|
    ensures NextFrame(Encode(f)[..cut]) == None
  {
    hide NextFrame, Encode;
    var p, q := Encode(f)[..cut], Encode(f)[cut..];
    assert p + q == Encode(f) + [];
    NextFrameOfEncoding(f, []);
    if NextFrame(p).Some? {
      NextFrameStable(p, q);
    }
  }

  /** Frames whose size can be added up: all that RFC 6455 allows. */
  ghost predicate HaveSizes(ws: seq<WireFrame>) {
    AllWellFormed(ws) && forall i :: 0 <= i < |ws| ==> |Encode(ws[i])| < TWO_TO_THE_64
  }

  lemma PrefixDoesNotWrapAtFront(f: WireFrame, rest: seq<byte>, cut: nat)
    requires WellFormed(f) && |Encode(f)| < TWO_TO_THE_64 && cut <= |Encode(f) + rest|
    ensures !WrapsAtFront((Encode(f) + rest)[..cut])
  {
    hide ParseHeader;
    var all := Encode(f) + rest;
    assert |Encode(f)| == |EncodeHeader(f)| + |f.payload|;
    ParseInvertsEncode(f, rest);
    ParseHeaderStable(all, [], cut);
  }

  /** However the bytes of encoded frames are cut, the loop never comes to a length that wraps. */
  lemma {:induction false} EncodedDoesNotWrap(ws: seq<WireFrame>, cut: nat)
    requires HaveSizes(ws) && cut <= |EncodeAll(ws)|
    ensures !Wraps(EncodeAll(ws)[..cut])
    decreases |ws|
  {
    hide NextFrame, Encode, WrapsAtFront;
    var buf := EncodeAll(ws)[..cut];
    if ws == [] {
      NothingWraps(buf);
    } else {
      var f, rest := ws[0], EncodeAll(ws[1..]);
      assert Encodings(ws)[1..] == Encodings(ws[1..]);
      assert EncodeAll(ws) == Encode(f) + rest;
      PrefixDoesNotWrapAtFront(f, rest, cut);
      if cut < |Encode(f)| {
        assert buf == Encode(f)[..cut];
        NoFrameInAProperPrefix(f, cut);
      } else {
        var k := cut - |Encode(f)|;
        assert buf == Encode(f) + rest[..k];
        NextFrameOfEncoding(f, rest[..k]);
        assert buf[|Encode(f)|..] == rest[..k];
        EncodedDoesNotWrap(ws[1..], k);
      }
    }
  }

  lemma NothingWraps(buf: seq<byte>)
    requires buf == []
    ensures !Wraps(buf)
  {
  }

  /** So whatever is read when, no call comes to one. */
  lemma NoCallWraps(c: Conn, setup: Setup, ws: seq<WireFrame>, read: nat, cut: nat)
    requires HaveSizes(ws) && read <= cut <= |EncodeAll(ws)|
    ensures !Wraps(Drain(c, setup, EncodeAll(ws)[..read]).1 + EncodeAll(ws)[read..cut])
  {
    hide NextFrame, Dispatch, Encode, Wraps;
    var all := EncodeAll(ws);
    assert all[..read] + all[read..cut] == all[..cut];
    EncodedDoesNotWrap(ws, cut);
    if Wraps(Drain(c, setup, all[..read]).1 + all[read..cut]) {
      WrapsInSteps(c, setup, all[..read], all[read..cut]);
    }
  }

  /** The number of whole parts within the first bytes of their concatenation. */
  function WholeParts(parts: seq<seq<byte>>, cut: nat): (j: nat)
    ensures j <= |parts|
  {
    if parts == [] || cut < |parts[0]| then 0 else 1 + WholeParts(parts[1..], cut - |parts[0]|)
  }

  /** The bytes after the last whole part. */
  function PartialPart(parts: seq<seq<byte>>, cut: nat): seq<byte> {
    if parts == [] then []
    else if cut < |parts[0]| then parts[0][..cut]
    else PartialPart(parts[1..], cut - |parts[0]|)
  }

  lemma {:induction false} PrefixOfParts(parts: seq<seq<byte>>, cut: nat)
    requires cut <= |Flatten(parts)|
    ensures var j, left := WholeParts(parts, cut), PartialPart(parts, cut);
            && Flatten(parts)[..cut] == Flatten(parts[..j]) + left
            && (if j < |parts| then |left| < |parts[j]| && left == parts[j][..|left|] else left == [])
    decreases |parts|
  {
    if parts == [] {
    } else if cut < |parts[0]| {
      assert Flatten(parts)[..cut] == parts[0][..cut] == Flatten([]) + PartialPart(parts, cut);
    } else {
      var first, j, left := parts[0], WholeParts(parts, cut), PartialPart(parts, cut);
      PrefixOfParts(parts[1..], cut - |first|);
      assert parts[..j][1..] == parts[1..][..j - 1];
      assert Flatten(parts)[..cut] == first + Flatten(parts[1..])[..cut - |first|];
      assert Flatten(parts[..j]) + left == first + (Flatten(parts[1..][..j - 1]) + left);
    }
  }

  lemma {:induction false} WholePartsOfAll(parts: seq<seq<byte>>, cut: nat)
    requires cut <= |Flatten(parts)| && forall i :: 0 <= i < |parts| ==> parts[i] != []
    ensures WholeParts(parts, cut) == |parts| <==> cut == |Flatten(parts)|
    decreases |parts|
  {
    if parts != [] && cut >= |parts[0]| {
      WholePartsOfAll(parts[1..], cut - |parts[0]|);
    }
  }

  lemma {:induction false} DrainOverFrames(c: Conn, setup: Setup, ws: seq<WireFrame>, tail: seq<byte>)
    requires AllWellFormed(ws)
    ensures Drain(c, setup, EncodeAll(ws) + tail) == Drain(DispatchAll(c, setup, Contents(ws)), setup, tail)
    decreases |ws|
  {
    hide NextFrame, Dispatch, Encode;
    if ws == [] {
      assert EncodeAll(ws) + tail == tail;
    } else {
      var first, rest := Encode(ws[0]), EncodeAll(ws[1..]) + tail;
      assert Encodings(ws)[1..] == Encodings(ws[1..]);
      assert EncodeAll(ws) + tail == first + rest;
      NextFrameOfEncoding(ws[0], rest);
      assert (first + rest)[|first|..] == rest;
      DrainOverFrames(Dispatch(c, setup, Content(ws[0])), setup, ws[1..], tail);
      assert Contents(ws)[1..] == Contents(ws[1..]);
    }
  }

  /** Draining any prefix of an encoded sequence dispatches exactly its whole frames. */
  lemma DrainOfPrefix(c: Conn, setup: Setup, ws: seq<WireFrame>, cut: nat)
    requires AllWellFormed(ws) && cut <= |EncodeAll(ws)|
    ensures Drain(c, setup, EncodeAll(ws)[..cut])
         == (DispatchAll(c, setup, Contents(ws[..WholeParts(Encodings(ws), cut)])), PartialPart(Encodings(ws), cut))
  {
    hide NextFrame, Dispatch, Encode;
    var j, left := WholeParts(Encodings(ws), cut), PartialPart(Encodings(ws), cut);
    PrefixOfParts(Encodings(ws), cut);
    assert Encodings(ws)[..j] == Encodings(ws[..j]);
    DrainOverFrames(c, setup, ws[..j], left);
    if j < |ws| {
      NoFrameInAProperPrefix(ws[j], |left|);
    }
  }

  lemma {:induction false} OpenUnlessClosed(c: Conn, setup: Setup, fs: seq<Frame>)
    requires c.state != Closed && forall i :: 0 <= i < |fs| ==> fs[i].opcode != OP_CLOSE
    ensures DispatchAll(c, setup, fs).state == c.state
    decreases |fs|
  {
    if fs != [] {
      OpenUnlessClosed(Dispatch(c, setup, fs[0]), setup, fs[1..]);
    }
  }

  /**
    Segmentation independence: for every frame sequence in which nothing follows the first CLOSE and
    every way of cutting its bytes into nonempty chunks, the processor ends with the callbacks, sends,
    fragment and state of dispatching the frames one by one, and with an empty buffer.
   */
  lemma SegmentationIndependence(c: Conn, setup: Setup, ws: seq<WireFrame>, chunks: seq<seq<byte>>)
    requires c.state != Closed && AllWellFormed(ws)
    requires forall i :: 0 <= i < |ws| - 1 ==> ws[i].opcode != OP_CLOSE
    requires forall i :: 0 <= i < |chunks| ==> chunks[i] != []
    requires Flatten(chunks) == EncodeAll(ws)
    ensures ReceiveAll(Stream(c, []), setup, chunks) == Stream(DispatchAll(c, setup, Contents(ws)), [])
  {
    hide DispatchAll, Drain, Contents, Encodings, ReceiveAll;
    hide NextFrame, Dispatch, Encode;
    var s := Stream(c, []);
    assert s.buf + [] == [];
    DrainOfAll(c, setup, []);
    Segmentation(s, setup, [], chunks);
    EveryChunkIsRead(c, setup, ws, [], chunks);
    assert chunks[..|chunks|] == chunks;
    assert s.buf + ([] + Flatten(chunks)) == EncodeAll(ws);
    DrainOfAll(c, setup, ws);
  }

  lemma DrainOfAll(c: Conn, setup: Setup, ws: seq<WireFrame>)
    requires AllWellFormed(ws)
    ensures Drain(c, setup, []) == (c, [])
    ensures Drain(c, setup, EncodeAll(ws)) == (DispatchAll(c, setup, Contents(ws)), [])
  {
    hide Dispatch, Encode;
    DrainOverFrames(c, setup, ws, []);
    assert EncodeAll(ws) + [] == EncodeAll(ws);
  }

  lemma NotClosedBeforeTheEnd(c: Conn, setup: Setup, ws: seq<WireFrame>, cut: nat)
    requires c.state != Closed && AllWellFormed(ws) && cut < |EncodeAll(ws)|
    requires forall i :: 0 <= i < |ws| - 1 ==> ws[i].opcode != OP_CLOSE
    ensures Drain(c, setup, EncodeAll(ws)[..cut]).0.state == c.state
  {
    hide NextFrame, Dispatch, HeaderBytes, Scrambled;
    DrainOfPrefix(c, setup, ws, cut);
    WholePartsOfAll(Encodings(ws), cut);
    OpenUnlessClosed(c, setup, Contents(ws[..WholeParts(Encodings(ws), cut)]));
  }

  lemma {:induction false} EveryChunkIsRead(c: Conn, setup: Setup, ws: seq<WireFrame>, before: seq<byte>,
                                            chunks: seq<seq<byte>>)
    requires c.state != Closed && AllWellFormed(ws)
    requires forall i :: 0 <= i < |ws| - 1 ==> ws[i].opcode != OP_CLOSE
    requires forall i :: 0 <= i < |chunks| ==> chunks[i] != []
    requires before + Flatten(chunks) == EncodeAll(ws)
    ensures ChunksRead(Stream(c, []), setup, before, chunks) == |chunks|
    decreases |chunks|
  {
    hide NextFrame, Dispatch, Encode;
    if chunks != [] {
      var all := EncodeAll(ws);
      var cut := |before|;
      assert |Flatten(chunks)| >= |chunks[0]| > 0;
      assert [] + before == before == all[..cut];
      NotClosedBeforeTheEnd(c, setup, ws, cut);
      assert before + Flatten(chunks) == (before + chunks[0]) + Flatten(chunks[1..]);
      EveryChunkIsRead(c, setup, ws, before + chunks[0], chunks[1..]);
    }
  }

  /** The bytes still undispatched when a prefix of the encoded frames has arrived. */
  function Backlog(c: Conn, setup: Setup, ws: seq<WireFrame>, cut: nat): nat
    requires cut <= |EncodeAll(ws)|
  {
    |Drain(c, setup, EncodeAll(ws)[..cut]).1|
  }

  lemma {:induction false} InsidePart(parts: seq<seq<byte>>, i: nat, k: nat)
    requires i < |parts| && k < |parts[i]|
    ensures |Flatten(parts[..i])| + k <= |Flatten(parts)|
    ensures PartialPart(parts, |Flatten(parts[..i])| + k) == parts[i][..k]
  {
    if i > 0 {
      assert parts[..i][1..] == parts[1..][..i - 1];
      InsidePart(parts[1..], i - 1, k);
    }
  }

  /** The receive buffer never fills up, wherever the bytes are cut, iff every frame fits it. */
  lemma RoomIffEveryFrameFits(c: Conn, setup: Setup, ws: seq<WireFrame>)
    requires AllWellFormed(ws)
    ensures (forall cut: nat :: cut <= |EncodeAll(ws)| ==> Backlog(c, setup, ws, cut) < RECV_BUFFER_SIZE)
       <==> (forall i :: 0 <= i < |ws| ==> |Encode(ws[i])| <= RECV_BUFFER_SIZE)
  {
    hide NextFrame, Dispatch, Encode;
    if forall i :: 0 <= i < |ws| ==> |Encode(ws[i])| <= RECV_BUFFER_SIZE {
      forall cut: nat | cut <= |EncodeAll(ws)|
        ensures Backlog(c, setup, ws, cut) < RECV_BUFFER_SIZE
      {
        DrainOfPrefix(c, setup, ws, cut);
        PrefixOfParts(Encodings(ws), cut);
      }
    } else {
      var i :| 0 <= i < |ws| && |Encode(ws[i])| > RECV_BUFFER_SIZE;
      InsidePart(Encodings(ws), i, RECV_BUFFER_SIZE);
      var cut := |Flatten(Encodings(ws)[..i])| + RECV_BUFFER_SIZE;
      DrainOfPrefix(c, setup, ws, cut);
      assert Backlog(c, setup, ws, cut) == RECV_BUFFER_SIZE;
    }
  }

  /** Two frame sequences with the same bytes are the same sequence, masking keys included. */
  lemma {:induction false} UniqueDecoding(ws: seq<WireFrame>, vs: seq<WireFrame>)
    requires AllWellFormed(ws) && AllWellFormed(vs) && EncodeAll(ws) == EncodeAll(vs)
    ensures ws == vs
    decreases |ws|
  {
    hide Encode;
    assert ws == [] <==> EncodeAll(ws) == [];
    assert vs == [] <==> EncodeAll(vs) == [];
    if ws != [] && vs != [] {
      var w, v := Encode(ws[0]), Encode(vs[0]);
      assert Encodings(ws)[1..] == Encodings(ws[1..]) && Encodings(vs)[1..] == Encodings(vs[1..]);
      SameFirstFrame(ws[0], EncodeAll(ws[1..]), vs[0], EncodeAll(vs[1..]));
      assert EncodeAll(ws)[|w|..] == EncodeAll(ws[1..]) && EncodeAll(vs)[|v|..] == EncodeAll(vs[1..]);
      UniqueDecoding(ws[1..], vs[1..]);
    }
  }

  lemma SameFirstFrame(w: WireFrame, wRest: seq<byte>, v: WireFrame, vRest: seq<byte>)
    requires WellFormed(w) && WellFormed(v) && Encode(w) + wRest == Encode(v) + vRest
    ensures w == v
  {
    hide NextFrame, ParseHeader, HeaderBytes;
    NextFrameOfEncoding(w, wRest);
    NextFrameOfEncoding(v, vRest);
    ParseInvertsEncode(w, wRest);
    ParseInvertsEncode(v, vRest);
  }

  // ----- fragments

  /** What a frame adds to a pending fragment. */
  function Addition(f: Frame): seq<byte> {
    if f.opcode == OP_CONTINUATION then f.payload else []
  }

  function Additions(fs: seq<Frame>): seq<byte> {
    if fs == [] then [] else Addition(fs[0]) + Additions(fs[1..])
  }

  /** The pong that answers a ping; one too large for the send buffer is not sent. */
  function Pong(f: Frame, isClient: bool): seq<Event> {
    if f.opcode == OP_PING && FrameSize(isClient, |f.payload|) <= RECV_BUFFER_SIZE
    then [Sent(Frame(true, OP_PONG, f.payload))] else []
  }

  function Pongs(fs: seq<Frame>, isClient: bool): seq<Event> {
    if fs == [] then [] else Pong(fs[0], isClient) + Pongs(fs[1..], isClient)
  }

  ghost predicate IsMiddle(f: Frame) {
    (f.opcode == OP_CONTINUATION && !f.fin) || f.opcode == OP_PING || f.opcode == OP_PONG
  }

  lemma MiddleFrameAccumulates(c: Conn, setup: Setup, f: Frame)
    requires c.fragment.Some? && |c.fragment.value| + |Addition(f)| < MAX_FRAGMENT_SIZE && IsMiddle(f)
    ensures Dispatch(c, setup, f)
         == c.(fragment := Some(c.fragment.value + Addition(f)), trace := c.trace + Pong(f, setup.isClient))
  {
    hide OnData, OnClose, FrameSize;
    assert c.fragment.value + [] == c.fragment.value && c.trace + [] == c.trace;
  }

  lemma {:induction false} MiddleFramesAccumulate(c: Conn, setup: Setup, fs: seq<Frame>)
    requires c.fragment.Some? && |c.fragment.value| + |Additions(fs)| < MAX_FRAGMENT_SIZE
    requires forall i :: 0 <= i < |fs| ==> IsMiddle(fs[i])
    ensures DispatchAll(c, setup, fs)
         == c.(fragment := Some(c.fragment.value + Additions(fs)), trace := c.trace + Pongs(fs, setup.isClient))
    decreases |fs|
  {
    hide Dispatch, Addition, Pong, IsMiddle;
    if fs == [] {
      assert c.fragment.value + [] == c.fragment.value && c.trace + [] == c.trace;
    } else {
      var d := Dispatch(c, setup, fs[0]);
      MiddleFrameAccumulates(c, setup, fs[0]);
      MiddleFramesAccumulate(d, setup, fs[1..]);
      Associate(c.fragment.value, Addition(fs[0]), Additions(fs[1..]));
      Associate(c.trace, Pong(fs[0], setup.isClient), Pongs(fs[1..], setup.isClient));
    }
  }

  /**
    Reassembly: a first fragment, continuations with pings and pongs between them, and a final
    continuation deliver one message, after the pongs, and leave no fragment pending. An older pending
    fragment is lost.
   */
  lemma FragmentReassembly(c: Conn, setup: Setup, first: Frame, middle: seq<Frame>, last: Frame)
    requires (first.opcode == OP_TEXT || first.opcode == OP_BINARY) && !first.fin
    requires last.opcode == OP_CONTINUATION && last.fin
    requires forall i :: 0 <= i < |middle| ==> IsMiddle(middle[i])
    requires |first.payload| + |Additions(middle)| + |last.payload| < MAX_FRAGMENT_SIZE
    ensures var whole := first.payload + Additions(middle) + last.payload;
            DispatchAll(c, setup, [first] + middle + [last])
            == Conn(c.state, None, first.opcode,
                    c.trace + Pongs(middle, setup.isClient)
                    + (if setup.callbacks.onMessage then [Message(first.opcode, whole)] else []))
  {
    var d := Dispatch(c, setup, first);
    var fs := [first] + middle + [last];
    assert fs[0] == first && fs[1..] == middle + [last];
    DispatchAllAppend(d, setup, middle, [last]);
    MiddleFramesAccumulate(d, setup, middle);
    var e := DispatchAll(d, setup, middle);
    assert [last][1..] == [];
    assert DispatchAll(e, setup, [last]) == Dispatch(e, setup, last);
    assert c.trace + Pongs(middle, setup.isClient) + [] == c.trace + Pongs(middle, setup.isClient);
  }

  // ----- what holds on every run

  /** Dispatching only ever appends to the trace, and what it appends does not depend on the trace. */
  lemma {:induction false} TraceOnlyGrows(c: Conn, setup: Setup, fs: seq<Frame>)
    ensures var d := DispatchAll(c.(trace := []), setup, fs);
            DispatchAll(c, setup, fs) == d.(trace := c.trace + d.trace)
    decreases |fs|
  {
    hide Dispatch;
    if fs == [] {
      assert c.trace + [] == c.trace;
    } else {
      var d := Dispatch(c.(trace := []), setup, fs[0]);
      DispatchAppends(c, setup, fs[0]);
      TraceOnlyGrows(d, setup, fs[1..]);
      TraceOnlyGrows(d.(trace := c.trace + d.trace), setup, fs[1..]);
      var tail := DispatchAll(d.(trace := []), setup, fs[1..]).trace;
      assert (c.trace + d.trace) + tail == c.trace + (d.trace + tail);
    }
  }

  lemma DispatchAppends(c: Conn, setup: Setup, f: Frame)
    ensures var d := Dispatch(c.(trace := []), setup, f);
            Dispatch(c, setup, f) == d.(trace := c.trace + d.trace)
  {
    if f.opcode == OP_CLOSE {
      OnCloseEffect(c, setup, f);
      OnCloseEffect(c.(trace := []), setup, f);
    }
    var d, e := Dispatch(c.(trace := []), setup, f), Dispatch(c, setup, f);
    assert e.trace == c.trace + d.trace;
  }

  function NewEvents(c: Conn, setup: Setup, fs: seq<Frame>): seq<Event> {
    DispatchAll(c.(trace := []), setup, fs).trace
  }

  ghost predicate Bounded(c: Conn) {
    && (c.fragment.Some? ==> |c.fragment.value| < MAX_FRAGMENT_SIZE)
    && forall i :: 0 <= i < |c.trace| && c.trace[i].Message? ==> |c.trace[i].data| < MAX_FRAGMENT_SIZE
  }

  lemma NewMessagesAreBounded(c: Conn, setup: Setup, f: Frame)
    requires Bounded(c) && c.trace == [] && |f.payload| < MAX_FRAGMENT_SIZE
    ensures Bounded(Dispatch(c, setup, f))
  {
    if f.opcode == OP_CLOSE {
      OnCloseEffect(c, setup, f);
    }
  }

  lemma DispatchKeepsBound(c: Conn, setup: Setup, f: Frame)
    requires Bounded(c) && |f.payload| < MAX_FRAGMENT_SIZE
    ensures Bounded(Dispatch(c, setup, f))
  {
    hide Dispatch;
    var d, e := Dispatch(c.(trace := []), setup, f), Dispatch(c, setup, f);
    DispatchAppends(c, setup, f);
    NewMessagesAreBounded(c.(trace := []), setup, f);
    assert e.trace == c.trace + d.trace;
    forall i | 0 <= i < |e.trace| && e.trace[i].Message?
      ensures |e.trace[i].data| < MAX_FRAGMENT_SIZE
    {
      assert e.trace[i] == if i < |c.trace| then c.trace[i] else d.trace[i - |c.trace|];
    }
  }

  lemma {:induction false} DispatchAllKeepsBound(c: Conn, setup: Setup, fs: seq<Frame>)
    requires Bounded(c) && forall i :: 0 <= i < |fs| ==> |fs[i].payload| < MAX_FRAGMENT_SIZE
    ensures Bounded(DispatchAll(c, setup, fs))
    decreases |fs|
  {
    hide Dispatch;
    if fs != [] {
      DispatchKeepsBound(c, setup, fs[0]);
      DispatchAllKeepsBound(Dispatch(c, setup, fs[0]), setup, fs[1..]);
    }
  }

  /** A fragmented message is delivered whole exactly when it stays below the limit. */
  lemma WholeMessageIffBelowLimit(c: Conn, setup: Setup, first: Frame, middle: seq<Frame>, last: Frame)
    requires Bounded(c) && setup.callbacks.onMessage
    requires (first.opcode == OP_TEXT || first.opcode == OP_BINARY) && !first.fin
    requires last.opcode == OP_CONTINUATION && last.fin
    requires forall i :: 0 <= i < |middle| ==> IsMiddle(middle[i])
    requires forall i :: 0 <= i < |middle| ==> |middle[i].payload| <= RECV_BUFFER_SIZE
    requires |first.payload| <= RECV_BUFFER_SIZE && |last.payload| <= RECV_BUFFER_SIZE
    ensures var whole := first.payload + Additions(middle) + last.payload;
            Message(first.opcode, whole) in NewEvents(c, setup, [first] + middle + [last])
            <==> |whole| < MAX_FRAGMENT_SIZE
  {
    var fs := [first] + middle + [last];
    var whole := first.payload + Additions(middle) + last.payload;
    if |whole| < MAX_FRAGMENT_SIZE {
      FragmentReassembly(c.(trace := []), setup, first, middle, last);
    } else {
      DispatchAllKeepsBound(c.(trace := []), setup, fs);
    }
  }

  /** Anything that can happen to a connection between its creation and its end. */
  datatype Op = Recv(incoming: seq<byte>) | UserClose(code: nat, reason: seq<byte>) | UserSend(frame: Frame)

  /**
    The socket never delivers more than it was asked for, and no frame whose length wraps; close codes
    have sixteen bits.
   */
  ghost predicate Feasible(s: Stream, op: Op) {
    match op
    case Recv(incoming) => |s.buf| + |incoming| <= RECV_BUFFER_SIZE && !Wraps(s.buf + incoming)
    case UserClose(code, _) => code < 65536
    case UserSend(_) => true
  }

  function Step(s: Stream, setup: Setup, op: Op): Stream
    requires op.UserClose? ==> op.code < 65536
  {
    match op
    case Recv(incoming) => Receive(s, setup, incoming)
    case UserClose(code, reason) => s.(conn := SendClose(s.conn, setup.isClient, code, reason))
    case UserSend(f) => s.(conn := Send(s.conn, setup.isClient, f))
  }

  ghost predicate IsRun(states: seq<Stream>, setup: Setup, ops: seq<Op>) {
    && |states| == |ops| + 1
    && states[0] == Stream(Conn(Open, None, 0, []), [])
    && forall i :: 0 <= i < |ops| ==> Feasible(states[i], ops[i]) && states[i + 1] == Step(states[i], setup, ops[i])
  }

  lemma {:induction false} DrainKeepsBound(c: Conn, setup: Setup, buf: seq<byte>)
    requires Bounded(c) && |buf| <= RECV_BUFFER_SIZE
    ensures Bounded(Drain(c, setup, buf).0)
    decreases |buf|
  {
    hide NextFrame, Dispatch;
    var next := NextFrame(buf);
    if next.Some? {
      var (f, n) := next.value;
      DispatchKeepsBound(c, setup, f);
      DrainKeepsBound(Dispatch(c, setup, f), setup, buf[n..]);
    }
  }

  /** On every run, fragment and messages stay below the limit and the backlog within the buffer. */
  lemma {:induction false} RunsStayBounded(states: seq<Stream>, setup: Setup, ops: seq<Op>, i: nat)
    requires IsRun(states, setup, ops) && i < |states|
    ensures Bounded(states[i].conn) && |states[i].buf| <= RECV_BUFFER_SIZE
  {
    hide Drain;
    if i > 0 {
      RunsStayBounded(states, setup, ops, i - 1);
      var s, op := states[i - 1], ops[i - 1];
      assert Feasible(s, op) && states[i - 1 + 1] == Step(s, setup, op);
      if op.Recv? {
        DrainKeepsBound(s.conn, setup, s.buf + op.incoming);
        DrainLeavesASuffix(s.conn, setup, s.buf + op.incoming);
      }
    }
  }

  // ----- the close handshake

  predicate IsCloseEvent(e: Event) {
    e.CloseReceived? || (e.Sent? && e.frame.opcode == OP_CLOSE)
  }

  function CloseEvents(trace: seq<Event>): seq<Event> {
    if trace == [] then []
    else if IsCloseEvent(trace[0]) then [trace[0]] + CloseEvents(trace[1..])
    else CloseEvents(trace[1..])
  }

  lemma {:induction false} CloseEventsAppend(a: seq<Event>, b: seq<Event>)
    ensures CloseEvents(a + b) == CloseEvents(a) + CloseEvents(b)
  {
    if a == [] {
      assert a + b == b;
    } else {
      assert (a + b)[1..] == a[1..] + b;
      CloseEventsAppend(a[1..], b);
    }
  }

  lemma {:induction false} NoCloseEventsBefore(c: Conn, setup: Setup, fs: seq<Frame>)
    requires forall i :: 0 <= i < |fs| ==> fs[i].opcode != OP_CLOSE
    ensures CloseEvents(DispatchAll(c, setup, fs).trace) == CloseEvents(c.trace)
    ensures DispatchAll(c, setup, fs).state == c.state
    decreases |fs|
  {
    if fs != [] {
      var d := Dispatch(c, setup, fs[0]);
      assert d.trace[..|c.trace|] == c.trace;
      var new_ := d.trace[|c.trace|..];
      assert |new_| <= 1 && CloseEvents(new_) == [];
      assert d.trace == c.trace + new_;
      CloseEventsAppend(c.trace, new_);
      NoCloseEventsBefore(d, setup, fs[1..]);
    }
  }

  /**
    A stream that ends at its first CLOSE reports that CLOSE once, answers it once with the same code
    unless this side has already sent its own, and leaves the connection closed.
   */
  lemma CloseHandshake(c: Conn, setup: Setup, fs: seq<Frame>, close: Frame)
    requires close.opcode == OP_CLOSE && forall i :: 0 <= i < |fs| ==> fs[i].opcode != OP_CLOSE
    ensures var d := DispatchAll(c, setup, fs + [close]);
            && d.state == Closed
            && CloseEvents(d.trace)
               == CloseEvents(c.trace)
                  + CloseReport(setup, close.payload) + CloseEcho(c.state, close.payload)
  {
    NoCloseEventsBefore(c, setup, fs);
    DispatchAllAppend(c, setup, fs, [close]);
    var e := DispatchAll(c, setup, fs);
    var d := Dispatch(e, setup, close);
    assert [close][1..] == [] && DispatchAll(e, setup, [close]) == d;
    var report, echo := CloseReport(setup, close.payload), CloseEcho(c.state, close.payload);
    OnCloseEffect(e, setup, close);
    CloseEventsAppend(e.trace + report, echo);
    CloseEventsAppend(e.trace, report);
    assert CloseEvents(report) == report by {
      assert report != [] ==> report[1..] == [];
    }
    assert CloseEvents(echo) == echo by {
      assert echo != [] ==> echo[1..] == [];
    }
  }

  // ----- control frames

  predicate IsData(f: Frame) {
    f.opcode == OP_CONTINUATION || f.opcode == OP_TEXT || f.opcode == OP_BINARY
  }

  function DataFrames(fs: seq<Frame>): seq<Frame> {
    if fs == [] then []
    else if IsData(fs[0]) then [fs[0]] + DataFrames(fs[1..])
    else DataFrames(fs[1..])
  }

  function Messages(trace: seq<Event>): seq<Event> {
    if trace == [] then []
    else if trace[0].Message? then [trace[0]] + Messages(trace[1..])
    else Messages(trace[1..])
  }

  lemma {:induction false} MessagesAppend(a: seq<Event>, b: seq<Event>)
    ensures Messages(a + b) == Messages(a) + Messages(b)
  {
    if a == [] {
      assert a + b == b;
    } else {
      assert (a + b)[1..] == a[1..] + b;
      MessagesAppend(a[1..], b);
    }
  }

  /** Two connections an application cannot tell apart by its messages, now or later. */
  ghost predicate SameData(c: Conn, d: Conn) {
    c.fragment == d.fragment && c.fragmentOpcode == d.fragmentOpcode && Messages(c.trace) == Messages(d.trace)
  }

  lemma {:induction false} NoMessageAmong(trace: seq<Event>)
    requires forall i :: 0 <= i < |trace| ==> !trace[i].Message?
    ensures Messages(trace) == []
  {
    if trace != [] {
      NoMessageAmong(trace[1..]);
    }
  }

  lemma DispatchKeepsSameData(c: Conn, d: Conn, setup: Setup, f: Frame)
    requires SameData(c, d)
    ensures IsData(f) ==> SameData(Dispatch(c, setup, f), Dispatch(d, setup, f))
    ensures !IsData(f) ==> SameData(Dispatch(c, setup, f), d)
  {
    DispatchAppends(c, setup, f);
    DispatchAppends(d, setup, f);
    var c', d' := Dispatch(c.(trace := []), setup, f), Dispatch(d.(trace := []), setup, f);
    MessagesAppend(c.trace, c'.trace);
    MessagesAppend(d.trace, d'.trace);
    if IsData(f) {
      DataDispatchIgnoresState(c.(trace := []), d.(trace := []), setup, f);
    } else {
      ControlDispatchKeepsData(c.(trace := []), setup, f);
      NoMessageAmong(c'.trace);
    }
  }

  lemma DataDispatchIgnoresState(c: Conn, d: Conn, setup: Setup, f: Frame)
    requires IsData(f) && d == c.(state := d.state)
    ensures Dispatch(d, setup, f) == Dispatch(c, setup, f).(state := d.state)
  {
  }

  lemma ControlDispatchKeepsData(c: Conn, setup: Setup, f: Frame)
    requires !IsData(f) && c.trace == []
    ensures var d := Dispatch(c, setup, f);
            && d.fragment == c.fragment && d.fragmentOpcode == c.fragmentOpcode
            && forall i :: 0 <= i < |d.trace| ==> !d.trace[i].Message?
  {
    if f.opcode == OP_CLOSE {
      OnCloseEffect(c, setup, f);
    }
  }

  /** Control and unknown frames, wherever they are interleaved, change no message. */
  lemma {:induction false} ControlFramesAreTransparent(c: Conn, d: Conn, setup: Setup, fs: seq<Frame>)
    requires SameData(c, d)
    ensures SameData(DispatchAll(c, setup, fs), DispatchAll(d, setup, DataFrames(fs)))
    decreases |fs|
  {
    hide Dispatch;
    if fs != [] {
      var f := fs[0];
      DispatchKeepsSameData(c, d, setup, f);
      if IsData(f) {
        assert DataFrames(fs)[1..] == DataFrames(fs[1..]);
        ControlFramesAreTransparent(Dispatch(c, setup, f), Dispatch(d, setup, f), setup, fs[1..]);
      } else {
        assert DataFrames(fs) == DataFrames(fs[1..]);
        ControlFramesAreTransparent(Dispatch(c, setup, f), d, setup, fs[1..]);
      }
    }
  }
}
