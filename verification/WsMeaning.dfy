/**
  What the frames of a WebSocket stream mean, in terms of the frames and bytes alone (sections 5.4 to
  5.6 of RFC 6455): the effect of each frame, the messages of a stream, and what a frame is on the wire.
 */
module WsMeaning {
  import opened Octets
  import opened Sequences
  import opened WsFrame
  import opened WsStream
  import opened Wrappers

  // ----- one frame

  /**
    A text or binary frame. Alone it is a message; as the first of several it is kept until the others
    arrive. Either way a fragment that was pending is lost, and takes a message in one frame with it.
   */
  lemma DataFrameMeans(c: Conn, setup: Setup, f: Frame)
    requires f.opcode == 0x1 || f.opcode == 0x2
    ensures Dispatch(c, setup, f)
         == if !f.fin then c.(fragment := Some(f.payload), fragmentOpcode := f.opcode)
            else if c.fragment.Some? then c.(fragment := None)
            else if setup.callbacks.onMessage then c.(trace := c.trace + [Message(f.opcode, f.payload)])
            else c
  {
  }

  /** A continuation is dropped when nothing is pending, and when the message would reach ten mebibytes. */
  lemma ContinuationMeans(c: Conn, setup: Setup, f: Frame)
    requires f.opcode == 0x0
    ensures Dispatch(c, setup, f)
         == if c.fragment.None? || |c.fragment.value + f.payload| >= 10 * 1024 * 1024 then c
            else if !f.fin then c.(fragment := Some(c.fragment.value + f.payload))
            else if !setup.callbacks.onMessage then c.(fragment := None)
            else c.(fragment := None, trace := c.trace + [Message(c.fragmentOpcode, c.fragment.value + f.payload)])
  {
  }

  /** The size of a frame on the wire is the one that sending compares with the buffer. */
  lemma FrameSizeIs(f: WireFrame)
    ensures FrameSize(f.key.Some?, |f.payload|) == |Encode(f)|
    ensures |Encode(f)| == |f.payload| + 2 + (if |f.payload| <= 125 then 0 else if |f.payload| <= 0xFFFF then 2 else 8)
                           + (if f.key.Some? then 4 else 0)
  {
  }

  /** A ping is answered with the same payload, pending fragment or not, if the answer fits 65536 bytes. */
  lemma PingMeans(c: Conn, setup: Setup, f: Frame)
    requires f.opcode == 0x9
    ensures Dispatch(c, setup, f)
         == if FrameSize(setup.isClient, |f.payload|) <= 0x1_0000
            then c.(trace := c.trace + [Sent(Frame(true, 0xA, f.payload))]) else c
  {
  }

  /** A pong changes nothing, and a frame of an unknown kind is reported. */
  lemma OtherFrameMeans(c: Conn, setup: Setup, f: Frame)
    requires f.opcode !in {0x0, 0x1, 0x2, 0x8, 0x9}
    ensures Dispatch(c, setup, f)
         == if f.opcode != 0xA && setup.callbacks.onError then c.(trace := c.trace + [UnknownOpcode]) else c
  {
  }

  /** The two bytes of a close code, and the reason behind them; 1005 when there is no code. */
  lemma CloseFrameMeans(c: Conn, setup: Setup, f: Frame)
    requires f.opcode == 0x8
    ensures var code := if |f.payload| < 2 then 1005 else (f.payload[0] as int) * 256 + f.payload[1] as int;
            var reason := if |f.payload| < 2 then [] else f.payload[2..];
            var echo := if |f.payload| < 2 then [0x03, 0xED] else f.payload[..2];
            Dispatch(c, setup, f)
            == c.(state := Closed,
                  trace := c.trace + (if setup.callbacks.onClose then [CloseReceived(code, reason)] else [])
                           + (if c.state == Closing then []
                              else [Sent(Frame(true, 0x8, if code == 0 then [] else echo))]))
  {
    OnCloseEffect(c, setup, f);
    if |f.payload| == 2 {
      assert f.payload[2..] == [];
    }
    hide OnClose;
    var code := CloseCode(f.payload);
    if |f.payload| >= 2 {
      assert code / 256 == f.payload[0] && code % 256 == f.payload[1];
      assert f.payload[..2] == [f.payload[0], f.payload[1]];
    }
    assert ClosePayload(code, []) == if code == 0 then [] else [code / 256, code % 256];
  }

  /** A close that this side sends carries its code and as much of the reason as fits 125 bytes. */
  lemma SentCloseMeans(c: Conn, isClient: bool, code: nat, reason: seq<byte>)
    requires code < 65536
    ensures var sent := SendClose(c, isClient, code, reason);
            && sent.(trace := c.trace) == c.(state := Closing)
            && |sent.trace| == |c.trace| + 1 && sent.trace[..|c.trace|] == c.trace
            && var event := sent.trace[|c.trace|];
               && event.Sent? && event.frame.fin && event.frame.opcode == 0x8
               && (code == 0 ==> event.frame.payload == [])
               && (code > 0 ==> CloseReads(event.frame.payload, code, reason))
  {
    assert FrameSize(isClient, |ClosePayload(code, reason)|) <= RECV_BUFFER_SIZE;
  }

  /** What a receiver reads in a close payload: the code, and the reason up to its 123rd byte. */
  predicate CloseReads(payload: seq<byte>, code: nat, reason: seq<byte>) {
    && 2 <= |payload| <= 125 && (payload[0] as int) * 256 + payload[1] as int == code
    && payload[2..] <= reason && (|payload| < 125 ==> payload[2..] == reason)
  }

  /** The end of the stream, or a failed receive, is reported and closes the connection, once. */
  lemma LostMeans(s: Stream, setup: Setup)
    ensures Receive(s, setup, [])
         == if s.conn.state == Closed then s
            else Stream(Conn(Closed, s.conn.fragment, s.conn.fragmentOpcode,
                             s.conn.trace + if setup.callbacks.onClose then [ConnectionLost] else []), s.buf)
  {
    assert s.conn.trace + [] == s.conn.trace;
  }

  // ----- the messages of a stream

  /** The fragment that is pending, as the beginning of a message. */
  function Pending(c: Conn): Option<Frame> {
    if c.fragment.Some? then Some(Frame(false, c.fragmentOpcode, c.fragment.value)) else None
  }

  /** What a data frame completes, and what it leaves pending. */
  function Said(f: Frame, pending: Option<Frame>): (seq<Event>, Option<Frame>) {
    if f.opcode != 0x0 then
      (if f.fin && pending.None? then [Message(f.opcode, f.payload)] else [],
       if f.fin then None else Some(Frame(false, f.opcode, f.payload)))
    else if pending.None? || |pending.value.payload| + |f.payload| >= 10 * 1024 * 1024 then ([], pending)
    else
      var joined := pending.value.payload + f.payload;
      if f.fin then ([Message(pending.value.opcode, joined)], None)
      else ([], Some(Frame(false, pending.value.opcode, joined)))
  }

  /** The messages that data frames make up, when the beginning of one may have arrived before. */
  function Spoken(fs: seq<Frame>, pending: Option<Frame>): seq<Event> {
    if fs == [] then [] else Said(fs[0], pending).0 + Spoken(fs[1..], Said(fs[0], pending).1)
  }

  lemma OneMoreMessage(trace: seq<Event>, es: seq<Event>)
    requires |es| <= 1 && forall i :: 0 <= i < |es| ==> es[i].Message?
    ensures Messages(trace + es) == Messages(trace) + es
  {
    MessagesAppend(trace, es);
    if es != [] {
      assert es[1..] == [] && [es[0]] + [] == es;
    }
  }

  lemma OneFrameSpeaks(c: Conn, setup: Setup, f: Frame)
    requires setup.callbacks.onMessage && IsData(f)
    ensures var (events, pending) := Said(f, Pending(c));
            var d := Dispatch(c, setup, f);
            Messages(d.trace) == Messages(c.trace) + events && Pending(d) == pending
  {
    hide Messages, Dispatch;
    if f.opcode == 0x0 {
      ContinuationMeans(c, setup, f);
    } else {
      DataFrameMeans(c, setup, f);
    }
    var events := Said(f, Pending(c)).0;
    assert c.trace + [] == c.trace && Dispatch(c, setup, f).trace == c.trace + events;
    OneMoreMessage(c.trace, events);
  }

  lemma {:induction false} DataFramesSpeak(c: Conn, setup: Setup, fs: seq<Frame>)
    requires setup.callbacks.onMessage && forall i :: 0 <= i < |fs| ==> IsData(fs[i])
    ensures Messages(DispatchAll(c, setup, fs).trace) == Messages(c.trace) + Spoken(fs, Pending(c))
    decreases |fs|
  {
    hide Messages, Dispatch, IsData, Said, Pending;
    if fs == [] {
      assert Messages(c.trace) + [] == Messages(c.trace);
    } else {
      OneFrameSpeaks(c, setup, fs[0]);
      DataFramesSpeak(Dispatch(c, setup, fs[0]), setup, fs[1..]);
      Associate(Messages(c.trace), Said(fs[0], Pending(c)).0, Spoken(fs[1..], Said(fs[0], Pending(c)).1));
    }
  }

  lemma {:induction false} DataFramesAreData(fs: seq<Frame>)
    ensures forall i :: 0 <= i < |DataFrames(fs)| ==> IsData(DataFrames(fs)[i])
  {
    if fs != [] {
      DataFramesAreData(fs[1..]);
    }
  }

  /** The messages delivered are those that the data frames make up, whatever other frames are among them. */
  lemma StreamSpeaks(c: Conn, setup: Setup, fs: seq<Frame>)
    requires setup.callbacks.onMessage
    ensures Messages(DispatchAll(c, setup, fs).trace) == Messages(c.trace) + Spoken(DataFrames(fs), Pending(c))
  {
    hide Messages, DispatchAll, DataFrames, Spoken;
    ControlFramesAreTransparent(c, c, setup, fs);
    DataFramesAreData(fs);
    DataFramesSpeak(c, setup, DataFrames(fs));
  }

  // ----- frames on the wire

  /** The front frame of a buffer, by its bits and bytes. */
  lemma FrontFrameIs(buf: seq<byte>)
    requires NextFrame(buf).Some?
    ensures var (f, taken) := NextFrame(buf).value;
            var n := taken - |f.payload|;
            && (f.fin <==> Bit(buf[0], 7)) && 2 <= n <= taken <= |buf|
            && (forall k :: 0 <= k < 8 ==> (Bit(f.opcode, k) <==> k < 4 && Bit(buf[0], k)))
            && (if Bit(buf[1], 7)
                then n >= 6 && forall i :: 0 <= i < |f.payload| ==> AreXor(f.payload[i], buf[n + i], buf[n - 4 + i % 4])
                else f.payload == buf[n..taken])
  {
    hide ParseHeader, Masked, Bit, AreXor;
    var (f, taken) := NextFrame(buf).value;
    var (h, n) := ParseHeader(buf).value;
    HeaderFields(buf);
    if h.mask {
      var body := buf[n..taken];
      forall i | 0 <= i < |f.payload|
        ensures AreXor(f.payload[i], buf[n + i], buf[n - 4 + i % 4])
      {
        MaskedIs(body, h.key, i);
      }
    }
  }

  /**
    A short message in one masked frame: eight bits that say what it is, its length, the key and each byte
    of the payload with the bits flipped that its byte of the key has set.
   */
  lemma MessageOnTheWire(s: Stream, setup: Setup, opcode: byte, key: Key, payload: seq<byte>, sent: seq<byte>)
    requires s.conn.state != Closed && s.buf == [] && s.conn.fragment.None? && setup.callbacks.onMessage
    requires opcode == 0x1 || opcode == 0x2
    requires |sent| == |payload| <= 125 && forall i :: 0 <= i < |sent| ==> AreXor(sent[i], payload[i], key[i % 4])
    ensures Receive(s, setup, [0x80 + opcode, 0x80 + |payload|] + key + sent)
         == Stream(s.conn.(trace := s.conn.trace + [Message(opcode, payload)]), [])
  {
    var bytes := [0x80 + opcode, 0x80 + |payload|] + key + sent;
    var wire := WireFrame(true, opcode, Some(key), payload);
    assert Scrambled(payload, Some(key)) == sent by {
      hide Xor, AreXor;
      forall i | 0 <= i < |sent|
        ensures Masked(payload, key)[i] == sent[i]
      {
        XorIs(sent[i], payload[i], key[i % 4]);
      }
    }
    assert Encode(wire) == bytes by {
      assert LengthBytes(|payload|) == [];
      assert EncodeHeader(wire) == [0x80 + opcode, 0x80 + |payload|] + key;
    }
    OneFrameOnTheWire(s, setup, wire);
    DataFrameMeans(s.conn, setup, Content(wire));
  }

  lemma OneFrameOnTheWire(s: Stream, setup: Setup, wire: WireFrame)
    requires s.conn.state != Closed && s.buf == [] && WellFormed(wire)
    ensures Receive(s, setup, Encode(wire)) == Stream(Dispatch(s.conn, setup, Content(wire)), [])
  {
    hide NextFrame, Dispatch, Encode;
    var bytes := Encode(wire);
    assert s.buf + bytes == bytes && bytes + [] == bytes;
    NextFrameOfEncoding(wire, []);
    var rest := bytes[|bytes|..];
    NothingIsNoFrame(rest);
    assert Drain(s.conn, setup, bytes) == Drain(Dispatch(s.conn, setup, Content(wire)), setup, rest);
  }

  lemma NothingIsNoFrame(buf: seq<byte>)
    requires buf == []
    ensures NextFrame(buf).None?
  {
  }
}
