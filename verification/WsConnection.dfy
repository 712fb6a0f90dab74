/**
  The WebSocket connection object of src/websocket.c: the receive buffer that is unmasked and
  shifted in place, and the loop that empties it. Every method is proved equal to the step it
  stands for in WsStream.
 */
module WsConnection {
  import opened Wrappers
  import opened Octets
  import opened WsFrame
  import opened WsStream

  /** Four bytes from rand. */
  method RandomKey() returns (key: Key) {
    key := *;
  }

  class Connection {
    const isClient: bool
    const recvBuffer: array<byte>
    var state: State
    var recvLen: nat
    var fragment: Option<seq<byte>>
    var fragmentOpcode: byte
    ghost var trace: seq<Event>

    ghost predicate Valid()
      reads this
    {
      recvBuffer.Length == RECV_BUFFER_SIZE && recvLen <= RECV_BUFFER_SIZE
    }

    ghost function Protocol(): Conn
      reads this
    {
      Conn(state, fragment, fragmentOpcode, trace)
    }

    ghost function Abs(): Stream
      requires Valid()
      reads this, recvBuffer
    {
      Stream(Protocol(), recvBuffer[..recvLen])
    }

    constructor (isClient: bool)
      ensures Valid() && fresh(recvBuffer) && this.isClient == isClient
      ensures Abs() == Stream(Conn(Open, None, 0, []), [])
    {
      this.isClient := isClient;
      recvBuffer := new byte[RECV_BUFFER_SIZE];
      state, recvLen, fragment, fragmentOpcode := Open, 0, None, 0;
      trace := [];
    }

    /** Encodes into a local buffer and hands it to send; the event is what a receiver reads back. */
    method SendFrame(fin: bool, opcode: byte, payload: seq<byte>) returns (handed: bool)
      requires opcode < 16 && |payload| < TWO_TO_THE_64
      modifies this`trace
      ensures handed <==> FrameSize(isClient, |payload|) <= RECV_BUFFER_SIZE
      ensures Protocol() == old(Send(Protocol(), isClient, Frame(fin, opcode, payload)))
    {
      hide NextFrame, HeaderBytes, Scrambled;
      var frame := new byte[RECV_BUFFER_SIZE];
      var key := RandomKey();
      var n := EncodeFrame(frame, RECV_BUFFER_SIZE, fin, opcode, payload, isClient, key);
      if n < 0 {
        return false;
      }
      ghost var wire := WireFrame(fin, opcode, if isClient then Some(key) else None, payload);
      NextFrameOfEncoding(wire, []);
      assert Encode(wire) + [] == frame[..n];
      trace := trace + [Sent(NextFrame(frame[..n]).value.0)];
      return true;
    }

    method SendCloseFrame(code: nat, reason: seq<byte>)
      requires code < 65536
      modifies this`trace, this`state
      ensures Protocol() == old(SendClose(Protocol(), isClient, code, reason))
    {
      var payload := [];
      if code != 0 {
        payload := [code / 256, code % 256];
        var reasonLen := |reason|;
        if reasonLen > 123 {
          reasonLen := 123;
        }
        payload := payload + reason[..reasonLen];
        assert |reason| <= 123 ==> reason[..|reason|] == reason;
      }
      state := Closing;
      var _ := SendFrame(true, OP_CLOSE, payload);
    }

    method HandleClose(cb: Callbacks, payload: seq<byte>)
      modifies this`trace, this`state
      ensures Protocol() == old(OnClose(Protocol(), Setup(isClient, cb), Frame(true, OP_CLOSE, payload)))
    {
      var closeCode: nat := CLOSE_NO_STATUS;
      var reason := [];
      if |payload| >= 2 {
        closeCode := (payload[0] as int) * 256 + payload[1];
        if |payload| > 2 {
          reason := payload[2..];
        }
      }
      if cb.onClose {
        trace := trace + [CloseReceived(closeCode, reason)];
      }
      if state != Closing {
        SendCloseFrame(closeCode, []);
      }
      state := Closed;
    }

    method HandleData(cb: Callbacks, fin: bool, opcode: byte, payload: seq<byte>)
      modifies this`trace, this`fragment, this`fragmentOpcode
      ensures Protocol() == old(OnData(Protocol(), cb, Frame(fin, opcode, payload)))
    {
      if !fin {
        fragmentOpcode := opcode;
        fragment := Some(payload);
      } else if fragment.Some? {
        fragment := None;
      } else if cb.onMessage {
        trace := trace + [Message(opcode, payload)];
      }
    }

    method HandleContinuation(cb: Callbacks, fin: bool, payload: seq<byte>)
      modifies this`trace, this`fragment
      ensures Protocol() == old(OnContinuation(Protocol(), cb, Frame(fin, OP_CONTINUATION, payload)))
    {
      if fragment.Some? {
        var newLen := |fragment.value| + |payload|;
        if newLen < MAX_FRAGMENT_SIZE {
          fragment := Some(fragment.value + payload);
          if fin {
            if cb.onMessage {
              trace := trace + [Message(fragmentOpcode, fragment.value)];
            }
            fragment := None;
          }
        }
      }
    }

    method HandleFrame(cb: Callbacks, fin: bool, opcode: byte, payload: seq<byte>)
      requires opcode < 16 && |payload| < TWO_TO_THE_64
      modifies this`trace, this`state, this`fragment, this`fragmentOpcode
      ensures Protocol() == old(Dispatch(Protocol(), Setup(isClient, cb), Frame(fin, opcode, payload)))
    {
      if opcode == OP_TEXT || opcode == OP_BINARY {
        HandleData(cb, fin, opcode, payload);
      } else if opcode == OP_CONTINUATION {
        HandleContinuation(cb, fin, payload);
      } else if opcode == OP_CLOSE {
        HandleClose(cb, payload);
      } else if opcode == OP_PING {
        var _ := SendFrame(true, OP_PONG, payload);
      } else if opcode != OP_PONG && cb.onError {
        trace := trace + [UnknownOpcode];
      }
    }

    /** Removes the first bytes of the buffer. */
    method Shift(n: nat)
      requires Valid() && n <= recvLen
      modifies this`recvLen, recvBuffer
      ensures Valid() && recvBuffer[..recvLen] == old(recvBuffer[n..recvLen])
    {
      forall i | 0 <= i < recvLen - n {
        recvBuffer[i] := recvBuffer[n + i];
      }
      recvLen := recvLen - n;
    }

    /** The payload of the frame at the start of the buffer, unmasked in place. */
    method ExtractPayload(headerLen: nat, header: Header) returns (payload: seq<byte>)
      requires Valid() && headerLen + header.payloadLen <= recvLen
      requires ParseHeader(recvBuffer[..recvLen]) == Some((header, headerLen))
      modifies recvBuffer
      ensures NextFrame(old(recvBuffer[..recvLen]))
           == Some((Frame(header.fin, header.opcode, payload), headerLen + header.payloadLen))
      ensures recvBuffer[headerLen + header.payloadLen..] == old(recvBuffer[headerLen + header.payloadLen..])
    {
      hide ParseHeader, Masked;
      var frameLen := headerLen + header.payloadLen;
      ghost var buf, body := recvBuffer[..recvLen], recvBuffer[headerLen..frameLen];
      assert buf[headerLen..frameLen] == body;
      FrameFromHeader(buf, header, headerLen, body);
      if header.mask {
        DecodePayload(recvBuffer, headerLen, header.payloadLen, header.key);
      }
      payload := recvBuffer[headerLen..frameLen];
    }

    /** One turn of the loop: false when the buffer holds no complete frame. */
    method TakeFrame(cb: Callbacks) returns (taken: bool)
      requires Valid() && !WrapsAtFront(recvBuffer[..recvLen])
      modifies this, recvBuffer
      ensures Valid()
      ensures var s, next := old(Abs()), NextFrame(old(Abs()).buf);
              if next.None? then !taken && Abs() == s
              else
                taken && Abs() == Stream(Dispatch(s.conn, Setup(isClient, cb), next.value.0), s.buf[next.value.1..])
    {
      hide ParseHeader, Masked, Dispatch, FrameLength, WrapsAtFront;
      ghost var buf := recvBuffer[..recvLen];
      var headerLen, header := ParseFrameHeader(recvBuffer, recvLen);
      if headerLen < 0 {
        return false;
      }
      FrameTestIff(buf);
      var frameLen := FrameLength(header, headerLen);
      if recvLen < frameLen {
        return false;
      }
      var payload := ExtractPayload(headerLen, header);
      assert recvBuffer[frameLen..recvLen] == buf[frameLen..];
      OpcodeHasFourBits(buf);
      HandleFrame(cb, header.fin, header.opcode, payload);
      Shift(frameLen);
      return true;
    }

    /** One call on a readable socket; recv delivers the given bytes, or fails when there are none. */
    method Process(cb: Callbacks, incoming: seq<byte>) returns (r: int)
      requires Valid() && |incoming| <= RECV_BUFFER_SIZE - recvLen
      requires state != Closed ==> !Wraps(recvBuffer[..recvLen] + incoming)
      modifies this, recvBuffer
      ensures Valid() && Abs() == old(Receive(Abs(), Setup(isClient, cb), incoming))
      ensures r == if old(state) == Closed || incoming == [] then -1 else 0
    {
      hide NextFrame, Dispatch, WrapsAtFront;
      if state == Closed {
        return -1;
      }
      if incoming == [] {
        if cb.onClose {
          trace := trace + [ConnectionLost];
        }
        state := Closed;
        return -1;
      }
      CopyBytes(recvBuffer, recvLen, incoming);
      recvLen := recvLen + |incoming|;
      assert recvBuffer[..recvLen] == old(recvBuffer[..recvLen]) + incoming;
      ghost var setup := Setup(isClient, cb);
      ghost var outcome := Drain(Protocol(), setup, recvBuffer[..recvLen]);
      while recvLen > 0
        invariant Valid()
        invariant Drain(Protocol(), setup, recvBuffer[..recvLen]) == outcome && !Wraps(recvBuffer[..recvLen])
        decreases recvLen
      {
        var taken := TakeFrame(cb);
        if !taken {
          break;
        }
      }
      assert (Protocol(), recvBuffer[..recvLen]) == outcome;
      return 0;
    }
  }

  lemma OpcodeHasFourBits(buf: seq<byte>)
    requires ParseHeader(buf).Some?
    ensures var opcode := ParseHeader(buf).value.0.opcode; opcode < 16
  {
  }

  lemma FrameFromHeader(buf: seq<byte>, h: Header, n: nat, body: seq<byte>)
    requires ParseHeader(buf) == Some((h, n)) && n + h.payloadLen <= |buf| && body == buf[n..n + h.payloadLen]
    ensures h.mask ==> |h.key| == 4
    ensures NextFrame(buf)
         == Some((Frame(h.fin, h.opcode, if h.mask then Masked(body, h.key) else body), n + h.payloadLen))
  {
    hide ParseHeader, Masked;
  }
}
