/**
  The WebSocket frame codec of src/websocket.c: the header parser, the payload mask and the
  frame encoder (sections 5.2 and 5.3 of RFC 6455).

  Each array method is proved against a function on sequences. The lemmas then relate the
  functions to each other: parsing inverts encoding, masking inverts itself, and the parser's
  answer does not depend on bytes it has not been given yet.
 */
module WsFrame {
  import opened Octets
  import opened Sequences
  import opened Wrappers

  const OP_CONTINUATION: byte := 0x0
  const OP_TEXT: byte := 0x1
  const OP_BINARY: byte := 0x2
  const OP_CLOSE: byte := 0x8
  const OP_PING: byte := 0x9
  const OP_PONG: byte := 0xA

  /** A parsed header. The key is empty when the frame is not masked. */
  datatype Header = Header(fin: bool, opcode: byte, mask: bool, payloadLen: nat, key: seq<byte>)

  // ----- header

  /** The number of bytes a header with these first two bytes occupies. */
  function HeaderLength(second: byte): nat {
    2 + (if LowBits(second) == 126 then 2 else if LowBits(second) == 127 then 8 else 0)
      + (if HighBit(second) then 4 else 0)
  }

  /** The header at the start of the data, with its length; None while bytes are missing. */
  function ParseHeader(data: seq<byte>): (r: Option<(Header, nat)>)
    ensures r.Some? ==> 2 <= r.value.1 <= |data| && (r.value.0.mask ==> |r.value.0.key| == 4)
  {
    if |data| < 2 then None
    else
      var masked := HighBit(data[1]);
      var n := HeaderLength(data[1]);
      if |data| < n then None
      else
        var body := if masked then n - 4 else n;
        var len := if body == 2 then LowBits(data[1]) else FromBigEndian(data[2..body]);
        Some((Header(HighBit(data[0]), data[0] % 16, masked, len, data[body..n]), n))
  }

  lemma PayloadLengthFits(data: seq<byte>)
    requires ParseHeader(data).Some?
    ensures ParseHeader(data).value.0.payloadLen < TWO_TO_THE_64 && ParseHeader(data).value.1 <= 14
  {
    assert Pow256(8) == TWO_TO_THE_64 && Pow256(2) < TWO_TO_THE_64 by {
      assert Pow256(4) == 0x1_0000_0000;
    }
    var n := ParseHeader(data).value.1;
    FromBigEndianFits(data[2..if HighBit(data[1]) then n - 4 else n]);
  }

  /** The eight-byte extended length, shifted in byte by byte. */
  method ReadLength(data: array<byte>) returns (len: nat)
    requires data.Length >= 10
    ensures len == FromBigEndian(data[2..10])
  {
    len := 0;
    for i := 0 to 8
      invariant len == FromBigEndian(data[2..2 + i])
    {
      len := len * 256 + data[2 + i];
      assert data[2..2 + i + 1][..i] == data[2..2 + i];
    }
  }

  lemma FourBytes(s: seq<byte>, p: nat)
    requires p + 2 <= |s|
    ensures s[p..p + 2] == [s[p], s[p + 1]]
    ensures p + 4 <= |s| ==> s[p..p + 4] == [s[p], s[p + 1], s[p + 2], s[p + 3]]
  {
  }

  lemma ArraySlice(data: array<byte>, len: nat, a: nat, b: nat)
    requires a <= b <= len <= data.Length
    ensures data[..len][a..b] == data[a..b]
  {
  }

  method ParseFrameHeader(data: array<byte>, len: nat) returns (headerLen: int, header: Header)
    requires len <= data.Length
    ensures ParseHeader(data[..len]).None? <==> headerLen == -1
    ensures headerLen != -1 ==> ParseHeader(data[..len]) == Some((header, headerLen))
  {
    hide FromBigEndian;
    header := Header(false, 0, false, 0, []);
    ghost var d := data[..len];
    if len < 2 {
      return -1, header;
    }
    var fin := HighBit(data[0]);
    var opcode := data[0] % 16;
    var mask := HighBit(data[1]);
    var payloadLen: nat := LowBits(data[1]);
    headerLen := 2;
    if payloadLen == 126 {
      if len < 4 {
        return -1, header;
      }
      payloadLen := (data[2] as int) * 256 + data[3];
      headerLen := 4;
      FromTwoBytes(data[2], data[3]);
      FourBytes(d, 2);
    } else if payloadLen == 127 {
      if len < 10 {
        return -1, header;
      }
      payloadLen := ReadLength(data);
      headerLen := 10;
      ArraySlice(data, len, 2, 10);
    }
    var key: seq<byte> := [];
    if mask {
      if len < headerLen + 4 {
        return -1, header;
      }
      key := [data[headerLen], data[headerLen + 1], data[headerLen + 2], data[headerLen + 3]];
      FourBytes(d, headerLen);
      headerLen := headerLen + 4;
    }
    header := Header(fin, opcode, mask, payloadLen, key);
    assert headerLen == HeaderLength(d[1]);
    assert key == d[if mask then headerLen - 4 else headerLen..headerLen];
    assert payloadLen == ParseHeader(d).value.0.payloadLen;
  }

  /** A number in four bytes, the most significant first. */
  function FourBytesOf(s: seq<byte>): nat
    requires |s| == 4
  {
    (s[0] as int) * 0x100_0000 + (s[1] as int) * 0x1_0000 + (s[2] as int) * 0x100 + s[3] as int
  }

  /** A number in eight bytes. */
  function EightBytes(s: seq<byte>): nat
    requires |s| == 8
  {
    FourBytesOf(s[..4]) * 0x1_0000_0000 + FourBytesOf(s[4..])
  }

  lemma EightBytesAre(s: seq<byte>)
    requires |s| == 8
    ensures FromBigEndian(s) == EightBytes(s)
  {
    FourBytesAre(s[..4]);
    hide FromBigEndian;
    LastByte(s, 5);
    LastByte(s, 6);
    LastByte(s, 7);
    LastByte(s, 8);
    assert s[..8] == s;
  }

  lemma LastByte(s: seq<byte>, n: nat)
    requires 0 < n <= |s|
    ensures FromBigEndian(s[..n]) == FromBigEndian(s[..n - 1]) * 256 + s[n - 1]
  {
    assert s[..n][..n - 1] == s[..n - 1];
  }

  lemma FourBytesAre(s: seq<byte>)
    requires |s| == 4
    ensures FromBigEndian(s) == FourBytesOf(s)
  {
    assert FromBigEndian([]) == 0;
    hide FromBigEndian;
    LastByte(s, 1);
    LastByte(s, 2);
    LastByte(s, 3);
    LastByte(s, 4);
    assert s[..4] == s && s[..0] == [];
  }

  /**
    The layout of section 5.2 of RFC 6455: the first bit is fin and the last four of its byte the opcode,
    the first bit of the second byte says whether there is a key, and the other seven are the length, or
    say that it is in the next two or eight bytes.
   */
  lemma HeaderFields(data: seq<byte>)
    requires ParseHeader(data).Some?
    ensures var (h, n) := ParseHeader(data).value;
            var code := data[1] % 128;
            && (h.fin <==> Bit(data[0], 7)) && (h.mask <==> Bit(data[1], 7))
            && (forall k :: 0 <= k < 8 ==> (Bit(h.opcode, k) <==> k < 4 && Bit(data[0], k)))
            && n == 2 + (if code == 126 then 2 else if code == 127 then 8 else 0) + (if h.mask then 4 else 0)
            && h.key == (if h.mask then data[n - 4..n] else [])
            && h.payloadLen == (if code == 126 then (data[2] as int) * 0x100 + data[3] as int
                                else if code == 127 then EightBytes(data[2..10]) else code)
  {
    ByteBits(data[0]);
    ByteBits(data[1]);
    var code := data[1] % 128;
    if code == 126 {
      FromTwoBytes(data[2], data[3]);
      assert data[2..4] == [data[2], data[3]];
    } else if code == 127 {
      EightBytesAre(data[2..10]);
    }
    hide FromBigEndian, Bit;
  }

  /** The parser answers exactly when the whole header is there. */
  lemma ParseHeaderWhenComplete(data: seq<byte>)
    ensures ParseHeader(data).Some? <==> |data| >= 2 && |data| >= HeaderLength(data[1])
    ensures ParseHeader(data).Some? ==> ParseHeader(data).value.1 == HeaderLength(data[1]) <= |data|
  {
  }

  /** An answer never changes when more bytes arrive, and no proper prefix of a header gets one. */
  lemma ParseHeaderStable(data: seq<byte>, more: seq<byte>, cut: nat)
    requires ParseHeader(data).Some?
    ensures ParseHeader(data + more) == ParseHeader(data)
    ensures cut < ParseHeader(data).value.1 ==> ParseHeader(data[..cut]) == None
    ensures ParseHeader(data).value.1 <= cut <= |data| ==> ParseHeader(data[..cut]) == ParseHeader(data)
  {
    hide FromBigEndian;
    var n := ParseHeader(data).value.1;
    var body := if HighBit(data[1]) then n - 4 else n;
    SliceOfAppend(data, more, 2, body);
    SliceOfAppend(data, more, body, n);
    if n <= cut <= |data| {
      SliceOfTake(data, cut, 2, body);
      SliceOfTake(data, cut, body, n);
    }
  }

  // ----- masking

  type Key = k: seq<byte> | |k| == 4 witness [0, 0, 0, 0]

  function Masked(payload: seq<byte>, key: Key): (r: seq<byte>)
    ensures |r| == |payload|
  {
    seq(|payload|, i requires 0 <= i < |payload| => Xor(payload[i], key[i % 4]))
  }

  /** A byte of the masked payload has the bits in which the byte and its byte of the key differ. */
  lemma MaskedIs(payload: seq<byte>, key: Key, i: nat)
    requires i < |payload|
    ensures AreXor(Masked(payload, key)[i], payload[i], key[i % 4])
  {
    hide Xor, AreXor;
    XorIs(Masked(payload, key)[i], payload[i], key[i % 4]);
  }

  /** The payload as it travels: masked when there is a key. */
  function Scrambled(payload: seq<byte>, key: Option<Key>): (r: seq<byte>)
    ensures |r| == |payload|
  {
    if key.Some? then Masked(payload, key.value) else payload
  }

  lemma MaskingIsAnInvolution(payload: seq<byte>, key: Key)
    ensures Masked(Masked(payload, key), key) == payload
  {
    hide Xor;
    forall i | 0 <= i < |payload|
      ensures Masked(Masked(payload, key), key)[i] == payload[i]
    {
      XorTwice(payload[i], key[i % 4]);
    }
  }

  method DecodePayload(data: array<byte>, start: nat, len: nat, key: Key)
    requires start + len <= data.Length
    modifies data
    ensures data[start..start + len] == Masked(old(data[start..start + len]), key)
    ensures forall i :: 0 <= i < len ==> AreXor(data[start + i], old(data[start + i]), key[i % 4])
    ensures forall k :: 0 <= k < data.Length && !(start <= k < start + len) ==> data[k] == old(data[k])
  {
    hide Xor, AreXor;
    for i := 0 to len
      invariant forall k :: 0 <= k < data.Length && !(start <= k < start + i) ==> data[k] == old(data[k])
      invariant forall k :: 0 <= k < i ==> data[start + k] == Xor(old(data[start + k]), key[k % 4])
    {
      data[start + i] := Xor(data[start + i], key[i % 4]);
    }
    forall i | 0 <= i < len
      ensures AreXor(data[start + i], old(data[start + i]), key[i % 4])
    {
      XorIs(data[start + i], old(data[start + i]), key[i % 4]);
    }
  }

  // ----- encoding

  /** A frame on the wire. The payload is the unmasked one. */
  datatype WireFrame = WireFrame(fin: bool, opcode: byte, key: Option<Key>, payload: seq<byte>)

  ghost predicate WellFormed(f: WireFrame) {
    f.opcode < 16 && |f.payload| < TWO_TO_THE_64
  }

  function LengthBytes(n: nat): (s: seq<byte>) {
    if n <= 125 then [] else if n <= 0xFFFF then ToBigEndian(n, 2) else ToBigEndian(n, 8)
  }

  function LengthCode(n: nat): (b: byte)
    ensures b <= 127
  {
    if n <= 125 then n else if n <= 0xFFFF then 126 else 127
  }

  function KeyBytes(key: Option<Key>): seq<byte> {
    if key.Some? then key.value else []
  }

  function HeaderBytes(fin: bool, opcode: byte, len: nat, key: Option<Key>): (s: seq<byte>)
    ensures |s| == 2 + |LengthBytes(len)| + |KeyBytes(key)|
  {
    [(if fin then 0x80 else 0x00) + opcode % 16, (if key.Some? then 0x80 else 0x00) + LengthCode(len)]
    + LengthBytes(len) + KeyBytes(key)
  }

  function EncodeHeader(f: WireFrame): seq<byte> {
    HeaderBytes(f.fin, f.opcode, |f.payload|, f.key)
  }

  function Encode(f: WireFrame): (s: seq<byte>)
    ensures |s| >= 2 + |f.payload|
  {
    EncodeHeader(f) + Scrambled(f.payload, f.key)
  }

  /** Sixteen and sixty-four bit lengths are wide enough for the values they are used for. */
  lemma LengthBytesReadBack(n: nat)
    requires n < TWO_TO_THE_64
    ensures n > 125 ==> FromBigEndian(LengthBytes(n)) == n
  {
    assert Pow256(2) == 0x1_0000;
    assert Pow256(8) == TWO_TO_THE_64 by {
      assert Pow256(4) == 0x1_0000_0000;
    }
    if 125 < n <= 0xFFFF {
      BigEndianRoundTrip(n, 2);
    } else if n > 0xFFFF {
      BigEndianRoundTrip(n, 8);
    }
  }

  /** Where the parts of an encoded header lie. */
  lemma EncodedParts(f: WireFrame, rest: seq<byte>)
    ensures var data, n, h := Encode(f) + rest, |f.payload|, |EncodeHeader(f)|;
            var body := 2 + |LengthBytes(n)|;
            && h == body + |KeyBytes(f.key)| <= |data|
            && data[0] == (if f.fin then 0x80 else 0x00) + f.opcode % 16
            && data[1] == (if f.key.Some? then 0x80 else 0x00) + LengthCode(n)
            && data[2..body] == LengthBytes(n)
            && data[body..h] == KeyBytes(f.key)
            && data[h..h + n] == Scrambled(f.payload, f.key)
  {
    hide Xor, ToBigEndian, LengthCode, LengthBytes, KeyBytes, Scrambled, HeaderBytes;
    var data, h, sent := Encode(f) + rest, EncodeHeader(f), Scrambled(f.payload, f.key);
    var body := 2 + |LengthBytes(|f.payload|)|;
    HeaderParts(f.fin, f.opcode, |f.payload|, f.key);
    Associate(h, sent, rest);
    assert data[..|h|] == h && data[|h|..|h| + |f.payload|] == sent;
    assert data[2..body] == h[2..body] && data[body..|h|] == h[body..];
  }

  lemma HeaderParts(fin: bool, opcode: byte, len: nat, key: Option<Key>)
    ensures var h, body := HeaderBytes(fin, opcode, len, key), 2 + |LengthBytes(len)|;
            && h[0] == (if fin then 0x80 else 0x00) + opcode % 16
            && h[1] == (if key.Some? then 0x80 else 0x00) + LengthCode(len)
            && h[2..body] == LengthBytes(len) && h[body..] == KeyBytes(key)
  {
    hide ToBigEndian, LengthCode, LengthBytes, KeyBytes;
  }

  /** Parsing an encoded frame gives back every field, whatever follows it. */
  lemma ParseInvertsEncode(f: WireFrame, rest: seq<byte>)
    requires |f.payload| < TWO_TO_THE_64
    ensures ParseHeader(Encode(f) + rest)
         == Some((Header(f.fin, f.opcode % 16, f.key.Some?, |f.payload|, KeyBytes(f.key)), |EncodeHeader(f)|))
  {
    hide Xor, ToBigEndian, FromBigEndian;
    var data := Encode(f) + rest;
    var n := |f.payload|;
    EncodedParts(f, rest);
    LengthBytesReadBack(n);
  }

  /** Writes the extended length, most significant byte first. */
  method WriteLength(out: array<byte>, len: nat) returns (headerLen: nat)
    requires 2 + |LengthBytes(len)| <= out.Length
    modifies out
    ensures headerLen == 2 + |LengthBytes(len)|
    ensures out[2..headerLen] == LengthBytes(len)
    ensures forall k :: 0 <= k < out.Length && !(2 <= k < headerLen) ==> out[k] == old(out[k])
  {
    if len <= 125 {
      return 2;
    }
    if len <= 0xFFFF {
      ToBigEndianAt(len, 2, 0);
      ToBigEndianAt(len, 2, 1);
      out[2] := len / 256;
      out[3] := len % 256;
      assert ShiftRight(len, 1) == len / 256;
      return 4;
    }
    for i := 0 to 8
      invariant forall k :: 0 <= k < i ==> out[2 + k] == LengthBytes(len)[k]
      invariant forall k :: 0 <= k < out.Length && !(2 <= k < 10) ==> out[k] == old(out[k])
    {
      ToBigEndianAt(len, 8, i);
      out[2 + i] := ShiftRight(len, 7 - i) % 256;
    }
    return 10;
  }

  lemma Assembled(s: seq<byte>, h: nat, k: nat, first: byte, second: byte, length: seq<byte>, key: seq<byte>)
    requires 2 <= h <= k <= |s| && s[0] == first && s[1] == second && s[2..h] == length && s[h..k] == key
    ensures s[..k] == [first, second] + length + key
  {
    assert s[..k] == s[..2] + s[2..h] + s[h..k];
  }

  method WriteHeader(out: array<byte>, fin: bool, opcode: byte, len: nat, key: Option<Key>) returns (headerLen: nat)
    requires |HeaderBytes(fin, opcode, len, key)| <= out.Length
    modifies out
    ensures headerLen == |HeaderBytes(fin, opcode, len, key)|
    ensures out[..headerLen] == HeaderBytes(fin, opcode, len, key)
    ensures forall k :: headerLen <= k < out.Length ==> out[k] == old(out[k])
  {
    hide LengthBytes;
    out[0] := (if fin then 0x80 else 0x00) + opcode % 16;
    var maskBit := if key.Some? then 0x80 else 0x00;
    if len <= 125 {
      out[1] := maskBit + len;
    } else if len <= 0xFFFF {
      out[1] := maskBit + 126;
    } else {
      out[1] := maskBit + 127;
    }
    var second := out[1];
    var bodyAt := WriteLength(out, len);
    assert out[1] == second;
    headerLen := bodyAt;
    if key.Some? {
      CopyBytes(out, headerLen, key.value);
      assert forall k :: 0 <= k < bodyAt - 2 ==> out[2..bodyAt][k] == LengthBytes(len)[k];
      headerLen := headerLen + 4;
    }
    assert out[2..bodyAt] == LengthBytes(len) && out[bodyAt..headerLen] == KeyBytes(key);
    Assembled(out[..], bodyAt, headerLen, out[0], second, LengthBytes(len), KeyBytes(key));
  }

  /** Writes the frame when it fits the given size, and nothing otherwise. */
  method EncodeFrame(out: array<byte>, outSize: nat, fin: bool, opcode: byte, payload: seq<byte>, mask: bool,
                     randomKey: Key)
    returns (n: int)
    requires outSize <= out.Length
    modifies out
    ensures var bytes := Encode(WireFrame(fin, opcode, if mask then Some(randomKey) else None, payload));
            if outSize < |bytes| then n == -1
            else n == |bytes| && out[..n] == bytes
    ensures forall k :: (if n == -1 then 0 else n) <= k < out.Length ==> out[k] == old(out[k])
  {
    hide Xor, LengthCode, ToBigEndian, Masked;
    var key := if mask then Some(randomKey) else None;
    ghost var f := WireFrame(fin, opcode, key, payload);
    var len := |payload|;
    var headerLen := 2;
    if len > 125 {
      headerLen := headerLen + if len <= 0xFFFF then 2 else 8;
    }
    if mask {
      headerLen := headerLen + 4;
    }
    if outSize < headerLen + len {
      return -1;
    }
    headerLen := WriteHeader(out, fin, opcode, len, key);
    ghost var header := out[..headerLen];
    CopyBytes(out, headerLen, payload);
    assert out[..headerLen] == header;
    n := headerLen + len;
    if mask {
      DecodePayload(out, headerLen, len, randomKey);
      assert out[..headerLen] == header;
    }
    assert out[headerLen..n] == Scrambled(payload, key);
    assert out[..n] == out[..headerLen] + out[headerLen..n];
  }

  method CopyBytes(out: array<byte>, at: nat, bytes: seq<byte>)
    requires at + |bytes| <= out.Length
    modifies out
    ensures out[at..at + |bytes|] == bytes
    ensures forall k :: 0 <= k < out.Length && !(at <= k < at + |bytes|) ==> out[k] == old(out[k])
  {
    forall i | 0 <= i < |bytes| {
      out[at + i] := bytes[i];
    }
  }
}
