/**
  Chunked transfer coding of src/cwebhttp.c (section 4.1 of RFC 7230).

  The grammar says which texts are chunked bodies and what they carry, without any cursor. The
  decoder is proved to accept exactly those texts, and to invert the encoder.
 */
module Chunked {
  import opened Octets
  import opened Sequences
  import opened Text
  import opened Wrappers

  const CHUNK_SIZE: nat := 4096

  // ----- hexadecimal

  predicate IsHex(c: char) {
    '0' <= c <= '9' || 'a' <= c <= 'f' || 'A' <= c <= 'F'
  }

  function HexDigit(c: char): (d: nat)
    requires IsHex(c)
    ensures d < 16
  {
    if '0' <= c <= '9' then c as nat - '0' as nat
    else if 'a' <= c <= 'f' then c as nat - 'a' as nat + 10
    else c as nat - 'A' as nat + 10
  }

  predicate AllHex(s: string) {
    forall i :: 0 <= i < |s| ==> IsHex(s[i])
  }

  function HexValue(s: string): nat
    requires AllHex(s)
  {
    if s == [] then 0 else HexValue(s[..|s| - 1]) * 16 + HexDigit(s[|s| - 1])
  }

  /** The size a line announces: the value of its digits in sixty-four bits. */
  function SizeOf(digits: string): (n: nat)
    requires AllHex(digits)
  {
    HexValue(digits) % TWO_TO_THE_64
  }

  // ----- the grammar

  datatype Chunk = Chunk(digits: string, extension: string, data: string)

  /** A size line without its line end: digits, then nothing or an extension. */
  predicate IsSizeLine(digits: string, extension: string) {
    AllHex(digits) && '\r' !in extension && (extension == [] || extension[0] == ';')
  }

  predicate IsChunk(c: Chunk) {
    IsSizeLine(c.digits, c.extension) && SizeOf(c.digits) == |c.data| && c.data != []
  }

  function Line(digits: string, extension: string): string {
    digits + extension + CRLF
  }

  function ChunkText(c: Chunk): string {
    Line(c.digits, c.extension) + c.data + CRLF
  }

  function Texts(chunks: seq<Chunk>): string {
    if chunks == [] then [] else ChunkText(chunks[0]) + Texts(chunks[1..])
  }

  function Datas(chunks: seq<Chunk>): string {
    if chunks == [] then [] else chunks[0].data + Datas(chunks[1..])
  }

  /** Where a chunked body stops: the end of the input, or a line of size zero. */
  ghost predicate IsEnd(tail: string) {
    tail == []
    || (exists digits, extension ::
          IsSizeLine(digits, extension) && SizeOf(digits) == 0 && Line(digits, extension) <= tail)
  }

  ghost predicate Parses(s: string, chunks: seq<Chunk>, tail: string) {
    (forall i :: 0 <= i < |chunks| ==> IsChunk(chunks[i])) && s == Texts(chunks) + tail && IsEnd(tail)
  }

  ghost predicate IsChunked(s: string, body: string) {
    exists chunks, tail :: Parses(s, chunks, tail) && body == Datas(chunks)
  }

  /** Behind these chunks comes a size line whose chunk would end behind the last address there is. */
  ghost predicate WrapsBehind(s: string, at: nat, chunks: seq<Chunk>, digits: string, extension: string) {
    && (forall i :: 0 <= i < |chunks| ==> IsChunk(chunks[i])) && IsSizeLine(digits, extension)
    && Texts(chunks) + Line(digits, extension) <= s
    && at + |Texts(chunks)| + |Line(digits, extension)| + SizeOf(digits) >= TWO_TO_THE_64
  }

  /** A text at this address leads the decoder to such a line. */
  ghost predicate ReachesWrap(s: string, at: nat) {
    exists chunks, digits, extension :: WrapsBehind(s, at, chunks, digits, extension)
  }

  // ----- the decoder as a function

  function HexPrefix(s: string): (k: nat)
    ensures k <= |s| && (k < |s| ==> !IsHex(s[k]))
    ensures forall i :: 0 <= i < k ==> IsHex(s[i])
  {
    if s == [] || !IsHex(s[0]) then 0 else 1 + HexPrefix(s[1..])
  }

  /** The size at the start of the text and the length of its line. */
  function SizeLine(s: string): (r: Option<(nat, nat)>)
    ensures r.Some? ==> r.value.0 < TWO_TO_THE_64 && 2 <= r.value.1 <= |s|
  {
    var k := IndexOf(s, '\r');
    var h := HexPrefix(s);
    if h < k && s[h] != ';' then None
    else if !StartsWithCrlf(s[k..]) then None
    else Some((SizeOf(s[..h]), k + 2))
  }

  function Prepend(done: string, rest: Option<string>): (r: Option<string>)
    ensures r.Some? <==> rest.Some?
    ensures r.Some? ==> |r.value| == |done| + |rest.value|
  {
    if rest.None? then None else Some(done + rest.value)
  }

  function Decode(s: string): (r: Option<string>)
    ensures r.Some? ==> |r.value| <= |s|
    decreases |s|
  {
    if s == [] then Some([])
    else
      var line := SizeLine(s);
      if line.None? then None
      else
        var (size, used) := line.value;
        if size == 0 then Some([])
        else if used + size > |s| || !StartsWithCrlf(s[used + size..]) then None
        else
          Prepend(s[used..used + size], Decode(s[used + size + 2..]))
  }

  /** A text does not reach the last bytes of the address space: looking a few bytes ahead never wraps. */
  predicate IsPlaced(at: nat, len: nat) {
    at + len + 16 <= TWO_TO_THE_64
  }

  function Extended(done: string, rest: Outcome<string>): Outcome<string> {
    if rest.Accepted? then Accepted(done + rest.value) else rest
  }

  /**
    What the code does with a text at an address and a buffer with some room. The end of a chunk is an
    address in sixty-four bits, and the only thing that is checked is that it is not behind the text.
   */
  function DecodeAt(s: string, at: nat, room: nat): (r: Outcome<string>)
    requires IsPlaced(at, |s|)
    ensures r.Accepted? ==> |r.value| <= |s| && |r.value| <= room
    decreases |s|
  {
    hide SizeLine;
    if s == [] then Accepted([])
    else if SizeLine(s).None? then Rejected
    else
      var (size, used) := SizeLine(s).value;
      if size == 0 then Accepted([])
      else if (at + used + size) % TWO_TO_THE_64 > at + |s| then Rejected
      else if used + size > |s| || size > room then Overrun
      else if !StartsWithCrlf(s[used + size..]) then Rejected
      else Extended(s[used..used + size], DecodeAt(s[used + size + 2..], at + used + size + 2, room - size))
  }

  /** The decoder comes to a size line whose chunk would end behind the last address. */
  predicate Wraps(s: string, at: nat)
    decreases |s|
  {
    hide SizeLine;
    s != [] && SizeLine(s).Some? &&
    var (size, used) := SizeLine(s).value;
    at + used + size >= TWO_TO_THE_64
    || (size > 0 && used + size <= |s| && StartsWithCrlf(s[used + size..])
        && Wraps(s[used + size + 2..], at + used + size + 2))
  }

  /** The number of bytes the decoder writes, also when it fails later. */
  function Written(s: string): (n: nat)
    ensures n <= |s|
    decreases |s|
  {
    hide SizeLine;
    if s == [] || SizeLine(s).None? then 0
    else
      var (size, used) := SizeLine(s).value;
      if size == 0 || used + size > |s| then 0
      else if !StartsWithCrlf(s[used + size..]) then size
      else size + Written(s[used + size + 2..])
  }

  lemma {:induction false} WrittenIsDecoded(s: string)
    ensures Decode(s).Some? ==> Written(s) == |Decode(s).value|
    decreases |s|
  {
    hide SizeLine, Prepend;
    if s != [] && SizeLine(s).Some? {
      var (size, used) := SizeLine(s).value;
      if size > 0 && used + size + 2 <= |s| {
        WrittenIsDecoded(s[used + size + 2..]);
      }
    }
  }

  // ----- the decoder accepts exactly the grammar

  lemma SizeLineOfLine(digits: string, extension: string, rest: string)
    requires IsSizeLine(digits, extension)
    ensures SizeLine(Line(digits, extension) + rest) == Some((SizeOf(digits), |Line(digits, extension)|))
  {
    hide SizeOf;
    var s := Line(digits, extension) + rest;
    var h, k := |digits|, |digits| + |extension|;
    assert s[..h] == digits && s[h..k] == extension && s[k] == '\r' && s[k + 1] == '\n';
    assert forall i :: 0 <= i < h ==> s[i] == digits[i];
    assert forall i :: h <= i < k ==> s[i] == extension[i - h];
    assert IndexOf(s, '\r') == k;
    assert HexPrefix(s) == h;
  }

  lemma LineOfSizeLine(s: string) returns (digits: string, extension: string)
    requires SizeLine(s).Some?
    ensures IsSizeLine(digits, extension) && SizeLine(s) == Some((SizeOf(digits), |Line(digits, extension)|))
    ensures Line(digits, extension) == s[..SizeLine(s).value.1]
  {
    hide SizeOf, HexPrefix, IndexOf;
    var k, h := IndexOf(s, '\r'), HexPrefix(s);
    assert h <= k;
    digits, extension := s[..h], s[h..k];
    LineIs(s, h, k);
  }

  lemma LineIs(s: string, h: nat, k: nat)
    requires h <= k <= |s| && StartsWithCrlf(s[k..])
    ensures k + 2 <= |s| && Line(s[..h], s[h..k]) == s[..k + 2]
  {
    assert s[..k] == s[..h] + s[h..k];
    assert s[..k + 2] == s[..k] + s[k..k + 2];
    assert s[k..k + 2] == CRLF;
  }

  /** A chunk gives its data, and decoding goes on behind it. */
  lemma DecodeGoesOn(s: string, size: nat, used: nat)
    requires s != [] && SizeLine(s) == Some((size, used)) && size > 0
    requires used + size <= |s| && StartsWithCrlf(s[used + size..])
    ensures Decode(s) == Prepend(s[used..used + size], Decode(s[used + size + 2..]))
  {
    hide SizeLine;
  }

  /** A chunk in front of a text, as the decoder finds it. */
  lemma ChunkInFront(c: Chunk, more: string)
    requires IsChunk(c)
    ensures var s, used := ChunkText(c) + more, |Line(c.digits, c.extension)|;
            var end := used + |c.data|;
            && SizeLine(s) == Some((|c.data|, used)) && |ChunkText(c)| == end + 2 <= |s| && StartsWithCrlf(s[end..])
            && s[used..end] == c.data != [] && s[end + 2..] == more
  {
    hide SizeLine, SizeOf, IsSizeLine;
    var line := Line(c.digits, c.extension);
    var s := ChunkText(c) + more;
    var tail := c.data + CRLF + more;
    assert s == line + tail;
    SizeLineOfLine(c.digits, c.extension, tail);
    assert s[|line|..|line| + |c.data|] == c.data;
    assert s[|line| + |c.data|..] == CRLF + more;
    assert s[|line| + |c.data| + 2..] == more;
  }

  lemma DecodeOneChunk(c: Chunk, more: string)
    requires IsChunk(c)
    ensures Decode(ChunkText(c) + more) == Prepend(c.data, Decode(more))
  {
    hide SizeLine, IsChunk, Prepend, Decode, ChunkText, Line;
    ChunkInFront(c, more);
    DecodeGoesOn(ChunkText(c) + more, |c.data|, |Line(c.digits, c.extension)|);
  }

  lemma DecodeEnd(tail: string)
    requires IsEnd(tail)
    ensures Decode(tail) == Some([])
  {
    hide SizeLine, SizeOf, Line;
    if tail != [] {
      var digits, extension :|
        IsSizeLine(digits, extension) && SizeOf(digits) == 0 && Line(digits, extension) <= tail;
      var line := Line(digits, extension);
      assert tail == line + tail[|line|..];
      SizeLineOfLine(digits, extension, tail[|line|..]);
    }
  }

  lemma {:induction false} DecodeParsed(chunks: seq<Chunk>, tail: string)
    requires (forall i :: 0 <= i < |chunks| ==> IsChunk(chunks[i])) && IsEnd(tail)
    ensures Decode(Texts(chunks) + tail) == Some(Datas(chunks))
    decreases |chunks|
  {
    hide IsChunk, IsEnd, Decode, ChunkText;
    if chunks == [] {
      assert Texts(chunks) + tail == tail;
      DecodeEnd(tail);
    } else {
      Associate(ChunkText(chunks[0]), Texts(chunks[1..]), tail);
      DecodeOneChunk(chunks[0], Texts(chunks[1..]) + tail);
      DecodeParsed(chunks[1..], tail);
    }
  }

  /** The chunk at the start of a text. */
  lemma FirstChunk(s: string, size: nat, used: nat) returns (c: Chunk, more: string)
    requires SizeLine(s) == Some((size, used)) && size > 0
    requires used + size <= |s| && StartsWithCrlf(s[used + size..])
    ensures IsChunk(c) && s == ChunkText(c) + more && |ChunkText(c)| == used + size + 2
    ensures c.data == s[used..used + size] && more == s[used + size + 2..]
  {
    hide SizeLine, SizeOf, IsSizeLine, Line;
    var digits, extension := LineOfSizeLine(s);
    c := Chunk(digits, extension, s[used..used + size]);
    more := s[used + size + 2..];
    FourParts(s, used, used + size, used + size + 2);
    assert s[used + size..used + size + 2] == CRLF;
  }

  lemma FourParts(s: string, i: nat, j: nat, k: nat)
    requires i <= j <= k <= |s|
    ensures s == s[..i] + s[i..j] + s[j..k] + s[k..]
  {
  }

  lemma {:induction false} ParseDecoded(s: string) returns (chunks: seq<Chunk>, tail: string)
    requires Decode(s).Some?
    ensures Parses(s, chunks, tail) && Decode(s).value == Datas(chunks)
    decreases |s|
  {
    hide IsChunk, ChunkText, SizeOf, IsSizeLine, SizeLine;
    if s == [] {
      return [], [];
    }
    var (size, used) := SizeLine(s).value;
    if size == 0 {
      chunks, tail := [], s;
      assert Texts([]) + s == s;
      var digits, extension := LineOfSizeLine(s);
    } else {
      var c, more := FirstChunk(s, size, used);
      DecodeGoesOn(s, size, used);
      var others;
      others, tail := ParseDecoded(more);
      chunks := [c] + others;
      assert chunks[1..] == others;
      Associate(ChunkText(c), Texts(others), tail);
    }
  }

  lemma ParsedIffChunked(s: string, body: string)
    ensures Decode(s) == Some(body) <==> IsChunked(s, body)
  {
    if Decode(s) == Some(body) {
      var chunks, tail := ParseDecoded(s);
    }
    if IsChunked(s, body) {
      var chunks, tail :| Parses(s, chunks, tail) && body == Datas(chunks);
      DecodeParsed(chunks, tail);
    }
  }

  // ----- how sizes are spelled

  const LOWER_CASE: string := "0123456789abcdef"
  const UPPER_CASE: string := "0123456789ABCDEF"

  /** A digit is worth its place in either alphabet, and nothing else is a digit. */
  lemma HexDigitsAre(c: char)
    ensures IsHex(c) <==> c in LOWER_CASE || c in UPPER_CASE
    ensures forall d :: 0 <= d < 16 ==> HexDigit(LOWER_CASE[d]) == d == HexDigit(UPPER_CASE[d])
  {
    if '0' <= c <= '9' {
      assert LOWER_CASE[c as int - '0' as int] == c;
    } else if 'a' <= c <= 'f' {
      assert LOWER_CASE[c as int - 'a' as int + 10] == c;
    } else if 'A' <= c <= 'F' {
      assert UPPER_CASE[c as int - 'A' as int + 10] == c;
    }
  }

  /** The text spells these digits, each in either case. */
  predicate Spells(text: string, digits: seq<nat>) {
    && |text| == |digits|
    && forall i :: 0 <= i < |digits| ==>
         digits[i] < 16 && (text[i] == LOWER_CASE[digits[i]] || text[i] == UPPER_CASE[digits[i]])
  }

  function Pow16(e: nat): nat {
    if e == 0 then 1 else 16 * Pow16(e - 1)
  }

  /** Every digit counts with the power of sixteen of its place. */
  function Worth(digits: seq<nat>): nat {
    if digits == [] then 0 else digits[0] * Pow16(|digits| - 1) + Worth(digits[1..])
  }

  lemma {:induction false} WorthOfMore(digits: seq<nat>, d: nat)
    ensures Worth(digits + [d]) == Worth(digits) * 16 + d
  {
    var all := digits + [d];
    if digits == [] {
      assert all[1..] == [];
    } else {
      WorthOfMore(digits[1..], d);
      assert all[1..] == digits[1..] + [d];
      assert digits[0] * (16 * Pow16(|digits| - 1)) == (digits[0] * Pow16(|digits| - 1)) * 16;
    }
  }

  /** A size is read as what its digits are worth, with leading zeros and in any mixture of cases. */
  lemma {:induction false} SpelledSizeIsRead(text: string, digits: seq<nat>)
    requires Spells(text, digits)
    ensures AllHex(text) && HexValue(text) == Worth(digits)
    decreases |text|
  {
    hide HexDigit, IsHex;
    forall i | 0 <= i < |text|
      ensures IsHex(text[i])
    {
      HexDigitsAre(text[i]);
    }
    if text != [] {
      var last := |text| - 1;
      SpelledSizeIsRead(text[..last], digits[..last]);
      WorthOfMore(digits[..last], digits[last]);
      assert digits[..last] + [digits[last]] == digits;
      HexDigitsAre(text[last]);
    }
  }

  /** A body in chunks whose sizes are spelled in any way, each with an extension or none. */
  predicate IsFraming(chunks: seq<Chunk>, sizes: seq<seq<nat>>) {
    && |sizes| == |chunks|
    && forall i :: 0 <= i < |chunks| ==>
         && chunks[i].data != [] && |chunks[i].data| < TWO_TO_THE_64
         && Spells(chunks[i].digits, sizes[i]) && Worth(sizes[i]) == |chunks[i].data|
         && '\r' !in chunks[i].extension && (chunks[i].extension == [] || chunks[i].extension[0] == ';')
  }

  lemma AnySpellingDecodes(chunks: seq<Chunk>, sizes: seq<seq<nat>>, rest: string)
    requires IsFraming(chunks, sizes)
    ensures Decode(Texts(chunks) + LAST_CHUNK + rest) == Some(Datas(chunks))
  {
    hide HexValue, Spells, Worth, Decode, Texts, Datas, IsEnd;
    forall i | 0 <= i < |chunks|
      ensures IsChunk(chunks[i])
    {
      SpelledSizeIsRead(chunks[i].digits, sizes[i]);
    }
    LastChunkEnds(rest);
    Associate(Texts(chunks), LAST_CHUNK, rest);
    DecodeParsed(chunks, LAST_CHUNK + rest);
  }

  // ----- the decoder at an address

  /** The test of the code passes what fits, and what wraps. */
  lemma EndTestIs(p: nat, size: nat, end: nat)
    requires p <= end < TWO_TO_THE_64 && size < TWO_TO_THE_64
    ensures (p + size) % TWO_TO_THE_64 > end <==> end < p + size < TWO_TO_THE_64
  {
  }

  /** What the decoder makes of a text in terms of the grammar. */
  predicate DecodesAs(s: string, at: nat, room: nat)
    requires IsPlaced(at, |s|)
  {
    DecodeAt(s, at, room)
    == if Wraps(s, at) || Written(s) > room then Overrun
       else if Decode(s).None? then Rejected
       else Accepted(Decode(s).value)
  }

  /** A whole chunk that there is room for. */
  predicate StartsWithChunk(s: string, size: nat, used: nat, room: nat) {
    && SizeLine(s) == Some((size, used)) && 0 < size <= room && used + size <= |s|
    && StartsWithCrlf(s[used + size..])
  }

  /** A text without such a chunk in front is decided by its size line. */
  lemma DecidedInFront(s: string, at: nat, room: nat)
    requires IsPlaced(at, |s|)
    requires s != [] && SizeLine(s).Some? ==>
               !StartsWithChunk(s, SizeLine(s).value.0, SizeLine(s).value.1, room)
    ensures DecodesAs(s, at, room)
  {
    hide SizeLine, StartsWithCrlf;
    if s != [] && SizeLine(s).Some? {
      var (size, used) := SizeLine(s).value;
      EndTestIs(at + used, size, at + |s|);
    }
  }

  lemma DecidedBehind(s: string, at: nat, room: nat, size: nat, used: nat)
    requires IsPlaced(at, |s|) && s != [] && StartsWithChunk(s, size, used, room)
    requires DecodesAs(s[used + size + 2..], at + used + size + 2, room - size)
    ensures DecodesAs(s, at, room)
  {
    hide SizeLine, StartsWithCrlf;
    EndTestIs(at + used, size, at + |s|);
  }

  /** The code decodes like the grammar, unless it comes to a size that wraps or runs out of room. */
  lemma {:induction false} DecodeAtIs(s: string, at: nat, room: nat)
    requires IsPlaced(at, |s|)
    ensures DecodeAt(s, at, room)
         == if Wraps(s, at) || Written(s) > room then Overrun
            else if Decode(s).None? then Rejected
            else Accepted(Decode(s).value)
    decreases |s|
  {
    hide SizeLine, DecodeAt, Wraps, Written, Decode, IsPlaced;
    if s != [] && SizeLine(s).Some? && StartsWithChunk(s, SizeLine(s).value.0, SizeLine(s).value.1, room) {
      var (size, used) := SizeLine(s).value;
      PlacedBehind(s, at, used + size);
      DecodeAtIs(s[used + size + 2..], at + used + size + 2, room - size);
      DecidedBehind(s, at, room, size, used);
    } else {
      DecidedInFront(s, at, room);
    }
  }

  lemma PlacedBehind(s: string, at: nat, end: nat)
    requires IsPlaced(at, |s|) && end <= |s| && StartsWithCrlf(s[end..])
    ensures end + 2 <= |s| && IsPlaced(at + end + 2, |s[end + 2..]|)
  {
  }

  lemma {:induction false} DecodedDoesNotWrap(s: string, at: nat)
    requires IsPlaced(at, |s|) && Decode(s).Some?
    ensures !Wraps(s, at)
    decreases |s|
  {
    hide SizeLine;
    if s != [] && SizeLine(s).Some? {
      var (size, used) := SizeLine(s).value;
      if size > 0 {
        DecodedDoesNotWrap(s[used + size + 2..], at + used + size + 2);
      }
    }
  }

  lemma {:induction false} WrapIsReached(s: string, at: nat)
    returns (chunks: seq<Chunk>, digits: string, extension: string)
    requires Wraps(s, at)
    ensures WrapsBehind(s, at, chunks, digits, extension)
    decreases |s|
  {
    hide SizeLine, SizeOf, IsSizeLine, IsChunk, ChunkText, Line;
    var (size, used) := SizeLine(s).value;
    if at + used + size >= TWO_TO_THE_64 {
      chunks := [];
      digits, extension := LineOfSizeLine(s);
      assert Texts(chunks) + Line(digits, extension) == Line(digits, extension);
    } else {
      var c, more := FirstChunk(s, size, used);
      var others;
      others, digits, extension := WrapIsReached(more, at + used + size + 2);
      chunks := [c] + others;
      assert chunks[1..] == others;
      Associate(ChunkText(c), Texts(others), Line(digits, extension));
    }
  }

  lemma {:induction false} ReachedWraps(s: string, at: nat, chunks: seq<Chunk>, digits: string, extension: string)
    requires WrapsBehind(s, at, chunks, digits, extension)
    ensures Wraps(s, at)
    decreases |chunks|
  {
    hide SizeLine, SizeOf, IsSizeLine, ChunkText;
    var line := Line(digits, extension);
    if chunks == [] {
      assert Texts(chunks) + line == line;
      assert s == line + s[|line|..];
      SizeLineOfLine(digits, extension, s[|line|..]);
    } else {
      var c, n := chunks[0], |ChunkText(chunks[0])|;
      var more := s[n..];
      Associate(ChunkText(c), Texts(chunks[1..]), line);
      assert s == ChunkText(c) + more;
      ChunkInFront(c, more);
      hide Line;
      ReachedWraps(more, at + n, chunks[1..], digits, extension);
    }
  }

  lemma WrapsIffReached(s: string, at: nat)
    ensures Wraps(s, at) <==> ReachesWrap(s, at)
  {
    hide WrapsBehind, Wraps;
    if Wraps(s, at) {
      var chunks, digits, extension := WrapIsReached(s, at);
    }
    if ReachesWrap(s, at) {
      var chunks, digits, extension :| WrapsBehind(s, at, chunks, digits, extension);
      ReachedWraps(s, at, chunks, digits, extension);
    }
  }

  /**
    Soundness and completeness: the code decodes a text to a body exactly when the grammar says that the
    text carries it and there is room for it. It leaves its buffers exactly when it comes to a size line
    whose chunk would end behind the last address, or decodes more than there is room for.
   */
  lemma DecodeIffChunked(s: string, at: nat, room: nat, body: string)
    requires IsPlaced(at, |s|)
    ensures DecodeAt(s, at, room) == Accepted(body) <==> IsChunked(s, body) && |body| <= room
    ensures DecodeAt(s, at, room) == Overrun <==> ReachesWrap(s, at) || Written(s) > room
  {
    hide DecodeAt, Wraps, Decode, Written, IsChunked, ReachesWrap;
    DecodeAtIs(s, at, room);
    WrapsIffReached(s, at);
    ParsedIffChunked(s, body);
    WrittenIsDecoded(s);
    if Decode(s).Some? {
      DecodedDoesNotWrap(s, at);
    }
  }

  /** Without an overrun, the code decodes like the grammar. */
  lemma DecodedIs(s: string, at: nat, room: nat)
    requires IsPlaced(at, |s|) && !DecodeAt(s, at, room).Overrun?
    ensures DecodeAt(s, at, room) == if Decode(s).None? then Rejected else Accepted(Decode(s).value)
  {
    hide DecodeAt, Wraps, Decode, Written;
    DecodeAtIs(s, at, room);
  }

  // ----- the encoder as a function

  function HexChar(d: nat): (c: char)
    requires d < 16
    ensures IsHex(c) && HexDigit(c) == d
  {
    if d < 10 then '0' + d as char else 'a' + (d - 10) as char
  }

  /** Lower-case hexadecimal without leading zeros. */
  function HexText(n: nat): (s: string)
    ensures s != [] && AllHex(s)
  {
    if n < 16 then [HexChar(n)] else HexText(n / 16) + [HexChar(n % 16)]
  }

  const LAST_CHUNK: string := "0\r\n\r\n"

  function FirstSize(body: string): (n: nat)
    ensures n <= |body| && (body != [] ==> n > 0)
  {
    if |body| < CHUNK_SIZE then |body| else CHUNK_SIZE
  }

  function Encode(body: string): string
    decreases |body|
  {
    if body == [] then LAST_CHUNK
    else
      var n := FirstSize(body);
      HexText(n) + CRLF + body[..n] + CRLF + Encode(body[n..])
  }

  // ----- the decoder inverts the encoder

  lemma {:induction false} HexTextValue(n: nat)
    ensures HexValue(HexText(n)) == n
  {
    var s := HexText(n);
    if n < 16 {
      assert s[..0] == [];
    } else {
      HexTextValue(n / 16);
      assert s[..|s| - 1] == HexText(n / 16);
    }
  }

  function ChunksOf(body: string): seq<Chunk>
    decreases |body|
  {
    if body == [] then []
    else
      var n := FirstSize(body);
      [Chunk(HexText(n), [], body[..n])] + ChunksOf(body[n..])
  }

  lemma FirstEncodedChunk(body: string)
    requires body != []
    ensures ChunksOf(body) != []
    ensures var n, first := FirstSize(body), ChunksOf(body)[0];
            && IsChunk(first) && first.data == body[..n]
            && Encode(body) == ChunkText(first) + Encode(body[n..])
            && ChunksOf(body)[1..] == ChunksOf(body[n..])
  {
    hide HexText, HexValue;
    var n := FirstSize(body);
    HexTextValue(n);
    assert HexText(n) + [] == HexText(n);
  }

  lemma {:induction false} EncodeIsTexts(body: string)
    ensures Encode(body) == Texts(ChunksOf(body)) + LAST_CHUNK
    decreases |body|
  {
    if body != [] {
      FirstEncodedChunk(body);
      hide ChunkText, Encode, ChunksOf, IsChunk;
      var n, chunks := FirstSize(body), ChunksOf(body);
      EncodeIsTexts(body[n..]);
      Associate(ChunkText(chunks[0]), Texts(chunks[1..]), LAST_CHUNK);
    }
  }

  lemma {:induction false} ChunksCarryTheBody(body: string)
    ensures Datas(ChunksOf(body)) == body
    ensures forall i :: 0 <= i < |ChunksOf(body)| ==> IsChunk(ChunksOf(body)[i])
    decreases |body|
  {
    if body != [] {
      FirstEncodedChunk(body);
      hide ChunkText, Encode, ChunksOf, IsChunk;
      var n, chunks := FirstSize(body), ChunksOf(body);
      ChunksCarryTheBody(body[n..]);
      assert forall i :: 0 < i < |chunks| ==> chunks[i] == chunks[1..][i - 1];
      assert body == body[..n] + body[n..];
    }
  }

  lemma LastChunkEnds(rest: string)
    ensures IsEnd(LAST_CHUNK + rest)
  {
    var digits, tail := "0", LAST_CHUNK + rest;
    assert digits[..0] == [] && HexValue(digits) == HexDigit('0') == 0;
    assert IsSizeLine(digits, []);
    assert Line(digits, []) == "0\r\n" == tail[..3];
  }

  /** Decoding gives back every encoded body, whatever follows it. */
  lemma DecodeInvertsEncode(body: string, rest: string)
    ensures Decode(Encode(body) + rest) == Some(body)
  {
    hide Decode, Encode, Texts, Datas, ChunksOf, IsChunk, IsEnd;
    EncodeIsTexts(body);
    ChunksCarryTheBody(body);
    LastChunkEnds(rest);
    Associate(Texts(ChunksOf(body)), LAST_CHUNK, rest);
    DecodeParsed(ChunksOf(body), LAST_CHUNK + rest);
  }

  /** So does the code, wherever the text lies, exactly when the body has room. */
  lemma DecodeAtInvertsEncode(body: string, rest: string, at: nat, room: nat)
    requires IsPlaced(at, |Encode(body) + rest|)
    ensures DecodeAt(Encode(body) + rest, at, room) == if |body| <= room then Accepted(body) else Overrun
  {
    hide DecodeAt, Wraps, Decode, Encode, Written;
    var s := Encode(body) + rest;
    DecodeInvertsEncode(body, rest);
    DecodeAtIs(s, at, room);
    DecodedDoesNotWrap(s, at);
    WrittenIsDecoded(s);
  }

  lemma FullChunkDigits()
    ensures |HexText(CHUNK_SIZE)| == 4
  {
    assert |HexText(0x1)| == 1 && |HexText(0x10)| == 2 && |HexText(0x100)| == 3;
  }

  /** Eight bytes of framing per full chunk, the digits and four for a shorter one, five for the end. */
  lemma {:induction false} EncodedLength(body: string)
    ensures var r := |body| % 4096;
            |Encode(body)|
            == |body| + 8 * (|body| / 4096) + (if r > 0 then |HexText(r)| + 4 else 0) + 5
    decreases |body|
  {
    hide HexText;
    if body != [] {
      var n := FirstSize(body);
      EncodedLength(body[n..]);
      FullChunkDigits();
      assert |Encode(body)| == |HexText(n)| + 2 + n + 2 + |Encode(body[n..])|;
      if n == CHUNK_SIZE {
        assert |body| / CHUNK_SIZE == 1 + |body[n..]| / CHUNK_SIZE;
      }
    }
  }

  // ----- the two loops over buffers

  datatype Error = Ok | ParseError

  lemma HexValueStep(s: string, c: char)
    requires AllHex(s) && IsHex(c)
    ensures AllHex(s + [c]) && SizeOf(s + [c]) == (SizeOf(s) * 16 + HexDigit(c)) % TWO_TO_THE_64
  {
    assert (s + [c])[..|s|] == s;
    assert HexValue(s + [c]) == HexValue(s) * 16 + HexDigit(c);
    WrapStep(HexValue(s), HexDigit(c));
  }

  lemma WrapStep(v: nat, d: nat)
    ensures (v * 16 + d) % TWO_TO_THE_64 == ((v % TWO_TO_THE_64) * 16 + d) % TWO_TO_THE_64
  {
    var m := TWO_TO_THE_64;
    var q, r := v / m, v % m;
    var small := r * 16 + d;
    assert v == q * m + r;
    assert v * 16 + d == (q * 16 + small / m) * m + small % m;
    RemainderIs(v * 16 + d, m, q * 16 + small / m, small % m);
  }

  /** Moves to the next carriage return. */
  method SkipToCr(buf: string, start: nat) returns (p: nat)
    requires start <= |buf|
    ensures p == start + IndexOf(buf[start..], '\r')
  {
    p := start;
    while p < |buf| && buf[p] != '\r'
      invariant start <= p <= |buf|
      invariant forall i :: start <= i < p ==> buf[i] != '\r'
    {
      p := p + 1;
    }
  }

  /** Reads hexadecimal digits up to a line end or an extension; fails on any other character. */
  method ReadDigits(buf: string, start: nat) returns (ok: bool, size: nat, p: nat)
    requires start <= |buf|
    ensures p == start + HexPrefix(buf[start..]) && size == SizeOf(buf[start..p])
    ensures ok <==> (p == |buf| || buf[p] == '\r' || buf[p] == ';')
  {
    hide SizeOf, HexPrefix, IsHex, AllHex, HexDigit;
    p, size := start, 0;
    assert buf[start..p] == [];
    NothingIsZero();
    while p < |buf| && buf[p] != '\r' && buf[p] != ';'
      invariant start <= p <= |buf|
      invariant AllHex(buf[start..p]) && size == SizeOf(buf[start..p])
    {
      if !IsHex(buf[p]) {
        DigitsEnd(buf, start, p);
        return false, size, p;
      }
      OneMoreDigit(buf, start, p);
      size := (size * 16 + HexDigit(buf[p])) % TWO_TO_THE_64;
      p := p + 1;
    }
    DigitsEnd(buf, start, p);
    return true, size, p;
  }

  lemma OneMoreDigit(buf: string, start: nat, p: nat)
    requires start <= p < |buf| && AllHex(buf[start..p]) && IsHex(buf[p])
    ensures AllHex(buf[start..p + 1])
    ensures SizeOf(buf[start..p + 1]) == (SizeOf(buf[start..p]) * 16 + HexDigit(buf[p])) % TWO_TO_THE_64
  {
    hide SizeOf, HexDigit, IsHex;
    HexValueStep(buf[start..p], buf[p]);
    assert buf[start..p + 1] == buf[start..p] + [buf[p]];
  }

  lemma DigitsEnd(buf: string, start: nat, p: nat)
    requires start <= p <= |buf| && AllHex(buf[start..p])
    requires p < |buf| ==> !IsHex(buf[p]) || buf[p] == '\r' || buf[p] == ';'
    ensures p == start + HexPrefix(buf[start..])
  {
    hide HexPrefix;
    assert buf[start..][..p - start] == buf[start..p];
    HexPrefixIs(buf[start..], p - start);
  }

  lemma NothingIsZero()
    ensures AllHex([]) && SizeOf([]) == 0
  {
  }

  lemma HexPrefixIs(s: string, h: nat)
    requires h <= |s| && AllHex(s[..h]) && (h < |s| ==> !IsHex(s[h]))
    ensures HexPrefix(s) == h
  {
    assert forall i :: 0 <= i < h ==> s[i] == s[..h][i];
  }

  method ReadSizeLine(buf: string, start: nat) returns (ok: bool, size: nat, p: nat)
    requires start < |buf|
    ensures var line := SizeLine(buf[start..]);
            if ok then line == Some((size, p - start)) && start < p <= |buf| else line.None?
  {
    hide SizeOf, HexPrefix, IndexOf, SizeLine;
    ghost var s := buf[start..];
    ok, size, p := ReadDigits(buf, start);
    ghost var h := p - start;
    if !ok {
      NotASizeLine(s, h);
      return;
    }
    p := SkipToCr(buf, p);
    IndexOfSuffix(s, '\r', h);
    assert s[..h] == buf[start..start + h] && s[h..] == buf[start + h..];
    SizeLineIs(s, h, p - start);
    if p + 1 >= |buf| || buf[p] != '\r' || buf[p + 1] != '\n' {
      return false, size, p;
    }
    return true, size, p + 2;
  }

  lemma SizeLineIs(s: string, h: nat, k: nat)
    requires HexPrefix(s) == h && IndexOf(s, '\r') == k && (h < k ==> s[h] == ';')
    ensures SizeLine(s)
         == if k + 1 < |s| && s[k] == '\r' && s[k + 1] == '\n' then Some((SizeOf(s[..h]), k + 2)) else None
  {
    hide HexPrefix, SizeOf;
  }

  lemma NotASizeLine(s: string, h: nat)
    requires h < |s| && forall i :: 0 <= i < h ==> IsHex(s[i])
    requires !IsHex(s[h]) && s[h] != '\r' && s[h] != ';'
    ensures SizeLine(s).None?
  {
    assert HexPrefix(s) == h;
  }

  lemma ExtendedTwice(a: string, b: string, rest: Outcome<string>)
    ensures Extended(a, Extended(b, rest)) == Extended(a + b, rest)
    ensures Extended([], rest) == rest && Extended(a, Accepted([])) == Accepted(a)
  {
    assert a + [] == a;
    if rest.Accepted? {
      Associate(a, b, rest.value);
      assert [] + rest.value == rest.value;
    }
  }

  lemma CrlfBehindData(buf: string, p: nat, end: nat)
    requires p <= end <= |buf|
    ensures StartsWithCrlf(buf[p..][end - p..]) <==> CrlfAt(buf, end)
    ensures CrlfAt(buf, end) ==> end + 2 <= |buf|
  {
    DropOfDrop(buf, p, end);
  }

  /** One turn of the decoding loop, in terms of the whole text. */
  lemma DecodeAtStep(done: string, buf: string, p: nat, size: nat, q: nat, at: nat, room: nat)
    requires p < |buf| && p <= q <= |buf| && IsPlaced(at, |buf|)
    requires SizeLine(buf[p..]) == Some((size, q - p))
    ensures var r := DecodeAt(buf[p..], at + p, room);
            if size == 0 then r == Accepted([])
            else if (at + q + size) % TWO_TO_THE_64 > at + |buf| then r == Rejected
            else if q + size > |buf| || size > room then r == Overrun
            else if !CrlfAt(buf, q + size) then r == Rejected
            else
              Extended(done, r)
              == Extended(done + buf[q..q + size], DecodeAt(buf[q + size + 2..], at + q + size + 2, room - size))
  {
    hide SizeLine, Extended, StartsWithCrlf, CrlfAt;
    if 0 < size && q + size <= |buf| {
      CrlfBehindData(buf, p, q + size);
      assert buf[p..][q - p..q - p + size] == buf[q..q + size];
      if size <= room && CrlfAt(buf, q + size) {
        DropOfDrop(buf, p, q + size + 2);
        ExtendedTwice(done, buf[q..q + size], DecodeAt(buf[q + size + 2..], at + q + size + 2, room - size));
      }
    }
  }

  method DecodeChunked(buf: string, at: nat, out: array<char>) returns (err: Error, outLen: nat)
    requires IsPlaced(at, |buf|) && !DecodeAt(buf, at, out.Length).Overrun?
    modifies out
    ensures outLen <= out.Length
    ensures DecodeAt(buf, at, out.Length) == if err == Ok then Accepted(out[..outLen]) else Rejected
  {
    hide DecodeAt, SizeLine, Extended;
    var p := 0;
    outLen := 0;
    assert buf[0..] == buf && out[..0] == [];
    ExtendedTwice([], [], DecodeAt(buf, at, out.Length));
    while p < |buf|
      invariant p <= |buf| && outLen <= out.Length
      invariant DecodeAt(buf, at, out.Length)
             == Extended(out[..outLen], DecodeAt(buf[p..], at + p, out.Length - outLen))
    {
      var ok, size, q := ReadSizeLine(buf, p);
      if !ok {
        NoSizeLine(out[..outLen], buf[p..], at + p, out.Length - outLen);
        return ParseError, 0;
      }
      DecodeAtStep(out[..outLen], buf, p, size, q, at, out.Length - outLen);
      if size == 0 {
        ExtendedTwice(out[..outLen], [], Rejected);
        return Ok, outLen;
      }
      if (at + q + size) % TWO_TO_THE_64 > at + |buf| {
        PassedOn(out[..outLen]);
        return ParseError, 0;
      }
      PassedOn(out[..outLen]);
      outLen := Append(out, outLen, buf[q..q + size]);
      if q + size + 1 >= |buf| || buf[q + size] != '\r' || buf[q + size + 1] != '\n' {
        return ParseError, 0;
      }
      p := q + size + 2;
    }
    NothingDecodes(out[..outLen], buf[p..], at + p, out.Length - outLen);
    return Ok, outLen;
  }

  lemma PassedOn(done: string)
    ensures Extended(done, Rejected) == Rejected && Extended(done, Overrun) == Overrun
  {
  }

  lemma NoSizeLine(done: string, s: string, at: nat, room: nat)
    requires s != [] && SizeLine(s).None? && IsPlaced(at, |s|)
    ensures Extended(done, DecodeAt(s, at, room)) == Rejected
  {
  }

  lemma NothingDecodes(done: string, s: string, at: nat, room: nat)
    requires s == [] && IsPlaced(at, |s|)
    ensures Extended(done, DecodeAt(s, at, room)) == Accepted(done)
  {
    assert done + [] == done;
  }

  method Append(out: array<char>, at: nat, text: string) returns (end: nat)
    requires at + |text| <= out.Length
    modifies out
    ensures end == at + |text| && out[..end] == old(out[..at]) + text
  {
    forall i | 0 <= i < |text| {
      out[at + i] := text[i];
    }
    end := at + |text|;
  }

  lemma EncodeStep(done: string, body: string, p: nat)
    requires p < |body|
    ensures var n := FirstSize(body[p..]);
            done + Encode(body[p..])
            == (((done + (HexText(n) + CRLF)) + body[p..p + n]) + CRLF) + Encode(body[p + n..])
  {
    hide HexText;
    var rest := body[p..];
    var n := FirstSize(rest);
    assert rest[..n] == body[p..p + n] && rest[n..] == body[p + n..];
    var head, data, tail := HexText(n) + CRLF, body[p..p + n], Encode(body[p + n..]);
    assert Encode(rest) == ((head + data) + CRLF) + tail;
    assert done + (((head + data) + CRLF) + tail) == (((done + head) + data) + CRLF) + tail;
  }

  method EncodeChunked(body: string, out: array<char>) returns (outLen: nat)
    requires |Encode(body)| <= out.Length
    modifies out
    ensures outLen == |Encode(body)| && out[..outLen] == Encode(body)
  {
    hide Encode, HexText;
    outLen := 0;
    var p, remaining := 0, |body|;
    assert body[0..] == body;
    while remaining > 0
      invariant 0 <= p <= |body| && p + remaining == |body| && outLen <= out.Length
      invariant out[..outLen] + Encode(body[p..]) == Encode(body)
    {
      var current := if remaining < CHUNK_SIZE then remaining else CHUNK_SIZE;
      EncodeStep(out[..outLen], body, p);
      outLen := Append(out, outLen, HexText(current) + CRLF);
      outLen := Append(out, outLen, body[p..p + current]);
      p, remaining := p + current, remaining - current;
      outLen := Append(out, outLen, CRLF);
    }
    NothingEncodes(body[p..]);
    outLen := Append(out, outLen, LAST_CHUNK);
  }

  lemma NothingEncodes(s: string)
    requires s == []
    ensures Encode(s) == LAST_CHUNK
  {
  }
}
