/**
  The cursor loops of src/cwebhttp.c over character buffers, each proved equal to the function on
  texts that the other HTTP modules reason about.
 */
module HttpBuffers {
  import Chunked
  import Request = HttpRequest
  import Response = HttpResponse
  import opened HttpHeaders
  import opened Sequences
  import opened Text
  import opened Wrappers

  // ----- searches

  method FindChar(buf: array<char>, start: nat, end: nat, c: char) returns (p: nat)
    requires start <= end <= buf.Length
    ensures p == IndexFrom(buf[..end], start, c)
  {
    p := start;
    while p < end && buf[p] != c
      invariant start <= p <= end
      invariant IndexFrom(buf[..end], start, c) == IndexFrom(buf[..end], p, c)
    {
      p := p + 1;
    }
  }

  method SkipWs(buf: array<char>, start: nat, end: nat) returns (p: nat)
    requires start <= end <= buf.Length
    ensures p == SkipBlanks(buf[..end], start)
  {
    p := start;
    while p < end && (buf[p] == ' ' || buf[p] == '\t')
      invariant start <= p <= end
      invariant SkipBlanks(buf[..end], start) == SkipBlanks(buf[..end], p)
    {
      p := p + 1;
    }
  }

  method SkipToCrlf(buf: array<char>, start: nat, end: nat) returns (p: nat)
    requires start <= end <= buf.Length
    ensures p == CrlfFrom(buf[..end], start)
  {
    p := start;
    while p + 1 < end && !(buf[p] == '\r' && buf[p + 1] == '\n')
      invariant start <= p <= end
      invariant CrlfFrom(buf[..end], start) == CrlfFrom(buf[..end], p)
    {
      p := p + 1;
    }
  }

  method Matches(buf: array<char>, p: nat, end: nat, text: string) returns (b: bool)
    requires p <= end <= buf.Length
    ensures b == At(buf[..end], p, text)
  {
    if p + |text| > end {
      return false;
    }
    assert buf[..end][p..p + |text|] == buf[p..p + |text|];
    return buf[p..p + |text|] == text;
  }

  method IsCrlf(buf: array<char>, p: nat, end: nat) returns (b: bool)
    requires end <= buf.Length
    ensures b == CrlfAt(buf[..end], p)
  {
    return p + 1 < end && buf[p] == '\r' && buf[p + 1] == '\n';
  }

  // ----- headers

  method ReadHeader(buf: array<char>, p: nat, end: nat) returns (line: Option<(nat, nat)>)
    requires p <= end <= buf.Length
    ensures line == ParseHeader(buf[..end], p)
  {
    var colon := FindChar(buf, p, end, ':');
    if colon >= end {
      return None;
    }
    var valueAt := SkipWs(buf, colon + 1, end);
    var valueEnd := SkipToCrlf(buf, valueAt, end);
    if valueEnd + 1 >= end {
      return None;
    }
    return Some((valueAt, valueEnd + 2));
  }

  /** The headers read so far in front of those that follow. */
  ghost function Resumed(slots: seq<Slot>, rest: Option<(seq<Slot>, nat)>): Option<(seq<Slot>, nat)> {
    if rest.None? then None else Some((slots + rest.value.0, rest.value.1))
  }

  lemma ResumedStep(slots: seq<Slot>, slot: Slot, rest: Option<(seq<Slot>, nat)>)
    ensures Resumed(slots, Preceded(slot, rest)) == Resumed(slots + [slot], rest)
  {
    if rest.Some? {
      Associate(slots, [slot], rest.value.0);
    }
  }

  lemma ResumedEnds(slots: seq<Slot>, p: nat)
    ensures Resumed(slots, Some(([], p))) == Some((slots, p))
  {
    assert slots + [] == slots;
  }

  lemma ResumedStarts(rest: Option<(seq<Slot>, nat)>)
    ensures Resumed([], rest) == rest
  {
    if rest.Some? {
      assert [] + rest.value.0 == rest.value.0;
    }
  }

  lemma NothingResumes(slots: seq<Slot>)
    ensures Resumed(slots, None) == None
  {
  }

  lemma NoHeaderEnds(s: string, p: nat, count: nat)
    requires p <= |s| && (p == |s| || count >= MAX_HEADERS || (!CrlfAt(s, p) && ParseHeader(s, p).None?))
    ensures ParseHeaders(s, p, count) == Some(([], p))
  {
  }

  /** Fills the table of a request or response; a buffer with more header lines would overrun it. */
  method ReadHeaders(buf: array<char>, start: nat, end: nat, table: array<Slot>) returns (n: nat, p: nat)
    requires start <= end <= buf.Length && table.Length == HEADER_SLOTS
    requires HeaderLines(buf[..end], start) <= HEADER_SLOTS
    modifies table
    ensures n <= table.Length && ParseHeaders(buf[..end], start, 0) == Some((table[..n], p))
  {
    hide ParseHeader, ParseHeaders, HeaderLines, Resumed;
    ghost var s := buf[..end];
    n, p := 0, start;
    TableIsOverrunIff(s, start, 0);
    assert table[..0] == [];
    ResumedStarts(ParseHeaders(s, p, 0));
    while p < end && n < MAX_HEADERS
      invariant start <= p <= end && n <= table.Length
      invariant ParseHeaders(s, start, 0) == Resumed(table[..n], ParseHeaders(s, p, n))
      decreases end - p
    {
      var atEnd := IsCrlf(buf, p, end);
      if atEnd {
        ParseHeadersEnd(s, p, n);
        p := p + 2;
        ResumedEnds(table[..n], p);
        return;
      }
      var line := ReadHeader(buf, p, end);
      if line.None? {
        NoHeaderEnds(s, p, n);
        ResumedEnds(table[..n], p);
        return;
      }
      ParseHeadersStep(s, p, n);
      ghost var had := table[..n];
      NothingResumes(had);
      ResumedStep(had, Slot(p, line.value.0), ParseHeaders(s, line.value.1, n + 1));
      table[n] := Slot(p, line.value.0);
      assert table[..n + 1] == had + [Slot(p, line.value.0)];
      n := n + 1;
      p := line.value.1;
    }
    ResumedEnds(table[..n], p);
    NoHeaderEnds(s, p, n);
  }

  // ----- requests

  method ReadMethod(buf: array<char>, end: nat) returns (methodEnd: Option<nat>)
    requires end <= buf.Length
    ensures var s, k := buf[..end], IndexFrom(buf[..end], 0, ' ');
            methodEnd == if k < |s| && Request.IsMethod(s[..k]) then Some(k) else None
  {
    hide Request.IsMethod;
    var k := FindChar(buf, 0, end, ' ');
    if k >= end {
      return None;
    }
    assert buf[..end][..k] == buf[..k];
    return if Request.IsMethod(buf[..k]) then Some(k) else None;
  }

  /** Writes a terminator behind the path, unless one is there already. */
  method EndPath(buf: array<char>, pathAt: nat, end: nat)
    requires pathAt <= end <= buf.Length && Request.PathStop(buf[..end], pathAt) < end
    modifies buf
    ensures var stop := Request.PathStop(old(buf[..end]), pathAt);
            buf[..end] == old(buf[..end])[stop := NUL]
    ensures forall i :: end <= i < buf.Length ==> buf[i] == old(buf[i])
  {
    var p := pathAt;
    while !Request.EndsPath(buf[p])
      invariant pathAt <= p < end
      invariant Request.PathStop(buf[..end], pathAt) == Request.PathStop(buf[..end], p)
      decreases end - p
    {
      p := p + 1;
    }
    if buf[p] != NUL {
      buf[p] := NUL;
    }
  }

  /** Finds everything, then ends the method and the path in the buffer. */
  method ParseRequest(buf: array<char>, len: nat) returns (r: Option<Request.Parsed>)
    requires len <= buf.Length && !Request.Parse(buf[..len]).Overrun?
    modifies buf
    ensures Request.Parse(old(buf[..len])) == if r.None? then Rejected else Accepted(r.value)
    ensures buf[..len] == if r.None? then old(buf[..len]) else Request.Terminated(old(buf[..len]), r.value)
    ensures forall i :: len <= i < buf.Length ==> buf[i] == old(buf[i])
  {
    hide Request.IsMethod, IsVersionAt, ParseHeaders, SkipBlanks, IndexFrom, Request.PathStop;
    ghost var s := buf[..len];
    r := LocateRequest(buf, len);
    if r.Some? {
      var stop := Request.TerminatedShape(s);
      assert buf[..len][r.value.methodEnd := NUL] == s[r.value.methodEnd := NUL];
      buf[r.value.methodEnd] := NUL;
      assert buf[..len] == s[r.value.methodEnd := NUL];
      Request.SamePathStop(s, buf[..len], r.value.pathAt);
      EndPath(buf, r.value.pathAt, len);
    }
  }

  method LocateRequest(buf: array<char>, len: nat) returns (r: Option<Request.Parsed>)
    requires len <= buf.Length && !Request.Parse(buf[..len]).Overrun?
    ensures Request.Parse(buf[..len]) == if r.None? then Rejected else Accepted(r.value)
  {
    hide ParseHeaders, HeaderLines, Request.ParseRequestLine;
    Request.ParseOverrunsIff(buf[..len]);
    var line := ReadRequestLine(buf, len);
    if line.None? {
      return None;
    }
    var table := new Slot[HEADER_SLOTS](_ => Slot(0, 0));
    var n, bodyAt := ReadHeaders(buf, line.value.headersAt, len, table);
    return Some(Request.Parsed(line.value.methodEnd, line.value.pathAt, line.value.query, table[..n], bodyAt));
  }

  method ReadRequestLine(buf: array<char>, len: nat) returns (line: Option<Request.RequestLine>)
    requires len <= buf.Length
    ensures line == Request.ParseRequestLine(buf[..len])
  {
    hide Request.IsMethod, IsVersionAt, SkipBlanks, IndexFrom;
    var methodEnd := ReadMethod(buf, len);
    if methodEnd.None? {
      return None;
    }
    var pathAt := SkipWs(buf, methodEnd.value, len);
    var pathEnd := FindChar(buf, pathAt, len, ' ');
    if pathEnd >= len {
      return None;
    }
    var mark := FindMark(buf, pathAt, pathEnd, len);
    var version := SkipWs(buf, pathEnd, len);
    var isVersion := MatchesVersion(buf, version, len);
    var isLine := IsCrlf(buf, version + 8, len);
    if !isVersion || !isLine {
      return None;
    }
    var query := if mark < pathEnd then Some(mark + 1) else None;
    return Some(Request.RequestLine(methodEnd.value, pathAt, query, version + 10));
  }

  /** Searches the path alone for a question mark. */
  method FindMark(buf: array<char>, pathAt: nat, pathEnd: nat, len: nat) returns (mark: nat)
    requires pathAt <= pathEnd <= len <= buf.Length
    ensures mark == Request.QueryMark(buf[..len], pathAt, pathEnd)
  {
    mark := FindChar(buf, pathAt, pathEnd, '?');
    ghost var s, path := buf[..len], buf[..pathEnd];
    assert forall i :: 0 <= i < pathEnd ==> path[i] == s[i];
  }

  method MatchesVersion(buf: array<char>, p: nat, len: nat) returns (b: bool)
    requires p <= len <= buf.Length
    ensures b == IsVersionAt(buf[..len], p)
  {
    b := Matches(buf, p, len, "HTTP/1.1");
    if !b {
      b := Matches(buf, p, len, "HTTP/1.0");
    }
  }

  // ----- responses

  method ReadStatus(buf: array<char>, p: nat, len: nat) returns (status: Option<nat>)
    requires p <= len <= buf.Length
    ensures status == Response.StatusAt(buf[..len], p)
  {
    if p + 3 > len {
      return None;
    }
    var n := 0;
    for i := 0 to 3
      invariant (i >= 1 ==> IsDigit(buf[p])) && (i >= 2 ==> IsDigit(buf[p + 1])) && (i == 3 ==> IsDigit(buf[p + 2]))
      invariant i == 0 ==> n == 0
      invariant i == 1 ==> n == DigitValue(buf[p])
      invariant i == 2 ==> n == DigitValue(buf[p]) * 10 + DigitValue(buf[p + 1])
      invariant i == 3 ==> n == (DigitValue(buf[p]) * 10 + DigitValue(buf[p + 1])) * 10 + DigitValue(buf[p + 2])
    {
      if !IsDigit(buf[p + i]) {
        return None;
      }
      n := n * 10 + DigitValue(buf[p + i]);
    }
    return Some(n);
  }

  method ReadStatusLine(buf: array<char>, len: nat) returns (line: Option<(nat, nat)>)
    requires len <= buf.Length
    ensures line == Response.ParseStatusLine(buf[..len])
  {
    hide SkipBlanks, CrlfFrom, Response.StatusAt;
    var isVersion := MatchesVersion(buf, 0, len);
    if !isVersion {
      return None;
    }
    var p := SkipWs(buf, 8, len);
    var status := ReadStatus(buf, p, len);
    if status.None? {
      return None;
    }
    var end := SkipToCrlf(buf, p + 3, len);
    return if end + 1 >= len then None else Some((status.value, end + 2));
  }

  method MatchesIgnoringCase(buf: array<char>, p: nat, len: nat, word: string) returns (b: bool)
    requires len <= buf.Length
    ensures b == AtIgnoringCase(buf[..len], p, word)
  {
    if p + |word| > len {
      return false;
    }
    for i := 0 to |word|
      invariant forall k :: 0 <= k < i ==> Lower(buf[p + k]) == Lower(word[k])
    {
      if Lower(buf[p + i]) != Lower(word[i]) {
        assert Lower(buf[..len][p + i]) != Lower(word[i]);
        return false;
      }
    }
    return true;
  }

  method FindHeader(buf: array<char>, len: nat, slots: seq<Slot>, word: string) returns (valueAt: Option<nat>)
    requires len <= buf.Length && InBounds(slots, len)
    ensures valueAt == Lookup(buf[..len], slots, word)
  {
    hide AtIgnoringCase;
    for i := 0 to |slots|
      invariant InBounds(slots[i..], len)
      invariant Lookup(buf[..len], slots, word) == Lookup(buf[..len], slots[i..], word)
    {
      assert slots[i..][0] == slots[i] && slots[i..][1..] == slots[i + 1..];
      var found := MatchesIgnoringCase(buf, slots[i].keyAt, len, word);
      if found {
        return Some(slots[i].valueAt);
      }
    }
    return None;
  }

  /** The header's value begins with the word, ignoring case. */
  method FindWord(buf: array<char>, len: nat, slots: seq<Slot>, key: string, word: string) returns (b: bool)
    requires len <= buf.Length && InBounds(slots, len)
    ensures b == Response.NamesAt(buf[..len], slots, key, word)
  {
    var valueAt := FindHeader(buf, len, slots, key);
    if valueAt.None? {
      return false;
    }
    b := MatchesIgnoringCase(buf, valueAt.value, len, word);
  }

  method CopyOver(buf: array<char>, p: nat, len: nat, text: string)
    requires p + |text| <= len <= buf.Length
    modifies buf
    ensures buf[..len] == Response.Overlaid(old(buf[..len]), p, text)
    ensures forall i :: len <= i < buf.Length ==> buf[i] == old(buf[i])
  {
    forall i | 0 <= i < |text| {
      buf[p + i] := text[i];
    }
  }

  lemma OverlaidBySame(s: string, p: nat)
    requires p <= |s|
    ensures Response.Overlaid(s, p, s[p..]) == s
  {
  }

  /** Decodes a chunked body into a buffer of its own and copies it back; a body that does not decode stays. */
  method RemoveChunks(buf: array<char>, len: nat, slots: seq<Slot>, bodyAt: nat, at: nat) returns (body: string)
    requires bodyAt < len <= buf.Length && InBounds(slots, len) && Chunked.IsPlaced(at, len - bodyAt)
    requires Response.DecodedFits(Response.IsChunkedAt(buf[..len], slots), buf[bodyAt..len], at)
    modifies buf
    ensures body == old(Response.WithoutCoding(Response.IsChunkedAt(buf[..len], slots), buf[bodyAt..len]))
    ensures buf[..len] == Response.Overlaid(old(buf[..len]), bodyAt, body)
    ensures forall i :: len <= i < buf.Length ==> buf[i] == old(buf[i])
  {
    hide Response.NamesAt, Chunked.DecodeAt, Chunked.Decode, Chunked.IsChunked, Response.Overlaid;
    body := buf[bodyAt..len];
    assert body == buf[..len][bodyAt..];
    OverlaidBySame(buf[..len], bodyAt);
    var isChunked := FindWord(buf, len, slots, "Transfer-Encoding", "chunked");
    if isChunked {
      ghost var raw := body;
      var decoded := new char[Response.DECODED_SIZE];
      var err, count := Chunked.DecodeChunked(body, at, decoded);
      Chunked.DecodedIs(raw, at, Response.DECODED_SIZE);
      if err == Chunked.Ok {
        body := decoded[..count];
        CopyOver(buf, bodyAt, len, body);
      }
    }
  }

  /** Removes the codings that the headers name. The decompressor is called with the outcome of the decoder. */
  method ReadBody(buf: array<char>, len: nat, status: nat, slots: seq<Slot>, bodyAt: nat, g: Response.Setting)
    returns (p: Response.Parsed)
    requires bodyAt <= len <= buf.Length && InBounds(slots, len) && Chunked.IsPlaced(g.at, len)
    requires !Response.ParseBody(buf[..len], status, slots, bodyAt, g).Overrun?
    modifies buf
    ensures Response.ParseBody(old(buf[..len]), status, slots, bodyAt, g) == Accepted(p)
    ensures buf[..len] == Response.Overwritten(old(buf[..len]), p)
    ensures forall i :: len <= i < buf.Length ==> buf[i] == old(buf[i])
  {
    hide Response.NamesAt, Response.IsChunkedAt, Response.DecodedFits, Response.WithoutCoding, Response.Overlaid;
    ghost var s := buf[..len];
    assert buf[bodyAt..len] == s[bodyAt..];
    if bodyAt == len {
      OverlaidBySame(s, bodyAt);
      return Response.Parsed(status, slots, bodyAt, [], []);
    }
    var decoded := RemoveChunks(buf, len, slots, bodyAt, g.at + bodyAt);
    var isGzip := FindWord(buf, len, slots, "Content-Encoding", "gzip");
    var isDeflate := FindWord(buf, len, slots, "Content-Encoding", "deflate");
    var body := decoded;
    if (isGzip || isDeflate) && g.inflated.Some? {
      body := g.inflated.value;
      CopyOver(buf, bodyAt, len, body);
    } else {
      OverlaidTwice(s, bodyAt, decoded);
    }
    return Response.Parsed(status, slots, bodyAt, decoded, body);
  }

  lemma OverlaidTwice(s: string, p: nat, text: string)
    requires p + |text| <= |s|
    ensures Response.Overlaid(Response.Overlaid(s, p, text), p, text) == Response.Overlaid(s, p, text)
  {
  }

  /** Finds everything, and removes the codings of the body in place. */
  method ParseResponse(buf: array<char>, len: nat, g: Response.Setting) returns (r: Option<Response.Parsed>)
    requires len <= buf.Length && Chunked.IsPlaced(g.at, len) && !Response.Parse(buf[..len], g).Overrun?
    modifies buf
    ensures Response.Parse(old(buf[..len]), g) == if r.None? then Rejected else Accepted(r.value)
    ensures buf[..len] == if r.None? then old(buf[..len]) else Response.Overwritten(old(buf[..len]), r.value)
    ensures forall i :: len <= i < buf.Length ==> buf[i] == old(buf[i])
  {
    hide Response.ParseStatusLine, ParseHeaders, HeaderLines, Response.ParseBody, Response.Overwritten;
    Response.ParseOverrunsIff(buf[..len], g);
    var line := ReadStatusLine(buf, len);
    if line.None? {
      return None;
    }
    var table := new Slot[HEADER_SLOTS](_ => Slot(0, 0));
    var n, bodyAt := ReadHeaders(buf, line.value.1, len, table);
    var p := ReadBody(buf, len, line.value.0, table[..n], bodyAt, g);
    return Some(p);
  }

  // ----- formatting

  /** Writes as much of a text as fits, and a terminator; says how long the text is. */
  method Snprintf(buf: array<char>, at: nat, size: nat, text: string) returns (n: nat)
    requires size > 0 && at + size <= buf.Length
    modifies buf
    ensures n == |text|
    ensures var shown := if |text| < size then text else text[..size - 1];
            buf[..at + |shown|] == old(buf[..at]) + shown && buf[at + |shown|] == NUL
  {
    var k := if |text| < size then |text| else size - 1;
    forall i | 0 <= i < k {
      buf[at + i] := text[i];
    }
    buf[at + k] := NUL;
    return |text|;
  }

  lemma {:induction false} FormatHeadersAppend(hs: seq<Header>, more: seq<Header>)
    ensures FormatHeaders(hs + more) == FormatHeaders(hs) + FormatHeaders(more)
  {
    hide FormatHeader;
    if hs == [] {
      assert hs + more == more && FormatHeaders(hs) + FormatHeaders(more) == FormatHeaders(more);
    } else {
      assert (hs + more)[1..] == hs[1..] + more;
      FormatHeadersAppend(hs[1..], more);
      assert FormatHeader(hs[0]) + (FormatHeaders(hs[1..]) + FormatHeaders(more))
          == (FormatHeader(hs[0]) + FormatHeaders(hs[1..])) + FormatHeaders(more);
    }
  }

  /** Appends a text that fits together with its terminator. */
  method Put(buf: array<char>, at: nat, text: string) returns (end: nat)
    requires at + |text| < HEAD_LIMIT <= buf.Length
    modifies buf
    ensures end == at + |text| && buf[..end] == old(buf[..at]) + text
  {
    var n := Snprintf(buf, at, HEAD_LIMIT - at, text);
    end := at + n;
  }

  method PutHeaders(buf: array<char>, start: nat, hs: seq<Header>) returns (end: nat)
    requires start + |FormatHeaders(hs)| < HEAD_LIMIT <= buf.Length
    modifies buf
    ensures end == start + |FormatHeaders(hs)| && buf[..end] == old(buf[..start]) + FormatHeaders(hs)
  {
    assert FormatHeaders([]) == [];
    hide FormatHeaders, FormatHeader;
    ghost var before := buf[..start];
    end := start;
    assert hs[..0] == [] && before + [] == before;
    for i := 0 to |hs|
      invariant end == start + |FormatHeaders(hs[..i])| && end < HEAD_LIMIT
      invariant buf[..end] == before + FormatHeaders(hs[..i])
    {
      OneMoreLine(hs, i);
      Associate(before, FormatHeaders(hs[..i]), FormatHeader(hs[i]));
      end := Put(buf, end, FormatHeader(hs[i]));
    }
    assert hs[..|hs|] == hs;
  }

  /** Appends the header lines, the length of a body, the empty line and the body. */
  method PutHeadersAndBody(buf: array<char>, start: nat, hs: seq<Header>, body: string) returns (end: nat)
    requires start + |FormatHeaders(WithLength(hs, body))| + 2 < HEAD_LIMIT <= buf.Length
    requires start + |FormatHeaders(WithLength(hs, body))| + 2 + |body| <= buf.Length
    modifies buf
    ensures end == start + |FormatHeaders(WithLength(hs, body))| + 2 + |body|
    ensures buf[..end] == old(buf[..start]) + FormatHeaders(WithLength(hs, body)) + CRLF + body
  {
    hide Decimal, FormatHeaders, WithLength;
    ghost var before := buf[..start];
    LengthLine(hs, body);
    end := PutHeaders(buf, start, hs);
    var line := [];
    if body != [] {
      line := "Content-Length: " + Decimal(|body|) + CRLF;
      end := Put(buf, end, line);
    }
    Associate(before, FormatHeaders(hs), line);
    assert buf[..end] == before + FormatHeaders(WithLength(hs, body));
    end := Put(buf, end, CRLF);
    forall i | 0 <= i < |body| {
      buf[end + i] := body[i];
    }
    end := end + |body|;
  }

  lemma LengthLine(hs: seq<Header>, body: string)
    ensures var line := if body == [] then [] else "Content-Length: " + Decimal(|body|) + CRLF;
            FormatHeaders(WithLength(hs, body)) == FormatHeaders(hs) + line
  {
    hide Decimal;
    if body == [] {
      assert FormatHeaders(hs) + [] == FormatHeaders(hs);
    } else {
      var h := Header("Content-Length", Decimal(|body|));
      FormatHeadersAppend(hs, [h]);
      assert FormatHeaders([h]) == FormatHeader(h) + [] == FormatHeader(h);
      assert "Content-Length" + ": " == "Content-Length: ";
    }
  }

  lemma OneMoreLine(hs: seq<Header>, i: nat)
    requires i < |hs|
    ensures FormatHeaders(hs[..i + 1]) == FormatHeaders(hs[..i]) + FormatHeader(hs[i])
    ensures |FormatHeaders(hs[..i + 1])| <= |FormatHeaders(hs)|
  {
    hide FormatHeader;
    assert hs[..i + 1] == hs[..i] + [hs[i]];
    FormatHeadersAppend(hs[..i], [hs[i]]);
    assert FormatHeaders([hs[i]]) == FormatHeader(hs[i]) + [] == FormatHeader(hs[i]);
    assert hs == hs[..i + 1] + hs[i + 1..];
    FormatHeadersAppend(hs[..i + 1], hs[i + 1..]);
  }

  /** Builds the request; its head and a terminator have to fit the space left for them. */
  method FormatRequest(buf: array<char>, req: Request.Request) returns (outLen: nat)
    requires |Request.Head(req)| < HEAD_LIMIT <= buf.Length && |Request.Format(req)| <= buf.Length
    modifies buf
    ensures outLen == |Request.Format(req)| && buf[..outLen] == Request.Format(req)
  {
    hide FormatHeaders;
    outLen := Put(buf, 0, req.verb + " " + req.path);
    if req.query.Some? {
      outLen := Put(buf, outLen, "?" + req.query.value);
    }
    assert buf[..outLen] == req.verb + " " + req.path + Request.QueryText(req.query);
    outLen := Put(buf, outLen, Request.VERSION_LINE);
    outLen := PutHeadersAndBody(buf, outLen, req.headers, req.body);
  }

  method FormatResponse(buf: array<char>, res: Response.Response) returns (outLen: nat)
    requires |Response.Head(res)| < HEAD_LIMIT <= buf.Length && |Response.Format(res)| <= buf.Length
    modifies buf
    ensures outLen == |Response.Format(res)| && buf[..outLen] == Response.Format(res)
  {
    hide FormatHeaders, SignedDecimal;
    outLen := Put(buf, 0, "HTTP/1.1 " + SignedDecimal(res.status) + Response.REASON);
    outLen := PutHeadersAndBody(buf, outLen, res.headers, res.body);
  }
}
