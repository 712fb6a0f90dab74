/**
  What the library's own response parser, of src/cwebhttp.c, reads in a response that its server, of
  src/async/server.c, has put into a send buffer.
 */
module ServedResponse {
  import Chunked
  import Http = HttpResponse
  import Server = AsyncServer
  import opened HttpHeaders
  import opened Sequences
  import opened Text

  /** The headers that the server writes. */
  function ServedHeaders(r: Server.Response, keepAlive: bool): seq<Header> {
    [Header("Content-Type", r.contentType),
     Header("Content-Length", Decimal(|r.body|)),
     Header("Connection", if keepAlive then "keep-alive" else "close")]
  }

  /** As much of the body as fits the send buffer behind the head. */
  function ServedBody(r: Server.Response, keepAlive: bool): string {
    var head := |Server.ResponseHead(r, keepAlive)|;
    if head + |r.body| <= Server.SEND_BUFFER_SIZE || head > Server.SEND_BUFFER_SIZE then r.body
    else r.body[..Server.SEND_BUFFER_SIZE - head]
  }

  lemma OneHeader(h: Header, hs: seq<Header>)
    ensures FormatHeaders([h] + hs) == FormatHeader(h) + FormatHeaders(hs)
  {
    assert ([h] + hs)[1..] == hs;
  }

  lemma ThreeHeaders(a: Header, b: Header, c: Header)
    ensures FormatHeaders([a, b, c]) == (FormatHeader(a) + FormatHeader(b)) + FormatHeader(c)
  {
    assert FormatHeaders([]) == [];
    hide FormatHeader, FormatHeaders;
    OneHeader(c, []);
    OneHeader(b, [c]);
    OneHeader(a, [b, c]);
    assert [c] + [] == [c] && [b] + [c] == [b, c] && [a] + [b, c] == [a, b, c];
    assert FormatHeader(c) + [] == FormatHeader(c);
    Associate(FormatHeader(a), FormatHeader(b), FormatHeader(c));
  }

  /** The parts of a head as one format string puts them together, and header by header. */
  lemma Regroup(start: string, reason: string, key: string, value: string, end: string,
                key': string, value': string, last: string)
    ensures start + (reason + key) + value + (end + key') + value' + end + last
            == (start + reason) + (((key + value + end) + (key' + value' + end)) + last)
  {
    var line := start + reason;
    var first, second := key + value + end, key' + value' + end;
    Associate(start, reason, key);
    Associate(line, key, value);
    Associate(line + (key + value), end, key');
    Associate(line, key + value, end);
    Associate(line + first, key', value');
    Associate(line + first, key' + value', end);
    Associate(line, first, second);
    Associate(line, first + second, last);
  }

  function ConnectionLine(keepAlive: bool): string {
    if keepAlive then "Connection: keep-alive\r\n" else "Connection: close\r\n"
  }

  lemma ServedLines(r: Server.Response, keepAlive: bool)
    ensures var hs := ServedHeaders(r, keepAlive);
            && FormatHeader(hs[0]) == "Content-Type: " + r.contentType + CRLF
            && FormatHeader(hs[1]) == "Content-Length: " + Decimal(|r.body|) + CRLF
            && FormatHeader(hs[2]) == ConnectionLine(keepAlive)
  {
    hide Decimal;
    assert "Content-Type" + ": " == "Content-Type: " && "Content-Length" + ": " == "Content-Length: ";
  }

  lemma ResponseHeadIs(r: Server.Response, keepAlive: bool)
    ensures Server.ResponseHead(r, keepAlive)
            == "HTTP/1.1 " + SignedDecimal(r.status) + (Http.REASON + "Content-Type: ") + r.contentType
               + (CRLF + "Content-Length: ") + Decimal(|r.body|) + CRLF + ConnectionLine(keepAlive) + CRLF
  {
    hide SignedDecimal, Decimal;
    assert " OK\r\nContent-Type: " == Http.REASON + "Content-Type: ";
    assert "\r\nContent-Length: " == CRLF + "Content-Length: ";
  }

  /** The text of the server is a status line and these three headers. */
  lemma ServedHeadIs(r: Server.Response, keepAlive: bool)
    ensures Server.ResponseHead(r, keepAlive) == Http.HeadOf(r.status, ServedHeaders(r, keepAlive))
  {
    var hs := ServedHeaders(r, keepAlive);
    assert |hs| == 3 && hs == [hs[0], hs[1], hs[2]];
    hide SignedDecimal, Decimal, FormatHeader, FormatHeaders, ConnectionLine, ServedHeaders, Server.ResponseHead;
    ThreeHeaders(hs[0], hs[1], hs[2]);
    ServedLines(r, keepAlive);
    ResponseHeadIs(r, keepAlive);
    Regroup("HTTP/1.1 " + SignedDecimal(r.status), Http.REASON, "Content-Type: ", r.contentType, CRLF,
            "Content-Length: ", Decimal(|r.body|), ConnectionLine(keepAlive));
  }

  lemma TypeIsCarried(value: string)
    requires !HasCrlf(value) && (value != [] ==> !IsBlank(value[0]))
    ensures IsHeader(Header("Content-Type", value))
  {
    hide HasCrlf;
  }

  lemma LengthIsCarried(n: nat)
    ensures IsHeader(Header("Content-Length", Decimal(n)))
  {
    hide Decimal;
  }

  lemma ConnectionIsCarried(value: string)
    requires value == "keep-alive" || value == "close"
    ensures IsHeader(Header("Connection", value))
  {
  }

  lemma ServedHeadersAreCarried(r: Server.Response, keepAlive: bool)
    requires !HasCrlf(r.contentType) && (r.contentType != [] ==> !IsBlank(r.contentType[0]))
    ensures AreHeaders(ServedHeaders(r, keepAlive)) && |ServedHeaders(r, keepAlive)| == 3
  {
    hide Decimal, IsHeader, HasCrlf;
    TypeIsCarried(r.contentType);
    LengthIsCarried(|r.body|);
    ConnectionIsCarried(if keepAlive then "keep-alive" else "close");
  }

  lemma ServedIsNotChunked(r: Server.Response, keepAlive: bool)
    ensures !Http.NamesChunked(ServedHeaders(r, keepAlive))
  {
    hide Decimal;
    var hs := ServedHeaders(r, keepAlive);
    forall i | 0 <= i < |hs|
      ensures !AtIgnoringCase(hs[i].key, 0, "Transfer-Encoding")
    {
      FirstLetterDiffers(hs[i].key, "Transfer-Encoding");
    }
    Http.NotNamed(hs, "Transfer-Encoding", "chunked");
  }

  lemma ServedIsNotCompressed(r: Server.Response, keepAlive: bool)
    ensures !Http.NamesCompression(ServedHeaders(r, keepAlive))
  {
    hide Decimal;
    var hs, word := ServedHeaders(r, keepAlive), "Content-Encoding";
    assert Lower(hs[0].key[0 + 8]) != Lower(word[8]);
    assert Lower(hs[1].key[0 + 8]) != Lower(word[8]);
    assert Lower(hs[2].key[0 + 3]) != Lower(word[3]);
    Http.NotNamed(hs, word, "gzip");
    Http.NotNamed(hs, word, "deflate");
  }

  /**
    A response with a three-digit status and a content type that a header line can carry reads back, if
    it is sent at all, with its status and headers and with as much of its body as fits the buffer. The
    length it announces is the length of the body that is sent exactly when head and body fit.
   */
  lemma ServedResponseReadsBack(r: Server.Response, keepAlive: bool, g: Http.Setting)
    requires 100 <= r.status <= 999
    requires !HasCrlf(r.contentType) && (r.contentType != [] ==> !IsBlank(r.contentType[0]))
    requires Server.BuildResponse(r, keepAlive).Some?
    requires Chunked.IsPlaced(g.at, |Server.BuildResponse(r, keepAlive).value|)
    ensures var s := Server.BuildResponse(r, keepAlive).value;
            && Http.Parse(s, g).Accepted?
            && Http.Seen(Http.Overwritten(s, Http.Parse(s, g).value), Http.Parse(s, g).value)
               == Http.Response(r.status, ServedHeaders(r, keepAlive), ServedBody(r, keepAlive))
    ensures |ServedBody(r, keepAlive)| == |r.body|
            <==> |Server.ResponseHead(r, keepAlive)| + |r.body| <= Server.SEND_BUFFER_SIZE
  {
    hide Server.ResponseHead, Http.HeadOf, Http.Parse, Http.Seen, Http.Overwritten, Http.NamesChunked, AreHeaders;
    hide Http.NamesCompression;
    hide ServedHeaders, HasCrlf;
    ServedHeadIs(r, keepAlive);
    ServedHeadersAreCarried(r, keepAlive);
    ServedIsNotChunked(r, keepAlive);
    ServedIsNotCompressed(r, keepAlive);
    Http.MessageReadsBack(r.status, ServedHeaders(r, keepAlive), ServedBody(r, keepAlive), g);
  }
}
