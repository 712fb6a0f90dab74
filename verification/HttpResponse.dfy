/**
  Responses of src/cwebhttp.c: the parser, which also removes a chunked transfer coding and a content
  coding in place, and the formatter. The decompressor is a foreign call, so what it returns is given.
 */
module HttpResponse {
  import Chunked
  import opened HttpHeaders
  import opened Text
  import opened Wrappers

  /** The size of the buffer a chunked body is decoded into. */
  const DECODED_SIZE: nat := 16384

  datatype Response = Response(status: int, headers: seq<Header>, body: string)

  /** The status, the header positions, where the raw body starts, and the body that is reported. */
  /** Positions, and the body after each of the two codings has been removed. */
  datatype Parsed = Parsed(status: nat, slots: seq<Slot>, bodyAt: nat, decoded: string, body: string)

  /** Where the text lies in memory, and what the decompressor gives if it is called and does not fail. */
  datatype Setting = Setting(at: nat, inflated: Option<string>)

  // ----- parsing

  /** Three digits and their value. */
  function StatusAt(s: string, p: nat): (r: Option<nat>)
    ensures r.Some? ==> p + 3 <= |s| && r.value <= 999
  {
    if p + 3 > |s| || !IsDigit(s[p]) || !IsDigit(s[p + 1]) || !IsDigit(s[p + 2]) then None
    else Some((DigitValue(s[p]) * 10 + DigitValue(s[p + 1])) * 10 + DigitValue(s[p + 2]))
  }

  /** The status and where the headers begin. */
  function ParseStatusLine(s: string): (r: Option<(nat, nat)>)
    ensures r.Some? ==> r.value.1 <= |s|
  {
    if !IsVersionAt(s, 0) then None
    else
      var p := SkipBlanks(s, 8);
      var status := StatusAt(s, p);
      if status.None? then None
      else
        var end := CrlfFrom(s, p + 3);
        if end + 1 >= |s| then None else Some((status.value, end + 2))
  }

  /** The first header with the key has a value that begins with the word. */
  predicate NamesAt(s: string, slots: seq<Slot>, key: string, word: string)
    requires InBounds(slots, |s|)
  {
    var valueAt := Lookup(s, slots, key);
    valueAt.Some? && AtIgnoringCase(s, valueAt.value, word)
  }

  predicate IsChunkedAt(s: string, slots: seq<Slot>)
    requires InBounds(slots, |s|)
  {
    NamesAt(s, slots, "Transfer-Encoding", "chunked")
  }

  predicate IsCompressedAt(s: string, slots: seq<Slot>)
    requires InBounds(slots, |s|)
  {
    NamesAt(s, slots, "Content-Encoding", "gzip") || NamesAt(s, slots, "Content-Encoding", "deflate")
  }

  /** The body after removing the chunked coding; a body that does not decode is kept as it is. */
  function WithoutCoding(isChunked: bool, raw: string): (r: string)
    ensures |r| <= |raw|
  {
    if isChunked && Chunked.Decode(raw).Some? then Chunked.Decode(raw).value else raw
  }

  /** The body after removing the content coding; a body that does not decompress is kept as it is. */
  function Inflated(isCompressed: bool, inflated: Option<string>, body: string): string {
    if isCompressed && inflated.Some? then inflated.value else body
  }

  /** The decoder of the chunked coding stays within its buffers. */
  predicate DecodedFits(isChunked: bool, raw: string, at: nat)
    requires Chunked.IsPlaced(at, |raw|)
  {
    isChunked ==> !Chunked.DecodeAt(raw, at, DECODED_SIZE).Overrun?
  }

  /** A buffer after a text has been copied over what was at a position. */
  function Overlaid(s: string, p: nat, text: string): (b: string)
    requires p + |text| <= |s|
    ensures |b| == |s|
  {
    s[..p] + text + s[p + |text|..]
  }

  /** Removes the codings, and copies each outcome over the body; a copy must not go behind the text. */
  function ParseBody(s: string, status: nat, slots: seq<Slot>, bodyAt: nat, g: Setting): (r: Outcome<Parsed>)
    requires InBounds(slots, |s|) && bodyAt <= |s| && Chunked.IsPlaced(g.at, |s|)
    ensures r.Accepted? ==> r.value.status == status && r.value.slots == slots && r.value.bodyAt == bodyAt
    ensures r.Accepted? ==> bodyAt + |r.value.decoded| <= |s| && bodyAt + |r.value.body| <= |s|
  {
    hide IsChunkedAt, IsCompressedAt, DecodedFits, WithoutCoding;
    var isChunked, raw := IsChunkedAt(s, slots), s[bodyAt..];
    if raw == [] then Accepted(Parsed(status, slots, bodyAt, [], []))
    else if !DecodedFits(isChunked, raw, g.at + bodyAt) then Overrun
    else
      var decoded := WithoutCoding(isChunked, raw);
      var body := Inflated(IsCompressedAt(Overlaid(s, bodyAt, decoded), slots), g.inflated, decoded);
      if |body| > |raw| then Overrun else Accepted(Parsed(status, slots, bodyAt, decoded, body))
  }

  function Parse(s: string, g: Setting): (r: Outcome<Parsed>)
    requires Chunked.IsPlaced(g.at, |s|)
    ensures r.Accepted? ==> InBounds(r.value.slots, |s|)
    ensures r.Accepted? ==> r.value.bodyAt + |r.value.decoded| <= |s| && r.value.bodyAt + |r.value.body| <= |s|
  {
    hide ParseHeaders, ParseStatusLine, ParseBody;
    var line := ParseStatusLine(s);
    if line.None? then Rejected
    else
      var headers := ParseHeaders(s, line.value.1, 0);
      if headers.None? then Overrun
      else ParseBody(s, line.value.0, headers.value.0, headers.value.1, g)
  }

  /** The buffer after both codings have been removed in place. */
  function Overwritten(s: string, p: Parsed): (b: string)
    requires p.bodyAt + |p.decoded| <= |s| && p.bodyAt + |p.body| <= |s|
    ensures |b| == |s|
  {
    Overlaid(Overlaid(s, p.bodyAt, p.decoded), p.bodyAt, p.body)
  }

  /** What a caller reads. */
  function Seen(b: string, p: Parsed): Response
    requires InBounds(p.slots, |b|) && p.bodyAt + |p.body| <= |b|
  {
    Response(p.status, Views(b, p.slots), b[p.bodyAt..p.bodyAt + |p.body|])
  }

  // ----- formatting

  const REASON: string := " OK\r\n"

  /** A message head with just these headers. */
  function HeadOf(status: int, hs: seq<Header>): string {
    "HTTP/1.1 " + SignedDecimal(status) + REASON + FormatHeaders(hs) + CRLF
  }

  /** The writes of the formatter into the space it leaves for the head. */
  function HeadPieces(res: Response): seq<string> {
    ["HTTP/1.1 " + SignedDecimal(res.status) + REASON] + HeaderPieces(WithLength(res.headers, res.body)) + [CRLF]
  }

  /** The formatter cuts none of its writes short if and only if the head and a terminator fit its limit. */
  lemma FormatIsCompleteIff(res: Response)
    ensures WritesFit(HeadPieces(res), 0) <==> |Head(res)| < 1024
  {
    var line := "HTTP/1.1 " + SignedDecimal(res.status) + REASON;
    assert Joined([line]) == line + [] == line;
    hide FormatHeaders, HeaderPieces, WithLength, SignedDecimal, Joined, WritesFit;
    JoinedHeaders([line], WithLength(res.headers, res.body), CRLF);
    WritesFitIff(HeadPieces(res), 0);
  }

  function Head(res: Response): string {
    HeadOf(res.status, WithLength(res.headers, res.body))
  }

  function Format(res: Response): string {
    Head(res) + res.body
  }

  /** The response that formatting and parsing shows; None when a write is cut short, and when it does not parse. */
  function Reparsed(res: Response, g: Setting): Option<Response>
    requires Chunked.IsPlaced(g.at, |Format(res)|)
  {
    hide Parse, Format, Seen, WritesFit, HeadPieces;
    var r := Parse(Format(res), g);
    if !WritesFit(HeadPieces(res), 0) || !r.Accepted? then None
    else Some(Seen(Overwritten(Format(res), r.value), r.value))
  }

  // ----- codings named by headers

  /** The first header with the key has a value that begins with the word. */
  predicate Names(hs: seq<Header>, key: string, word: string) {
    if hs == [] then false
    else if AtIgnoringCase(hs[0].key, 0, key) then AtIgnoringCase(hs[0].value, 0, word)
    else Names(hs[1..], key, word)
  }

  predicate NamesChunked(hs: seq<Header>) {
    Names(hs, "Transfer-Encoding", "chunked")
  }

  predicate NamesCompression(hs: seq<Header>) {
    Names(hs, "Content-Encoding", "gzip") || Names(hs, "Content-Encoding", "deflate")
  }

  lemma {:induction false} NotNamed(hs: seq<Header>, key: string, word: string)
    requires forall i :: 0 <= i < |hs| ==> !AtIgnoringCase(hs[i].key, 0, key)
    ensures !Names(hs, key, word)
  {
    hide AtIgnoringCase;
    if hs != [] {
      NotNamed(hs[1..], key, word);
    }
  }

  /** The body without the codings that the headers name. */
  function Plain(hs: seq<Header>, raw: string, inflated: Option<string>): string {
    if raw == [] then [] else Inflated(NamesCompression(hs), inflated, WithoutCoding(NamesChunked(hs), raw))
  }

  /**
    Removing the codings leaves a buffer: decoding comes to a size line whose chunk would end behind the
    last address, or decodes more than 16384 bytes, or the decompressed body is longer than the text's.
   */
  ghost predicate BodyOverruns(hs: seq<Header>, raw: string, at: nat, inflated: Option<string>) {
    (NamesChunked(hs) && (Chunked.ReachesWrap(raw, at) || Chunked.Written(raw) > DECODED_SIZE))
    || |Plain(hs, raw, inflated)| > |raw|
  }

  /** The response that reaches the caller: with the length header, and without the codings. */
  function Received(res: Response, inflated: Option<string>): Response {
    var hs := WithLength(res.headers, res.body);
    Response(res.status, hs, Plain(hs, res.body, inflated))
  }

  /** The responses a status line and header lines can carry. */
  predicate IsResponse(res: Response) {
    100 <= res.status <= 999 && AreHeaders(res.headers)
  }

  /** A word cannot run over the character that ends a text unless it contains that character. */
  lemma WordWithin(s: string, p: nat, end: nat, word: string)
    requires p <= end < |s| && forall i :: 0 <= i < |word| ==> Lower(word[i]) != Lower(s[end])
    ensures AtIgnoringCase(s, p, word) <==> AtIgnoringCase(s[p..end], 0, word)
  {
    var text := s[p..end];
    assert forall i :: 0 <= i < |text| ==> text[i] == s[p + i];
    if |word| > |text| && p + |word| <= |s| {
      assert Lower(s[p + |text|]) != Lower(word[|text|]);
    }
  }

  /** A search in the buffer finds the word exactly when a header that is shown names it. */
  lemma {:induction false} NamedAtIff(s: string, slots: seq<Slot>, key: string, word: string)
    requires InBounds(slots, |s|) && EndBefore(s, slots, |s|)
    requires forall i :: 0 <= i < |key| ==> Lower(key[i]) != ':'
    requires forall i :: 0 <= i < |word| ==> Lower(word[i]) != '\r'
    ensures NamesAt(s, slots, key, word) <==> Names(Views(s, slots), key, word)
  {
    if slots != [] {
      hide AtIgnoringCase, Lower;
      var k, v := slots[0].keyAt, slots[0].valueAt;
      assert Lower(':') == ':' && Lower('\r') == '\r' by {
        LowerKeeps();
      }
      WordWithin(s, k, IndexFrom(s, k, ':'), key);
      WordWithin(s, v, CrlfFrom(s, v), word);
      NamedAtIff(s, slots[1..], key, word);
    }
  }

  lemma LowerKeeps()
    ensures Lower(':') == ':' && Lower('\r') == '\r'
  {
  }

  lemma CodingsIffNamed(s: string, slots: seq<Slot>)
    requires InBounds(slots, |s|) && EndBefore(s, slots, |s|)
    ensures IsChunkedAt(s, slots) <==> NamesChunked(Views(s, slots))
    ensures IsCompressedAt(s, slots) <==> NamesCompression(Views(s, slots))
  {
    hide NamesAt, Names, Views, EndBefore;
    NamedAtIff(s, slots, "Transfer-Encoding", "chunked");
    NamedAtIff(s, slots, "Content-Encoding", "gzip");
    NamedAtIff(s, slots, "Content-Encoding", "deflate");
  }

  // ----- what removing the codings shows

  /** Copying over the body leaves every header as it was. */
  lemma SameHeaders(s: string, slots: seq<Slot>, bodyAt: nat, text: string)
    requires InBounds(slots, |s|) && bodyAt + |text| <= |s| && EndBefore(s, slots, bodyAt)
    ensures var b := Overlaid(s, bodyAt, text);
            && Views(b, slots) == Views(s, slots) && EndBefore(b, slots, bodyAt)
            && b[bodyAt..bodyAt + |text|] == text
  {
    hide Overlaid, IndexFrom, CrlfFrom, Views;
    OverlaidIs(s, bodyAt, text);
    var b := Overlaid(s, bodyAt, text);
    forall i | 0 <= i < |slots|
      ensures IndexFrom(b, slots[i].keyAt, ':') == IndexFrom(s, slots[i].keyAt, ':')
      ensures CrlfFrom(b, slots[i].valueAt) == CrlfFrom(s, slots[i].valueAt)
    {
      IndexFromIs(b, slots[i].keyAt, ':', IndexFrom(s, slots[i].keyAt, ':'));
      SameLineEnd(s, b, slots[i].valueAt, bodyAt);
    }
    SameViews(s, b, slots, 0, bodyAt);
  }

  lemma OverlaidIs(s: string, p: nat, text: string)
    requires p + |text| <= |s|
    ensures forall i :: 0 <= i < p ==> Overlaid(s, p, text)[i] == s[i]
    ensures Overlaid(s, p, text)[p..p + |text|] == text
  {
  }

  /** What becomes of the body depends only on the headers that are shown. */
  lemma ParseBodyIs(s: string, status: nat, slots: seq<Slot>, bodyAt: nat, g: Setting)
    requires InBounds(slots, |s|) && bodyAt <= |s| && Chunked.IsPlaced(g.at, |s|) && EndBefore(s, slots, bodyAt)
    ensures var hs, raw := Views(s, slots), s[bodyAt..];
            ParseBody(s, status, slots, bodyAt, g)
            == if BodyOverruns(hs, raw, g.at + bodyAt, g.inflated) then Overrun
               else Accepted(Parsed(status, slots, bodyAt, WithoutCoding(NamesChunked(hs), raw),
                                    Plain(hs, raw, g.inflated)))
  {
    hide Chunked.Decode, Chunked.Written, Chunked.ReachesWrap, Chunked.DecodeAt, Views, EndBefore, Overlaid, InBounds;
    hide IsChunkedAt, IsCompressedAt, NamesChunked, NamesCompression;
    var raw := s[bodyAt..];
    Chunked.DecodeIffChunked(raw, g.at + bodyAt, DECODED_SIZE, []);
    EndBeforeMore(s, slots, bodyAt);
    CodingsIffNamed(s, slots);
    var decoded := WithoutCoding(IsChunkedAt(s, slots), raw);
    SameHeaders(s, slots, bodyAt, decoded);
    var b := Overlaid(s, bodyAt, decoded);
    EndBeforeMore(b, slots, bodyAt);
    CodingsIffNamed(b, slots);
    if raw == [] {
      NothingOverruns(Views(s, slots), g.at + bodyAt, g.inflated);
    }
  }

  lemma NothingOverruns(hs: seq<Header>, at: nat, inflated: Option<string>)
    ensures !BodyOverruns(hs, [], at, inflated)
  {
    Chunked.WrapsIffReached([], at);
  }

  /**
    The parser writes outside a table, a buffer or the text exactly on a status line with more than 16
    header lines behind it, or with a body that overruns when the codings are removed that its headers name.
   */
  lemma ParseOverrunsIff(s: string, g: Setting)
    requires Chunked.IsPlaced(g.at, |s|)
    ensures Parse(s, g).Overrun? <==>
              ParseStatusLine(s).Some?
              && (HeaderLines(s, ParseStatusLine(s).value.1) > HEADER_SLOTS
                  || ShownBodyOverruns(s, ParseHeaders(s, ParseStatusLine(s).value.1, 0), g))
  {
    hide ParseHeaders, ParseStatusLine, HeaderLines, ParseBody, BodyOverruns, EndBefore, Views;
    if ParseStatusLine(s).Some? {
      var headersAt := ParseStatusLine(s).value.1;
      TableIsOverrunIff(s, headersAt, 0);
      if ParseHeaders(s, headersAt, 0).Some? {
        var (slots, bodyAt) := ParseHeaders(s, headersAt, 0).value;
        ParsedHeadersEndBefore(s, headersAt, 0);
        ParseBodyIs(s, ParseStatusLine(s).value.0, slots, bodyAt, g);
      }
    }
  }

  ghost predicate ShownBodyOverruns(s: string, headers: Option<(seq<Slot>, nat)>, g: Setting)
    requires headers.Some? ==> InBounds(headers.value.0, |s|) && headers.value.1 <= |s|
  {
    headers.Some?
    && BodyOverruns(Views(s, headers.value.0), s[headers.value.1..], g.at + headers.value.1, g.inflated)
  }

  /** What a caller reads, in terms of the buffer as it was received. */
  lemma SeenIs(s: string, g: Setting)
    requires Chunked.IsPlaced(g.at, |s|) && Parse(s, g).Accepted?
    ensures var p := Parse(s, g).value;
            Seen(Overwritten(s, p), p)
            == Response(p.status, Views(s, p.slots), Plain(Views(s, p.slots), s[p.bodyAt..], g.inflated))
  {
    var p := Parse(s, g).value;
    var (status, headersAt) := ParseStatusLine(s).value;
    var (slots, bodyAt) := ParseHeaders(s, headersAt, 0).value;
    assert Parse(s, g) == ParseBody(s, status, slots, bodyAt, g);
    hide Parse, ParseHeaders, ParseStatusLine, ParseBody, WithoutCoding, BodyOverruns, Views, Plain, EndBefore;
    hide Overlaid;
    ParsedHeadersEndBefore(s, headersAt, 0);
    ParseBodyIs(s, status, slots, bodyAt, g);
    var b := Overlaid(s, bodyAt, p.decoded);
    SameHeaders(s, slots, bodyAt, p.decoded);
    SameHeaders(b, slots, bodyAt, p.body);
  }

  // ----- the status line

  lemma StatusReadsBack(s: string, p: nat, n: int)
    requires At(s, p, SignedDecimal(n)) && At(s, p + |SignedDecimal(n)|, REASON)
    ensures StatusAt(s, p) == Some(n) <==> 100 <= n <= 999
    ensures !IsBlank(s[p])
  {
    hide Decimal;
    AtChar(s, p, SignedDecimal(n), 0);
    if 100 <= n <= 999 {
      ThreeDigitsReadBack(s, p, n);
    } else if 0 <= n < 100 {
      FewDigits(n);
      AtChar(s, p + |Decimal(n)|, REASON, 0);
    }
  }

  lemma ThreeDigitsReadBack(s: string, p: nat, n: nat)
    requires 100 <= n <= 999 && At(s, p, Decimal(n))
    ensures StatusAt(s, p) == Some(n)
  {
    hide At, Decimal, DigitChar, DigitValue, IsDigit;
    ThreeDigits(n);
    var text := Decimal(n);
    AtText(s, p, text);
    AtChar(s, p, text, 0);
    AtChar(s, p, text, 1);
    AtChar(s, p, text, 2);
    assert n == (n / 100 * 10 + n / 10 % 10) * 10 + n % 10;
  }

  lemma ThreeDigits(n: nat)
    requires 100 <= n <= 999
    ensures Decimal(n) == [DigitChar(n / 100), DigitChar(n / 10 % 10), DigitChar(n % 10)]
  {
    assert Decimal(n) == Decimal(n / 10) + [DigitChar(n % 10)];
    assert Decimal(n / 10) == Decimal(n / 100) + [DigitChar(n / 10 % 10)];
  }

  lemma FewDigits(n: nat)
    requires n < 100
    ensures |Decimal(n)| <= 2
  {
  }

  /** Where the parts of a response message lie. */
  lemma MessageParts(code: int, hs: seq<Header>, body: string)
    ensures var s, status, headers := HeadOf(code, hs) + body, SignedDecimal(code), FormatHeaders(hs);
            && At(s, 0, "HTTP/1.1") && At(s, 8, " ") && At(s, 9, status) && At(s, 9 + |status|, REASON)
            && At(s, 14 + |status|, headers + CRLF)
            && |HeadOf(code, hs)| == 14 + |status| + |headers| + 2
            && s[|HeadOf(code, hs)|..] == body
  {
    var s, status, headers := HeadOf(code, hs) + body, SignedDecimal(code), FormatHeaders(hs);
    assert s[0..|s|] == s;
    hide At, FormatHeaders, SignedDecimal;
    AtSplit(s, 0, HeadOf(code, hs), body);
    AtSplit(s, 0, "HTTP/1.1 " + status + REASON + headers, CRLF);
    AtSplit(s, 0, "HTTP/1.1 " + status + REASON, headers);
    AtSplit(s, 14 + |status|, headers, CRLF);
    AtSplit(s, 0, "HTTP/1.1 " + status, REASON);
    AtSplit(s, 0, "HTTP/1.1 ", status);
    assert "HTTP/1.1 " == "HTTP/1.1" + " ";
    AtSplit(s, 0, "HTTP/1.1", " ");
  }

  /** A formatted status line gives back its status exactly when that has three digits. */
  lemma StatusLineReadsBack(code: int, hs: seq<Header>, body: string)
    ensures var line := ParseStatusLine(HeadOf(code, hs) + body);
            (line.Some? && line.value.0 == code) <==> 100 <= code <= 999
    ensures 100 <= code <= 999 ==>
              ParseStatusLine(HeadOf(code, hs) + body) == Some((code, 14 + |SignedDecimal(code)|))
  {
    hide HeadOf, SignedDecimal, At, FormatHeaders, StatusAt, CrlfFrom;
    var s, status := HeadOf(code, hs) + body, SignedDecimal(code);
    MessageParts(code, hs, body);
    StatusReadsBack(s, 9, code);
    AtChar(s, 8, " ", 0);
    SkipBlanksIs(s, 8, 9);
    if 100 <= code <= 999 {
      StatusLength(code);
      NoCrlfInReason();
      AtSplit(s, 12, " OK", CRLF);
      CrlfBehind(s, 12, " OK");
    }
  }

  lemma StatusLength(n: int)
    requires 100 <= n <= 999
    ensures |SignedDecimal(n)| == 3
  {
    ThreeDigits(n);
  }

  lemma NoCrlfInReason()
    ensures !HasCrlf(" OK") && REASON == " OK" + CRLF
  {
  }

  // ----- the round trip

  /** Whatever the buffer, the headers that parsing shows are headers a message can carry. */
  lemma ParsedIsWellFormed(s: string, g: Setting)
    requires Chunked.IsPlaced(g.at, |s|) && Parse(s, g).Accepted?
    ensures var p := Parse(s, g).value;
            AreHeaders(Views(s, p.slots)) && ParseStatusLine(s).Some? && ParseStatusLine(s).value.0 == p.status
  {
    hide ParseBody;
    ParsedHeadersAreHeaders(s, ParseStatusLine(s).value.1, 0);
  }

  /**
    A message whose head can carry its parts shows status and headers, and the body without its codings,
    if its headers fit the table and its body does not overrun; otherwise the parser does.
   */
  lemma MessageReadsBack(code: int, hs: seq<Header>, body: string, g: Setting)
    requires 100 <= code <= 999 && AreHeaders(hs) && Chunked.IsPlaced(g.at, |HeadOf(code, hs) + body|)
    ensures var r := Parse(HeadOf(code, hs) + body, g);
            if |hs| <= HEADER_SLOTS && !BodyOverruns(hs, body, g.at + |HeadOf(code, hs)|, g.inflated)
            then r.Accepted? && Seen(Overwritten(HeadOf(code, hs) + body, r.value), r.value)
                                == Response(code, hs, Plain(hs, body, g.inflated))
            else r.Overrun?
  {
    hide Parse, HeadOf, SignedDecimal, ParseStatusLine, ParseHeaders, Views, WithoutCoding, InBounds, SlotsOf;
    hide NamesChunked, NamesCompression, Overwritten, Seen, AreHeaders, BodyOverruns, HeaderLines, ParseBody, Plain;
    hide EndBefore;
    var s, headersAt := HeadOf(code, hs) + body, 14 + |SignedDecimal(code)|;
    if |hs| <= HEADER_SLOTS {
      MessageHeaders(code, hs, body);
      ParseIs(s, code, headersAt, SlotsOf(hs, headersAt), |HeadOf(code, hs)|, g);
      ParseBodyIs(s, code, SlotsOf(hs, headersAt), |HeadOf(code, hs)|, g);
      if !BodyOverruns(hs, body, g.at + |HeadOf(code, hs)|, g.inflated) {
        SeenIs(s, g);
      }
    } else {
      MessageOverruns(code, hs, body, g);
    }
  }

  lemma MessageHeaders(code: int, hs: seq<Header>, body: string)
    requires 100 <= code <= 999 && AreHeaders(hs) && |hs| <= HEADER_SLOTS
    ensures var s, headersAt, bodyAt := HeadOf(code, hs) + body, 14 + |SignedDecimal(code)|, |HeadOf(code, hs)|;
            var slots := SlotsOf(hs, headersAt);
            && ParseStatusLine(s) == Some((code, headersAt)) && ParseHeaders(s, headersAt, 0) == Some((slots, bodyAt))
            && InBounds(slots, |s|) && Views(s, slots) == hs && s[bodyAt..] == body && EndBefore(s, slots, bodyAt)
  {
    hide HeadOf, SignedDecimal, At, FormatHeaders, ParseStatusLine, Views, ParseHeaders;
    hide AreHeaders, EndBefore, InBounds, SlotsOf;
    var s, headersAt := HeadOf(code, hs) + body, 14 + |SignedDecimal(code)|;
    MessageParts(code, hs, body);
    StatusLineReadsBack(code, hs, body);
    ParseFormattedHeaders(s, headersAt, hs, 0);
    ParsedHeadersEndBefore(s, headersAt, 0);
  }

  lemma MessageOverruns(code: int, hs: seq<Header>, body: string, g: Setting)
    requires 100 <= code <= 999 && AreHeaders(hs) && |hs| > HEADER_SLOTS
    requires Chunked.IsPlaced(g.at, |HeadOf(code, hs) + body|)
    ensures Parse(HeadOf(code, hs) + body, g).Overrun?
  {
    hide HeadOf, SignedDecimal, At, FormatHeaders, ParseStatusLine, ParseHeaders, AreHeaders, ParseBody;
    MessageParts(code, hs, body);
    StatusLineReadsBack(code, hs, body);
    ParseFormattedHeaders(HeadOf(code, hs) + body, 14 + |SignedDecimal(code)|, hs, 0);
  }

  lemma ParseIs(s: string, code: nat, headersAt: nat, slots: seq<Slot>, bodyAt: nat, g: Setting)
    requires ParseStatusLine(s) == Some((code, headersAt)) && ParseHeaders(s, headersAt, 0) == Some((slots, bodyAt))
    requires Chunked.IsPlaced(g.at, |s|)
    ensures Parse(s, g) == ParseBody(s, code, slots, bodyAt, g)
  {
    hide ParseHeaders, ParseStatusLine, ParseBody;
  }

  /** The head fits the formatter, the headers fit the parser, and removing the codings does not overrun. */
  ghost predicate HasRoom(res: Response, g: Setting) {
    var hs := WithLength(res.headers, res.body);
    |Head(res)| < HEAD_LIMIT && |hs| <= HEADER_SLOTS
    && !BodyOverruns(hs, res.body, g.at + |Head(res)|, g.inflated)
  }

  lemma ParseInvertsFormat(res: Response, g: Setting)
    requires Chunked.IsPlaced(g.at, |Format(res)|) && IsResponse(res) && HasRoom(res, g)
    ensures Reparsed(res, g) == Some(Received(res, g.inflated))
  {
    hide HeadOf, Parse, WithLength, Plain, BodyOverruns, Overwritten, Seen, AreHeaders, WritesFit, HeadPieces;
    FormatIsCompleteIff(res);
    WithLengthAreHeaders(res.headers, res.body);
    MessageReadsBack(res.status, WithLength(res.headers, res.body), res.body, g);
  }

  /** What is shown has been found without writing outside a table or a buffer. */
  lemma ShownHasRoom(res: Response, g: Setting)
    requires Chunked.IsPlaced(g.at, |Format(res)|) && IsResponse(res) && Reparsed(res, g).Some?
    ensures HasRoom(res, g)
  {
    hide HeadOf, Parse, WithLength, Plain, BodyOverruns, Overwritten, Seen, AreHeaders, WritesFit, HeadPieces;
    FormatIsCompleteIff(res);
    WithLengthAreHeaders(res.headers, res.body);
    MessageReadsBack(res.status, WithLength(res.headers, res.body), res.body, g);
  }

  /**
    The round trip: parsing a formatted response shows its status and headers, and its body without the
    codings that its headers name, exactly when the status line and the header lines can carry it, its
    head fits the formatter's limit, its headers fit the parser's table and its body does not overrun.
   */
  lemma RoundTripIffCarried(res: Response, g: Setting)
    requires Chunked.IsPlaced(g.at, |Format(res)|)
    ensures Reparsed(res, g) == Some(Received(res, g.inflated)) <==> IsResponse(res) && HasRoom(res, g)
  {
    hide BodyOverruns, Plain;
    if IsResponse(res) && HasRoom(res, g) {
      ParseInvertsFormat(res, g);
    }
    if Reparsed(res, g) == Some(Received(res, g.inflated)) {
      hide Parse, Format, Seen, ParseStatusLine, AreHeaders, HasRoom, WritesFit, HeadPieces;
      var s := Format(res);
      SeenIs(s, g);
      ParsedIsWellFormed(s, g);
      WithLengthAreHeaders(res.headers, res.body);
      StatusLineReadsBack(res.status, WithLength(res.headers, res.body), res.body);
      ShownHasRoom(res, g);
    }
  }

  /** An encoded body overruns exactly when the body does not fit the buffer that it is decoded into. */
  lemma EncodedFitsIff(body: string, at: nat)
    requires Chunked.IsPlaced(at, |Chunked.Encode(body)|)
    ensures DecodedFits(true, Chunked.Encode(body), at) <==> |body| <= 16384
  {
    hide Chunked.DecodeAt, Chunked.Encode;
    assert Chunked.Encode(body) + [] == Chunked.Encode(body);
    Chunked.DecodeAtInvertsEncode(body, [], at, DECODED_SIZE);
  }

  /**
    A response whose headers name the chunked coding and no compression, and whose body is coded, shows
    the uncoded body exactly when that fits the buffer it is decoded into.
   */
  lemma ChunkedResponseShowsBody(res: Response, body: string, g: Setting)
    requires Chunked.IsPlaced(g.at, |Format(res)|) && IsResponse(res)
    requires |Head(res)| < HEAD_LIMIT && |WithLength(res.headers, res.body)| <= HEADER_SLOTS
    requires NamesChunked(WithLength(res.headers, res.body)) && !NamesCompression(WithLength(res.headers, res.body))
    requires res.body == Chunked.Encode(body)
    ensures Reparsed(res, g) == Some(Response(res.status, WithLength(res.headers, res.body), body))
            <==> |body| <= 16384
  {
    hide Reparsed, NamesChunked, WithLength, NamesCompression, Head, IsResponse, BodyOverruns, Plain, Chunked.Encode;
    assert |Format(res)| == |Head(res)| + |res.body|;
    RoundTripIffCarried(res, g);
    EncodedBody(WithLength(res.headers, res.body), body, g.at + |Head(res)|, g.inflated);
  }

  /** An encoded body shows what has been encoded, and overruns when that does not fit. */
  lemma EncodedBody(hs: seq<Header>, body: string, at: nat, inflated: Option<string>)
    requires NamesChunked(hs) && !NamesCompression(hs) && Chunked.IsPlaced(at, |Chunked.Encode(body)|)
    ensures Plain(hs, Chunked.Encode(body), inflated) == body
    ensures BodyOverruns(hs, Chunked.Encode(body), at, inflated) <==> |body| > DECODED_SIZE
  {
    hide Chunked.Decode, Chunked.DecodeAt, Chunked.Encode, Chunked.ReachesWrap, Chunked.Written;
    hide NamesChunked, NamesCompression;
    var text := Chunked.Encode(body);
    assert text + [] == text;
    Chunked.DecodeIffChunked(text, at, DECODED_SIZE, body);
    Chunked.DecodeAtInvertsEncode(body, [], at, DECODED_SIZE);
    Chunked.DecodeInvertsEncode(body, []);
    Chunked.EncodedLength(body);
  }
}
