/**
  Requests of src/cwebhttp.c: the zero-copy parser and the formatter. The parser returns positions
  and ends two of the texts by writing a terminator into the buffer; `Seen` is what a caller reads
  through those positions afterwards.
 */
module HttpRequest {
  import opened HttpHeaders
  import opened Sequences
  import opened Text
  import opened Wrappers

  datatype Request = Request(verb: string, path: string, query: Option<string>, headers: seq<Header>, body: string)

  /** Positions in the buffer; the method starts at its beginning and the body runs to its end. */
  datatype Parsed = Parsed(methodEnd: nat, pathAt: nat, query: Option<nat>, slots: seq<Slot>, bodyAt: nat)

  predicate IsMethod(s: string) {
    s == "GET" || s == "POST" || s == "PUT" || s == "DELETE" || s == "HEAD"
  }

  // ----- parsing

  /** The first question mark before the end of the path. */
  function QueryMark(s: string, pathAt: nat, pathEnd: nat): (k: nat)
    requires pathAt <= pathEnd <= |s|
    ensures pathAt <= k <= pathEnd
  {
    var k := IndexFrom(s, pathAt, '?');
    if k < pathEnd then k else pathEnd
  }

  /** The positions lie in a buffer of this length, in the order of the message. */
  predicate Fits(p: Parsed, len: nat) {
    && p.methodEnd < p.pathAt < p.bodyAt <= len && InBounds(p.slots, len)
    && (p.query.Some? ==> p.pathAt < p.query.value < p.bodyAt)
    && forall i :: 0 <= i < |p.slots| ==> p.pathAt < p.slots[i].keyAt
  }

  /** The positions in the request line, and where the headers begin. */
  datatype RequestLine = RequestLine(methodEnd: nat, pathAt: nat, query: Option<nat>, headersAt: nat)

  function ParseRequestLine(s: string): (r: Option<RequestLine>)
    ensures r.Some? ==> r.value.methodEnd < r.value.pathAt < r.value.headersAt <= |s|
    ensures r.Some? && r.value.query.Some? ==> r.value.pathAt < r.value.query.value < r.value.headersAt
  {
    hide SkipBlanks, IsMethod;
    var methodEnd := IndexFrom(s, 0, ' ');
    if methodEnd >= |s| || !IsMethod(s[..methodEnd]) then None
    else
      var pathAt := SkipBlanks(s, methodEnd);
      var pathEnd := IndexFrom(s, pathAt, ' ');
      if pathEnd >= |s| then None
      else
        var mark := QueryMark(s, pathAt, pathEnd);
        var version := SkipBlanks(s, pathEnd);
        if !IsVersionAt(s, version) || !CrlfAt(s, version + 8) then None
        else Some(RequestLine(methodEnd, pathAt, if mark < pathEnd then Some(mark + 1) else None, version + 10))
  }

  function Parse(s: string): (r: Outcome<Parsed>)
    ensures r.Accepted? ==> Fits(r.value, |s|)
  {
    hide ParseHeaders, ParseRequestLine;
    var line := ParseRequestLine(s);
    if line.None? then Rejected
    else
      var headers := ParseHeaders(s, line.value.headersAt, 0);
      if headers.None? then Overrun
      else
        Accepted(Parsed(line.value.methodEnd, line.value.pathAt, line.value.query, headers.value.0, headers.value.1))
  }

  /** The parser overruns its header table exactly on a request line with more than 16 header lines behind it. */
  lemma ParseOverrunsIff(s: string)
    ensures Parse(s).Overrun? <==>
              ParseRequestLine(s).Some? && HeaderLines(s, ParseRequestLine(s).value.headersAt) > HEADER_SLOTS
  {
    hide ParseHeaders, ParseRequestLine;
    if ParseRequestLine(s).Some? {
      TableIsOverrunIff(s, ParseRequestLine(s).value.headersAt, 0);
    }
  }

  predicate EndsPath(c: char) {
    c == NUL || c == ' ' || c == '?' || c == '\r'
  }

  /** Where the parser ends the path. */
  function PathStop(s: string, p: nat): (k: nat)
    requires p <= |s|
    ensures p <= k <= |s| && (k < |s| ==> EndsPath(s[k]))
    ensures forall i :: p <= i < k ==> !EndsPath(s[i])
    decreases |s| - p
  {
    if p == |s| || EndsPath(s[p]) then p else PathStop(s, p + 1)
  }

  /** The buffer after the parser has ended the method and the path. */
  function Terminated(s: string, p: Parsed): (b: string)
    requires Fits(p, |s|)
    ensures |b| == |s|
  {
    var t := s[p.methodEnd := NUL];
    var stop := PathStop(t, p.pathAt);
    if stop < |t| then t[stop := NUL] else t
  }

  /** What a caller reads: texts up to a terminator, a query up to a space, headers, and the rest. */
  function Seen(b: string, p: Parsed): Request
    requires Fits(p, |b|)
  {
    Request(
      b[..IndexFrom(b, 0, NUL)],
      b[p.pathAt..IndexFrom(b, p.pathAt, NUL)],
      if p.query.Some? then Some(b[p.query.value..IndexFrom(b, p.query.value, ' ')]) else None,
      Views(b, p.slots),
      b[p.bodyAt..])
  }

  // ----- formatting

  const VERSION_LINE: string := " HTTP/1.1\r\n"

  function QueryText(query: Option<string>): string {
    if query.Some? then "?" + query.value else []
  }

  function Head(req: Request): string {
    req.verb + " " + req.path + QueryText(req.query) + VERSION_LINE
    + FormatHeaders(WithLength(req.headers, req.body)) + CRLF
  }

  function Format(req: Request): string {
    Head(req) + req.body
  }

  /** The request with the header the formatter adds. */
  function Completed(req: Request): Request {
    req.(headers := WithLength(req.headers, req.body))
  }

  /** The writes of the formatter into the space it leaves for the head. */
  function HeadPieces(req: Request): seq<string> {
    [req.verb + " " + req.path] + (if req.query.Some? then ["?" + req.query.value] else []) + [VERSION_LINE]
    + HeaderPieces(WithLength(req.headers, req.body)) + [CRLF]
  }

  /** The formatter cuts none of its writes short if and only if the head and a terminator fit its limit. */
  lemma FormatIsCompleteIff(req: Request)
    ensures WritesFit(HeadPieces(req), 0) <==> |Head(req)| < 1024
  {
    hide FormatHeaders, HeaderPieces, WithLength;
    var start, hs := req.verb + " " + req.path, WithLength(req.headers, req.body);
    var before := [start] + (if req.query.Some? then ["?" + req.query.value] else []) + [VERSION_LINE];
    assert Joined(before) == start + QueryText(req.query) + VERSION_LINE by {
      LineIsJoined(start, req.query);
    }
    hide Joined, WritesFit, QueryText;
    JoinedHeaders(before, hs, CRLF);
    WritesFitIff(HeadPieces(req), 0);
  }

  lemma LineIsJoined(start: string, query: Option<string>)
    ensures Joined([start] + (if query.Some? then ["?" + query.value] else []) + [VERSION_LINE])
            == start + QueryText(query) + VERSION_LINE
  {
    var end := [VERSION_LINE];
    assert Joined(end) == VERSION_LINE + [] == VERSION_LINE;
    var rest := (if query.Some? then ["?" + query.value] else []) + end;
    assert Joined(rest) == QueryText(query) + VERSION_LINE by {
      if query.Some? {
        assert rest[1..] == end;
      } else {
        assert rest == end && [] + VERSION_LINE == VERSION_LINE;
      }
    }
    var all := [start] + (if query.Some? then ["?" + query.value] else []) + end;
    assert all[0] == start && all[1..] == rest;
    Associate(start, QueryText(query), VERSION_LINE);
  }

  /** The request that formatting and parsing shows; None when a write is cut short, and when it does not parse. */
  function Reparsed(req: Request): Option<Request> {
    var r := Parse(Format(req));
    if !WritesFit(HeadPieces(req), 0) || !r.Accepted? then None
    else Some(Seen(Terminated(Format(req), r.value), r.value))
  }

  // ----- which requests survive

  /** C strings hold no terminator. */
  predicate AreCStrings(req: Request) {
    NUL !in req.verb && NUL !in req.path && (req.query.Some? ==> NUL !in req.query.value)
  }

  predicate IsPath(path: string) {
    ' ' !in path && '?' !in path && '\r' !in path && (path != [] ==> path[0] != '\t')
  }

  /** The requests a request line and header lines can carry. */
  predicate IsRequest(req: Request) {
    && IsMethod(req.verb)
    && IsPath(req.path) && (req.path != [] || req.query.Some?)
    && (req.query.Some? ==> ' ' !in req.query.value)
    && AreHeaders(req.headers)
  }

  // ----- what the terminators change

  /** The parts of a buffer that parses. */
  lemma Anatomy(s: string) returns (pathEnd: nat, mark: nat, version: nat)
    requires Parse(s).Accepted?
    ensures var p := Parse(s).value;
            && p.methodEnd == IndexFrom(s, 0, ' ') && IsMethod(s[..p.methodEnd])
            && p.pathAt == SkipBlanks(s, p.methodEnd)
            && pathEnd == IndexFrom(s, p.pathAt, ' ') < |s| && mark == QueryMark(s, p.pathAt, pathEnd)
            && p.query == (if mark < pathEnd then Some(mark + 1) else None)
            && pathEnd < version == SkipBlanks(s, pathEnd) && version + 10 <= |s|
            && ParseHeaders(s, version + 10, 0) == Some((p.slots, p.bodyAt))
  {
    hide ParseHeaders, SkipBlanks, IsMethod;
    pathEnd := IndexFrom(s, Parse(s).value.pathAt, ' ');
    mark := QueryMark(s, Parse(s).value.pathAt, pathEnd);
    version := SkipBlanks(s, pathEnd);
  }

  lemma {:induction false} SamePathStop(s: string, b: string, p: nat)
    requires |b| == |s| && p <= |s| && forall i :: p <= i < |s| ==> b[i] == s[i]
    ensures PathStop(b, p) == PathStop(s, p)
    decreases |s| - p
  {
    if p < |s| && !EndsPath(s[p]) {
      SamePathStop(s, b, p + 1);
    }
  }

  /** The texts a caller reads, found in the buffer as it was before the terminators were written. */
  function SeenBefore(s: string, p: Parsed): Request
    requires Fits(p, |s|)
  {
    Request(
      s[..p.methodEnd],
      s[p.pathAt..PathStop(s, p.pathAt)],
      if p.query.Some? then Some(s[p.query.value..IndexFrom(s, p.query.value, ' ')]) else None,
      Views(s, p.slots),
      s[p.bodyAt..])
  }

  lemma TerminatedShape(s: string) returns (stop: nat)
    requires Parse(s).Accepted?
    ensures var p := Parse(s).value;
            var b := Terminated(s, p);
            && stop == PathStop(s, p.pathAt) < p.bodyAt && (p.query.Some? ==> stop < p.query.value)
            && (forall i :: 0 <= i < |p.slots| ==> stop < p.slots[i].keyAt)
            && b[p.methodEnd] == '\0' && b[stop] == '\0'
            && forall i :: 0 <= i < |s| && i != p.methodEnd && i != stop ==> b[i] == s[i]
  {
    hide ParseHeaders, IsMethod, Parse;
    var p := Parse(s).value;
    var pathEnd, mark, version := Anatomy(s);
    stop := PathStop(s, p.pathAt);
    SamePathStop(s, s[p.methodEnd := NUL], p.pathAt);
    assert EndsPath(s[mark]);
    assert stop <= mark;
  }

  lemma SameWord(s: string, b: string, q: nat)
    requires |b| == |s| && q <= |s| && forall i :: q <= i < |s| ==> b[i] == s[i]
    ensures IndexFrom(b, q, ' ') == IndexFrom(s, q, ' ')
    ensures b[q..IndexFrom(b, q, ' ')] == s[q..IndexFrom(s, q, ' ')]
  {
    IndexFromIs(b, q, ' ', IndexFrom(s, q, ' '));
  }

  lemma SlotsEndBeforeBody(s: string)
    requires Parse(s).Accepted?
    ensures EndBefore(s, Parse(s).value.slots, Parse(s).value.bodyAt)
  {
    hide ParseRequestLine, ParseHeaders, EndBefore;
    ParsedHeadersEndBefore(s, ParseRequestLine(s).value.headersAt, 0);
  }

  lemma SeenHeaders(s: string)
    requires Parse(s).Accepted?
    ensures var p := Parse(s).value; Views(Terminated(s, p), p.slots) == Views(s, p.slots)
  {
    hide Parse, Terminated, Views, PathStop, EndBefore;
    var p := Parse(s).value;
    var stop := TerminatedShape(s);
    SlotsEndBeforeBody(s);
    SameViews(s, Terminated(s, p), p.slots, stop + 1, p.bodyAt);
  }

  lemma SeenVerb(s: string)
    requires Parse(s).Accepted?
    ensures var p := Parse(s).value;
            IndexFrom(Terminated(s, p), 0, NUL) == p.methodEnd && Terminated(s, p)[..p.methodEnd] == s[..p.methodEnd]
  {
    var p := Parse(s).value;
    var b := Terminated(s, p);
    var stop := TerminatedShape(s);
    var pathEnd, mark, version := Anatomy(s);
    hide Parse, Terminated, IsMethod, ParseHeaders, PathStop, SkipBlanks, QueryMark;
    MethodCharacters(s[..p.methodEnd]);
    forall i | 0 <= i < p.methodEnd
      ensures b[i] != NUL
    {
      assert b[i] == s[..p.methodEnd][i];
    }
    IndexFromIs(b, 0, NUL, p.methodEnd);
    assert b[..p.methodEnd] == s[..p.methodEnd];
  }

  lemma SeenIsSeenBefore(s: string)
    requires Parse(s).Accepted?
    ensures var p := Parse(s).value; Seen(Terminated(s, p), p) == SeenBefore(s, p)
  {
    hide Parse, Terminated, Views, PathStop, IndexFrom;
    var p := Parse(s).value;
    var b := Terminated(s, p);
    var stop := TerminatedShape(s);
    SeenVerb(s);
    SeenHeaders(s);
    IndexFromIs(b, p.pathAt, NUL, stop);
    assert b[p.pathAt..stop] == s[p.pathAt..stop];
    if p.query.Some? {
      SameWord(s, b, p.query.value);
    }
    assert b[p.bodyAt..] == s[p.bodyAt..];
  }

  // ----- everything that is parsed is well formed

  /** Whatever the buffer, the texts that parsing shows are texts a message can carry. */
  lemma ParsedIsWellFormed(s: string)
    requires Parse(s).Accepted?
    ensures var seen := Seen(Terminated(s, Parse(s).value), Parse(s).value);
            && IsMethod(seen.verb) && IsPath(seen.path) && AreHeaders(seen.headers)
            && (seen.query.Some? ==> ' ' !in seen.query.value)
  {
    hide Parse, Terminated, Seen, Views, ParseHeaders, IsMethod, IsPath, PathStop, SkipBlanks, QueryMark, AreHeaders;
    var p := Parse(s).value;
    SeenIsSeenBefore(s);
    var pathEnd, mark, version := Anatomy(s);
    ParsedHeadersAreHeaders(s, version + 10, 0);
    ParsedPathIsPath(s, p.pathAt);
  }

  lemma ParsedPathIsPath(s: string, p: nat)
    requires p < |s| && !IsBlank(s[p])
    ensures IsPath(s[p..PathStop(s, p)])
  {
    var path := s[p..PathStop(s, p)];
    assert forall i :: 0 <= i < |path| ==> path[i] == s[p + i] && !EndsPath(path[i]);
  }

  lemma MethodCharacters(verb: string)
    requires IsMethod(verb)
    ensures NUL !in verb && ' ' !in verb
  {
  }

  // ----- parsing inverts formatting

  /** Where the parts of a formatted request lie. */
  lemma FormattedParts(req: Request)
    ensures var s := Format(req);
            var pathAt := |req.verb| + 1;
            var markAt := pathAt + |req.path|;
            var pathEnd := markAt + |QueryText(req.query)|;
            var headersAt := pathEnd + 11;
            && At(s, 0, req.verb) && At(s, |req.verb|, " ") && At(s, pathAt, req.path)
            && At(s, markAt, QueryText(req.query)) && At(s, pathEnd, VERSION_LINE)
            && At(s, headersAt, FormatHeaders(Completed(req).headers) + CRLF)
            && At(s, |Head(req)|, req.body)
            && |Head(req)| == headersAt + |FormatHeaders(Completed(req).headers)| + 2
            && |s| == |Head(req)| + |req.body|
  {
    hide At, FormatHeaders, QueryText, WithLength;
    PartsLie(req.verb, req.path, QueryText(req.query), FormatHeaders(Completed(req).headers), req.body);
  }

  lemma PartsLie(verb: string, path: string, query: string, headers: string, body: string)
    ensures var head := verb + " " + path + query + VERSION_LINE + headers + CRLF;
            var s, pathAt := head + body, |verb| + 1;
            var markAt := pathAt + |path|;
            var pathEnd := markAt + |query|;
            && At(s, 0, verb) && At(s, |verb|, " ") && At(s, pathAt, path) && At(s, markAt, query)
            && At(s, pathEnd, VERSION_LINE) && At(s, pathEnd + 11, headers + CRLF) && At(s, |head|, body)
  {
    var target := verb + " " + path;
    var line := target + query + VERSION_LINE;
    var head := line + headers + CRLF;
    var s := head + body;
    assert s[0..|s|] == s;
    hide At;
    AtSplit(s, 0, head, body);
    AtSplit(s, 0, line + headers, CRLF);
    AtSplit(s, 0, line, headers);
    AtSplit(s, |line|, headers, CRLF);
    AtSplit(s, 0, target + query, VERSION_LINE);
    AtSplit(s, 0, target, query);
    AtSplit(s, 0, verb + " ", path);
    AtSplit(s, 0, verb, " ");
  }

  /** No space in a path or a query ends the target early. */
  lemma TargetCharacters(s: string, p: nat, path: string, query: Option<string>)
    requires At(s, p, path) && At(s, p + |path|, QueryText(query)) && IsPath(path)
    requires query.Some? ==> ' ' !in query.value
    ensures forall i :: p <= i < p + |path| ==> s[i] != ' ' && s[i] != '?' && s[i] == path[i - p]
    ensures forall i :: p <= i < p + |path| + |QueryText(query)| ==> s[i] != ' '
    ensures query.Some? ==> s[p + |path|] == '?' && At(s, p + |path| + 1, query.value)
  {
    forall i | p <= i < p + |path|
      ensures s[i] == path[i - p]
    {
      AtChar(s, p, path, i - p);
    }
    var q := p + |path|;
    forall i | q <= i < q + |QueryText(query)|
      ensures s[i] != ' '
    {
      AtChar(s, q, QueryText(query), i - q);
    }
    if query.Some? {
      AtChar(s, q, QueryText(query), 0);
      AtSplit(s, q, "?", query.value);
    }
  }

  lemma VersionCharacters(s: string, p: nat)
    requires At(s, p, VERSION_LINE)
    ensures s[p] == ' ' && SkipBlanks(s, p) == p + 1 && IsVersionAt(s, p + 1) && CrlfAt(s, p + 9)
  {
    hide SkipBlanks, At;
    AtChar(s, p, VERSION_LINE, 0);
    AtChar(s, p, VERSION_LINE, 1);
    assert VERSION_LINE == " " + "HTTP/1.1" + CRLF;
    AtSplit(s, p, " " + "HTTP/1.1", CRLF);
    AtSplit(s, p, " ", "HTTP/1.1");
    LineEndAt(s, p + 9);
    SkipBlanksIs(s, p, p + 1);
  }

  lemma VerbSearches(s: string, verb: string)
    requires IsMethod(verb) && At(s, 0, verb) && At(s, |verb|, " ")
    requires |verb| + 1 < |s| && !IsBlank(s[|verb| + 1])
    ensures IndexFrom(s, 0, ' ') == |verb| && s[..|verb|] == verb && SkipBlanks(s, |verb|) == |verb| + 1
  {
    hide IsMethod;
    MethodCharacters(verb);
    forall i | 0 <= i < |verb|
      ensures s[i] != ' '
    {
      AtChar(s, 0, verb, i);
    }
    AtChar(s, |verb|, " ", 0);
    IndexFromIs(s, 0, ' ', |verb|);
    SkipBlanksIs(s, |verb|, |verb| + 1);
  }

  lemma QueryLength(query: Option<string>)
    ensures |QueryText(query)| == if query.Some? then 1 + |query.value| else 0
  {
  }

  lemma MarkIsAt(s: string, p: nat, mark: nat, end: nat)
    requires p <= mark <= end < |s| && (mark < end ==> s[mark] == '?') && forall i :: p <= i < mark ==> s[i] != '?'
    ensures QueryMark(s, p, end) == mark
  {
    if mark < end {
      IndexFromIs(s, p, '?', mark);
    }
  }

  lemma PathEndsAt(s: string, p: nat, path: string, end: nat)
    requires end == p + |path| < |s| && s[end] in {' ', '?'} && IsPath(path) && NUL !in path
    requires forall i :: p <= i < end ==> s[i] == path[i - p]
    ensures PathStop(s, p) == end && (path != [] ==> !IsBlank(s[p]))
  {
    PathStopIs(s, p, end);
  }

  lemma TargetSearches(s: string, p: nat, path: string, query: Option<string>)
    requires At(s, p, path) && At(s, p + |path|, QueryText(query)) && IsPath(path)
    requires query.Some? ==> ' ' !in query.value
    requires NUL !in path && (path != [] || query.Some?)
    requires p + |path| + |QueryText(query)| < |s| && s[p + |path| + |QueryText(query)|] == ' '
    ensures var markAt, pathEnd := p + |path|, p + |path| + |QueryText(query)|;
            && IndexFrom(s, p, ' ') == pathEnd && QueryMark(s, p, pathEnd) == markAt
            && PathStop(s, p) == markAt && s[p..markAt] == path && !IsBlank(s[p])
            && (query.Some? ==> s[markAt + 1..IndexFrom(s, markAt + 1, ' ')] == query.value)
  {
    hide At, IndexFrom, QueryText, QueryMark, PathStop, IsPath;
    var markAt, pathEnd := p + |path|, p + |path| + |QueryText(query)|;
    TargetCharacters(s, p, path, query);
    QueryLength(query);
    IndexFromIs(s, p, ' ', pathEnd);
    MarkIsAt(s, p, markAt, pathEnd);
    if query.Some? {
      IndexFromIs(s, markAt + 1, ' ', pathEnd);
      AtText(s, markAt + 1, query.value);
    }
    AtText(s, p, path);
    PathEndsAt(s, p, path, markAt);
  }

  lemma {:induction false} PathStopIs(s: string, p: nat, k: nat)
    requires p <= k <= |s| && (k < |s| ==> EndsPath(s[k])) && forall i :: p <= i < k ==> !EndsPath(s[i])
    ensures PathStop(s, p) == k
  {
    assert !(PathStop(s, p) < k) && !(k < PathStop(s, p));
  }

  lemma ParseIs(s: string, pathAt: nat, pathEnd: nat, mark: nat, version: nat)
    requires IndexFrom(s, 0, ' ') < |s| && IsMethod(s[..IndexFrom(s, 0, ' ')])
    requires pathAt == SkipBlanks(s, IndexFrom(s, 0, ' '))
    requires pathEnd == IndexFrom(s, pathAt, ' ') < |s| && mark == QueryMark(s, pathAt, pathEnd)
    requires version == SkipBlanks(s, pathEnd) && IsVersionAt(s, version) && CrlfAt(s, version + 8)
    ensures var headers := ParseHeaders(s, version + 10, 0);
            Parse(s) ==
              if headers.None? then Overrun
              else Accepted(Parsed(IndexFrom(s, 0, ' '), pathAt, if mark < pathEnd then Some(mark + 1) else None,
                                   headers.value.0, headers.value.1))
  {
    hide IndexFrom, SkipBlanks, ParseHeaders, IsMethod, IsVersionAt, QueryMark;
  }

  /** The positions at which a request is written. */
  function PlannedPositions(req: Request): Parsed {
    var markAt := |req.verb| + 1 + |req.path|;
    Parsed(|req.verb|, |req.verb| + 1, if req.query.Some? then Some(markAt + 1) else None,
           SlotsOf(Completed(req).headers, markAt + |QueryText(req.query)| + 11), |Head(req)|)
  }

  /** What the searches of the parser find in a formatted request. */
  lemma FormattedSearches(req: Request)
    requires IsRequest(req) && AreCStrings(req)
    ensures var s, m, pathAt := Format(req), |req.verb|, |req.verb| + 1;
            var markAt := pathAt + |req.path|;
            var pathEnd := markAt + |QueryText(req.query)|;
            && pathEnd + 11 <= |s|
            && IndexFrom(s, 0, ' ') == m && s[..m] == req.verb && SkipBlanks(s, m) == pathAt
            && IndexFrom(s, pathAt, ' ') == pathEnd && QueryMark(s, pathAt, pathEnd) == markAt
            && PathStop(s, pathAt) == markAt && s[pathAt..markAt] == req.path
            && (req.query.Some? ==> s[markAt + 1..IndexFrom(s, markAt + 1, ' ')] == req.query.value)
            && SkipBlanks(s, pathEnd) == pathEnd + 1 && IsVersionAt(s, pathEnd + 1) && CrlfAt(s, pathEnd + 9)
  {
    hide IsMethod, FormatHeaders, Head, Format, IsPath, IndexFrom, SkipBlanks, QueryMark, PathStop, At, AreHeaders;
    hide QueryText, CrlfAt, IsVersionAt, IsBlank;
    var s, pathAt := Format(req), |req.verb| + 1;
    var pathEnd := pathAt + |req.path| + |QueryText(req.query)|;
    FormattedParts(req);
    VersionCharacters(s, pathEnd);
    TargetSearches(s, pathAt, req.path, req.query);
    VerbSearches(s, req.verb);
  }

  lemma HasMethod(req: Request)
    requires IsRequest(req)
    ensures IsMethod(req.verb)
  {
  }

  /** The request line of a formatted request is parsed, and the headers behind it. */
  lemma ParsesBehindLine(req: Request)
    requires IsRequest(req) && AreCStrings(req)
    ensures var markAt := |req.verb| + 1 + |req.path|;
            var headersAt := markAt + |QueryText(req.query)| + 11;
            headersAt <= |Format(req)|
            && var headers := ParseHeaders(Format(req), headersAt, 0);
               Parse(Format(req))
               == if headers.None? then Overrun
                  else Accepted(Parsed(|req.verb|, |req.verb| + 1, if req.query.Some? then Some(markAt + 1) else None,
                                       headers.value.0, headers.value.1))
  {
    hide *;
    var pathAt := |req.verb| + 1;
    var markAt := pathAt + |req.path|;
    var pathEnd := markAt + |QueryText(req.query)|;
    HasMethod(req);
    QueryLength(req.query);
    FormattedSearches(req);
    ParseIs(Format(req), pathAt, pathEnd, markAt, pathEnd + 1);
  }

  /** Parsing a formatted request finds its parts where they were written, or overruns the header table. */
  lemma ParseFindsPositions(req: Request)
    requires IsRequest(req) && AreCStrings(req)
    ensures Parse(Format(req))
            == if |Completed(req).headers| <= HEADER_SLOTS then Accepted(PlannedPositions(req)) else Overrun
    ensures InBounds(PlannedPositions(req).slots, |Format(req)|)
    ensures Views(Format(req), PlannedPositions(req).slots) == Completed(req).headers
  {
    hide IsMethod, FormatHeaders, At, Head, Format, Parse, IsPath, ParseHeaders, Views, AreHeaders, SlotsOf;
    hide InBounds, QueryText;
    var headersAt := |req.verb| + 1 + |req.path| + |QueryText(req.query)| + 11;
    FormattedParts(req);
    WithLengthAreHeaders(req.headers, req.body);
    ParseFormattedHeaders(Format(req), headersAt, Completed(req).headers, 0);
    ParsesBehindLine(req);
  }

  /** The head fits the formatter and the headers fit the parser. */
  predicate HasRoom(req: Request) {
    |Head(req)| < HEAD_LIMIT && |Completed(req).headers| <= HEADER_SLOTS
  }

  /** A request that a message can carry is shown exactly as it was formatted, if there is room for it. */
  lemma ParseInvertsFormat(req: Request)
    requires IsRequest(req) && AreCStrings(req) && HasRoom(req)
    ensures Reparsed(req) == Some(Completed(req))
  {
    hide IsMethod, FormatHeaders, Head, Format, Parse, IsPath, IndexFrom, Terminated, Seen, Views, At, PathStop;
    hide SkipBlanks, QueryMark, CrlfAt, IsVersionAt, SlotsOf;
    var s, p := Format(req), PlannedPositions(req);
    FormatIsCompleteIff(req);
    hide WritesFit, HeadPieces;
    ParseFindsPositions(req);
    SeenIsSeenBefore(s);
    FormattedSearches(req);
    FormattedParts(req);
    AtText(s, p.bodyAt, req.body);
    var seen := SeenBefore(s, p);
    assert seen.verb == req.verb && seen.path == req.path && seen.query == req.query;
    assert seen.headers == Completed(req).headers;
    assert seen.body == s[p.bodyAt..] == s[p.bodyAt..|s|] == req.body;
  }

  lemma EmptyTargetSearches(req: Request)
    requires IsMethod(req.verb) && req.path == [] && req.query.None?
    ensures var s, m := Format(req), |req.verb|;
            IndexFrom(s, 0, ' ') == m && SkipBlanks(s, m) == m + 2 < |s| && !EndsPath(s[m + 2])
  {
    hide FormatHeaders, Head, Format, At, IndexFrom, SkipBlanks, IsMethod;
    var s, m := Format(req), |req.verb|;
    FormattedParts(req);
    AtChar(s, m, " ", 0);
    AtChar(s, m + 1, VERSION_LINE, 0);
    AtChar(s, m + 1, VERSION_LINE, 1);
    IndexOfVerb(s, req.verb);
    SkipBlanksIs(s, m, m + 2);
  }

  /** A request with neither path nor query is not shown as it was. */
  lemma EmptyTargetIsLost(req: Request)
    requires IsMethod(req.verb) && req.path == [] && req.query.None?
    ensures Reparsed(req) != Some(Completed(req))
  {
    hide FormatHeaders, Head, Format, Terminated, Seen, Views, ParseHeaders, At, Parse, IndexFrom, SkipBlanks;
    var s := Format(req);
    if Parse(s).Accepted? {
      EmptyTargetSearches(req);
      SeenIsSeenBefore(s);
      var pathEnd, mark, version := Anatomy(s);
      assert SeenBefore(s, Parse(s).value).path != [];
    }
  }

  lemma IndexOfVerb(s: string, verb: string)
    requires IsMethod(verb) && At(s, 0, verb) && |verb| < |s| && s[|verb|] == ' '
    ensures IndexFrom(s, 0, ' ') == |verb|
  {
    hide IsMethod;
    MethodCharacters(verb);
    forall i | 0 <= i < |verb|
      ensures s[i] != ' '
    {
      AtChar(s, 0, verb, i);
    }
  }

  lemma CarriedIfShown(req: Request)
    ensures Reparsed(req) == Some(Completed(req)) ==> IsRequest(req) && HasRoom(req)
  {
    hide Parse, Format, Terminated, Seen, IsMethod, IsPath, IsHeader, Head, HeadPieces, WritesFit;
    if Reparsed(req) == Some(Completed(req)) {
      FormatIsCompleteIff(req);
      ParsedIsWellFormed(Format(req));
      AtMostTheTable(Format(req));
      WithLengthAreHeaders(req.headers, req.body);
      if req.path == [] && req.query.None? {
        EmptyTargetIsLost(req);
      }
    }
  }

  lemma AtMostTheTable(s: string)
    requires Parse(s).Accepted?
    ensures |Seen(Terminated(s, Parse(s).value), Parse(s).value).headers| <= 16
  {
    hide ParseHeaders, ParseRequestLine, Terminated, Views;
    TableIsOverrunIff(s, ParseRequestLine(s).value.headersAt, 0);
  }

  /**
    The round trip: parsing a formatted request shows the request, with the length header the formatter
    adds, exactly when the request line and the header lines can carry it, its head fits the formatter's
    limit and its headers fit the parser's table.
   */
  lemma RoundTripIffCarried(req: Request)
    requires AreCStrings(req)
    ensures Reparsed(req) == Some(Completed(req)) <==> IsRequest(req) && HasRoom(req)
  {
    hide IsRequest, Reparsed, HasRoom;
    if IsRequest(req) && HasRoom(req) {
      ParseInvertsFormat(req);
    }
    CarriedIfShown(req);
  }
}
