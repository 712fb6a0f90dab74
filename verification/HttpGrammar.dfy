/**
  Which lines the parsers of src/cwebhttp.c accept, as grammars without any cursor: the request line, the
  status line and the header line. Each parser is shown to accept exactly the lines of its grammar, and to
  find their parts where the grammar puts them.
 */
module HttpGrammar {
  import opened HttpHeaders
  import opened HttpRequest
  import HttpResponse
  import opened Text
  import opened Wrappers

  // ----- gaps and words

  predicate AreBlanks(s: string) {
    forall i :: 0 <= i < |s| ==> s[i] == ' ' || s[i] == '\t'
  }

  /** A space, and any blanks behind it. */
  predicate IsGap(s: string) {
    s != [] && s[0] == ' ' && AreBlanks(s)
  }

  lemma GapSkips(s: string, p: nat, gap: string)
    requires At(s, p, gap) && AreBlanks(gap) && p + |gap| < |s| && s[p + |gap|] !in {' ', '\t'}
    ensures SkipBlanks(s, p) == p + |gap|
  {
    forall i | p <= i < p + |gap|
      ensures IsBlank(s[i])
    {
      AtChar(s, p, gap, i - p);
    }
    SkipBlanksIs(s, p, p + |gap|);
  }

  lemma SkippedIsGap(s: string, p: nat)
    requires p <= |s|
    ensures AreBlanks(s[p..SkipBlanks(s, p)])
    ensures SkipBlanks(s, p) < |s| ==> s[SkipBlanks(s, p)] !in {' ', '\t'}
  {
  }

  /** A word without the character that ends it is found up to there. */
  lemma WordEnds(s: string, p: nat, word: string, c: char)
    requires At(s, p, word) && c !in word && p + |word| < |s| && s[p + |word|] == c
    ensures IndexFrom(s, p, c) == p + |word|
  {
    forall i | p <= i < p + |word|
      ensures s[i] != c
    {
      AtChar(s, p, word, i - p);
    }
    IndexFromIs(s, p, c, p + |word|);
  }

  lemma AllOf(s: string)
    ensures At(s, 0, s)
  {
    assert s[0..|s|] == s;
  }

  lemma EndsInLineEnd(s: string, p: nat)
    requires CrlfAt(s, p)
    ensures s[p..p + 2] == CRLF
  {
  }

  // ----- the request line

  /** A request line in its parts, and what comes behind it. */
  datatype Line = Line(verb: string, gap: string, target: string, gap': string, version: string, rest: string)

  function LineText(l: Line): string {
    l.verb + l.gap + l.target + l.gap' + l.version + CRLF + l.rest
  }

  /** One of five methods, a target without spaces, and one of two versions. */
  predicate IsLine(l: Line) {
    && l.verb in {"GET", "POST", "PUT", "DELETE", "HEAD"} && IsGap(l.gap)
    && ' ' !in l.target && l.target != [] && l.target[0] != '\t' && IsGap(l.gap')
    && l.version in {"HTTP/1.1", "HTTP/1.0"}
  }

  /** The positions that the grammar gives the parts; the query begins behind the first question mark. */
  predicate Locates(l: Line, r: RequestLine) {
    var targetAt := |l.verb| + |l.gap|;
    && r.methodEnd == |l.verb| && r.pathAt == targetAt
    && r.headersAt == targetAt + |l.target| + |l.gap'| + 10
    && (r.query.None? <==> '?' !in l.target)
    && (r.query.Some? ==>
          && targetAt < r.query.value <= targetAt + |l.target| && l.target[r.query.value - 1 - targetAt] == '?'
          && '?' !in l.target[..r.query.value - 1 - targetAt])
  }

  lemma LineParts(l: Line)
    ensures var s, a := LineText(l), |l.verb|;
            var b := a + |l.gap|;
            var c := b + |l.target|;
            var d := c + |l.gap'|;
            && At(s, 0, l.verb) && At(s, a, l.gap) && At(s, b, l.target) && At(s, c, l.gap') && At(s, d, l.version)
            && At(s, d + |l.version|, CRLF)
  {
    hide At;
    var start := l.verb + l.gap;
    var most := start + l.target + l.gap';
    AllOf(LineText(l));
    AtSplit(LineText(l), 0, most + l.version + CRLF, l.rest);
    AtSplit(LineText(l), 0, most + l.version, CRLF);
    AtSplit(LineText(l), 0, most, l.version);
    AtSplit(LineText(l), 0, start + l.target, l.gap');
    AtSplit(LineText(l), 0, start, l.target);
    AtSplit(LineText(l), 0, l.verb, l.gap);
  }

  lemma MarkIs(s: string, p: nat, target: string)
    requires At(s, p, target)
    ensures var k := QueryMark(s, p, p + |target|);
            && (k == p + |target| <==> '?' !in target)
            && (k < p + |target| ==> target[k - p] == '?' && '?' !in target[..k - p])
  {
    forall i | 0 <= i < |target|
      ensures s[p + i] == target[i]
    {
      AtChar(s, p, target, i);
    }
    var k := QueryMark(s, p, p + |target|);
    assert k < p + |target| ==> s[k] == '?';
    forall i | p <= i < k
      ensures s[i] != '?' && target[i - p] != '?'
    {
    }
  }

  /** What the parser makes of the positions that its searches find. */
  lemma CursorAt(s: string, a: nat, b: nat, c: nat, d: nat)
    requires a < |s| && IndexFrom(s, 0, ' ') == a && IsMethod(s[..a]) && SkipBlanks(s, a) == b
    requires c < |s| && IndexFrom(s, b, ' ') == c && SkipBlanks(s, c) == d && IsVersionAt(s, d) && CrlfAt(s, d + 8)
    ensures var k := QueryMark(s, b, c);
            ParseRequestLine(s) == Some(RequestLine(a, b, if k < c then Some(k + 1) else None, d + 10))
  {
    hide IndexFrom, SkipBlanks, IsMethod, QueryMark, IsVersionAt, CrlfAt;
  }

  /** The searches find a word and the gap behind it. */
  lemma WordAndGap(s: string, p: nat, word: string, gap: string)
    requires At(s, p, word) && ' ' !in word && At(s, p + |word|, gap) && IsGap(gap)
    requires p + |word| + |gap| < |s| && s[p + |word| + |gap|] !in {' ', '\t'}
    ensures IndexFrom(s, p, ' ') == p + |word|
    ensures SkipBlanks(s, p + |word|) == p + |word| + |gap|
  {
    hide At, IndexFrom, SkipBlanks, AreBlanks;
    AtChar(s, p + |word|, gap, 0);
    WordEnds(s, p, word, ' ');
    GapSkips(s, p + |word|, gap);
  }

  lemma LineWords(l: Line)
    requires IsLine(l)
    ensures ' ' !in l.verb && ' ' !in l.target && IsGap(l.gap) && IsGap(l.gap')
  {
    VerbIsMethod(l.verb);
  }

  /** What the searches find in a line of the grammar. */
  lemma LineSearches(l: Line)
    requires IsLine(l)
    ensures var s, a := LineText(l), |l.verb|;
            var b := a + |l.gap|;
            var c := b + |l.target|;
            var d := c + |l.gap'|;
            && d < |s| && IndexFrom(s, 0, ' ') == a && SkipBlanks(s, a) == b
            && IndexFrom(s, b, ' ') == c && SkipBlanks(s, c) == d
  {
    hide *;
    LineParts(l);
    LineChars(l);
    LineWords(l);
    WordAndGap(LineText(l), 0, l.verb, l.gap);
    WordAndGap(LineText(l), |l.verb| + |l.gap|, l.target, l.gap');
  }

  /** What else the parser checks in a line of the grammar. */
  lemma LineChecks(l: Line)
    requires IsLine(l)
    ensures var s, a := LineText(l), |l.verb|;
            var b := a + |l.gap|;
            var d := b + |l.target| + |l.gap'|;
            && a < b < b + |l.target| < d && At(s, 0, l.verb) && IsMethod(l.verb) && At(s, b, l.target)
            && IsVersionAt(s, d) && CrlfAt(s, d + 8)
  {
    hide LineText, At, IsVersionAt, CrlfAt;
    var s, d := LineText(l), |l.verb| + |l.gap| + |l.target| + |l.gap'|;
    LineParts(l);
    VersionIs(s, d, l.version);
    LineEndAt(s, d + 8);
  }

  /** The parser accepts a line of the grammar. */
  lemma LineAccepted(l: Line)
    requires IsLine(l)
    ensures var s, a := LineText(l), |l.verb|;
            var b := a + |l.gap|;
            var c := b + |l.target|;
            && c <= |s| && At(s, b, l.target)
            && ParseRequestLine(s) == Some(RequestLine(a, b,
                                           if QueryMark(s, b, c) < c then Some(QueryMark(s, b, c) + 1) else None,
                                           c + |l.gap'| + 10))
  {
    hide *;
    var s, a := LineText(l), |l.verb|;
    var b := a + |l.gap|;
    var c := b + |l.target|;
    LineSearches(l);
    LineChecks(l);
    AtText(s, 0, l.verb);
    CursorAt(s, a, b, c, c + |l.gap'|);
  }

  /** Every line of the grammar is accepted, and its parts are found. */
  lemma LineReads(l: Line)
    requires IsLine(l)
    ensures ParseRequestLine(LineText(l)).Some? && Locates(l, ParseRequestLine(LineText(l)).value)
  {
    hide LineText, IsLine, QueryMark, At, ParseRequestLine;
    LineAccepted(l);
    MarkIs(LineText(l), |l.verb| + |l.gap|, l.target);
  }

  lemma VerbIsMethod(verb: string)
    requires verb in {"GET", "POST", "PUT", "DELETE", "HEAD"}
    ensures IsMethod(verb) && ' ' !in verb && verb != []
  {
  }

  lemma MethodIsVerb(verb: string)
    requires IsMethod(verb)
    ensures verb in {"GET", "POST", "PUT", "DELETE", "HEAD"}
  {
  }

  lemma VersionIs(s: string, p: nat, version: string)
    requires At(s, p, version) && version in {"HTTP/1.1", "HTTP/1.0"}
    ensures IsVersionAt(s, p) && |version| == 8
  {
  }

  /** The characters at which the parts meet. */
  lemma LineChars(l: Line)
    requires IsLine(l)
    ensures var s, a := LineText(l), |l.verb|;
            var b := a + |l.gap|;
            var c := b + |l.target|;
            var d := c + |l.gap'|;
            && d < |s| && s[a] == ' ' && s[b] !in {' ', '\t'} && s[c] == ' ' && s[d] !in {' ', '\t'}
  {
    LineParts(l);
    hide At, LineText;
    var s, a := LineText(l), |l.verb|;
    var b := a + |l.gap|;
    var c := b + |l.target|;
    var d := c + |l.gap'|;
    AtChar(s, a, l.gap, 0);
    AtChar(s, b, l.target, 0);
    AtChar(s, c, l.gap', 0);
    AtChar(s, d, l.version, 0);
    AtText(s, d, l.version);
  }

  /** What the parser has found in a line that it accepts. */
  lemma CursorFound(s: string)
    requires ParseRequestLine(s).Some?
    ensures var a := IndexFrom(s, 0, ' ');
            var b := SkipBlanks(s, a);
            var c := IndexFrom(s, b, ' ');
            var d := SkipBlanks(s, c);
            a < |s| && IsMethod(s[..a]) && c < |s| && IsVersionAt(s, d) && CrlfAt(s, d + 8)
  {
    hide IndexFrom, SkipBlanks, IsMethod, QueryMark, IsVersionAt, CrlfAt;
  }

  lemma GapFound(s: string, p: nat)
    requires p < |s| && s[p] == ' '
    ensures SkipBlanks(s, p) > p && IsGap(s[p..SkipBlanks(s, p)])
  {
    SkippedIsGap(s, p);
  }

  lemma TargetFound(s: string, p: nat)
    requires p < |s| && IndexFrom(s, p, ' ') < |s| && s[p] !in {' ', '\t'}
    ensures var t := s[p..IndexFrom(s, p, ' ')]; t != [] && ' ' !in t && t[0] != '\t'
  {
    hide IndexFrom;
  }

  /** Every line that is accepted is one of the grammar. */
  lemma LineFound(s: string) returns (l: Line)
    requires ParseRequestLine(s).Some?
    ensures IsLine(l) && LineText(l) == s
  {
    CursorFound(s);
    hide ParseRequestLine, IsVersionAt, IsMethod, At, CrlfAt, IndexFrom, SkipBlanks, IsGap;
    var a := IndexFrom(s, 0, ' ');
    var b := SkipBlanks(s, a);
    var c := IndexFrom(s, b, ' ');
    var d := SkipBlanks(s, c);
    GapFound(s, a);
    GapFound(s, c);
    TargetFound(s, b);
    VersionFound(s, d);
    l := Line(s[..a], s[a..b], s[b..c], s[c..d], s[d..d + 8], s[d + 10..]);
    MethodIsVerb(l.verb);
    LineOf(s, l, a, b, c, d);
  }

  lemma LineOf(s: string, l: Line, a: nat, b: nat, c: nat, d: nat)
    requires a <= b <= c <= d && d + 8 <= |s| && CrlfAt(s, d + 8)
    requires l == Line(s[..a], s[a..b], s[b..c], s[c..d], s[d..d + 8], s[d + 10..])
    ensures LineText(l) == s
  {
    EndsInLineEnd(s, d + 8);
    SevenParts(s, a, b, c, d, d + 8, d + 10);
  }

  lemma VersionFound(s: string, p: nat)
    requires IsVersionAt(s, p)
    ensures p + 8 <= |s| && s[p..p + 8] in {"HTTP/1.1", "HTTP/1.0"}
  {
  }

  lemma SevenParts(s: string, a: nat, b: nat, c: nat, d: nat, e: nat, f: nat)
    requires a <= b <= c <= d <= e <= f <= |s|
    ensures s == s[..a] + s[a..b] + s[b..c] + s[c..d] + s[d..e] + s[e..f] + s[f..]
  {
    assert s[..b] == s[..a] + s[a..b];
    assert s[..c] == s[..b] + s[b..c];
    assert s[..d] == s[..c] + s[c..d];
    assert s[..e] == s[..d] + s[d..e];
    assert s[..f] == s[..e] + s[e..f];
    assert s == s[..f] + s[f..];
  }

  /** The parser accepts exactly the request lines of the grammar, and finds their parts where they are. */
  lemma RequestLineIff(s: string)
    ensures ParseRequestLine(s).Some? <==> exists l :: IsLine(l) && LineText(l) == s
    ensures forall l :: IsLine(l) && LineText(l) == s ==> Locates(l, ParseRequestLine(s).value)
  {
    hide ParseRequestLine, IsLine, LineText, Locates;
    if ParseRequestLine(s).Some? {
      var l := LineFound(s);
    }
    forall l | IsLine(l) && LineText(l) == s
      ensures ParseRequestLine(s).Some? && Locates(l, ParseRequestLine(s).value)
    {
      LineReads(l);
    }
  }

  // ----- the header line

  /**
    A header line: the key up to the first colon, any blanks, and a value that neither starts with one nor
    ends the line.
   */
  predicate IsHeaderLine(key: string, gap: string, value: string) {
    ':' !in key && AreBlanks(gap) && !HasCrlf(value) && (value != [] ==> value[0] !in {' ', '\t'})
  }

  function HeaderText(key: string, gap: string, value: string): string {
    key + ":" + gap + value + CRLF
  }

  /** Every header line of the grammar is accepted, and its key and value are shown. */
  lemma HeaderReads(s: string, p: nat, key: string, gap: string, value: string)
    requires IsHeaderLine(key, gap, value) && At(s, p, HeaderText(key, gap, value))
    ensures ParseHeader(s, p) == Some((p + |key| + 1 + |gap|, p + |HeaderText(key, gap, value)|))
    ensures View(s, Slot(p, p + |key| + 1 + |gap|)) == Header(key, value)
  {
    hide At, IndexFrom, SkipBlanks, CrlfFrom, HeaderText, HasCrlf, AreBlanks;
    HeaderSearches(s, p, key, gap, value);
    HeaderTextParts(s, p, key, gap, value);
    AtSplit(s, p + |key| + 1 + |gap|, value, CRLF);
    AtText(s, p, key);
    AtText(s, p + |key| + 1 + |gap|, value);
  }

  /** What the searches find in a header line of the grammar. */
  lemma HeaderSearches(s: string, p: nat, key: string, gap: string, value: string)
    requires IsHeaderLine(key, gap, value) && At(s, p, HeaderText(key, gap, value))
    ensures var colon, valueAt := p + |key|, p + |key| + 1 + |gap|;
            && valueAt + |value| + 2 <= |s| && IndexFrom(s, p, ':') == colon && SkipBlanks(s, colon + 1) == valueAt
            && CrlfFrom(s, valueAt) == valueAt + |value|
  {
    hide At, IndexFrom, SkipBlanks, CrlfFrom, HeaderText, HasCrlf, AreBlanks;
    HeaderTextParts(s, p, key, gap, value);
    WordEnds(s, p, key, ':');
    GapSkips(s, p + |key| + 1, gap);
    CrlfBehind(s, p + |key| + 1 + |gap|, value);
  }

  lemma HeaderTextParts(s: string, p: nat, key: string, gap: string, value: string)
    requires At(s, p, HeaderText(key, gap, value)) && (value != [] ==> value[0] !in {' ', '\t'})
    ensures var valueAt := p + |key| + 1 + |gap|;
            && At(s, p, key) && At(s, p + |key| + 1, gap) && At(s, valueAt, value + CRLF)
            && valueAt + |value| + 2 == p + |HeaderText(key, gap, value)| <= |s|
            && s[p + |key|] == ':' && s[valueAt] !in {' ', '\t'}
  {
    hide At;
    AtText(s, p, HeaderText(key, gap, value));
    var valueAt := p + |key| + 1 + |gap|;
    AtSplit(s, p, key + ":" + gap + value, CRLF);
    AtSplit(s, p, key + ":" + gap, value);
    AtSplit(s, p, key + ":", gap);
    AtSplit(s, p, key, ":");
    AtSplit(s, valueAt, value, CRLF);
    AtChar(s, p + |key|, ":", 0);
    AtChar(s, valueAt, value + CRLF, 0);
  }

  lemma HeaderFound(s: string, p: nat) returns (key: string, gap: string, value: string)
    requires p <= |s| && ParseHeader(s, p).Some?
    ensures IsHeaderLine(key, gap, value) && At(s, p, HeaderText(key, gap, value))
  {
    var colon := IndexFrom(s, p, ':');
    var valueAt := SkipBlanks(s, colon + 1);
    var end := CrlfFrom(s, valueAt);
    key, gap, value := s[p..colon], s[colon + 1..valueAt], s[valueAt..end];
    SkippedIsGap(s, colon + 1);
    forall i | 0 <= i < |value|
      ensures !CrlfAt(value, i)
    {
      assert !CrlfAt(s, valueAt + i);
    }
    hide IndexFrom, SkipBlanks, CrlfFrom;
    EndsInLineEnd(s, end);
    FiveParts(s, p, colon, valueAt, end);
  }

  lemma FiveParts(s: string, p: nat, colon: nat, valueAt: nat, end: nat)
    requires p <= colon < valueAt <= end && end + 2 <= |s|
    ensures s[p..end + 2] == s[p..colon] + [s[colon]] + s[colon + 1..valueAt] + s[valueAt..end] + s[end..end + 2]
  {
    assert s[p..colon + 1] == s[p..colon] + [s[colon]];
    assert s[p..valueAt] == s[p..colon + 1] + s[colon + 1..valueAt];
    assert s[p..end] == s[p..valueAt] + s[valueAt..end];
  }

  /** The parser accepts exactly the header lines of the grammar, and shows their key and value. */
  lemma HeaderLineIff(s: string, p: nat)
    requires p <= |s|
    ensures ParseHeader(s, p).Some?
            <==> exists key, gap, value :: IsHeaderLine(key, gap, value) && At(s, p, HeaderText(key, gap, value))
    ensures forall key, gap, value :: IsHeaderLine(key, gap, value) && At(s, p, HeaderText(key, gap, value)) ==>
              && ParseHeader(s, p) == Some((p + |key| + 1 + |gap|, p + |HeaderText(key, gap, value)|))
              && View(s, Slot(p, p + |key| + 1 + |gap|)) == Header(key, value)
  {
    hide ParseHeader, IsHeaderLine, HeaderText, At, View;
    if ParseHeader(s, p).Some? {
      var key, gap, value := HeaderFound(s, p);
    }
    forall key, gap, value | IsHeaderLine(key, gap, value) && At(s, p, HeaderText(key, gap, value))
      ensures ParseHeader(s, p) == Some((p + |key| + 1 + |gap|, p + |HeaderText(key, gap, value)|))
      ensures View(s, Slot(p, p + |key| + 1 + |gap|)) == Header(key, value)
    {
      HeaderReads(s, p, key, gap, value);
    }
  }

  // ----- decimal numbers

  const DIGITS: string := "0123456789"

  predicate AreDigits(digits: seq<nat>) {
    forall i :: 0 <= i < |digits| ==> digits[i] < 10
  }

  function Spelled(digits: seq<nat>): (s: string)
    requires AreDigits(digits)
    ensures |s| == |digits| && forall i :: 0 <= i < |s| ==> s[i] == DIGITS[digits[i]]
  {
    seq(|digits|, i requires 0 <= i < |digits| => DIGITS[digits[i]])
  }

  /** Each place is worth ten times the one behind it. */
  function Amount(digits: seq<nat>): nat {
    if digits == [] then 0 else Amount(digits[..|digits| - 1]) * 10 + digits[|digits| - 1]
  }

  /** A digit is worth its place among the ten. */
  lemma DigitsAre(d: nat)
    requires d < 10
    ensures IsDigit(DIGITS[d]) && DigitValue(DIGITS[d]) == d && DigitChar(d) == DIGITS[d]
  {
  }

  lemma DigitFound(c: char) returns (d: nat)
    requires IsDigit(c)
    ensures d < 10 && c == DIGITS[d] && DigitValue(c) == d
  {
    d := c as nat - '0' as nat;
  }

  /** The decimal text of a number has its digits, without leading zeros. */
  lemma {:induction false} DecimalIs(n: nat) returns (digits: seq<nat>)
    ensures digits != [] && AreDigits(digits) && Decimal(n) == Spelled(digits) && Amount(digits) == n
    ensures n > 0 ==> digits[0] != 0
  {
    DigitsAre(n % 10);
    if n < 10 {
      digits := [n];
    } else {
      var most := DecimalIs(n / 10);
      digits := most + [n % 10];
      assert digits[..|digits| - 1] == most;
    }
  }

  /** A negative number has a minus sign in front of its digits. */
  lemma SignedDecimalIs(n: int) returns (digits: seq<nat>)
    ensures AreDigits(digits) && Amount(digits) == (if n < 0 then -n else n)
    ensures SignedDecimal(n) == if n < 0 then "-" + Spelled(digits) else Spelled(digits)
  {
    digits := DecimalIs(if n < 0 then -n else n);
  }

  // ----- the status line

  /** A status line in its parts, and what comes behind it. */
  datatype Status = Status(version: string, gap: string, digits: seq<nat>, reason: string, rest: string)

  /** One of two versions, any blanks, three digits, and whatever does not end the line. */
  predicate IsStatus(l: Status) {
    && l.version in {"HTTP/1.1", "HTTP/1.0"} && AreBlanks(l.gap)
    && AreDigits(l.digits) && |l.digits| == 3 && !HasCrlf(l.reason)
  }

  function StatusText(l: Status): string
    requires AreDigits(l.digits)
  {
    l.version + l.gap + Spelled(l.digits) + (l.reason + CRLF) + l.rest
  }

  lemma StatusParts(l: Status)
    requires IsStatus(l)
    ensures var s, p := StatusText(l), 8 + |l.gap|;
            && At(s, 0, l.version) && At(s, 8, l.gap) && At(s, p, Spelled(l.digits)) && p + 3 <= |s|
            && At(s, p + 3, l.reason + CRLF) && CrlfAt(s, p + 3 + |l.reason|)
  {
    assert |l.version| == 8;
    var s, line, p := StatusText(l), l.reason + CRLF, 8 + |l.gap|;
    hide At, CrlfAt, HasCrlf;
    AllOf(s);
    AtSplit(s, 0, l.version + l.gap + Spelled(l.digits) + line, l.rest);
    AtSplit(s, 0, l.version + l.gap + Spelled(l.digits), line);
    AtSplit(s, 0, l.version + l.gap, Spelled(l.digits));
    AtSplit(s, 0, l.version, l.gap);
    AtSplit(s, p + 3, l.reason, CRLF);
    LineEndAt(s, p + 3 + |l.reason|);
  }

  lemma AmountOfThree(digits: seq<nat>)
    requires |digits| == 3
    ensures Amount(digits) == (digits[0] * 10 + digits[1]) * 10 + digits[2]
  {
    var two, one := digits[..2], digits[..1];
    assert two[..1] == one && one[..0] == [];
    assert Amount(one) == digits[0];
    assert Amount(two) == digits[0] * 10 + digits[1];
  }

  /** Three digits are read as their value. */
  lemma DigitsRead(s: string, p: nat, digits: seq<nat>)
    requires AreDigits(digits) && |digits| == 3 && At(s, p, Spelled(digits))
    ensures HttpResponse.StatusAt(s, p) == Some(Amount(digits)) && p < |s| && s[p] !in {' ', '\t'}
  {
    AmountOfThree(digits);
    forall i | 0 <= i < 3
      ensures p + i < |s| && IsDigit(s[p + i]) && DigitValue(s[p + i]) == digits[i]
    {
      AtChar(s, p, Spelled(digits), i);
      DigitsAre(digits[i]);
    }
    assert IsDigit(s[p + 0]) && IsDigit(s[p + 1]) && IsDigit(s[p + 2]);
  }

  lemma DigitsFound(s: string, p: nat) returns (digits: seq<nat>)
    requires HttpResponse.StatusAt(s, p).Some?
    ensures AreDigits(digits) && |digits| == 3 && s[p..p + 3] == Spelled(digits)
    ensures HttpResponse.StatusAt(s, p).value == Amount(digits)
  {
    var a := DigitFound(s[p]);
    var b := DigitFound(s[p + 1]);
    var c := DigitFound(s[p + 2]);
    digits := [a, b, c];
    AmountOfThree(digits);
  }

  /** Every status line of the grammar is accepted, with the value of its digits. */
  lemma StatusReads(l: Status)
    requires IsStatus(l)
    ensures HttpResponse.ParseStatusLine(StatusText(l)) == Some((Amount(l.digits), 8 + |l.gap| + 3 + |l.reason| + 2))
  {
    hide At, IsVersionAt, SkipBlanks, CrlfFrom, StatusText, Spelled, Amount, HttpResponse.StatusAt, HasCrlf, AreBlanks;
    var s, p := StatusText(l), 8 + |l.gap|;
    StatusParts(l);
    VersionIs(s, 0, l.version);
    DigitsRead(s, p, l.digits);
    GapSkips(s, 8, l.gap);
    CrlfBehind(s, p + 3, l.reason);
  }

  /** Every status line that is accepted is one of the grammar. */
  lemma StatusFound(s: string) returns (l: Status)
    requires HttpResponse.ParseStatusLine(s).Some?
    ensures IsStatus(l) && StatusText(l) == s
  {
    VersionFound(s, 0);
    var p := SkipBlanks(s, 8);
    var end := CrlfFrom(s, p + 3);
    var digits := DigitsFound(s, p);
    hide IsVersionAt, SkipBlanks, CrlfFrom, HttpResponse.StatusAt;
    l := Status(s[..8], s[8..p], digits, s[p + 3..end], s[end + 2..]);
    SkippedIsGap(s, 8);
    FirstLine(s, p + 3);
    hide AreBlanks;
    EndsInLineEnd(s, end);
    FiveStatusParts(s, 8, p, end);
  }

  /** What comes in front of the first line end holds none. */
  lemma FirstLine(s: string, p: nat)
    requires p <= |s|
    ensures !HasCrlf(s[p..CrlfFrom(s, p)])
  {
    var line := s[p..CrlfFrom(s, p)];
    forall i | 0 <= i < |line|
      ensures !CrlfAt(line, i)
    {
      assert !CrlfAt(s, p + i);
    }
  }

  lemma FiveStatusParts(s: string, a: nat, p: nat, end: nat)
    requires a <= p && p + 3 <= end && end + 2 <= |s|
    ensures s == s[..a] + s[a..p] + s[p..p + 3] + (s[p + 3..end] + s[end..end + 2]) + s[end + 2..]
  {
    assert s[..p] == s[..a] + s[a..p];
    assert s[..p + 3] == s[..p] + s[p..p + 3];
    assert s[..end + 2] == s[..p + 3] + (s[p + 3..end] + s[end..end + 2]);
  }

  /** The parser accepts exactly the status lines of the grammar, with the value of their three digits. */
  lemma StatusLineIff(s: string)
    ensures HttpResponse.ParseStatusLine(s).Some? <==> exists l :: IsStatus(l) && StatusText(l) == s
    ensures forall l :: IsStatus(l) && StatusText(l) == s ==>
              HttpResponse.ParseStatusLine(s).value == (Amount(l.digits), 8 + |l.gap| + 3 + |l.reason| + 2)
  {
    hide HttpResponse.ParseStatusLine, StatusText, Amount;
    if HttpResponse.ParseStatusLine(s).Some? {
      var l := StatusFound(s);
    }
    forall l | IsStatus(l) && StatusText(l) == s
      ensures HttpResponse.ParseStatusLine(s) == Some((Amount(l.digits), 8 + |l.gap| + 3 + |l.reason| + 2))
    {
      StatusReads(l);
    }
  }
}
