/**
  Header fields of src/cwebhttp.c. The parser copies nothing: a header is two positions, one where
  the key starts and one where the value starts. What they denote is the text up to the colon and
  the text up to the line end.
 */
module HttpHeaders {
  import opened Sequences
  import opened Text
  import opened Wrappers

  /** The parser's loop bound. */
  const MAX_HEADERS: nat := 32

  /** The pairs that fit the header table of a request or response, which has 32 pointers. */
  const HEADER_SLOTS: nat := 16

  /** The space the formatters leave for a message head and its terminator. */
  const HEAD_LIMIT: nat := 1024

  datatype Header = Header(key: string, value: string)

  /** Positions of a key and of its value. */
  datatype Slot = Slot(keyAt: nat, valueAt: nat)

  predicate IsVersionAt(s: string, p: nat) {
    At(s, p, "HTTP/1.1") || At(s, p, "HTTP/1.0")
  }

  // ----- parsing

  /** Where the value of the header line at a position begins, and where the next line begins. */
  function ParseHeader(s: string, p: nat): (r: Option<(nat, nat)>)
    requires p <= |s|
    ensures r.Some? ==> p < r.value.0 < r.value.1 <= |s|
  {
    var colon := IndexFrom(s, p, ':');
    if colon >= |s| then None
    else
      var valueAt := SkipBlanks(s, colon + 1);
      var end := CrlfFrom(s, valueAt);
      if end + 1 >= |s| then None else Some((valueAt, end + 2))
  }

  predicate InBounds(slots: seq<Slot>, len: nat) {
    forall i :: 0 <= i < |slots| ==> slots[i].keyAt < slots[i].valueAt < len
  }

  /**
    The headers from a position on, and where the body begins, when some are in the table already; None
    when the parser stores one behind the end of the table, which its own loop bound comes too late for.
   */
  function ParseHeaders(s: string, p: nat, count: nat): (r: Option<(seq<Slot>, nat)>)
    requires p <= |s|
    ensures r.Some? ==> p <= r.value.1 <= |s| && InBounds(r.value.0, |s|)
    ensures r.Some? ==> forall i :: 0 <= i < |r.value.0| ==> p <= r.value.0[i].keyAt
    decreases |s| - p
  {
    hide ParseHeader;
    if p == |s| || count >= MAX_HEADERS || CrlfAt(s, p) || ParseHeader(s, p).None? then
      Some(([], AfterHeaders(s, p, count)))
    else if count >= HEADER_SLOTS then None
    else
      var (valueAt, next) := ParseHeader(s, p).value;
      var rest := ParseHeaders(s, next, count + 1);
      if rest.None? then None else Some(([Slot(p, valueAt)] + rest.value.0, rest.value.1))
  }

  /** Where the body begins when no further header line is read: behind an empty line, if there is one. */
  function AfterHeaders(s: string, p: nat, count: nat): (q: nat)
    requires p <= |s|
    ensures p <= q <= |s|
  {
    if p < |s| && count < MAX_HEADERS && CrlfAt(s, p) then p + 2 else p
  }

  /** The header lines in front of the body. */
  function HeaderLines(s: string, p: nat): nat
    requires p <= |s|
    decreases |s| - p
  {
    if p == |s| || CrlfAt(s, p) || ParseHeader(s, p).None? then 0 else 1 + HeaderLines(s, ParseHeader(s, p).value.1)
  }

  /** The parser stays within its table if and only if there are at most as many header lines as it has room for. */
  lemma {:induction false} TableIsOverrunIff(s: string, p: nat, count: nat)
    requires p <= |s| && count <= HEADER_SLOTS
    ensures ParseHeaders(s, p, count).None? <==> count + HeaderLines(s, p) > 16
    ensures ParseHeaders(s, p, count).Some? ==> |ParseHeaders(s, p, count).value.0| == HeaderLines(s, p)
    decreases |s| - p
  {
    hide ParseHeader;
    if p < |s| && !CrlfAt(s, p) && ParseHeader(s, p).Some? && count < HEADER_SLOTS {
      TableIsOverrunIff(s, ParseHeader(s, p).value.1, count + 1);
    }
  }

  /** What a slot denotes in a buffer. */
  function View(s: string, slot: Slot): Header
    requires slot.keyAt < slot.valueAt < |s|
  {
    Header(s[slot.keyAt..IndexFrom(s, slot.keyAt, ':')], s[slot.valueAt..CrlfFrom(s, slot.valueAt)])
  }

  function Views(s: string, slots: seq<Slot>): (hs: seq<Header>)
    requires InBounds(slots, |s|)
    ensures |hs| == |slots|
  {
    if slots == [] then [] else [View(s, slots[0])] + Views(s, slots[1..])
  }

  // ----- formatting

  function FormatHeader(h: Header): string {
    h.key + ": " + h.value + CRLF
  }

  function FormatHeaders(hs: seq<Header>): string {
    if hs == [] then [] else FormatHeader(hs[0]) + FormatHeaders(hs[1..])
  }

  // ----- the formatters' limit

  function Joined(pieces: seq<string>): string {
    if pieces == [] then [] else pieces[0] + Joined(pieces[1..])
  }

  /** Each of these writes, from an offset on, leaves its text and a terminator within the limit. */
  predicate WritesFit(pieces: seq<string>, offset: nat) {
    pieces == [] || (offset + |pieces[0]| < HEAD_LIMIT && WritesFit(pieces[1..], offset + |pieces[0]|))
  }

  /** No write is cut short if and only if the whole text and a terminator fit. */
  lemma {:induction false} WritesFitIff(pieces: seq<string>, offset: nat)
    requires pieces != []
    ensures WritesFit(pieces, offset) <==> offset + |Joined(pieces)| < HEAD_LIMIT
  {
    if |pieces| > 1 {
      WritesFitIff(pieces[1..], offset + |pieces[0]|);
    }
  }

  /** The writes of the header lines. */
  function HeaderPieces(hs: seq<Header>): seq<string> {
    if hs == [] then [] else [FormatHeader(hs[0])] + HeaderPieces(hs[1..])
  }

  lemma {:induction false} JoinedHeaders(before: seq<string>, hs: seq<Header>, end: string)
    ensures Joined(before + HeaderPieces(hs) + [end]) == Joined(before) + FormatHeaders(hs) + end
    decreases |before|, |hs|
  {
    hide FormatHeader;
    if before != [] {
      var all, rest := before + HeaderPieces(hs) + [end], before[1..] + HeaderPieces(hs) + [end];
      JoinedHeaders(before[1..], hs, end);
      assert all[0] == before[0] && all[1..] == rest;
      Associate(before[0], Joined(before[1..]), FormatHeaders(hs));
      Associate(before[0], Joined(before[1..]) + FormatHeaders(hs), end);
    } else if hs != [] {
      var all, rest := before + HeaderPieces(hs) + [end], before + HeaderPieces(hs[1..]) + [end];
      JoinedHeaders(before, hs[1..], end);
      assert all[0] == FormatHeader(hs[0]) && all[1..] == rest;
      assert [] + FormatHeaders(hs) == FormatHeaders(hs) && [] + FormatHeaders(hs[1..]) == FormatHeaders(hs[1..]);
      Associate(FormatHeader(hs[0]), FormatHeaders(hs[1..]), end);
    } else {
      assert before + HeaderPieces(hs) + [end] == [end] && [] + [] + end == end && end + [] == end;
      assert Joined([end]) == end;
    }
  }

  /** The headers with the one the formatter adds for a body. */
  function WithLength(hs: seq<Header>, body: string): seq<Header> {
    if body == [] then hs else hs + [Header("Content-Length", Decimal(|body|))]
  }

  /** The headers that survive: exactly those a line can carry. */
  predicate IsHeader(h: Header) {
    && ':' !in h.key && !StartsWithCrlf(h.key)
    && !HasCrlf(h.value) && (h.value != [] ==> !IsBlank(h.value[0]))
  }

  predicate AreHeaders(hs: seq<Header>) {
    forall i :: 0 <= i < |hs| ==> IsHeader(hs[i])
  }

  // ----- one step of each recursion

  /** The headers behind one that has been read. */
  function Preceded(slot: Slot, rest: Option<(seq<Slot>, nat)>): Option<(seq<Slot>, nat)> {
    if rest.None? then None else Some(([slot] + rest.value.0, rest.value.1))
  }

  lemma ParseHeadersStep(s: string, p: nat, count: nat)
    requires p < |s| && count < MAX_HEADERS && !CrlfAt(s, p) && ParseHeader(s, p).Some?
    ensures var (valueAt, next) := ParseHeader(s, p).value;
            ParseHeaders(s, p, count)
            == if count < HEADER_SLOTS then Preceded(Slot(p, valueAt), ParseHeaders(s, next, count + 1)) else None
  {
    hide ParseHeader, InBounds;
  }

  lemma ParseHeadersEnd(s: string, p: nat, count: nat)
    requires count < MAX_HEADERS && CrlfAt(s, p)
    ensures ParseHeaders(s, p, count) == Some(([], p + 2))
  {
    hide ParseHeader;
  }

  lemma ViewsOfMore(s: string, slot: Slot, slots: seq<Slot>)
    requires slot.keyAt < slot.valueAt < |s| && InBounds(slots, |s|)
    ensures InBounds([slot] + slots, |s|)
    ensures Views(s, [slot] + slots) == [View(s, slot)] + Views(s, slots)
  {
    hide View;
    var all := [slot] + slots;
    assert all[0] == slot && all[1..] == slots;
    assert forall i :: 1 <= i < |all| ==> all[i] == slots[i - 1];
  }

  lemma OneMoreHeader(h: Header, hs: seq<Header>)
    requires IsHeader(h) && AreHeaders(hs)
    ensures AreHeaders([h] + hs)
  {
    hide IsHeader;
    assert forall i :: 0 <= i < |hs| ==> ([h] + hs)[i + 1] == hs[i];
  }

  // ----- parsing inverts formatting

  lemma FormattedHeaderParts(s: string, p: nat, h: Header)
    requires At(s, p, FormatHeader(h))
    ensures var valueAt := p + |h.key| + 2;
            && At(s, p, h.key) && At(s, valueAt, h.value + CRLF)
            && s[p + |h.key|] == ':' && s[p + |h.key| + 1] == ' '
            && valueAt + |h.value| + 2 == p + |FormatHeader(h)| <= |s|
            && CrlfAt(s, valueAt + |h.value|)
  {
    assert p + |FormatHeader(h)| <= |s|;
    hide At, CrlfAt;
    var colon, valueAt := p + |h.key|, p + |h.key| + 2;
    AtSplit(s, p, h.key + ": " + h.value, CRLF);
    AtSplit(s, p, h.key + ": ", h.value);
    AtSplit(s, p, h.key, ": ");
    AtSplit(s, valueAt, h.value, CRLF);
    AtChar(s, colon, ": ", 0);
    AtChar(s, colon, ": ", 1);
    LineEndAt(s, valueAt + |h.value|);
  }

  lemma FormattedHeaderSearches(s: string, p: nat, h: Header)
    requires IsHeader(h) && At(s, p, FormatHeader(h))
    ensures var colon, valueAt := p + |h.key|, p + |h.key| + 2;
            && !CrlfAt(s, p)
            && IndexFrom(s, p, ':') == colon && colon + 1 < |s|
            && SkipBlanks(s, colon + 1) == valueAt
            && CrlfFrom(s, valueAt) == valueAt + |h.value|
  {
    hide FormatHeader, CrlfAt, HasCrlf, At, IndexFrom, SkipBlanks, CrlfFrom;
    FormattedHeaderParts(s, p, h);
    var colon, valueAt := p + |h.key|, p + |h.key| + 2;
    forall i | p <= i < colon
      ensures s[i] == h.key[i - p]
    {
      AtChar(s, p, h.key, i - p);
    }
    IndexFromIs(s, p, ':', colon);
    CrlfBehind(s, valueAt, h.value);
    AtChar(s, valueAt, h.value + CRLF, 0);
    SkipBlanksIs(s, colon + 1, valueAt);
    KeyDoesNotEndTheHeaders(s, p, h.key);
  }

  lemma ParseFormattedHeader(s: string, p: nat, h: Header)
    requires IsHeader(h) && At(s, p, FormatHeader(h))
    ensures !CrlfAt(s, p)
    ensures ParseHeader(s, p) == Some((p + |h.key| + 2, p + |FormatHeader(h)|))
    ensures View(s, Slot(p, p + |h.key| + 2)) == h
  {
    hide FormatHeader, CrlfAt, IsHeader, IndexFrom, SkipBlanks, CrlfFrom;
    FormattedHeaderSearches(s, p, h);
    FormattedHeaderParts(s, p, h);
    AtSplit(s, p + |h.key| + 2, h.value, CRLF);
  }

  lemma KeyDoesNotEndTheHeaders(s: string, p: nat, key: string)
    requires At(s, p, key) && !StartsWithCrlf(key) && p + |key| + 1 < |s|
    requires s[p + |key|] == ':' && s[p + |key| + 1] == ' '
    ensures !CrlfAt(s, p)
  {
    if |key| > 0 {
      AtChar(s, p, key, 0);
      if |key| > 1 {
        AtChar(s, p, key, 1);
      }
    }
  }

  function SlotsOf(hs: seq<Header>, base: nat): (slots: seq<Slot>)
    ensures |slots| == |hs|
  {
    if hs == [] then []
    else [Slot(base, base + |hs[0].key| + 2)] + SlotsOf(hs[1..], base + |FormatHeader(hs[0])|)
  }

  lemma {:induction false} FormattedViews(s: string, p: nat, hs: seq<Header>)
    requires AreHeaders(hs) && At(s, p, FormatHeaders(hs))
    ensures InBounds(SlotsOf(hs, p), |s|) && Views(s, SlotsOf(hs, p)) == hs
    decreases |hs|
  {
    hide ParseHeader, View, FormatHeader, IsHeader, At, CrlfAt;
    if hs != [] {
      var next := p + |FormatHeader(hs[0])|;
      AtSplit(s, p, FormatHeader(hs[0]), FormatHeaders(hs[1..]));
      ParseFormattedHeader(s, p, hs[0]);
      FormattedViews(s, next, hs[1..]);
      ViewsOfMore(s, Slot(p, p + |hs[0].key| + 2), SlotsOf(hs[1..], next));
    }
  }

  /** Formatted headers are read back as they are if the table has room for them; otherwise it is overrun. */
  lemma {:induction false} ParseFormattedHeaders(s: string, p: nat, hs: seq<Header>, count: nat)
    requires AreHeaders(hs) && count <= HEADER_SLOTS && At(s, p, FormatHeaders(hs) + CRLF)
    ensures ParseHeaders(s, p, count)
            == if count + |hs| <= HEADER_SLOTS then Some((SlotsOf(hs, p), p + |FormatHeaders(hs)| + 2)) else None
    ensures InBounds(SlotsOf(hs, p), |s|) && Views(s, SlotsOf(hs, p)) == hs
    decreases |hs|
  {
    hide ParseHeaders, ParseHeader, View, FormatHeader, IsHeader, At, CrlfAt, Views, InBounds;
    AtSplit(s, p, FormatHeaders(hs), CRLF);
    FormattedViews(s, p, hs);
    if hs == [] {
      LineEndAt(s, p);
      ParseHeadersEnd(s, p, count);
    } else {
      var next := p + |FormatHeader(hs[0])|;
      AtSplit(s, p, FormatHeader(hs[0]), FormatHeaders(hs[1..]));
      AtSplit(s, next, FormatHeaders(hs[1..]), CRLF);
      ParseFormattedHeader(s, p, hs[0]);
      ParseFormattedHeaders(s, next, hs[1..], if count < HEADER_SLOTS then count + 1 else count);
      ParseHeadersStep(s, p, count);
    }
  }

  // ----- where headers end, and what changes around them

  /** Every slot's key and value end before the body. */
  predicate EndBefore(s: string, slots: seq<Slot>, bodyAt: nat)
    requires InBounds(slots, |s|)
  {
    forall i :: 0 <= i < |slots| ==>
      IndexFrom(s, slots[i].keyAt, ':') < bodyAt && CrlfFrom(s, slots[i].valueAt) + 2 <= bodyAt
  }

  lemma OneMoreEndsBefore(s: string, slot: Slot, slots: seq<Slot>, bodyAt: nat)
    requires slot.keyAt < slot.valueAt < |s| && InBounds(slots, |s|) && EndBefore(s, slots, bodyAt)
    requires IndexFrom(s, slot.keyAt, ':') < bodyAt && CrlfFrom(s, slot.valueAt) + 2 <= bodyAt
    ensures InBounds([slot] + slots, |s|) && EndBefore(s, [slot] + slots, bodyAt)
  {
    hide IndexFrom, CrlfFrom;
    var all := [slot] + slots;
    assert forall i :: 1 <= i < |all| ==> all[i] == slots[i - 1];
  }

  lemma HeaderEndsBeforeNext(s: string, p: nat)
    requires p <= |s| && ParseHeader(s, p).Some?
    ensures var (valueAt, next) := ParseHeader(s, p).value;
            IndexFrom(s, p, ':') < next && CrlfFrom(s, valueAt) + 2 == next
  {
    hide IndexFrom, SkipBlanks, CrlfFrom;
  }

  lemma {:induction false} ParsedHeadersEndBefore(s: string, p: nat, count: nat)
    requires p <= |s| && ParseHeaders(s, p, count).Some?
    ensures EndBefore(s, ParseHeaders(s, p, count).value.0, ParseHeaders(s, p, count).value.1)
    decreases |s| - p
  {
    if p < |s| && count < MAX_HEADERS && !CrlfAt(s, p) && ParseHeader(s, p).Some? {
      hide ParseHeaders, ParseHeader, EndBefore, IndexFrom, CrlfFrom, InBounds;
      var (valueAt, next) := ParseHeader(s, p).value;
      ParseHeadersStep(s, p, count);
      HeaderEndsBeforeNext(s, p);
      ParsedHeadersEndBefore(s, next, count + 1);
      var (others, bodyAt) := ParseHeaders(s, next, count + 1).value;
      OneMoreEndsBefore(s, Slot(p, valueAt), others, bodyAt);
    }
  }

  lemma EndBeforeMore(s: string, slots: seq<Slot>, bodyAt: nat)
    requires InBounds(slots, |s|) && bodyAt <= |s| && EndBefore(s, slots, bodyAt)
    ensures EndBefore(s, slots, |s|)
  {
  }

  lemma {:induction false} SameLineEnd(s: string, b: string, p: nat, end: nat)
    requires |b| == |s| && p <= |s| && CrlfFrom(s, p) + 2 <= end <= |s|
    requires forall i :: p <= i < end ==> b[i] == s[i]
    ensures CrlfFrom(b, p) == CrlfFrom(s, p)
    decreases |s| - p
  {
    if p + 1 < |s| && !CrlfAt(s, p) {
      SameLineEnd(s, b, p + 1, end);
    }
  }

  lemma SameView(s: string, b: string, slot: Slot, end: nat)
    requires |b| == |s| && end <= |s| && forall i :: slot.keyAt <= i < end ==> b[i] == s[i]
    requires slot.keyAt < slot.valueAt < |s|
    requires IndexFrom(s, slot.keyAt, ':') < end && CrlfFrom(s, slot.valueAt) + 2 <= end
    ensures View(b, slot) == View(s, slot)
  {
    var k, v := slot.keyAt, slot.valueAt;
    IndexFromIs(b, k, ':', IndexFrom(s, k, ':'));
    SameLineEnd(s, b, v, end);
    assert b[k..IndexFrom(s, k, ':')] == s[k..IndexFrom(s, k, ':')];
    assert b[v..CrlfFrom(s, v)] == s[v..CrlfFrom(s, v)];
  }

  /** Headers are the same in buffers that are the same from the first of them to the end of the last. */
  lemma {:induction false} SameViews(s: string, b: string, slots: seq<Slot>, from: nat, end: nat)
    requires |b| == |s| && end <= |s| && forall i :: from <= i < end ==> b[i] == s[i]
    requires InBounds(slots, |s|) && EndBefore(s, slots, end)
    requires forall i :: 0 <= i < |slots| ==> from <= slots[i].keyAt
    ensures Views(b, slots) == Views(s, slots)
  {
    if slots != [] {
      hide View, IndexFrom, CrlfFrom;
      SameView(s, b, slots[0], end);
      SameViews(s, b, slots[1..], from, end);
    }
  }

  // ----- whatever is parsed could have been formatted

  lemma ParsedHeaderIsHeader(s: string, p: nat)
    requires p <= |s| && !CrlfAt(s, p) && ParseHeader(s, p).Some?
    ensures IsHeader(View(s, Slot(p, ParseHeader(s, p).value.0)))
  {
    var h := View(s, Slot(p, ParseHeader(s, p).value.0));
    var valueAt := ParseHeader(s, p).value.0;
    forall i | 0 <= i < |h.value|
      ensures !CrlfAt(h.value, i)
    {
      assert !CrlfAt(s, valueAt + i);
    }
  }

  lemma {:induction false} ParsedHeadersAreHeaders(s: string, p: nat, count: nat)
    requires p <= |s| && ParseHeaders(s, p, count).Some?
    ensures AreHeaders(Views(s, ParseHeaders(s, p, count).value.0))
    decreases |s| - p
  {
    if p < |s| && count < MAX_HEADERS && !CrlfAt(s, p) && ParseHeader(s, p).Some? {
      hide ParseHeaders, ParseHeader, Views, View, IsHeader, AreHeaders, InBounds;
      var (valueAt, next) := ParseHeader(s, p).value;
      ParseHeadersStep(s, p, count);
      var slots := ParseHeaders(s, next, count + 1).value.0;
      ParsedHeaderIsHeader(s, p);
      ParsedHeadersAreHeaders(s, next, count + 1);
      ViewsOfMore(s, Slot(p, valueAt), slots);
      OneMoreHeader(View(s, Slot(p, valueAt)), Views(s, slots));
    }
  }

  lemma WithLengthAreHeaders(hs: seq<Header>, body: string)
    ensures AreHeaders(WithLength(hs, body)) <==> AreHeaders(hs)
  {
    hide Decimal;
    if body != [] {
      var value := Decimal(|body|);
      forall i | 0 <= i < |value|
        ensures !CrlfAt(value, i)
      {
      }
      var length := Header("Content-Length", value);
      assert IsHeader(length);
      hide IsHeader;
      assert forall i :: 0 <= i < |hs| ==> WithLength(hs, body)[i] == hs[i];
    }
  }

  // ----- lookup

  /** The value position of the first header whose key begins with the word. */
  function Lookup(s: string, slots: seq<Slot>, word: string): Option<nat>
    requires InBounds(slots, |s|)
  {
    if slots == [] then None
    else if AtIgnoringCase(s, slots[0].keyAt, word) then Some(slots[0].valueAt)
    else Lookup(s, slots[1..], word)
  }
}
