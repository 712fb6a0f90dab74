/**
  The cookie jar of src/cwebhttp.c: a list that keeps the cookie set last in front, and what of it is
  sent with a request.
 */
module CookieJar {
  import opened Cookies
  import opened Sequences
  import opened Wrappers

  // ----- adding

  /** A cookie with a name replaces one with the same name, domain and path. */
  predicate SameCookie(a: Cookie, b: Cookie) {
    a.name.Some? && a.name == b.name && a.domain == b.domain && a.path == b.path
  }

  function Find(jar: seq<Cookie>, c: Cookie): (k: nat)
    ensures k <= |jar| && (k < |jar| ==> SameCookie(jar[k], c))
    ensures forall i :: 0 <= i < k ==> !SameCookie(jar[i], c)
  {
    if jar == [] || SameCookie(jar[0], c) then 0 else 1 + Find(jar[1..], c)
  }

  lemma FindIs(jar: seq<Cookie>, c: Cookie, k: nat)
    requires k <= |jar| && (k < |jar| ==> SameCookie(jar[k], c)) && forall i :: 0 <= i < k ==> !SameCookie(jar[i], c)
    ensures Find(jar, c) == k
  {
  }

  /** The first cookie that the new one replaces goes, and the new one comes in front. */
  function Add(jar: seq<Cookie>, c: Cookie): seq<Cookie> {
    var k := Find(jar, c);
    [c] + if k < |jar| then RemoveAt(jar, k) else jar
  }

  function AddAll(jar: seq<Cookie>, history: seq<Cookie>): seq<Cookie>
    decreases |history|
  {
    if history == [] then jar
    else Add(AddAll(jar, history[..|history| - 1]), history[|history| - 1])
  }

  // ----- the jar is a map in order of recency

  /** The position of a history that no later one replaces. */
  predicate IsCurrent(history: seq<Cookie>, i: nat)
    requires i < |history|
  {
    forall j :: i < j < |history| ==> !SameCookie(history[i], history[j])
  }

  /** A later cookie of the history has the same name, the same domain and the same path. */
  predicate IsOverwritten(history: seq<Cookie>, i: nat)
    requires i < |history|
  {
    exists j :: i < j < |history|
                && history[i].name.Some? && history[i].name == history[j].name
                && history[i].domain == history[j].domain && history[i].path == history[j].path
  }

  lemma CurrentIff(history: seq<Cookie>, i: nat)
    requires i < |history|
    ensures IsCurrent(history, i) <==> !IsOverwritten(history, i)
  {
  }

  predicate AreAt(jar: seq<Cookie>, history: seq<Cookie>, at: seq<nat>) {
    && |at| == |jar|
    && forall k :: 0 <= k < |at| ==> at[k] < |history| && jar[k] == history[at[k]]
  }

  predicate Descending(at: seq<nat>) {
    forall k, l :: 0 <= k < l < |at| ==> at[k] > at[l]
  }

  /** The positions are the current ones, all of them and no others. */
  ghost predicate AreCurrent(history: seq<Cookie>, at: seq<nat>) {
    && (forall k :: 0 <= k < |at| ==> at[k] < |history| && IsCurrent(history, at[k]))
    && forall i :: 0 <= i < |history| && IsCurrent(history, i) ==> i in at
  }

  /** The jar is the current cookies of a history, most recent first; `at` are their positions. */
  ghost predicate Holds(jar: seq<Cookie>, history: seq<Cookie>, at: seq<nat>) {
    AreAt(jar, history, at) && Descending(at) && AreCurrent(history, at)
  }

  /** A position of a longer history is current if it was and the new cookie does not replace it. */
  lemma CurrentAfter(history: seq<Cookie>, c: Cookie, i: nat)
    requires i < |history|
    ensures IsCurrent(history + [c], i) <==> IsCurrent(history, i) && !SameCookie(history[i], c)
  {
    var h := history + [c];
    assert h[|history|] == c;
    assert forall j :: i < j < |history| ==> h[j] == history[j];
    if IsCurrent(h, i) {
      assert forall j :: i < j < |history| ==> !SameCookie(h[i], h[j]);
    }
  }

  /** No two cookies of the jar are the same one. */
  lemma JarIsUnique(jar: seq<Cookie>, history: seq<Cookie>, at: seq<nat>, k: nat, l: nat)
    requires Holds(jar, history, at) && k < |jar| && l < |jar| && k != l
    ensures !SameCookie(jar[k], jar[l])
  {
    if k > l {
      assert at[l] > at[k] && IsCurrent(history, at[k]);
    } else {
      assert at[k] > at[l] && IsCurrent(history, at[l]);
    }
  }

  /** The positions once the one at k has been replaced by n, or n just added. */
  function Positions(at: seq<nat>, k: nat, n: nat): seq<nat> {
    [n] + if k < |at| then RemoveAt(at, k) else at
  }

  /** Position l of the result, for l > 0, is this position of what was there before. */
  function Was(k: nat, l: nat): nat
    requires l > 0
  {
    if l - 1 < k then l - 1 else l
  }

  lemma PositionsAt(at: seq<nat>, k: nat, n: nat, l: nat)
    requires k <= |at| && 0 < l < |Positions(at, k, n)|
    ensures Was(k, l) < |at| && Was(k, l) != k && Positions(at, k, n)[l] == at[Was(k, l)]
  {
  }

  lemma PositionsKeep(at: seq<nat>, k: nat, n: nat, l: nat)
    requires l < |at| && l != k
    ensures at[l] in Positions(at, k, n)
  {
    var r := Positions(at, k, n);
    assert r[if l < k then l + 1 else l] == at[l];
  }

  lemma AddIsAt(jar: seq<Cookie>, history: seq<Cookie>, at: seq<nat>, c: Cookie)
    requires AreAt(jar, history, at)
    ensures AreAt(Add(jar, c), history + [c], Positions(at, Find(jar, c), |history|))
  {
    hide Find;
    var k := Find(jar, c);
    var at', jar' := Positions(at, k, |history|), Add(jar, c);
    forall l | 0 < l < |at'|
      ensures at'[l] < |history| && jar'[l] == history[at'[l]]
    {
      PositionsAt(at, k, |history|, l);
      assert jar'[l] == jar[Was(k, l)];
    }
  }

  lemma PositionsDescend(at: seq<nat>, k: nat, n: nat)
    requires Descending(at) && k <= |at| && forall l :: 0 <= l < |at| ==> at[l] < n
    ensures Descending(Positions(at, k, n))
  {
    var r := Positions(at, k, n);
    forall l, m | 0 <= l < m < |r|
      ensures r[l] > r[m]
    {
      PositionsAt(at, k, n, m);
      if l > 0 {
        PositionsAt(at, k, n, l);
      }
    }
  }

  lemma AddIsCurrent(jar: seq<Cookie>, history: seq<Cookie>, at: seq<nat>, c: Cookie)
    requires Holds(jar, history, at)
    ensures AreCurrent(history + [c], Positions(at, Find(jar, c), |history|))
  {
    hide IsCurrent, Find, SameCookie, Positions, Descending;
    var k, h := Find(jar, c), history + [c];
    var at' := Positions(at, k, |history|);
    NewestIsCurrent(history, c);
    assert at' != [] && at'[0] == |history| by {
      FirstPosition(at, k, |history|);
    }
    forall l | 0 < l < |at'|
      ensures at'[l] < |h| && IsCurrent(h, at'[l])
    {
      PositionsAt(at, k, |history|, l);
      CurrentAfter(history, c, at'[l]);
      OnlyOneIsReplaced(jar, history, at, c, Was(k, l));
    }
    forall i | 0 <= i < |h| && IsCurrent(h, i)
      ensures i in at'
    {
      if i < |history| {
        CurrentAfter(history, c, i);
        var l :| 0 <= l < |at| && at[l] == i;
        OnlyOneIsReplaced(jar, history, at, c, l);
        PositionsKeep(at, k, |history|, l);
      }
    }
  }

  lemma FirstPosition(at: seq<nat>, k: nat, n: nat)
    ensures Positions(at, k, n) != [] && Positions(at, k, n)[0] == n
  {
  }

  lemma AddHolds(jar: seq<Cookie>, history: seq<Cookie>, at: seq<nat>, c: Cookie)
    requires Holds(jar, history, at)
    ensures Holds(Add(jar, c), history + [c], Positions(at, Find(jar, c), |history|))
  {
    hide Find, Positions, Add, Descending;
    AddIsAt(jar, history, at, c);
    PositionsDescend(at, Find(jar, c), |history|);
    AddIsCurrent(jar, history, at, c);
  }

  lemma NewestIsCurrent(history: seq<Cookie>, c: Cookie)
    ensures IsCurrent(history + [c], |history|)
  {
  }

  lemma OnlyOneIsReplaced(jar: seq<Cookie>, history: seq<Cookie>, at: seq<nat>, c: Cookie, l: nat)
    requires Holds(jar, history, at) && l < |jar|
    ensures SameCookie(jar[l], c) <==> l == Find(jar, c)
  {
    var k := Find(jar, c);
    if SameCookie(jar[l], c) && l != k {
      JarIsUnique(jar, history, at, k, l);
    }
  }

  lemma {:induction false} CurrentPositions(history: seq<Cookie>) returns (at: seq<nat>)
    ensures Holds(AddAll([], history), history, at)
    decreases |history|
  {
    if history == [] {
      at := [];
    } else {
      var before, c := history[..|history| - 1], history[|history| - 1];
      assert before + [c] == history && AddAll([], history) == Add(AddAll([], before), c);
      hide Holds, Add, AddAll, Positions, Find;
      at := CurrentPositions(before);
      AddHolds(AddAll([], before), before, at, c);
      at := Positions(at, Find(AddAll([], before), c), |before|);
    }
  }

  /**
    Over any history the jar holds exactly the cookies that no later one replaced, most recently set
    first; so at most one for each name, domain and path, with the values it was given last.
   */
  lemma JarHoldsTheLast(history: seq<Cookie>)
    ensures exists at :: Holds(AddAll([], history), history, at)
    ensures var jar := AddAll([], history);
            forall k, l :: 0 <= k < l < |jar| ==> !SameCookie(jar[k], jar[l])
    ensures forall i :: 0 <= i < |history| && IsCurrent(history, i) ==> history[i] in AddAll([], history)
  {
    hide IsCurrent, SameCookie;
    var jar := AddAll([], history);
    var at := CurrentPositions(history);
    forall k, l | 0 <= k < l < |jar|
      ensures !SameCookie(jar[k], jar[l])
    {
      JarIsUnique(jar, history, at, k, l);
    }
    forall i | 0 <= i < |history| && IsCurrent(history, i)
      ensures history[i] in jar
    {
      var k :| 0 <= k < |at| && at[k] == i;
      assert jar[k] == history[i];
    }
  }

  // ----- what is sent

  predicate EndsWith(s: string, suffix: string) {
    |s| >= |suffix| && s[|s| - |suffix|..] == suffix
  }

  /** The test of the domain, with its inner test for the domain without the leading dot. */
  predicate DomainMatches(domain: string, cookieDomain: string) {
    || domain == cookieDomain
    || (cookieDomain != [] && cookieDomain[0] == '.' && |domain| >= |cookieDomain|
        && (EndsWith(domain, cookieDomain) || domain == cookieDomain[1..]))
  }

  /**
    The inner test never decides anything: it only runs for domains that are too long to pass it. A
    cookie for a domain with a leading dot matches the hosts below that domain, and not the domain.
   */
  lemma DomainMatchesIff(domain: string, cookieDomain: string)
    ensures DomainMatches(domain, cookieDomain)
            <==> domain == cookieDomain || ("." <= cookieDomain && EndsWith(domain, cookieDomain))
    ensures "." <= cookieDomain ==> !DomainMatches(cookieDomain[1..], cookieDomain)
  {
    if cookieDomain != [] {
      assert cookieDomain[..1] == [cookieDomain[0]];
      assert cookieDomain[0] == '.' <==> "." <= cookieDomain;
    }
  }

  predicate PathMatches(path: string, cookiePath: string) {
    |cookiePath| <= |path| && path[..|cookiePath|] == cookiePath
  }

  predicate IsSent(c: Cookie, domain: string, path: string) {
    DomainMatches(domain, c.domain) && PathMatches(path, c.path)
  }

  /**
    A cookie is sent to the host it was set for, to the hosts below its domain if that starts with a dot,
    and with the paths that its path is the beginning of.
   */
  lemma IsSentIff(c: Cookie, domain: string, path: string)
    ensures IsSent(c, domain, path)
            <==> (domain == c.domain || ("." <= c.domain && exists host: string :: domain == host + c.domain))
                 && c.path <= path
  {
    DomainMatchesIff(domain, c.domain);
    if EndsWith(domain, c.domain) {
      assert domain == domain[..|domain| - |c.domain|] + c.domain;
    }
    if host: string :| domain == host + c.domain {
      assert domain[|host|..] == c.domain;
    }
  }

  function Pair(c: Cookie): string {
    if c.name.Some? && c.value.Some? then c.name.value + "=" + c.value.value else ""
  }

  predicate IsNamed(c: Cookie) {
    c.name.Some? && c.value.Some?
  }

  lemma NamedHasPair(c: Cookie)
    ensures IsNamed(c) <==> Pair(c) != ""
  {
    if IsNamed(c) {
      assert Pair(c)[|c.name.value|] == '=';
    }
  }

  /** What the loop adds to the text for the rest of the jar; a cookie without a name adds a separator alone. */
  function Emitted(jar: seq<Cookie>, domain: string, path: string, first: bool): string {
    if jar == [] then ""
    else if !IsSent(jar[0], domain, path) then Emitted(jar[1..], domain, path, first)
    else (if first then "" else "; ") + Pair(jar[0]) + Emitted(jar[1..], domain, path, first && Pair(jar[0]) == "")
  }

  // ----- the buffer

  /** The text sent is built in a buffer of 4096 characters, with its terminator. */
  const TEXT_SIZE: nat := 4096

  /** The text in the buffer, how much has been printed, also of what was cut off, and whether that is nothing. */
  datatype Output = Output(text: string, offset: nat, first: bool)

  const NOTHING_YET: Output := Output("", 0, true)

  /** A separator, unless nothing precedes it or the buffer has no room for it. */
  function Separate(o: Output): Output {
    if !o.first && o.offset < TEXT_SIZE - 2 then o.(text := o.text + "; ", offset := o.offset + 2) else o
  }

  /** What is printed is cut off where the buffer ends, but counted in full. */
  function Print(o: Output, text: string): Output
    requires o.offset <= TEXT_SIZE
  {
    var room := TEXT_SIZE - o.offset;
    var shown := if |text| < room then text else if room > 0 then text[..room - 1] else "";
    Output(o.text + shown, o.offset + |text|, false)
  }

  /** One cookie that is sent; printing with an offset behind the end of the buffer overruns it. */
  function WriteCookie(o: Output, c: Cookie): Outcome<Output> {
    var separated := Separate(o);
    if !IsNamed(c) then Accepted(separated)
    else if separated.offset > TEXT_SIZE then Overrun
    else Accepted(Print(separated, Pair(c)))
  }

  /**
    A cookie with a name is printed behind a separator, unless it is the first or fewer than two
    characters and a terminator are left. What does not fit 4096 characters and a terminator is cut off,
    but counted; once more than 4096 have been counted, printing overruns the buffer.
   */
  lemma WriteCookieMeans(o: Output, c: Cookie)
    requires IsWithin(o)
    ensures var before := if !o.first && o.offset < 4094 then "; " else "";
            var at := o.offset + |before|;
            var pair := if c.name.Some? && c.value.Some? then c.name.value + "=" + c.value.value else "";
            && (WriteCookie(o, c).Overrun? <==> pair != "" && at > 4096)
            && !WriteCookie(o, c).Rejected?
            && (WriteCookie(o, c).Accepted? ==>
                  var r := WriteCookie(o, c).value;
                  && r.offset == at + |pair| && (r.first <==> o.first && pair == "")
                  && (r.offset < 4096 ==> r.text == o.text + before + pair)
                  && (r.offset >= 4096 ==> |r.text| == 4095 && r.text <= o.text + before + pair))
  {
    NamedHasPair(c);
    var before := if !o.first && o.offset < 4094 then "; " else "";
    var all := o.text + before;
    assert o.text + "" == o.text && all + "" == all;
    assert Separate(o) == Output(all, o.offset + |before|, o.first);
    if IsNamed(c) && |all| < 4096 <= |all| + |Pair(c)| && o.offset + |before| == |all| {
      assert (all + Pair(c))[..4095] == all + Pair(c)[..4095 - |all|];
    }
  }

  function Emit(jar: seq<Cookie>, domain: string, path: string, o: Output): Outcome<Output>
    decreases |jar|
  {
    if jar == [] then Accepted(o)
    else if !IsSent(jar[0], domain, path) then Emit(jar[1..], domain, path, o)
    else
      var r := WriteCookie(o, jar[0]);
      if r.Accepted? then Emit(jar[1..], domain, path, r.value) else r
  }

  function Get(jar: seq<Cookie>, domain: string, path: string): Outcome<Option<string>> {
    var r := Emit(jar, domain, path, NOTHING_YET);
    if !r.Accepted? then Overrun else Accepted(if r.value.offset == 0 then None else Some(r.value.text))
  }

  /** The buffer has room for all that the loop would write, and a terminator. */
  predicate IsWhole(jar: seq<Cookie>, domain: string, path: string) {
    |Emitted(jar, domain, path, true)| < TEXT_SIZE
  }

  lemma WriteCookieIs(o: Output, c: Cookie)
    requires |o.text| == o.offset && (o.first <==> o.text == "")
    requires o.offset + |(if o.first then "" else "; ") + Pair(c)| < TEXT_SIZE
    ensures var text := o.text + ((if o.first then "" else "; ") + Pair(c));
            WriteCookie(o, c) == Accepted(Output(text, |text|, text == ""))
  {
    NamedHasPair(c);
    Associate(o.text, if o.first then "" else "; ", Pair(c));
    assert o.text + "" == o.text && o.text + "; " + "" == o.text + "; ";
  }

  /** With room for everything, the buffer holds what the loop would write. */
  lemma {:induction false} EmitIsEmitted(jar: seq<Cookie>, domain: string, path: string, o: Output)
    requires |o.text| == o.offset && (o.first <==> o.text == "")
    requires o.offset + |Emitted(jar, domain, path, o.first)| < TEXT_SIZE
    ensures var r := Emit(jar, domain, path, o);
            && r.Accepted? && r.value.text == o.text + Emitted(jar, domain, path, o.first)
            && r.value.offset == |r.value.text|
    decreases |jar|
  {
    hide IsSent, Pair, WriteCookie;
    if jar == [] {
      assert o.text + "" == o.text;
    } else if IsSent(jar[0], domain, path) {
      var c := jar[0];
      var piece := (if o.first then "" else "; ") + Pair(c);
      var rest := Emitted(jar[1..], domain, path, o.first && Pair(c) == "");
      assert Emitted(jar, domain, path, o.first) == piece + rest;
      WriteCookieIs(o, c);
      Associate(o.text, piece, rest);
      assert o.text + piece == "" <==> o.first && Pair(c) == "";
      EmitIsEmitted(jar[1..], domain, path, WriteCookie(o, c).value);
    } else {
      EmitIsEmitted(jar[1..], domain, path, o);
    }
  }

  /** The buffer is never filled beyond its terminator, and what is in it stays. */
  predicate IsWithin(o: Output) {
    |o.text| <= o.offset && |o.text| < TEXT_SIZE && (o.offset < TEXT_SIZE ==> |o.text| == o.offset)
    && (o.offset >= TEXT_SIZE ==> |o.text| == TEXT_SIZE - 1)
  }

  lemma WriteCookieExtends(o: Output, c: Cookie)
    requires IsWithin(o) && WriteCookie(o, c).Accepted?
    ensures IsWithin(WriteCookie(o, c).value) && o.text <= WriteCookie(o, c).value.text
  {
  }

  lemma {:induction false} EmitExtends(jar: seq<Cookie>, domain: string, path: string, o: Output)
    requires IsWithin(o) && Emit(jar, domain, path, o).Accepted?
    ensures IsWithin(Emit(jar, domain, path, o).value) && o.text <= Emit(jar, domain, path, o).value.text
    decreases |jar|
  {
    hide IsSent, WriteCookie, IsWithin;
    if jar != [] {
      if IsSent(jar[0], domain, path) {
        WriteCookieExtends(o, jar[0]);
        EmitExtends(jar[1..], domain, path, WriteCookie(o, jar[0]).value);
      } else {
        EmitExtends(jar[1..], domain, path, o);
      }
    }
  }

  // ----- the cookies sent

  /** The cookies that pass the tests, in the jar's order. */
  function Sent(jar: seq<Cookie>, domain: string, path: string): (r: seq<Cookie>)
    ensures forall c :: c in r <==> c in jar && IsSent(c, domain, path)
  {
    if jar == [] then []
    else (if IsSent(jar[0], domain, path) then [jar[0]] else []) + Sent(jar[1..], domain, path)
  }

  function Joined(cs: seq<Cookie>): string {
    if cs == [] then "" else if |cs| == 1 then Pair(cs[0]) else Pair(cs[0]) + "; " + Joined(cs[1..])
  }

  function NamedOnes(cs: seq<Cookie>): (r: seq<Cookie>)
    ensures |r| <= |cs| && (|r| == |cs| <==> forall i :: 0 <= i < |cs| ==> IsNamed(cs[i]))
  {
    if cs == [] then [] else (if IsNamed(cs[0]) then [cs[0]] else []) + NamedOnes(cs[1..])
  }

  /** What cookies add to a text that is not empty: a separator each, and their pairs. */
  function Tail(cs: seq<Cookie>): string {
    if cs == [] then "" else "; " + Pair(cs[0]) + Tail(cs[1..])
  }

  lemma {:induction false} JoinedIsTail(cs: seq<Cookie>)
    requires cs != []
    ensures Joined(cs) == Pair(cs[0]) + Tail(cs[1..])
  {
    if |cs| > 1 {
      JoinedIsTail(cs[1..]);
      Associate("; ", Pair(cs[1]), Tail(cs[2..]));
      assert cs[1..][1..] == cs[2..];
      Associate(Pair(cs[0]), "; ", Joined(cs[1..]));
    }
  }

  /** Every nameless cookie leaves a separator of two characters in the text, and nothing else. */
  lemma {:induction false} TailLength(cs: seq<Cookie>)
    ensures |Tail(cs)| == |Tail(NamedOnes(cs))| + 2 * (|cs| - |NamedOnes(cs)|)
    ensures |NamedOnes(cs)| == |cs| ==> NamedOnes(cs) == cs
  {
    if cs != [] {
      NamedHasPair(cs[0]);
      var named := NamedOnes(cs[1..]);
      TailLength(cs[1..]);
      assert ([cs[0]] + named)[1..] == named && [] + named == named;
    }
  }

  /** The text from a point of the jar on, once it is not empty. */
  lemma {:induction false} EmittedIsTail(jar: seq<Cookie>, domain: string, path: string)
    ensures Emitted(jar, domain, path, false) == Tail(Sent(jar, domain, path))
  {
    hide IsSent;
    if jar != [] {
      var sent := Sent(jar[1..], domain, path);
      EmittedIsTail(jar[1..], domain, path);
      assert ([jar[0]] + sent)[1..] == sent && [] + sent == sent;
    }
  }

  /** No cookie without a name comes behind one with a name. */
  predicate NamelessFirst(cs: seq<Cookie>) {
    forall k, l :: 0 <= k < l < |cs| && IsNamed(cs[k]) ==> IsNamed(cs[l])
  }

  lemma Cancel(a: string, x: string, y: string)
    ensures a + x == a + y <==> x == y
  {
    assert (a + x)[|a|..] == x && (a + y)[|a|..] == y;
  }

  lemma NamedStart(c: Cookie, sent: seq<Cookie>)
    requires IsNamed(c)
    ensures Pair(c) + Tail(sent) == Joined(NamedOnes([c] + sent)) <==> NamelessFirst([c] + sent)
  {
    hide IsNamed, NamelessFirst, NamedOnes, Tail, Joined, Pair;
    NamedInFront(c, sent);
    Cancel(Pair(c), Tail(sent), Tail(NamedOnes(sent)));
    TailLength(sent);
  }

  lemma SentUnfolds(jar: seq<Cookie>, domain: string, path: string)
    requires jar != []
    ensures var rest := Sent(jar[1..], domain, path);
            Sent(jar, domain, path) == if IsSent(jar[0], domain, path) then [jar[0]] + rest else rest
  {
    assert [] + Sent(jar[1..], domain, path) == Sent(jar[1..], domain, path);
  }

  lemma EmittedUnfolds(jar: seq<Cookie>, domain: string, path: string)
    requires jar != []
    ensures var (c, rest) := (jar[0], jar[1..]);
            Emitted(jar, domain, path, true) ==
              if IsSent(c, domain, path) && IsNamed(c) then Pair(c) + Emitted(rest, domain, path, false)
              else Emitted(rest, domain, path, true)
  {
    NamedHasPair(jar[0]);
    assert "" + Pair(jar[0]) == Pair(jar[0]);
    assert "" + Emitted(jar[1..], domain, path, true) == Emitted(jar[1..], domain, path, true);
  }

  /** From the start of the text, the cookies up to the first with a name add nothing. */
  lemma {:induction false} EmittedIffOrderly(jar: seq<Cookie>, domain: string, path: string)
    ensures var sent := Sent(jar, domain, path);
            Emitted(jar, domain, path, true) == Joined(NamedOnes(sent)) <==> NamelessFirst(sent)
  {
    if jar != [] {
      hide IsSent, IsNamed, Sent, Emitted, NamelessFirst, NamedOnes, Tail, Joined, Pair;
      var c, rest := jar[0], jar[1..];
      SentUnfolds(jar, domain, path);
      EmittedUnfolds(jar, domain, path);
      EmittedIffOrderly(rest, domain, path);
      if IsSent(c, domain, path) && IsNamed(c) {
        EmittedIsTail(rest, domain, path);
        NamedStart(c, Sent(rest, domain, path));
      } else if IsSent(c, domain, path) {
        NamelessInFront(c, Sent(rest, domain, path));
      }
    }
  }

  lemma NamedInFront(c: Cookie, sent: seq<Cookie>)
    requires IsNamed(c)
    ensures Joined(NamedOnes([c] + sent)) == Pair(c) + Tail(NamedOnes(sent))
    ensures NamelessFirst([c] + sent) <==> |NamedOnes(sent)| == |sent|
  {
    var all := [c] + sent;
    assert all[1..] == sent && NamedOnes(all) == [c] + NamedOnes(sent);
    JoinedIsTail(NamedOnes(all));
    assert ([c] + NamedOnes(sent))[1..] == NamedOnes(sent);
    forall i | 0 <= i < |sent|
      ensures IsNamed(all[0]) && all[i + 1] == sent[i]
    {
    }
    if |NamedOnes(sent)| == |sent| {
      assert forall l :: 0 < l < |all| ==> IsNamed(sent[l - 1]) && all[l] == sent[l - 1];
    } else {
      var i :| 0 <= i < |sent| && !IsNamed(sent[i]);
      assert !IsNamed(all[i + 1]);
    }
  }

  lemma NamelessInFront(c: Cookie, sent: seq<Cookie>)
    requires !IsNamed(c)
    ensures NamedOnes([c] + sent) == NamedOnes(sent)
    ensures NamelessFirst([c] + sent) <==> NamelessFirst(sent)
  {
    var all := [c] + sent;
    assert all[1..] == sent && [] + NamedOnes(sent) == NamedOnes(sent);
    if NamelessFirst(all) {
      forall k, l | 0 <= k < l < |sent| && IsNamed(sent[k])
        ensures IsNamed(sent[l])
      {
        assert all[k + 1] == sent[k] && all[l + 1] == sent[l];
      }
    }
    if NamelessFirst(sent) {
      forall k, l | 0 <= k < l < |all| && IsNamed(all[k])
        ensures IsNamed(all[l])
      {
        assert all[k] == sent[k - 1] && all[l] == sent[l - 1];
      }
    }
  }

  /** The answer that has just these cookies in it. */
  function Answer(cs: seq<Cookie>): Outcome<Option<string>> {
    Accepted(if cs == [] then None else Some(Joined(cs)))
  }

  /**
    get has room for what it sends, and that is exactly the cookies that have a name and pass the domain
    and path tests, most recent first, joined by "; ", if and only if no cookie without a name passes the
    tests behind one that has a name, and the text fits. A nameless one there leaves a stray separator.
    Without such a cookie, get sends just that text if and only if it fits.
   */
  lemma GetSendsTheMatchingIff(jar: seq<Cookie>, domain: string, path: string)
    ensures var sent := Sent(jar, domain, path);
            var named := NamedOnes(sent);
            && (IsWhole(jar, domain, path) && Get(jar, domain, path) == Answer(named)
                <==> NamelessFirst(sent) && |Joined(named)| < TEXT_SIZE)
            && (NamelessFirst(sent) ==> (Get(jar, domain, path) == Answer(named) <==> |Joined(named)| < TEXT_SIZE))
  {
    hide IsSent, Emitted, Emit, Sent, NamelessFirst, Joined;
    EmittedIffOrderly(jar, domain, path);
    var named, text := NamedOnes(Sent(jar, domain, path)), Emitted(jar, domain, path, true);
    assert named == [] <==> Joined(named) == "" by {
      EmptyOnlyIfNone(Sent(jar, domain, path));
    }
    if IsWhole(jar, domain, path) {
      assert "" + text == text;
      EmitIsEmitted(jar, domain, path, NOTHING_YET);
    }
    if Emit(jar, domain, path, NOTHING_YET).Accepted? {
      EmitExtends(jar, domain, path, NOTHING_YET);
    }
  }

  lemma EmptyOnlyIfNone(sent: seq<Cookie>)
    ensures NamedOnes(sent) == [] <==> Joined(NamedOnes(sent)) == ""
  {
    var named := NamedOnes(sent);
    if named != [] {
      JoinedIsTail(named);
      NamedAreNamed(sent);
      NamedHasPair(named[0]);
    }
  }

  lemma {:induction false} NamedAreNamed(cs: seq<Cookie>)
    ensures forall c :: c in NamedOnes(cs) ==> IsNamed(c)
  {
    if cs != [] {
      NamedAreNamed(cs[1..]);
    }
  }

  /**
    A cookie just set is first in whatever is sent with a request that it matches, as much of it as fits;
    and there is room for it and the others when all of them fit.
   */
  lemma NewestIsSentFirst(jar: seq<Cookie>, c: Cookie, domain: string, path: string)
    requires IsNamed(c) && IsSent(c, domain, path)
    ensures var r := Get(Add(jar, c), domain, path);
            && (r.Overrun? || (r.Accepted? && r.value.Some? && Print(NOTHING_YET, Pair(c)).text <= r.value.value))
            && (IsWhole(Add(jar, c), domain, path) ==> r.Accepted? && Pair(c) <= r.value.value)
  {
    hide IsSent, Find, SameCookie, Emitted;
    var all := Add(jar, c);
    NamedHasPair(c);
    assert all[0] == c;
    var o := Print(NOTHING_YET, Pair(c));
    assert WriteCookie(NOTHING_YET, c) == Accepted(o);
    assert Emit(all, domain, path, NOTHING_YET) == Emit(all[1..], domain, path, o);
    hide Emit;
    if Emit(all, domain, path, NOTHING_YET).Accepted? {
      EmitExtends(all[1..], domain, path, o);
      OffsetGrows(all[1..], domain, path, o);
    }
    if IsWhole(all, domain, path) {
      EmitIsEmitted(all, domain, path, NOTHING_YET);
      EmittedUnfolds(all, domain, path);
      assert o.text == "" + Pair(c) == Pair(c);
    }
  }

  lemma {:induction false} OffsetGrows(jar: seq<Cookie>, domain: string, path: string, o: Output)
    requires Emit(jar, domain, path, o).Accepted?
    ensures Emit(jar, domain, path, o).value.offset >= o.offset
    decreases |jar|
  {
    hide IsSent, Pair;
    if jar != [] {
      if IsSent(jar[0], domain, path) {
        OffsetGrows(jar[1..], domain, path, WriteCookie(o, jar[0]).value);
      } else {
        OffsetGrows(jar[1..], domain, path, o);
      }
    }
  }
}
