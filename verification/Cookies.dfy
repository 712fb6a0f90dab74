/**
  The cookies of src/cwebhttp.c: what a Set-Cookie header says, and the header that says it of a
  cookie. The jar that keeps them is in CookieJar.dfy.
 */
module Cookies {
  import opened Sequences
  import opened Text
  import opened Wrappers

  /** The header is copied into a buffer of 2048 characters before it is read. */
  const HEADER_LIMIT: nat := 2047

  datatype Cookie = Cookie(
    name: Option<string>, value: Option<string>,
    domain: string, path: string, secure: bool, httpOnly: bool)

  // ----- trimming

  predicate IsSpace(c: char) {
    c == ' ' || c == '\t' || c == '\r' || c == '\n'
  }

  /** White space is taken off the end, but the first character always stays. */
  function TrimmedEnd(s: string): (r: string)
    ensures |r| <= |s| && r == s[..|r|] && (s != [] ==> r != [])
    ensures |r| <= 1 || !IsSpace(r[|r| - 1])
  {
    if |s| > 1 && IsSpace(s[|s| - 1]) then TrimmedEnd(s[..|s| - 1]) else s
  }

  function Trimmed(s: string): string {
    TrimmedEnd(s[SkipBlanks(s, 0)..])
  }

  /** What trimming leaves alone: no blank in front, no white space behind the first character's rest. */
  predicate IsTrimmed(s: string) {
    (s != [] ==> !IsBlank(s[0])) && (|s| <= 1 || !IsSpace(s[|s| - 1]))
  }

  lemma TrimmedIffUnchanged(s: string)
    ensures IsTrimmed(Trimmed(s))
    ensures IsTrimmed(s) <==> Trimmed(s) == s
  {
    assert s[0..] == s;
  }

  /** Trimming takes blanks off the front and white space off the end, and nothing else. */
  lemma TrimmedIs(s: string) returns (front: nat, back: nat)
    ensures front <= back <= |s| && Trimmed(s) == s[front..back]
    ensures (forall i :: 0 <= i < front ==> s[i] in {' ', '\t'})
    ensures (forall i :: back <= i < |s| ==> s[i] in {' ', '\t', '\r', '\n'})
    ensures front < |s| ==> s[front] !in {' ', '\t'} && front < back
    ensures back > front + 1 ==> s[back - 1] !in {' ', '\t', '\r', '\n'}
  {
    hide TrimmedEnd, SkipBlanks;
    front := SkipBlanks(s, 0);
    var t := s[front..];
    back := front + |TrimmedEnd(t)|;
    SpacesBehind(t);
    forall i | back <= i < |s|
      ensures s[i] in {' ', '\t', '\r', '\n'}
    {
      assert s[i] == t[i - front];
    }
    assert s[front..back] == t[..back - front];
    if front < |s| {
      assert t[0] == s[front];
    }
    if back > front + 1 {
      assert s[back - 1] == t[back - front - 1];
    }
  }

  lemma {:induction false} SpacesBehind(s: string)
    ensures forall i :: |TrimmedEnd(s)| <= i < |s| ==> IsSpace(s[i])
  {
    if |s| > 1 && IsSpace(s[|s| - 1]) {
      SpacesBehind(s[..|s| - 1]);
      assert forall i :: 0 <= i < |s| - 1 ==> s[i] == s[..|s| - 1][i];
    }
  }

  // ----- reading a header

  function WithAttribute(c: Cookie, a: string): Cookie {
    if AtIgnoringCase(a, 0, "Domain=") then c.(domain := Trimmed(a[7..]))
    else if AtIgnoringCase(a, 0, "Path=") then c.(path := Trimmed(a[5..]))
    else if AtIgnoringCase(a, 0, "Secure") then c.(secure := true)
    else if AtIgnoringCase(a, 0, "HttpOnly") then c.(httpOnly := true)
    else c
  }

  /** A text that starts with a spelling of one word starts with no word of another first letter. */
  lemma OnlyWord(name: string, rest: string, word: string, other: string)
    requires SameLetters(name, word) && word != [] && other != [] && Lower(word[0]) != Lower(other[0])
    ensures AtIgnoringCase(name + rest, 0, word) && !AtIgnoringCase(name + rest, 0, other)
  {
    hide Lower, SameLetter;
    var a := name + rest;
    assert a[0..0 + |word|] == name && a[0] == name[0];
    AtIgnoringCaseIff(a, 0, word);
    assert SameLetter(name[0], word[0]);
    LowerIs(name[0], word[0]);
    FirstLetterDiffers(a, other);
  }

  /** Each of the four attributes is known by its name, in any mixture of cases. */
  lemma AttributeMeans(c: Cookie, name: string, rest: string)
    ensures SameLetters(name, "Domain=") ==> WithAttribute(c, name + rest) == c.(domain := Trimmed(rest))
    ensures SameLetters(name, "Path=") ==> WithAttribute(c, name + rest) == c.(path := Trimmed(rest))
    ensures SameLetters(name, "Secure") ==> WithAttribute(c, name + rest) == c.(secure := true)
    ensures SameLetters(name, "HttpOnly") ==> WithAttribute(c, name + rest) == c.(httpOnly := true)
  {
    assert (name + rest)[|name|..] == rest;
    FourFirstLetters();
    hide SameLetters, Trimmed, AtIgnoringCase, Lower;
    if SameLetters(name, "Domain=") {
      SameLength(name, "Domain=");
      OnlyWord(name, rest, "Domain=", "Path=");
    } else if SameLetters(name, "Path=") {
      SameLength(name, "Path=");
      OnlyWord(name, rest, "Path=", "Domain=");
    } else if SameLetters(name, "Secure") {
      OnlyWord(name, rest, "Secure", "Domain=");
      OnlyWord(name, rest, "Secure", "Path=");
    } else if SameLetters(name, "HttpOnly") {
      OnlyWord(name, rest, "HttpOnly", "Domain=");
      OnlyWord(name, rest, "HttpOnly", "Path=");
      OnlyWord(name, rest, "HttpOnly", "Secure");
    }
    OneName(name, "Domain=", "Path=");
    OneName(name, "Domain=", "Secure");
    OneName(name, "Domain=", "HttpOnly");
    OneName(name, "Path=", "Secure");
    OneName(name, "Path=", "HttpOnly");
    OneName(name, "Secure", "HttpOnly");
  }

  lemma SameLength(s: string, t: string)
    requires SameLetters(s, t)
    ensures |s| == |t|
  {
  }

  lemma OneName(name: string, word: string, other: string)
    requires |word| != |other|
    ensures !SameLetters(name, word) || !SameLetters(name, other)
  {
  }

  lemma FourFirstLetters()
    ensures Lower("Domain="[0]) == 'd' && Lower("Path="[0]) == 'p' && Lower("Secure"[0]) == 's'
    ensures Lower("HttpOnly"[0]) == 'h'
  {
  }

  /** An attribute that starts with none of the four names changes nothing. */
  lemma OtherAttributeMeans(c: Cookie, a: string)
    requires forall word, n :: word in {"Domain=", "Path=", "Secure", "HttpOnly"} && 0 <= n <= |a| ==>
               !SameLetters(a[..n], word)
    ensures WithAttribute(c, a) == c
  {
    hide SameLetters, Trimmed, AtIgnoringCase;
    forall word | word in {"Domain=", "Path=", "Secure", "HttpOnly"}
      ensures !AtIgnoringCase(a, 0, word)
    {
      AtIgnoringCaseIff(a, 0, word);
      assert |word| <= |a| ==> a[0..0 + |word|] == a[..|word|];
    }
  }

  /** The attributes behind the first semicolon, each up to the next one. */
  function WithAttributes(c: Cookie, text: string): Cookie
    decreases |text|
  {
    if text == [] then c
    else
      var rest := text[SkipBlanks(text, 0)..];
      var semi := IndexOf(rest, ';');
      var d := WithAttribute(c, rest[..semi]);
      if semi < |rest| then WithAttributes(d, rest[semi + 1..]) else d
  }

  function Named(pair: string, domain: string): Cookie {
    var eq := IndexOf(pair, '=');
    if eq < |pair|
    then Cookie(Some(Trimmed(pair[..eq])), Some(Trimmed(pair[eq + 1..])), domain, "/", false, false)
    else Cookie(None, None, domain, "/", false, false)
  }

  /** The first equals sign ends the name; without one the cookie has neither name nor value. */
  lemma NamedMeans(name: string, value: string, domain: string)
    requires '=' !in name
    ensures Named(name + "=" + value, domain)
         == Cookie(Some(Trimmed(name)), Some(Trimmed(value)), domain, "/", false, false)
    ensures Named(name, domain) == Cookie(None, None, domain, "/", false, false)
  {
    hide Trimmed;
    var pair := name + "=" + value;
    IndexFromIs(pair, 0, '=', |name|);
    IndexFromIs(name, 0, '=', |name|);
    assert pair[0..] == pair && name[0..] == name;
    IndexInSuffix(pair, 0, '=');
    IndexInSuffix(name, 0, '=');
    assert pair[..|name|] == name && pair[|name| + 1..] == value;
  }

  /** A header of up to 2047 characters is read as it is, and of a longer one only as many. */
  lemma HeaderMeans(domain: string, header: string)
    ensures |header| > 2047 ==> Parsed(domain, header) == Parsed(domain, header[..2047])
    ensures |header| <= 2047 ==>
              var semi := IndexOf(header, ';');
              var c := Named(header[..semi], domain);
              Parsed(domain, header) == if semi < |header| then WithAttributes(c, header[semi + 1..]) else c
  {
    hide Named, WithAttributes;
  }

  /** The cookie that a Set-Cookie header from a host asks for. */
  function Parsed(domain: string, header: string): Cookie {
    var h := if |header| > HEADER_LIMIT then header[..HEADER_LIMIT] else header;
    var semi := IndexOf(h, ';');
    var c := Named(h[..semi], domain);
    if semi < |h| then WithAttributes(c, h[semi + 1..]) else c
  }

  // ----- writing a header

  function Attributes(c: Cookie): (r: seq<string>) {
    ["Domain=" + c.domain, "Path=" + c.path] + Flags(c)
  }

  function Listed(attrs: seq<string>): string {
    if attrs == [] then "" else "; " + attrs[0] + Listed(attrs[1..])
  }

  function Formatted(c: Cookie): string
    requires c.name.Some? && c.value.Some?
  {
    c.name.value + "=" + c.value.value + Listed(Attributes(c))
  }

  predicate IsPart(s: string) {
    ';' !in s && IsTrimmed(s)
  }

  /** What a header can carry: no semicolons, no equals sign in the name, nothing that trimming takes off. */
  predicate IsCarried(c: Cookie) {
    && c.name.Some? && c.value.Some?
    && IsPart(c.name.value) && '=' !in c.name.value && IsPart(c.value.value)
    && IsPart(c.domain) && IsPart(c.path)
  }

  // ----- a header reads back

  function WithAll(c: Cookie, attrs: seq<string>): Cookie
    decreases |attrs|
  {
    if attrs == [] then c else WithAll(WithAttribute(c, attrs[0]), attrs[1..])
  }

  predicate IsAttribute(a: string) {
    a != [] && !IsBlank(a[0]) && ';' !in a
  }

  /** The first attribute of a list is read up to the semicolon behind it. */
  lemma OneAttribute(c: Cookie, a: string, tail: string)
    requires IsAttribute(a) && (tail != [] ==> tail[0] == ';')
    ensures var d := WithAttribute(c, a);
            WithAttributes(c, " " + a + tail) == if tail == [] then d else WithAttributes(d, tail[1..])
  {
    hide WithAttribute;
    var text, rest := " " + a + tail, a + tail;
    Associate(" ", a, tail);
    assert text[1..] == rest;
    SkipBlanksIs(text, 0, 1);
    IndexFromIs(rest, 0, ';', |a|);
    assert rest[..|a|] == a;
    assert tail != [] ==> rest[|a| + 1..] == tail[1..];
  }

  lemma ListedBehindSemicolon(attrs: seq<string>)
    requires attrs != []
    ensures Listed(attrs) != [] && Listed(attrs)[0] == ';'
    ensures Listed(attrs)[1..] == " " + attrs[0] + Listed(attrs[1..])
  {
    Associate("; ", attrs[0], Listed(attrs[1..]));
    Associate(" ", attrs[0], Listed(attrs[1..]));
    assert "; " == ";" + " ";
  }

  lemma {:induction false} AttributesReadBack(c: Cookie, attrs: seq<string>)
    requires attrs != [] && forall i :: 0 <= i < |attrs| ==> IsAttribute(attrs[i])
    ensures WithAttributes(c, " " + attrs[0] + Listed(attrs[1..])) == WithAll(c, attrs)
    decreases |attrs|
  {
    hide WithAttribute, WithAttributes, IsAttribute;
    var a, rest := attrs[0], attrs[1..];
    assert IsAttribute(a);
    if rest != [] {
      ListedBehindSemicolon(rest);
      OneAttribute(c, a, Listed(rest));
      AttributesReadBack(WithAttribute(c, a), rest);
    } else {
      OneAttribute(c, a, "");
    }
  }

  lemma StartsWith(word: string, rest: string)
    ensures AtIgnoringCase(word + rest, 0, word) && (word + rest)[|word|..] == rest
  {
  }

  /** Each attribute, as it is written, sets its own field. */
  lemma AttributeReadsBack(c: Cookie, text: string)
    ensures WithAttribute(c, "Domain=" + text) == c.(domain := Trimmed(text))
    ensures WithAttribute(c, "Path=" + text) == c.(path := Trimmed(text))
    ensures WithAttribute(c, "Secure") == c.(secure := true)
    ensures WithAttribute(c, "HttpOnly") == c.(httpOnly := true)
  {
    hide AtIgnoringCase, Trimmed;
    StartsWith("Domain=", text);
    StartsWith("Path=", text);
    assert "Secure" + "" == "Secure" && "HttpOnly" + "" == "HttpOnly";
    StartsWith("Secure", "");
    StartsWith("HttpOnly", "");
    FirstLetterDiffers("Path=" + text, "Domain=");
    FirstLetterDiffers("Secure", "Domain=");
    FirstLetterDiffers("Secure", "Path=");
    FirstLetterDiffers("HttpOnly", "Domain=");
    FirstLetterDiffers("HttpOnly", "Path=");
    FirstLetterDiffers("HttpOnly", "Secure");
  }

  lemma CookieAttributes(b: Cookie, c: Cookie)
    requires IsPart(c.domain) && IsPart(c.path) && !b.secure && !b.httpOnly
    ensures WithAll(b, Attributes(c)) == c.(name := b.name, value := b.value)
  {
    hide WithAttribute, Trimmed, IsTrimmed;
    TrimmedIffUnchanged(c.domain);
    TrimmedIffUnchanged(c.path);
    AttributeReadsBack(b, c.domain);
    var d := b.(domain := c.domain);
    AttributeReadsBack(d, c.path);
    var e := d.(path := c.path);
    var attrs := Attributes(c);
    assert attrs[1..][1..] == attrs[2..] == Flags(c) && attrs[1..][0] == attrs[1];
    assert WithAll(b, attrs) == WithAll(d, attrs[1..]) == WithAll(e, attrs[2..]);
    FlagsReadBack(e, c);
  }

  function Flags(c: Cookie): seq<string> {
    (if c.secure then ["Secure"] else []) + (if c.httpOnly then ["HttpOnly"] else [])
  }

  lemma FlagsReadBack(e: Cookie, c: Cookie)
    requires !e.secure && !e.httpOnly
    ensures WithAll(e, Flags(c)) == e.(secure := c.secure, httpOnly := c.httpOnly)
  {
    hide WithAttribute;
    var f := e.(secure := c.secure);
    AttributeReadsBack(e, "");
    AttributeReadsBack(f, "");
    var last := if c.httpOnly then ["HttpOnly"] else [];
    assert WithAll(e, Flags(c)) == WithAll(f, last) by {
      if c.secure {
        assert Flags(c)[1..] == last && Flags(c)[0] == "Secure";
      } else {
        assert Flags(c) == last;
      }
    }
    if c.httpOnly {
      assert last[1..] == [] && last[0] == "HttpOnly";
      assert WithAll(f.(httpOnly := true), []) == f.(httpOnly := true);
    }
  }

  lemma AttributesAreAttributes(c: Cookie)
    requires IsPart(c.domain) && IsPart(c.path)
    ensures Attributes(c) != [] && forall i :: 0 <= i < |Attributes(c)| ==> IsAttribute(Attributes(c)[i])
  {
    hide IsTrimmed;
    var attrs := Attributes(c);
    assert attrs[0][0] == 'D' && attrs[1][0] == 'P';
  }

  /** Writing a cookie that can be carried and reading it gives the cookie back, from whatever host it comes. */
  lemma ParseInvertsFormat(host: string, c: Cookie)
    requires IsCarried(c) && |Formatted(c)| <= HEADER_LIMIT
    ensures Parsed(host, Formatted(c)) == c
  {
    hide IsTrimmed, Attributes, Named, Parsed, WithAttributes, WithAll, Listed, IsAttribute;
    var pair := c.name.value + "=" + c.value.value;
    var attrs := Attributes(c);
    AttributesAreAttributes(c);
    ListedBehindSemicolon(attrs);
    ParsedUnfolds(host, pair, Listed(attrs));
    var b := Named(pair, host);
    PairReadsBack(host, c);
    AttributesReadBack(b, attrs);
    CookieAttributes(b, c);
  }

  lemma ParsedUnfolds(host: string, pair: string, tail: string)
    requires ';' !in pair && tail != [] && tail[0] == ';' && |pair + tail| <= HEADER_LIMIT
    ensures Parsed(host, pair + tail) == WithAttributes(Named(pair, host), tail[1..])
  {
    hide WithAttributes, Named, IndexOf;
    SplitAtSemicolon(pair, tail);
  }

  lemma SplitAtSemicolon(pair: string, tail: string)
    requires ';' !in pair && tail != [] && tail[0] == ';'
    ensures var h := pair + tail;
            IndexOf(h, ';') == |pair| < |h| && h[..|pair|] == pair && h[|pair| + 1..] == tail[1..]
  {
    IndexFromIs(pair + tail, 0, ';', |pair|);
  }

  lemma PairReadsBack(host: string, c: Cookie)
    requires IsCarried(c)
    ensures var b := Named(c.name.value + "=" + c.value.value, host);
            b.name == c.name && b.value == c.value && !b.secure && !b.httpOnly
  {
    hide IsTrimmed, Trimmed;
    var name, value := c.name.value, c.value.value;
    var pair := name + "=" + value;
    IndexFromIs(pair, 0, '=', |name|);
    assert pair[..|name|] == name && pair[|name| + 1..] == value;
    TrimmedIffUnchanged(name);
    TrimmedIffUnchanged(value);
  }

  // ----- and only what can be carried does

  lemma PartOf(s: string, part: string)
    requires ';' !in s && forall c :: c in part ==> c in s
    ensures IsPart(Trimmed(part)) && forall c :: c in Trimmed(part) ==> c in part
  {
    TrimmedIffUnchanged(part);
    var t := part[SkipBlanks(part, 0)..];
    assert forall c :: c in TrimmedEnd(t) ==> c in t;
  }

  lemma AttributeKeepsParts(c: Cookie, a: string)
    requires IsPart(c.domain) && IsPart(c.path) && ';' !in a
    ensures var d := WithAttribute(c, a);
            IsPart(d.domain) && IsPart(d.path) && d.name == c.name && d.value == c.value
  {
    hide IsPart, Trimmed;
    if |a| >= 5 {
      PartOf(a, a[5..]);
    }
    if |a| >= 7 {
      PartOf(a, a[7..]);
    }
  }

  lemma {:induction false} AttributesKeepParts(c: Cookie, text: string)
    requires IsPart(c.domain) && IsPart(c.path)
    ensures var d := WithAttributes(c, text);
            IsPart(d.domain) && IsPart(d.path) && d.name == c.name && d.value == c.value
    decreases |text|
  {
    hide IsPart, WithAttribute;
    if text != [] {
      var rest := text[SkipBlanks(text, 0)..];
      var semi := IndexOf(rest, ';');
      AttributeKeepsParts(c, rest[..semi]);
      if semi < |rest| {
        AttributesKeepParts(WithAttribute(c, rest[..semi]), rest[semi + 1..]);
      }
    }
  }

  /** Whatever the header, the parts of the cookie read from it are free of semicolons and trimmed. */
  lemma ParsedIsCarried(host: string, header: string)
    requires IsPart(host)
    ensures var c := Parsed(host, header);
            && IsPart(c.domain) && IsPart(c.path)
            && (c.name.Some? <==> c.value.Some?)
            && (c.name.Some? ==> IsCarried(c))
  {
    hide IsTrimmed, Trimmed, WithAttribute, WithAttributes;
    var h := if |header| > HEADER_LIMIT then header[..HEADER_LIMIT] else header;
    var semi := IndexOf(h, ';');
    var pair := h[..semi];
    var eq := IndexOf(pair, '=');
    PartOf(pair, pair[..eq]);
    if eq < |pair| {
      PartOf(pair, pair[eq + 1..]);
    }
    DefaultPath();
    var c := Named(pair, host);
    if semi < |h| {
      AttributesKeepParts(c, h[semi + 1..]);
    }
  }

  lemma DefaultPath()
    ensures IsPart("/")
  {
  }

  /** A cookie whose header is not cut off reads back exactly when it can be carried. */
  lemma RoundTripIffCarried(host: string, c: Cookie)
    requires IsPart(host) && c.name.Some? && c.value.Some? && |Formatted(c)| <= HEADER_LIMIT
    ensures Parsed(host, Formatted(c)) == c <==> IsCarried(c)
  {
    hide IsCarried, Parsed, Formatted;
    if IsCarried(c) {
      ParseInvertsFormat(host, c);
    }
    ParsedIsCarried(host, Formatted(c));
  }
}
