/** The cookie jar of src/cwebhttp.c as the linked list that it is, and its header parser as a loop. */
module CookieJarObjects {
  import opened CookieJar
  import opened Cookies
  import opened Sequences
  import opened Text
  import opened Wrappers
  import HttpBuffers

  /** Where the text that starts at a position ends once white space is taken off. */
  method FindEnd(str: array<char>, start: nat, len: nat) returns (end: nat)
    requires start <= len <= str.Length
    ensures start <= end <= len && str[start..end] == TrimmedEnd(str[start..len])
  {
    ghost var was := str[..];
    end := len;
    assert str[start..len] == was[start..len];
    while end > start + 1 && IsSpace(str[end - 1])
      invariant start <= end <= len
      invariant TrimmedEnd(was[start..end]) == TrimmedEnd(was[start..len])
    {
      LastTaken(was, start, end);
      end := end - 1;
    }
    assert str[start..end] == was[start..end];
  }

  lemma LastTaken(s: string, start: nat, end: nat)
    requires start + 1 < end <= |s| && IsSpace(s[end - 1])
    ensures TrimmedEnd(s[start..end]) == TrimmedEnd(s[start..end - 1])
  {
    assert s[start..end][..end - start - 1] == s[start..end - 1];
  }

  /** Trims a text in its buffer: what stays moves to the front. */
  method TrimInPlace(str: array<char>, len: nat) returns (n: nat)
    requires len <= str.Length
    modifies str
    ensures n <= len && str[..n] == Trimmed(old(str[..len]))
  {
    hide TrimmedEnd, SkipBlanks;
    var start := HttpBuffers.SkipWs(str, 0, len);
    var end := FindEnd(str, start, len);
    assert str[..len][start..] == str[start..len];
    n := end - start;
    forall i | 0 <= i < n {
      str[i] := str[start + i];
    }
    assert str[..n] == old(str[start..end]);
  }

  /** A copy of a part of the buffer, trimmed in its own memory. */
  method TrimmedCopy(buf: array<char>, from: nat, to: nat) returns (s: string)
    requires from <= to <= buf.Length
    ensures s == Trimmed(buf[from..to])
  {
    hide Trimmed;
    var dup := new char[to - from];
    forall i | 0 <= i < to - from {
      dup[i] := buf[from + i];
    }
    assert dup[..to - from] == buf[from..to];
    var n := TrimInPlace(dup, to - from);
    return dup[..n];
  }

  /** Splits the first part of the copy where the first equals sign is. */
  method ParsePair(domain: string, copy: array<char>, end: nat) returns (c: Cookie)
    requires end <= copy.Length
    modifies copy
    ensures c == Named(old(copy[..end]), domain)
    ensures forall i :: end <= i < copy.Length ==> copy[i] == old(copy[i])
  {
    hide Trimmed, IndexFrom;
    ghost var pair := copy[..end];
    c := Cookie(None, None, domain, "/", false, false);
    var equals := HttpBuffers.FindChar(copy, 0, end, '=');
    if equals < end {
      copy[equals] := NUL;
      var name := TrimmedCopy(copy, 0, equals);
      var value := TrimmedCopy(copy, equals + 1, end);
      assert copy[0..equals] == pair[..equals] && copy[equals + 1..end] == pair[equals + 1..];
      c := c.(name := Some(name), value := Some(value));
    }
  }

  /** Copies the header and splits the copy where the first semicolon is. */
  method ParseSetCookie(domain: string, header: string) returns (c: Cookie)
    ensures c == Parsed(domain, header)
  {
    hide WithAttribute, WithAttributes, Named, IndexFrom;
    var len := if |header| > HEADER_LIMIT then HEADER_LIMIT else |header|;
    var copy := new char[HEADER_LIMIT + 1];
    forall i | 0 <= i < len {
      copy[i] := header[i];
    }
    copy[len] := NUL;
    ghost var h := copy[..len];
    assert h == header[..len] == if |header| > HEADER_LIMIT then header[..HEADER_LIMIT] else header;
    var semicolon := HttpBuffers.FindChar(copy, 0, len, ';');
    if semicolon < len {
      copy[semicolon] := NUL;
    }
    assert copy[..semicolon] == h[..semicolon];
    assert semicolon < len ==> copy[semicolon + 1..len] == h[semicolon + 1..];
    ghost var behind := if semicolon < len then copy[semicolon + 1..len] else [];
    c := ParsePair(domain, copy, semicolon);
    if semicolon < len {
      assert copy[semicolon + 1..len] == behind;
      c := ParseAttributes(c, copy, semicolon + 1, len);
    }
  }

  lemma FirstAttribute(c: Cookie, text: string)
    requires text != []
    ensures var rest := text[SkipBlanks(text, 0)..];
            var semi := IndexOf(rest, ';');
            var d := WithAttribute(c, rest[..semi]);
            WithAttributes(c, text) == if semi < |rest| then WithAttributes(d, rest[semi + 1..]) else d
  {
  }

  /** The first attribute from a position on, found in the whole text. */
  lemma AttributesUnfold(c: Cookie, t: string, p: nat)
    requires p < |t|
    ensures var start := SkipBlanks(t, p);
            var next := IndexFrom(t, start, ';');
            var d := WithAttribute(c, t[start..next]);
            WithAttributes(c, t[p..]) == if next < |t| then WithAttributes(d, t[next + 1..]) else d
  {
    hide WithAttribute, WithAttributes, SkipBlanks, IndexFrom, IndexOf;
    var start := SkipBlanks(t, p);
    var next := IndexFrom(t, start, ';');
    FirstAttribute(c, t[p..]);
    BlanksInSuffix(t, p);
    IndexInSuffix(t, start, ';');
    DropOfDrop(t, p, start);
    TakeOfDrop(t, start, next);
    if next < |t| {
      DropOfDrop(t, start, next + 1);
    }
  }

  /** Walks over the attributes, ending each at the semicolon behind it. */
  method ParseAttributes(before: Cookie, copy: array<char>, from: nat, len: nat) returns (c: Cookie)
    requires from <= len <= copy.Length
    modifies copy
    ensures c == WithAttributes(before, old(copy[from..len]))
  {
    hide WithAttribute, WithAttributes, SkipBlanks, IndexFrom;
    c := before;
    var attr := from;
    while attr < len
      invariant attr <= len
      invariant WithAttributes(c, copy[attr..len]) == WithAttributes(before, old(copy[from..len]))
    {
      ghost var t := copy[..len];
      assert t[attr..] == copy[attr..len];
      AttributesUnfold(c, t, attr);
      var start := HttpBuffers.SkipWs(copy, attr, len);
      var next := HttpBuffers.FindChar(copy, start, len, ';');
      if next < len {
        copy[next] := NUL;
        assert copy[next + 1..len] == t[next + 1..];
      }
      assert copy[start..next] == t[start..next];
      c := ParseAttribute(c, copy, start, next);
      attr := if next < len then next + 1 else len;
      if next == len {
        NoAttributes(c, copy[attr..len]);
      }
    }
    NoAttributes(c, copy[attr..len]);
  }

  lemma NoAttributes(c: Cookie, text: string)
    requires text == []
    ensures WithAttributes(c, text) == c
  {
  }

  lemma SameWord(t: string, from: nat, to: nat, word: string)
    requires from <= to <= |t|
    ensures AtIgnoringCase(t[..to], from, word) <==> AtIgnoringCase(t[from..to], 0, word)
  {
    var a := t[from..to];
    assert forall i :: 0 <= i < |a| ==> a[i] == t[..to][from + i];
  }

  method ParseAttribute(before: Cookie, copy: array<char>, from: nat, to: nat) returns (c: Cookie)
    requires from <= to <= copy.Length
    ensures c == WithAttribute(before, copy[from..to])
  {
    ghost var a := copy[from..to];
    assert copy[..][..to] == copy[..to] && copy[..][from..to] == a;
    SameWord(copy[..], from, to, "Domain=");
    SameWord(copy[..], from, to, "Path=");
    SameWord(copy[..], from, to, "Secure");
    SameWord(copy[..], from, to, "HttpOnly");
    hide AtIgnoringCase, Trimmed;
    c := before;
    var isDomain := HttpBuffers.MatchesIgnoringCase(copy, from, to, "Domain=");
    var isPath := HttpBuffers.MatchesIgnoringCase(copy, from, to, "Path=");
    var isSecure := HttpBuffers.MatchesIgnoringCase(copy, from, to, "Secure");
    var isHttpOnly := HttpBuffers.MatchesIgnoringCase(copy, from, to, "HttpOnly");
    if isDomain {
      LongEnough(a, "Domain=");
      var domain := TrimmedCopy(copy, from + 7, to);
      assert copy[from + 7..to] == a[7..];
      c := c.(domain := domain);
    } else if isPath {
      LongEnough(a, "Path=");
      var path := TrimmedCopy(copy, from + 5, to);
      assert copy[from + 5..to] == a[5..];
      c := c.(path := path);
    } else if isSecure {
      c := c.(secure := true);
    } else if isHttpOnly {
      c := c.(httpOnly := true);
    }
  }

  lemma LongEnough(a: string, word: string)
    requires AtIgnoringCase(a, 0, word)
    ensures |word| <= |a|
  {
  }

  /** Puts a separator, unless nothing has been written yet, and the pair of a cookie that has a name. */
  method AppendCookie(buf: array<char>, start: nat, isFirst: bool, c: Cookie, ghost o: Output)
    returns (offset: nat, first: bool)
    requires buf.Length == TEXT_SIZE && IsWithin(o) && buf[..|o.text|] == o.text
    requires start == o.offset && isFirst == o.first && WriteCookie(o, c).Accepted?
    modifies buf
    ensures var n := WriteCookie(o, c).value;
            offset == n.offset && first == n.first && IsWithin(n) && buf[..|n.text|] == n.text
  {
    hide Pair;
    WriteCookieExtends(o, c);
    offset, first := start, isFirst;
    if !first && offset < TEXT_SIZE - 2 {
      buf[offset] := ';';
      buf[offset + 1] := ' ';
      offset := offset + 2;
      assert buf[..offset] == o.text + "; ";
    }
    if c.name.Some? && c.value.Some? {
      if offset < TEXT_SIZE {
        var _ := HttpBuffers.Snprintf(buf, offset, TEXT_SIZE - offset, Pair(c));
      }
      offset := offset + |Pair(c)|;
      first := false;
    }
  }

  /** One turn of the loop over a jar. */
  lemma EmitStep(jar: seq<Cookie>, i: nat, domain: string, path: string, o: Output)
    requires i < |jar| && Emit(jar[i..], domain, path, o).Accepted?
    ensures var (c, rest) := (jar[i], jar[i + 1..]);
            if IsSent(c, domain, path)
            then WriteCookie(o, c).Accepted?
              && Emit(jar[i..], domain, path, o) == Emit(rest, domain, path, WriteCookie(o, c).value)
            else Emit(jar[i..], domain, path, o) == Emit(rest, domain, path, o)
  {
    hide IsSent, WriteCookie;
    assert jar[i..][0] == jar[i] && jar[i..][1..] == jar[i + 1..];
  }

  lemma NothingLeft(jar: seq<Cookie>, domain: string, path: string, o: Output)
    requires jar == []
    ensures Emit(jar, domain, path, o) == Accepted(o)
  {
  }

  class CookieNode {
    const cookie: Cookie
    var next: CookieNode?

    constructor (cookie: Cookie)
      ensures this.cookie == cookie && next == null
    {
      this.cookie, next := cookie, null;
    }
  }

  ghost function CookiesOf(nodes: seq<CookieNode>): (s: seq<Cookie>)
    ensures |s| == |nodes| && forall i :: 0 <= i < |s| ==> s[i] == nodes[i].cookie
  {
    seq(|nodes|, i requires 0 <= i < |nodes| => nodes[i].cookie)
  }

  lemma CookiesWithout(nodes: seq<CookieNode>, i: nat)
    requires i < |nodes|
    ensures CookiesOf(RemoveAt(nodes, i)) == RemoveAt(CookiesOf(nodes), i)
  {
  }

  lemma CookiesPrepend(node: CookieNode, nodes: seq<CookieNode>)
    ensures CookiesOf([node] + nodes) == [node.cookie] + CookiesOf(nodes)
  {
  }

  class Jar {
    var head: CookieNode?
    ghost var nodes: seq<CookieNode>
    ghost var repr: set<CookieNode>

    ghost function NodeAt(i: nat): CookieNode?
      requires i <= |nodes|
      reads this`nodes
    {
      if i < |nodes| then nodes[i] else null
    }

    ghost predicate Valid()
      reads this, repr`next
    {
      && (forall i :: 0 <= i < |nodes| ==> nodes[i] in repr)
      && (forall i, j :: 0 <= i < j < |nodes| ==> nodes[i] != nodes[j])
      && head == NodeAt(0)
      && forall i :: 0 <= i < |nodes| ==> nodes[i].next == NodeAt(i + 1)
    }

    ghost function Contents(): (s: seq<Cookie>)
      reads this`nodes
      ensures |s| == |nodes|
    {
      CookiesOf(nodes)
    }

    constructor ()
      ensures Valid() && Contents() == [] && repr == {}
    {
      head, nodes, repr := null, [], {};
    }

    /** Sets the pointer that leads to a cookie past it. */
    method Unlink(prev: CookieNode?, curr: CookieNode, ghost i: nat)
      requires Valid() && i < |nodes| && nodes[i] == curr
      requires if i == 0 then prev == null else prev == nodes[i - 1]
      modifies this`head, this`nodes, repr`next
      ensures Valid() && nodes == old(RemoveAt(nodes, i))
    {
      hide RemoveAt;
      if prev == null {
        head := curr.next;
      } else {
        prev.next := curr.next;
      }
      nodes := RemoveAt(nodes, i);
    }

    /** Removes the first cookie that a new one replaces. */
    method RemoveSame(c: Cookie)
      requires Valid()
      modifies this`head, this`nodes, repr`next
      ensures Valid()
      ensures var k := Find(old(Contents()), c);
              Contents() == if k < |old(Contents())| then RemoveAt(old(Contents()), k) else old(Contents())
    {
      hide RemoveAt, SameCookie;
      var prev: CookieNode? := null;
      var curr := head;
      ghost var i := 0;
      while curr != null && !SameCookie(curr.cookie, c)
        invariant i <= |nodes| && curr == NodeAt(i)
        invariant if i == 0 then prev == null else prev == nodes[i - 1]
        invariant forall k :: 0 <= k < i ==> !SameCookie(nodes[k].cookie, c)
        decreases |nodes| - i
      {
        prev := curr;
        curr := curr.next;
        i := i + 1;
      }
      FindIs(Contents(), c, i);
      if curr != null {
        CookiesWithout(nodes, i);
        Unlink(prev, curr, i);
      }
    }

    method LinkHead(node: CookieNode)
      requires Valid() && node !in repr
      modifies this, node`next
      ensures Valid() && repr == old(repr) + {node} && nodes == [node] + old(nodes)
    {
      node.next := head;
      head := node;
      ghost var was := nodes;
      nodes, repr := [node] + nodes, repr + {node};
      forall i | 1 <= i < |nodes|
        ensures nodes[i] == was[i - 1] && nodes[i] != node && nodes[i].next == NodeAt(i + 1)
      {
      }
    }

    /** Reads a Set-Cookie header and puts the cookie in front, in place of the one it replaces. */
    method AddCookie(domain: string, header: string)
      requires Valid()
      modifies this, repr
      ensures Valid() && fresh(repr - old(repr))
      ensures Contents() == old(CookieJar.Add(Contents(), Parsed(domain, header)))
    {
      hide Parsed, Find, RemoveAt, Jar.Valid, CookiesOf;
      var cookie := ParseSetCookie(domain, header);
      var node := new CookieNode(cookie);
      RemoveSame(cookie);
      CookiesPrepend(node, nodes);
      LinkHead(node);
    }

    lemma Look(i: nat)
      requires Valid() && i <= |nodes|
      ensures head == NodeAt(0)
      ensures i < |nodes| ==> nodes[i].next == NodeAt(i + 1) && Contents()[i] == nodes[i].cookie
    {
    }

    /** Builds the text to send in a buffer; what does not fit is cut off. */
    method GetCookies(domain: string, path: string) returns (r: Option<string>)
      requires Valid() && !CookieJar.Get(Contents(), domain, path).Overrun?
      ensures CookieJar.Get(Contents(), domain, path) == Accepted(r)
    {
      hide IsSent, Pair, CookiesOf, WriteCookie, Emit, Jar.Valid, Jar.Contents;
      var buf := new char[TEXT_SIZE];
      var offset, first := 0, true;
      var curr := head;
      ghost var i, jar, o := 0, Contents(), NOTHING_YET;
      assert jar[0..] == jar && buf[..0] == "";
      Look(0);
      while curr != null
        invariant Valid() && i <= |nodes| == |jar| && curr == NodeAt(i)
        invariant offset == o.offset && first == o.first && IsWithin(o) && buf[..|o.text|] == o.text
        invariant Emit(jar[i..], domain, path, o) == Emit(jar, domain, path, NOTHING_YET)
        decreases |nodes| - i
      {
        Look(i);
        EmitStep(jar, i, domain, path, o);
        if IsSent(curr.cookie, domain, path) {
          offset, first := AppendCookie(buf, offset, first, curr.cookie, o);
          o := WriteCookie(o, curr.cookie).value;
        }
        curr := curr.next;
        i := i + 1;
      }
      NothingLeft(jar[i..], domain, path, o);
      var len := if offset < TEXT_SIZE then offset else TEXT_SIZE - 1;
      return if offset == 0 then None else Some(buf[..len]);
    }
  }
}
