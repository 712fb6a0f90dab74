/**
  What a response of src/cwebhttp.c means to its reader: the length that the formatter announces, the
  codings that the headers declare, in any case of their letters, and the body that is then shown.
 */
module HttpMeaning {
  import Chunked
  import opened HttpGrammar
  import opened HttpHeaders
  import opened HttpResponse
  import opened Text
  import opened Wrappers

  // ----- the length

  /** A body is announced by one further header, whose value is its length in decimal digits. */
  lemma LengthIsAnnounced(hs: seq<Header>, body: string)
    ensures body == [] ==> WithLength(hs, body) == hs
    ensures body != [] ==>
              exists digits :: AreDigits(digits) && Amount(digits) == |body| && digits != [] && digits[0] != 0
                               && WithLength(hs, body) == hs + [Header("Content-Length", Spelled(digits))]
  {
    var digits := DecimalIs(|body|);
  }

  // ----- the codings

  /** The text begins with the word, whatever the case of each letter. */
  predicate Begins(s: string, word: string) {
    |word| <= |s| && SameLetters(s[..|word|], word)
  }

  predicate IsFirst(hs: seq<Header>, key: string, i: nat)
    requires i < |hs|
  {
    Begins(hs[i].key, key) && forall j :: 0 <= j < i ==> !Begins(hs[j].key, key)
  }

  /** The first header whose key begins with the one given has a value that begins with the word. */
  predicate Declares(hs: seq<Header>, key: string, word: string) {
    exists i :: 0 <= i < |hs| && IsFirst(hs, key, i) && Begins(hs[i].value, word)
  }

  predicate DeclaresChunks(hs: seq<Header>) {
    Declares(hs, "Transfer-Encoding", "chunked")
  }

  predicate DeclaresCompression(hs: seq<Header>) {
    Declares(hs, "Content-Encoding", "gzip") || Declares(hs, "Content-Encoding", "deflate")
  }

  lemma BeginsIff(s: string, word: string)
    ensures AtIgnoringCase(s, 0, word) <==> Begins(s, word)
  {
    AtIgnoringCaseIff(s, 0, word);
    assert |word| <= |s| ==> s[0..0 + |word|] == s[..|word|];
  }

  lemma IsFirstInRest(hs: seq<Header>, key: string, i: nat)
    requires hs != [] && !Begins(hs[0].key, key) && i < |hs| - 1
    ensures IsFirst(hs[1..], key, i) <==> IsFirst(hs, key, i + 1)
  {
    hide Begins;
    var rest := hs[1..];
    forall j | 0 <= j < i
      ensures hs[j + 1] == rest[j]
    {
    }
    if IsFirst(rest, key, i) {
      forall j | 0 <= j < i + 1
        ensures !Begins(hs[j].key, key)
      {
        assert j > 0 ==> hs[j] == rest[j - 1];
      }
    }
  }

  lemma DeclaresInRest(hs: seq<Header>, key: string, word: string)
    requires hs != [] && !Begins(hs[0].key, key)
    ensures Declares(hs, key, word) <==> Declares(hs[1..], key, word)
  {
    hide Begins, IsFirst;
    var rest := hs[1..];
    if Declares(hs, key, word) {
      var i :| 0 <= i < |hs| && IsFirst(hs, key, i) && Begins(hs[i].value, word);
      assert i > 0 by {
        FirstBegins(hs, key, i);
      }
      IsFirstInRest(hs, key, i - 1);
      assert rest[i - 1] == hs[i];
    }
    if Declares(rest, key, word) {
      var i :| 0 <= i < |rest| && IsFirst(rest, key, i) && Begins(rest[i].value, word);
      IsFirstInRest(hs, key, i);
      assert rest[i] == hs[i + 1];
    }
  }

  lemma FirstBegins(hs: seq<Header>, key: string, i: nat)
    requires i < |hs| && IsFirst(hs, key, i)
    ensures Begins(hs[i].key, key)
  {
  }

  /** The search finds what the headers declare. */
  lemma {:induction false} NamesIffDeclared(hs: seq<Header>, key: string, word: string)
    ensures Names(hs, key, word) <==> Declares(hs, key, word)
  {
    hide AtIgnoringCase, Begins;
    if hs != [] {
      BeginsIff(hs[0].key, key);
      BeginsIff(hs[0].value, word);
      if Begins(hs[0].key, key) {
        assert IsFirst(hs, key, 0);
        assert forall i :: 0 < i < |hs| ==> !IsFirst(hs, key, i);
      } else {
        NamesIffDeclared(hs[1..], key, word);
        DeclaresInRest(hs, key, word);
      }
    }
  }

  lemma CodingsAreDeclared(hs: seq<Header>)
    ensures NamesChunked(hs) <==> DeclaresChunks(hs)
    ensures NamesCompression(hs) <==> DeclaresCompression(hs)
  {
    hide Names, Declares;
    NamesIffDeclared(hs, "Transfer-Encoding", "chunked");
    NamesIffDeclared(hs, "Content-Encoding", "gzip");
    NamesIffDeclared(hs, "Content-Encoding", "deflate");
  }

  // ----- the body

  function Announced(res: Response): seq<Header> {
    WithLength(res.headers, res.body)
  }

  /** The head is not cut short, and its header lines fit the parser's table. */
  predicate IsCarried(res: Response) {
    IsResponse(res) && |Head(res)| < 1024 && |Announced(res)| <= 16
  }

  /** What a reader is shown: the status, the headers with the length, and some body. */
  predicate Shows(res: Response, g: Setting, body: string)
    requires Chunked.IsPlaced(g.at, |Format(res)|)
  {
    Reparsed(res, g) == Some(Response(res.status, Announced(res), body))
  }

  /** A response that can be carried shows its body without its codings, if removing them does not overrun. */
  lemma ShowsPlain(res: Response, g: Setting)
    requires Chunked.IsPlaced(g.at, |Format(res)|) && IsCarried(res)
    ensures var hs := Announced(res);
            var overruns := BodyOverruns(hs, res.body, g.at + |Head(res)|, g.inflated);
            && (overruns ==> Reparsed(res, g).None?)
            && (!overruns ==> Shows(res, g, Plain(hs, res.body, g.inflated)))
  {
    hide Reparsed, Format, WithLength, Head, IsResponse, BodyOverruns, Plain, Chunked.IsPlaced;
    RoundTripIffCarried(res, g);
    if Reparsed(res, g).Some? {
      ShownHasRoom(res, g);
    }
  }

  /** A body without a coding is shown as it is. */
  lemma UncodedIsShown(res: Response, g: Setting)
    requires Chunked.IsPlaced(g.at, |Format(res)|) && IsCarried(res)
    requires !DeclaresChunks(Announced(res)) && !DeclaresCompression(Announced(res))
    ensures Shows(res, g, res.body)
  {
    hide Reparsed, Format, Announced, Head, IsCarried, NamesChunked, NamesCompression, Shows;
    hide DeclaresChunks, DeclaresCompression, Chunked.IsPlaced;
    ShowsPlain(res, g);
    CodingsAreDeclared(Announced(res));
  }

  /**
    A compressed body is shown decompressed exactly when that is no longer than it was; one that does not
    decompress is shown as it is.
   */
  lemma CompressedIsShown(res: Response, g: Setting)
    requires Chunked.IsPlaced(g.at, |Format(res)|) && IsCarried(res) && res.body != []
    requires !DeclaresChunks(Announced(res)) && DeclaresCompression(Announced(res))
    ensures g.inflated.None? ==> Shows(res, g, res.body)
    ensures g.inflated.Some? ==> (Shows(res, g, g.inflated.value) <==> |g.inflated.value| <= |res.body|)
  {
    hide Format, Announced, Head, IsCarried, NamesChunked, NamesCompression, Reparsed;
    hide DeclaresChunks, DeclaresCompression, Chunked.IsPlaced;
    ShowsPlain(res, g);
    CodingsAreDeclared(Announced(res));
  }

  /**
    A chunked body of at most 16384 bytes is shown uncoded; one that is compressed too is then decompressed,
    exactly when that is no longer than the chunks were.
   */
  lemma ChunksAreShown(res: Response, body: string, g: Setting)
    requires Chunked.IsPlaced(g.at, |Format(res)|) && IsCarried(res)
    requires DeclaresChunks(Announced(res)) && res.body == Chunked.Encode(body) && |body| <= 16384
    ensures var isCompressed := DeclaresCompression(Announced(res));
            if isCompressed && g.inflated.Some?
            then Shows(res, g, g.inflated.value) <==> |g.inflated.value| <= |res.body|
            else Shows(res, g, body)
  {
    hide Format, Announced, Head, IsCarried, NamesChunked, NamesCompression, Reparsed;
    hide DeclaresChunks, DeclaresCompression, Chunked.IsPlaced, Chunked.Encode, BodyOverruns, Plain;
    ShowsPlain(res, g);
    var hs, at := Announced(res), g.at + |Head(res)|;
    CodingsAreDeclared(hs);
    assert Chunked.IsPlaced(at, |res.body|) by {
      PlacedBehind(res, g);
    }
    ChunksAreRemoved(hs, body, at, g.inflated);
  }

  lemma PlacedBehind(res: Response, g: Setting)
    requires Chunked.IsPlaced(g.at, |Format(res)|)
    ensures Chunked.IsPlaced(g.at + |Head(res)|, |res.body|)
  {
    hide Head;
  }

  /** The chunks are removed before the compression is. */
  lemma ChunksAreRemoved(hs: seq<Header>, body: string, at: nat, inflated: Option<string>)
    requires NamesChunked(hs) && Chunked.IsPlaced(at, |Chunked.Encode(body)|) && |body| <= 16384
    ensures var text := Chunked.Encode(body);
            var plain := if NamesCompression(hs) && inflated.Some? then inflated.value else body;
            Plain(hs, text, inflated) == plain && (BodyOverruns(hs, text, at, inflated) <==> |plain| > |text|)
    ensures |body| <= |Chunked.Encode(body)|
  {
    hide Chunked.Decode, Chunked.DecodeAt, Chunked.Encode, Chunked.ReachesWrap, Chunked.Written;
    hide NamesChunked, NamesCompression;
    var text := Chunked.Encode(body);
    assert text + [] == text;
    Chunked.DecodeIffChunked(text, at, DECODED_SIZE, body);
    Chunked.DecodeAtInvertsEncode(body, [], at, DECODED_SIZE);
    Chunked.DecodeInvertsEncode(body, []);
    Chunked.EncodedLength(body);
  }

  /** A body that claims to be chunked and is not is shown as it is. */
  lemma UnchunkedIsShown(res: Response, g: Setting)
    requires Chunked.IsPlaced(g.at, |Format(res)|) && IsCarried(res)
    requires DeclaresChunks(Announced(res)) && !DeclaresCompression(Announced(res))
    requires Chunked.Decode(res.body).None? && Chunked.Written(res.body) <= 16384
    requires !Chunked.ReachesWrap(res.body, g.at + |Head(res)|)
    ensures Shows(res, g, res.body)
  {
    hide Reparsed, Format, Announced, Head, IsCarried, NamesChunked, NamesCompression, Shows;
    hide DeclaresChunks, DeclaresCompression, Chunked.IsPlaced, Chunked.Decode, Chunked.Written, Chunked.ReachesWrap;
    ShowsPlain(res, g);
    CodingsAreDeclared(Announced(res));
  }
}
