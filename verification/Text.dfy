/**
  The character searches that the HTTP parsers of src/cwebhttp.c are built from. Each search runs
  from a position to the end of a text and says where it stops.
 */
module Text {

  const CRLF: string := "\r\n"

  /** Ends a text in C. */
  const NUL: char := '\0'

  /** The text has a line end at the position. */
  predicate CrlfAt(s: string, p: nat) {
    p + 1 < |s| && s[p] == '\r' && s[p + 1] == '\n'
  }

  predicate StartsWithCrlf(s: string) {
    CrlfAt(s, 0)
  }

  predicate HasCrlf(s: string) {
    exists i :: 0 <= i < |s| && CrlfAt(s, i)
  }

  /** The text continues with the given one at the position. */
  predicate At(s: string, p: nat, text: string) {
    p + |text| <= |s| && s[p..p + |text|] == text
  }

  lemma AtSplit(s: string, p: nat, a: string, b: string)
    ensures At(s, p, a + b) <==> At(s, p, a) && At(s, p + |a|, b)
  {
    if p + |a| + |b| <= |s| {
      var whole := s[p..p + |a| + |b|];
      assert whole[..|a|] == s[p..p + |a|] && whole[|a|..] == s[p + |a|..p + |a| + |b|];
      assert whole == whole[..|a|] + whole[|a|..];
      assert (a + b)[..|a|] == a && (a + b)[|a|..] == b;
    }
  }

  lemma AtText(s: string, p: nat, text: string)
    requires At(s, p, text)
    ensures p + |text| <= |s| && s[p..p + |text|] == text
  {
  }

  lemma AtChar(s: string, p: nat, text: string, i: nat)
    requires At(s, p, text) && i < |text|
    ensures s[p + i] == text[i]
  {
    assert s[p..p + |text|][i] == text[i];
  }

  lemma LineEndAt(s: string, p: nat)
    requires At(s, p, CRLF)
    ensures CrlfAt(s, p)
  {
    AtChar(s, p, CRLF, 0);
    AtChar(s, p, CRLF, 1);
  }

  // ----- searches

  /** The first position of a character, or the end when there is none. */
  function IndexFrom(s: string, p: nat, c: char): (k: nat)
    requires p <= |s|
    ensures p <= k <= |s| && (k < |s| ==> s[k] == c)
    ensures forall i :: p <= i < k ==> s[i] != c
    decreases |s| - p
  {
    if p == |s| || s[p] == c then p else IndexFrom(s, p + 1, c)
  }

  lemma IndexFromIs(s: string, p: nat, c: char, k: nat)
    requires p <= k <= |s| && (k < |s| ==> s[k] == c) && forall i :: p <= i < k ==> s[i] != c
    ensures IndexFrom(s, p, c) == k
  {
  }

  function IndexOf(s: string, c: char): (k: nat)
    ensures k <= |s| && (k < |s| ==> s[k] == c)
    ensures forall i :: 0 <= i < k ==> s[i] != c
  {
    IndexFrom(s, 0, c)
  }

  lemma IndexOfSuffix(s: string, c: char, p: nat)
    requires p <= |s| && forall i :: 0 <= i < p ==> s[i] != c
    ensures IndexOf(s, c) == p + IndexOf(s[p..], c)
  {
  }

  /** A search finds the same place in the rest of a text. */
  lemma IndexInSuffix(s: string, p: nat, c: char)
    requires p <= |s|
    ensures IndexOf(s[p..], c) == IndexFrom(s, p, c) - p
  {
    IndexFromIs(s[p..], 0, c, IndexFrom(s, p, c) - p);
  }

  predicate IsBlank(c: char) {
    c == ' ' || c == '\t'
  }

  /** The first position that holds neither a space nor a tab. */
  function SkipBlanks(s: string, p: nat): (k: nat)
    requires p <= |s|
    ensures p <= k <= |s| && (k < |s| ==> !IsBlank(s[k]))
    ensures forall i :: p <= i < k ==> IsBlank(s[i])
    decreases |s| - p
  {
    if p == |s| || !IsBlank(s[p]) then p else SkipBlanks(s, p + 1)
  }

  lemma BlanksInSuffix(s: string, p: nat)
    requires p <= |s|
    ensures SkipBlanks(s[p..], 0) == SkipBlanks(s, p) - p
  {
    SkipBlanksIs(s[p..], 0, SkipBlanks(s, p) - p);
  }

  lemma SkipBlanksIs(s: string, p: nat, k: nat)
    requires p <= k <= |s| && (k < |s| ==> !IsBlank(s[k])) && forall i :: p <= i < k ==> IsBlank(s[i])
    ensures SkipBlanks(s, p) == k
  {
  }

  /** The first line end; without one, the last position at which one could start. */
  function CrlfFrom(s: string, p: nat): (k: nat)
    requires p <= |s|
    ensures p <= k <= |s| && (CrlfAt(s, k) || k + 1 >= |s|)
    ensures forall i :: p <= i < k ==> !CrlfAt(s, i)
    decreases |s| - p
  {
    if p + 1 >= |s| || CrlfAt(s, p) then p else CrlfFrom(s, p + 1)
  }

  lemma CrlfFromIs(s: string, p: nat, k: nat)
    requires p <= k && CrlfAt(s, k) && forall i :: p <= i < k ==> !CrlfAt(s, i)
    ensures CrlfFrom(s, p) == k
  {
  }

  /** A line end put behind a text that contains none is found where it was put. */
  lemma CrlfBehind(s: string, p: nat, line: string)
    requires !HasCrlf(line) && At(s, p, line + CRLF)
    ensures CrlfFrom(s, p) == p + |line|
  {
    var k := p + |line|;
    AtSplit(s, p, line, CRLF);
    LineEndAt(s, k);
    forall i | p <= i < k
      ensures !CrlfAt(s, i)
    {
      AtChar(s, p, line, i - p);
      if i + 1 < k {
        AtChar(s, p, line, i + 1 - p);
        assert !CrlfAt(line, i - p);
      }
    }
    CrlfFromIs(s, p, k);
  }

  // ----- letters without case, and decimal numbers

  function Lower(c: char): char {
    if 'A' <= c <= 'Z' then c - 'A' + 'a' else c
  }

  /** The text continues with the word at the position, upper and lower case being the same. */
  predicate AtIgnoringCase(s: string, p: nat, word: string) {
    p + |word| <= |s| && forall i :: 0 <= i < |word| ==> Lower(s[p + i]) == Lower(word[i])
  }

  const CAPITALS: string := "ABCDEFGHIJKLMNOPQRSTUVWXYZ"
  const SMALL_LETTERS: string := "abcdefghijklmnopqrstuvwxyz"

  predicate ArePair(a: char, b: char, i: nat)
    requires i < 26
  {
    (a == CAPITALS[i] && b == SMALL_LETTERS[i]) || (a == SMALL_LETTERS[i] && b == CAPITALS[i])
  }

  /** The same character, or the same letter of the two alphabets. */
  predicate SameLetter(a: char, b: char) {
    || a == b
    || exists i :: 0 <= i < 26 && ArePair(a, b, i)
  }

  predicate SameLetters(s: string, t: string) {
    |s| == |t| && forall i :: 0 <= i < |s| ==> SameLetter(s[i], t[i])
  }

  lemma AlphabetsAre(i: nat)
    requires i < 26
    ensures CAPITALS[i] == 'A' + i as char && SMALL_LETTERS[i] == 'a' + i as char
  {
  }

  lemma LowerOfPair(a: char, b: char, i: nat)
    requires i < 26 && ArePair(a, b, i)
    ensures Lower(a) == Lower(b)
  {
    AlphabetsAre(i);
  }

  lemma PairOfLower(a: char, b: char) returns (i: nat)
    requires Lower(a) == Lower(b) && a != b
    ensures i < 26 && ArePair(a, b, i)
  {
    i := if 'A' <= a <= 'Z' then a as int - 'A' as int else b as int - 'A' as int;
    AlphabetsAre(i);
  }

  lemma LowerIs(a: char, b: char)
    ensures Lower(a) == Lower(b) <==> SameLetter(a, b)
  {
    hide Lower, ArePair;
    if a != b {
      if SameLetter(a, b) {
        var i :| 0 <= i < 26 && ArePair(a, b, i);
        LowerOfPair(a, b, i);
      }
      if Lower(a) == Lower(b) {
        var i := PairOfLower(a, b);
      }
    }
  }

  /** Words are compared letter by letter, and only the twenty-six letters have two cases. */
  lemma AtIgnoringCaseIff(s: string, p: nat, word: string)
    ensures AtIgnoringCase(s, p, word) <==> p + |word| <= |s| && SameLetters(s[p..p + |word|], word)
  {
    hide Lower, SameLetter;
    if p + |word| <= |s| {
      forall i | 0 <= i < |word|
        ensures Lower(s[p + i]) == Lower(word[i]) <==> SameLetter(s[p + i], word[i])
      {
        LowerIs(s[p + i], word[i]);
      }
    }
  }

  lemma FirstLetterDiffers(a: string, word: string)
    requires a != [] && word != [] && Lower(a[0]) != Lower(word[0])
    ensures !AtIgnoringCase(a, 0, word)
  {
    assert Lower(a[0 + 0]) != Lower(word[0]);
  }

  predicate IsDigit(c: char) {
    '0' <= c <= '9'
  }

  function DigitValue(c: char): (d: nat)
    requires IsDigit(c)
    ensures d < 10
  {
    c as nat - '0' as nat
  }

  function DigitChar(d: nat): (c: char)
    requires d < 10
    ensures IsDigit(c) && DigitValue(c) == d
  {
    '0' + d as char
  }

  function Decimal(n: nat): (s: string)
    ensures s != [] && forall i :: 0 <= i < |s| ==> IsDigit(s[i])
  {
    if n < 10 then [DigitChar(n)] else Decimal(n / 10) + [DigitChar(n % 10)]
  }

  function SignedDecimal(n: int): string {
    if n < 0 then "-" + Decimal(-n) else Decimal(n)
  }
}
