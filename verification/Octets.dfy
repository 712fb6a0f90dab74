/** Bytes as the frame codec of src/websocket.c uses them: their bits, and numbers in network byte order. */
module Octets {

  type byte = x: int | 0 <= x < 256

  const TWO_TO_THE_64: nat := 0x1_0000_0000_0000_0000

  // ----- bits

  /** The bit with the value 2^k. */
  predicate Bit(n: nat, k: nat)
    decreases k
  {
    if k == 0 then n % 2 == 1 else Bit(n / 2, k - 1)
  }

  /** The bit 0x80. */
  predicate HighBit(b: byte) {
    b >= 0x80
  }

  /** The bits 0x7F. */
  function LowBits(b: byte): (r: byte)
    ensures r < 0x80
  {
    b % 0x80
  }

  /** The exclusive or of the lowest bits of two numbers. */
  function XorBits(a: nat, b: nat, width: nat): (r: nat)
    decreases width
  {
    if width == 0 then 0
    else (if a % 2 == b % 2 then 0 else 1) + 2 * XorBits(a / 2, b / 2, width - 1)
  }

  function Pow2(e: nat): (p: nat)
    ensures p > 0
  {
    if e == 0 then 1 else 2 * Pow2(e - 1)
  }

  lemma {:induction false} XorBitsFit(a: nat, b: nat, width: nat)
    ensures XorBits(a, b, width) < Pow2(width)
    decreases width
  {
    if width > 0 {
      XorBitsFit(a / 2, b / 2, width - 1);
    }
  }

  lemma {:induction false} XorBitsTwice(a: nat, k: nat, width: nat)
    requires a < Pow2(width)
    ensures XorBits(XorBits(a, k, width), k, width) == a
    decreases width
  {
    if width > 0 {
      XorBitsTwice(a / 2, k / 2, width - 1);
    }
  }

  lemma HalfOf(bit: nat, rest: nat)
    requires bit < 2
    ensures (bit + 2 * rest) / 2 == rest && (bit + 2 * rest) % 2 == bit
  {
  }

  lemma {:induction false} XorBitsAre(a: nat, b: nat, width: nat, k: nat)
    requires k < width
    ensures Bit(XorBits(a, b, width), k) <==> Bit(a, k) != Bit(b, k)
    decreases width
  {
    HalfOf(if a % 2 == b % 2 then 0 else 1, XorBits(a / 2, b / 2, width - 1));
    if k > 0 {
      XorBitsAre(a / 2, b / 2, width - 1, k - 1);
    }
  }

  lemma {:induction false} SameBits(a: nat, b: nat, width: nat)
    requires a < Pow2(width) && b < Pow2(width) && forall k :: 0 <= k < width ==> (Bit(a, k) <==> Bit(b, k))
    ensures a == b
    decreases width
  {
    if width > 0 {
      assert Bit(a, 0) <==> Bit(b, 0);
      forall k | 0 <= k < width - 1
        ensures Bit(a / 2, k) <==> Bit(b / 2, k)
      {
        assert Bit(a, k + 1) <==> Bit(b, k + 1);
      }
      SameBits(a / 2, b / 2, width - 1);
    }
  }

  function Xor(a: byte, b: byte): (r: byte) {
    XorBitsFit(a, b, 8);
    assert Pow2(8) == 256 by {
      assert Pow2(4) == 16;
    }
    XorBits(a, b, 8)
  }

  lemma XorTwice(x: byte, k: byte)
    ensures Xor(Xor(x, k), k) == x
  {
    assert Pow2(8) == 256 by {
      assert Pow2(4) == 16;
    }
    XorBitsTwice(x, k, 8);
  }

  /** The eight bits are those of the exclusive or of two bytes. */
  predicate AreXor(x: byte, a: byte, b: byte) {
    forall k :: 0 <= k < 8 ==> (Bit(x, k) <==> Bit(a, k) != Bit(b, k))
  }

  /** A bit of the exclusive or is set exactly when the two bits differ, and no other byte has those bits. */
  lemma XorIs(x: byte, a: byte, b: byte)
    ensures x == Xor(a, b) <==> AreXor(x, a, b)
  {
    var r := Xor(a, b);
    forall k | 0 <= k < 8
      ensures Bit(r, k) <==> Bit(a, k) != Bit(b, k)
    {
      XorBit(a, b, k);
    }
    if AreXor(x, a, b) {
      EightBits();
      hide Pow2, Xor, Bit;
      SameBits(x, r, 8);
    }
  }

  lemma XorBit(a: byte, b: byte, k: nat)
    requires k < 8
    ensures Bit(Xor(a, b), k) <==> Bit(a, k) != Bit(b, k)
  {
    XorBitsAre(a, b, 8, k);
  }

  lemma EightBits()
    ensures Pow2(8) == 256
  {
    assert Pow2(4) == 16;
  }

  /** Seven bits of a byte are the number left, and the eighth says whether it is at least 128. */
  lemma ByteBits(b: byte)
    ensures HighBit(b) <==> Bit(b, 7)
    ensures forall k :: 0 <= k < 8 ==> (Bit(LowBits(b), k) <==> k < 7 && Bit(b, k))
    ensures forall k :: 0 <= k < 8 ==> (Bit(b % 16, k) <==> k < 4 && Bit(b, k))
  {
    forall k | 0 <= k < 8
      ensures Bit(LowBits(b), k) <==> k < 7 && Bit(b, k)
      ensures Bit(b % 16, k) <==> k < 4 && Bit(b, k)
    {
      RemainderBits(b, 7, k);
      RemainderBits(b, 4, k);
      assert Pow2(7) == 128 && Pow2(4) == 16 by {
        assert Pow2(3) == 8;
      }
    }
    TopBit(b, 8);
    EightBits();
  }

  lemma {:induction false} RemainderBits(n: nat, width: nat, k: nat)
    ensures Bit(n % Pow2(width), k) <==> k < width && Bit(n, k)
    decreases width
  {
    if width == 0 {
      ZeroBits(k);
    } else {
      var m := Pow2(width - 1);
      assert n % (2 * m) == 2 * (n / 2 % m) + n % 2 by {
        HalfRemainder(n, m);
      }
      if k > 0 {
        RemainderBits(n / 2, width - 1, k - 1);
      }
    }
  }

  lemma HalfRemainder(n: nat, m: nat)
    requires m > 0
    ensures n % (2 * m) == 2 * (n / 2 % m) + n % 2
  {
    var q, r := n / 2 / m, n / 2 % m;
    assert n / 2 == q * m + r;
    assert n == q * (2 * m) + (2 * r + n % 2);
    RemainderIs(n, 2 * m, q, 2 * r + n % 2);
  }

  lemma RemainderIs(n: nat, m: nat, q: nat, r: nat)
    requires m > 0 && n == q * m + r && r < m
    ensures n % m == r
  {
    var q', r' := n / m, n % m;
    assert n == q' * m + r';
    if q' > q {
      MultiplesApart(q, q', m);
      assert false;
    } else if q' < q {
      MultiplesApart(q', q, m);
      assert false;
    }
  }

  lemma MultiplesApart(a: nat, b: nat, m: nat)
    requires a < b
    ensures a * m + m <= b * m
  {
    assert b * m == (a + 1) * m + (b - a - 1) * m;
  }

  lemma {:induction false} ZeroBits(k: nat)
    ensures !Bit(0, k)
    decreases k
  {
    if k > 0 {
      ZeroBits(k - 1);
    }
  }

  lemma {:induction false} TopBit(n: nat, width: nat)
    requires width > 0 && n < Pow2(width)
    ensures Bit(n, width - 1) <==> n >= Pow2(width - 1)
    decreases width
  {
    if width > 1 {
      TopBit(n / 2, width - 1);
    }
  }

  // ----- numbers in network byte order

  function FromBigEndian(s: seq<byte>): nat {
    if s == [] then 0 else FromBigEndian(s[..|s| - 1]) * 256 + s[|s| - 1]
  }

  function ToBigEndian(n: nat, width: nat): (s: seq<byte>)
    ensures |s| == width
  {
    if width == 0 then [] else ToBigEndian(n / 256, width - 1) + [n % 256]
  }

  function Pow256(e: nat): (p: nat)
    ensures p > 0
  {
    if e == 0 then 1 else 256 * Pow256(e - 1)
  }

  lemma {:induction false} BigEndianRoundTrip(n: nat, width: nat)
    requires n < Pow256(width)
    ensures FromBigEndian(ToBigEndian(n, width)) == n
  {
    if width > 0 {
      BigEndianRoundTrip(n / 256, width - 1);
      var s := ToBigEndian(n, width);
      assert s[..|s| - 1] == ToBigEndian(n / 256, width - 1);
    }
  }

  lemma {:induction false} FromBigEndianFits(s: seq<byte>)
    ensures FromBigEndian(s) < Pow256(|s|)
  {
    if s != [] {
      FromBigEndianFits(s[..|s| - 1]);
    }
  }

  lemma FromTwoBytes(hi: byte, lo: byte)
    ensures FromBigEndian([hi, lo]) == hi * 256 + lo
  {
    assert [hi, lo][..1] == [hi];
    assert [hi][..0] == [];
    assert FromBigEndian([hi]) == FromBigEndian([]) * 256 + hi;
  }

  /** The unsigned shift right by whole bytes. */
  function ShiftRight(n: nat, bytes: nat): nat
    decreases bytes
  {
    if bytes == 0 then n else ShiftRight(n / 256, bytes - 1)
  }

  lemma {:induction false} ToBigEndianAt(n: nat, width: nat, i: nat)
    requires i < width
    ensures ToBigEndian(n, width)[i] == ShiftRight(n, width - 1 - i) % 256
  {
    if i < width - 1 {
      ToBigEndianAt(n / 256, width - 1, i);
    }
  }
}
