/** What the CRC is: the remainder of a division of polynomials over two elements, as the PNG
    specification defines it, with the first 32 bits of the text and the remainder complemented. */
module CrcRemainder {
  import opened Words
  import opened WordBits
  import opened JspngCrc

  /** The bits of a text in the order in which they are sent: of each octet the lowest first. */
  function BitsOf(b: Word, n: nat): (bits: seq<bool>)
    ensures |bits| == n
    decreases n, b
  {
    if n == 0 then [] else [b % 2 == 1] + BitsOf(b / 2, n - 1)
  }

  function TextBits(text: seq<Byte>): (bits: seq<bool>)
    ensures |bits| == 8 * |text|
  {
    if text == [] then [] else TextBits(text[..|text| - 1]) + BitsOf(text[|text| - 1], 8)
  }

  /** The exponents of the divisor
      x^32 + x^26 + x^23 + x^22 + x^16 + x^12 + x^11 + x^10 + x^8 + x^7 + x^5 + x^4 + x^2 + x + 1. */
  const DIVISOR := {32, 26, 23, 22, 16, 12, 11, 10, 8, 7, 5, 4, 2, 1, 0}

  /** The coefficient of x^d in the product of the divisor and the polynomial whose coefficients are
      `q`, the highest first. */
  function Product(q: seq<bool>, d: nat): bool
    decreases |q|
  {
    q != [] && ((d > 0 && Product(q[..|q| - 1], d - 1)) != (q[|q| - 1] && d in DIVISOR))
  }

  /** The coefficient of x^d in the dividend: the text times x^32, with the 32 highest coefficients
      complemented, for a text of any length. */
  function Dividend(bits: seq<bool>, d: nat): bool
    decreases |bits|
  {
    if bits == [] then d < 32
    else (d > 0 && Dividend(bits[..|bits| - 1], d - 1)) != (bits[|bits| - 1] && d == 32)
  }

  /** The coefficient of x^d that a register holds: its lowest bit is that of x^31. */
  function Held(c: Word, d: nat): bool {
    d < 32 && Bit(c, 31 - d)
  }

  /** The bits of a number put together from a high and a low part. */
  lemma {:induction false} JoinedBits(low: nat, high: nat, x: nat, n: nat, i: nat)
    requires low < Pow2(n) && x == high * Pow2(n) + low
    ensures Bit(x, i) == if i < n then Bit(low, i) else Bit(high, i - n)
    decreases n
  {
    if n > 0 {
      HalfOfJoined(low, high, x, Pow2(n - 1));
      if i > 0 { JoinedBits(low / 2, high, x / 2, n - 1, i - 1); }
    }
  }

  lemma HalfOfJoined(low: nat, high: nat, x: nat, p: nat)
    requires x == high * (2 * p) + low
    ensures x % 2 == low % 2 && x / 2 == high * p + low / 2
  {
    TwiceProduct(high, p);
  }

  lemma Octet20(i: nat)
    requires i < 8
    ensures Bit(0x20, i) <==> i in {5}
  {
    assert !Bit(0x20, 0) && !Bit(0x20, 1) && !Bit(0x20, 2) && !Bit(0x20, 3) && !Bit(0x20, 4) && Bit(0x20, 5) && !Bit(0x20, 6) && !Bit(0x20, 7);
  }

  lemma Octet83(i: nat)
    requires i < 8
    ensures Bit(0x83, i) <==> i in {0, 1, 7}
  {
    assert Bit(0x83, 0) && Bit(0x83, 1) && !Bit(0x83, 2) && !Bit(0x83, 3) && !Bit(0x83, 4) && !Bit(0x83, 5) && !Bit(0x83, 6) && Bit(0x83, 7);
  }

  lemma OctetB8(i: nat)
    requires i < 8
    ensures Bit(0xb8, i) <==> i in {3, 4, 5, 7}
  {
    assert !Bit(0xb8, 0) && !Bit(0xb8, 1) && !Bit(0xb8, 2) && Bit(0xb8, 3) && Bit(0xb8, 4) && Bit(0xb8, 5) && !Bit(0xb8, 6) && Bit(0xb8, 7);
  }

  lemma OctetED(i: nat)
    requires i < 8
    ensures Bit(0xed, i) <==> i in {0, 2, 3, 5, 6, 7}
  {
    assert Bit(0xed, 0) && !Bit(0xed, 1) && Bit(0xed, 2) && Bit(0xed, 3) && !Bit(0xed, 4) && Bit(0xed, 5) && Bit(0xed, 6) && Bit(0xed, 7);
  }

  /** The polynomial word holds the divisor without its highest term. */
  lemma PolynomialIsDivisor(d: nat)
    requires d < 32
    ensures Held(POLYNOMIAL, d) <==> d in DIVISOR
  {
    var i := 31 - d;
    OctetPowers();
    JoinedBits(0x20, 0xedb883, POLYNOMIAL, 8, i);
    if i < 8 {
      Octet20(i);
    } else {
      JoinedBits(0x83, 0xedb8, 0xedb883, 8, i - 8);
      if i < 16 { Octet83(i - 8); } else { UpperPolynomialBits(i - 16); }
    }
  }

  lemma UpperPolynomialBits(i: nat)
    requires i < 16
    ensures Bit(0xedb8, i) <==> 15 - i in DIVISOR
  {
    OctetPowers();
    JoinedBits(0xb8, 0xed, 0xedb8, 8, i);
    if i < 8 { OctetB8(i); } else { OctetED(i - 8); }
  }

  // ---- one bit ----

  /** The register after one more bit. */
  function OneBit(c: Word, b: bool): Word {
    if (c % 2 == 1) != b then Xor(POLYNOMIAL, c / 2) else c / 2
  }

  lemma OneBitHolds(c: Word, b: bool, d: nat)
    ensures var t := Held(c, 31) != b;
            Held(OneBit(c, b), d) <==> d < 32 && (d > 0 && Held(c, d - 1)) != (t && d in DIVISOR)
  {
    if d < 32 {
      PolynomialIsDivisor(d);
      HalfHolds(c, d);
      XorBit(POLYNOMIAL, c / 2, 31 - d);
    }
  }

  lemma HalfHolds(c: Word, d: nat)
    requires d < 32
    ensures Held(c / 2, d) <==> d > 0 && Held(c, d - 1)
  {
    if d == 0 {
      Pow32();
      assert Pow2(32) == 2 * Pow2(31);
      TopBit(c / 2, 31);
    }
  }

  /** `q` is a quotient of the text so far, and the register its remainder. */
  ghost predicate Divides(bits: seq<bool>, q: seq<bool>, c: Word) {
    |q| == |bits| && forall d: nat :: Dividend(bits, d) <==> (Product(q, d) != Held(c, d))
  }

  lemma OneBitDivides(bits: seq<bool>, q: seq<bool>, c: Word, b: bool)
    requires Divides(bits, q, c)
    ensures Divides(bits + [b], q + [Held(c, 31) != b], OneBit(c, b))
  {
    var t := Held(c, 31) != b;
    var bits', q', c' := bits + [b], q + [t], OneBit(c, b);
    assert bits'[..|bits|] == bits && q'[..|q|] == q;
    forall d: nat
      ensures Dividend(bits', d) <==> (Product(q', d) != Held(c', d))
    {
      OneBitHolds(c, b, d);
      assert d > 0 ==> (Dividend(bits, d - 1) <==> (Product(q, d - 1) != Held(c, d - 1)));
    }
  }

  // ---- octets and texts ----

  lemma {:induction false} OctetDivides(bits: seq<bool>, q: seq<bool>, c: Word, b: Word, n: nat) returns (q': seq<bool>)
    requires Divides(bits, q, c)
    ensures Divides(bits + BitsOf(b, n), q', FeedBits(c, b, n))
    decreases n
  {
    if n == 0 {
      q' := q;
      assert bits + [] == bits;
    } else {
      var q1 := LowestBitDivides(bits, q, c, b);
      q' := OctetDivides(bits + [b % 2 == 1], q1, OneBit(c, b % 2 == 1), b / 2, n - 1);
      OneBitFirst(bits, q', c, b, n);
    }
  }

  lemma LowestBitDivides(bits: seq<bool>, q: seq<bool>, c: Word, b: Word) returns (q1: seq<bool>)
    requires Divides(bits, q, c)
    ensures Divides(bits + [b % 2 == 1], q1, OneBit(c, b % 2 == 1))
  {
    q1 := q + [Held(c, 31) != (b % 2 == 1)];
    OneBitDivides(bits, q, c, b % 2 == 1);
  }

  lemma OneBitFirst(bits: seq<bool>, q: seq<bool>, c: Word, b: Word, n: nat)
    requires n > 0
    requires Divides(bits + [b % 2 == 1] + BitsOf(b / 2, n - 1), q, FeedBits(OneBit(c, b % 2 == 1), b / 2, n - 1))
    ensures Divides(bits + BitsOf(b, n), q, FeedBits(c, b, n))
  {
    NextBit(bits, b % 2 == 1, BitsOf(b / 2, n - 1));
    FeedsOneBit(c, b, n);
  }

  lemma NextBit(bits: seq<bool>, first: bool, rest: seq<bool>)
    ensures bits + ([first] + rest) == bits + [first] + rest
  {
  }

  lemma FeedsOneBit(c: Word, b: Word, n: nat)
    requires n > 0
    ensures FeedBits(c, b, n) == FeedBits(OneBit(c, b % 2 == 1), b / 2, n - 1)
  {
  }

  lemma StartDivides()
    ensures Divides([], [], 0xffffffff)
  {
    forall d: nat ensures Held(0xffffffff, d) <==> d < 32 {
      if d < 32 {
        NotBits(0, 31 - d);
        ZeroBits(31 - d);
      }
    }
  }

  lemma {:induction false} ZeroBits(i: nat)
    ensures !Bit(0, i)
  {
    if i > 0 { ZeroBits(i - 1); }
  }

  lemma {:induction false} TextDivides(text: seq<Byte>) returns (q: seq<bool>)
    ensures Divides(TextBits(text), q, Register(0xffffffff, text))
  {
    if text == [] {
      StartDivides();
      q := [];
    } else {
      var front, last := text[..|text| - 1], text[|text| - 1];
      var q1 := TextDivides(front);
      q := OctetDivides(TextBits(front), q1, Register(0xffffffff, front), last, 8);
    }
  }

  /** For every text, the complement of its CRC is the remainder of the dividend by the divisor: it has
      no coefficient from x^32 on, and the dividend is the divisor times some quotient plus it. */
  lemma CrcIsRemainder(text: seq<Byte>) returns (q: seq<bool>)
    ensures |q| == 8 * |text|
    ensures forall d: nat :: Dividend(TextBits(text), d) <==> (Product(q, d) != (d < 32 && !Bit(Crc(text), 31 - d)))
  {
    q := TextDivides(text);
    var c := Register(0xffffffff, text);
    forall d: nat
      ensures Dividend(TextBits(text), d) <==> (Product(q, d) != (d < 32 && !Bit(Crc(text), 31 - d)))
    {
      if d < 32 { NotBits(c, 31 - d); }
    }
  }
}
