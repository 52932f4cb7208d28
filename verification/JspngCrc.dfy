/** The table-driven CRC-32 (jspng/crc.js:3-34) against the register that shifts one bit at a
    time.  JavaScript's signed 32-bit results are read as the words with the same bits. */
module JspngCrc {
  import opened Words

  const POLYNOMIAL: Word := 0xedb88320

  // ---- exclusive or ----

  lemma {:induction false} BitsSymmetric(n: nat, x: nat, y: nat)
    requires x < Pow2(n) && y < Pow2(n)
    ensures XorBits(n, x, y) == XorBits(n, y, x)
    ensures XorBits(n, x, 0) == x && XorBits(n, x, x) == 0
  {
    if n > 0 { BitsSymmetric(n - 1, x / 2, y / 2); }
  }

  lemma BitOf(n: nat, x: nat, y: nat)
    requires n > 0 && x < Pow2(n) && y < Pow2(n)
    ensures XorBits(n, x, y) / 2 == XorBits(n - 1, x / 2, y / 2)
    ensures XorBits(n, x, y) % 2 == if x % 2 != y % 2 then 1 else 0
  {
  }

  lemma {:induction false} BitsAssociative(n: nat, x: nat, y: nat, z: nat)
    requires x < Pow2(n) && y < Pow2(n) && z < Pow2(n)
    ensures XorBits(n, XorBits(n, x, y), z) == XorBits(n, x, XorBits(n, y, z))
  {
    if n > 0 {
      BitsAssociative(n - 1, x / 2, y / 2, z / 2);
      var xy, yz := XorBits(n, x, y), XorBits(n, y, z);
      BitOf(n, x, y);
      BitOf(n, y, z);
      BitOf(n, xy, z);
      BitOf(n, x, yz);
    }
  }

  lemma XorLaws(x: Word, y: Word, z: Word)
    ensures Xor(x, y) == Xor(y, x)
    ensures Xor(Xor(x, y), z) == Xor(x, Xor(y, z))
    ensures Xor(x, 0) == x && Xor(x, x) == 0
  {
    Pow32();
    BitsSymmetric(32, x, y);
    BitsAssociative(32, x, y, z);
  }

  lemma {:induction false} WiderBits(n: nat, x: nat, y: nat)
    requires x < Pow2(n) && y < Pow2(n)
    ensures XorBits(n + 1, x, y) == XorBits(n, x, y)
  {
    if n > 0 { WiderBits(n - 1, x / 2, y / 2); }
  }

  lemma XorHalf(x: Word, y: Word)
    ensures Xor(x, y) % 2 == (if x % 2 != y % 2 then 1 else 0) && Xor(x, y) / 2 == Xor(x / 2, y / 2)
  {
    Pow32();
    WiderBits(31, x / 2, y / 2);
  }

  /** The laws again, for three particular words in the orders that are needed below. */
  lemma Regroup(p: Word, a: Word, b: Word)
    ensures Xor(p, Xor(a, b)) == Xor(Xor(p, a), b)
    ensures Xor(p, Xor(a, b)) == Xor(a, Xor(p, b))
    ensures Xor(a, b) == Xor(Xor(p, a), Xor(p, b))
  {
    XorLaws(p, a, b);
    XorLaws(a, p, b);
    XorLaws(p, a, Xor(p, b));
    XorLaws(p, p, Xor(a, b));
    XorLaws(a, b, 0);
    XorLaws(Xor(a, b), 0, 0);
    XorLaws(p, Xor(a, b), 0);
    XorLaws(0, Xor(a, b), 0);
  }

  // ---- the shift register ----

  /** One clock of the register. */
  function Shift(c: Word): Word {
    if c % 2 == 1 then Xor(POLYNOMIAL, c / 2) else c / 2
  }

  function Shifts(c: Word, n: nat): Word
    decreases n, c
  {
    if n == 0 then c else Shifts(Shift(c), n - 1)
  }

  /** The low `n` bits of `b` go through the register one at a time, lowest first: a bit that
      differs from the one shifted out makes the polynomial count. */
  function FeedBits(c: Word, b: Word, n: nat): Word
    decreases n, c, b
  {
    if n == 0 then c
    else FeedBits(if c % 2 != b % 2 then Xor(POLYNOMIAL, c / 2) else c / 2, b / 2, n - 1)
  }

  /** The register after a text, from a given start. */
  function Register(c: Word, text: seq<Byte>): Word {
    if text == [] then c else FeedBits(Register(c, text[..|text| - 1]), text[|text| - 1], 8)
  }

  /** CRC-32, bit at a time. */
  function Crc(text: seq<Byte>): Word {
    Not(Register(0xffffffff, text))
  }

  /** The register is linear. */
  lemma ShiftLinear(x: Word, y: Word)
    ensures Shift(Xor(x, y)) == Xor(Shift(x), Shift(y))
  {
    XorHalf(x, y);
    Regroup(POLYNOMIAL, x / 2, y / 2);
  }

  lemma {:induction false} ShiftsLinear(x: Word, y: Word, n: nat)
    ensures Shifts(Xor(x, y), n) == Xor(Shifts(x, n), Shifts(y, n))
    decreases n
  {
    if n > 0 {
      ShiftLinear(x, y);
      ShiftsLinear(Shift(x), Shift(y), n - 1);
    }
  }

  // ---- a whole octet at once ----

  /** One clock of the register that is fed bits. */
  function FedBit(c: Word, b: Word): Word {
    if c % 2 != b % 2 then Xor(POLYNOMIAL, c / 2) else c / 2
  }

  lemma FedBitIsShift(c: Word, b: Word)
    ensures Shift(Xor(c, b)) == Xor(FedBit(c, b), b / 2)
  {
    XorHalf(c, b);
    Regroup(POLYNOMIAL, c / 2, b / 2);
  }

  /** Bit at a time and octet at a time: the octet's bits may be added first. */
  lemma {:induction false} FeedIsShift(c: Word, b: Word, n: nat)
    requires b < Pow2(n)
    ensures FeedBits(c, b, n) == Shifts(Xor(c, b), n)
    decreases n
  {
    if n == 0 {
      XorLaws(c, 0, 0);
    } else {
      FedBitIsShift(c, b);
      FeedIsShift(FedBit(c, b), b / 2, n - 1);
    }
  }

  lemma {:induction false} ShiftsOut(c: Word, h: Word, n: nat)
    requires c == h * Pow2(n)
    ensures Shifts(c, n) == h
    decreases n
  {
    if n > 0 {
      HalfProduct(c, h, Pow2(n - 1));
      ShiftsOut(c / 2, h, n - 1);
    }
  }

  /** A word is its upper part plus its low octet, without carry. */
  lemma {:induction false} PartsXor(n: nat, h: nat, l: nat, k: nat)
    requires k <= n && h * Pow2(k) + l < Pow2(n) && l < Pow2(k)
    ensures 0 <= h * Pow2(k) < Pow2(n) && l < Pow2(n)
    ensures XorBits(n, h * Pow2(k), l) == h * Pow2(k) + l
  {
    Products(h, 0, Pow2(k));
    if k == 0 {
      assert h * Pow2(0) == h;
      BitsSymmetric(n, h, 0);
    } else {
      var p := h * Pow2(k - 1);
      HalfProduct(h * Pow2(k), h, Pow2(k - 1));
      PartsXor(n - 1, h, l / 2, k - 1);
    }
  }

  lemma JoinParts(h: nat, l: Byte)
    requires h * 256 + l < WORD_SIZE
    ensures Xor(h * 256, l) == h * 256 + l
  {
    Pow32();
    OctetPowers();
    PartsXor(32, h, l, 8);
  }

  /** Eight clocks at once: look the low octet up and shift the rest. */
  lemma OctetStep(c: Word)
    ensures Shifts(c, 8) == Xor(Shifts(c % 256, 8), c / 256)
  {
    JoinParts(c / 256, c % 256);
    OctetPowers();
    ManySteps(c, c / 256, c % 256, 8);
  }

  lemma ManySteps(c: Word, h: Word, l: Word, n: nat)
    requires 0 <= h * Pow2(n) < WORD_SIZE && c == Xor(h * Pow2(n), l)
    ensures Shifts(c, n) == Xor(Shifts(l, n), h)
  {
    ShiftsLinear(h * Pow2(n), l, n);
    ShiftsOut(h * Pow2(n), h, n);
    XorLaws(h, Shifts(l, n), 0);
  }

  lemma {:induction false} WidenBits(n: nat, m: nat, x: nat, y: nat)
    requires n <= m && x < Pow2(n) && y < Pow2(n)
    ensures x < Pow2(m) && y < Pow2(m) && XorBits(m, x, y) == XorBits(n, x, y)
    decreases m - n
  {
    if n < m {
      WiderBits(n, x, y);
      WidenBits(n + 1, m, x, y);
    }
  }

  lemma OctetsXor(l: Byte, b: Byte)
    ensures Xor(l, b) < 256
  {
    OctetPowers();
    WidenBits(8, 32, l, b);
  }

  /** Adding an octet leaves the upper part alone. */
  lemma UpperPartStays(c: Word, b: Byte)
    ensures Xor(c, b) / 256 == c / 256
  {
    var h, l := c / 256, c % 256;
    OctetsXor(l, b);
    JoinParts(h, l);
    JoinParts(h, Xor(l, b));
    XorLaws(h * 256, l, b);
  }

  lemma {:induction false} MaskLow(x: nat, h: nat, l: nat, m: nat, n: nat)
    requires x == h * Pow2(n) + l && l < Pow2(n) && m == Pow2(n) - 1
    ensures And(x, m) == l
  {
    if n > 0 {
      var y := h * Pow2(n);
      HalfProduct(y, h, Pow2(n - 1));
      assert x / 2 == y / 2 + l / 2 && x % 2 == l % 2;
      MaskLow(x / 2, h, l / 2, m / 2, n - 1);
      AndBit(x, m);
    }
  }

  lemma LowOctet(x: Word)
    ensures And(x, 0xff) == x % 256
  {
    OctetPowers();
    MaskLow(x, x / 256, x % 256, 0xff, 8);
  }

  // ---- the source ----

  class CRC {
    const table: array<Word>

    ghost predicate Valid()
      reads table
    {
      table.Length == 256 && forall n :: 0 <= n < 256 ==> table[n] == Shifts(n, 8)
    }

    constructor ()
      ensures Valid()
    {
      table := new Word[256];
      new;
      for n := 0 to 256
        invariant forall i :: 0 <= i < n ==> table[i] == Shifts(i, 8)
      {
        table[n] := Entry(n);
      }
    }

    /** The inner loop, for one table entry. */
    static method Entry(n: Byte) returns (c: Word)
      ensures c == Shifts(n, 8)
    {
      c := n;
      for k := 0 to 8
        invariant Shifts(c, 8 - k) == Shifts(n, 8)
      {
        if c % 2 == 1 {
          c := Xor(0xedb88320, c / 2);
        } else {
          c := c / 2;
        }
      }
    }

    method UpdateCrc(buf: seq<Byte>) returns (c: Word)
      requires Valid()
      ensures c == Register(0xffffffff, buf)
    {
      c := 0xffffffff;
      for n := 0 to |buf|
        invariant c == Register(0xffffffff, buf[..n])
      {
        assert buf[..n + 1][..n] == buf[..n];
        c := NextCrc(c, buf[n]);
      }
      assert buf[..|buf|] == buf;
    }

    /** `table[(c ^ buf[n]) & 0xff] ^ (c >>> 8)`. */
    method NextCrc(c: Word, b: Byte) returns (next: Word)
      requires Valid()
      ensures next == FeedBits(c, b, 8)
    {
      var d := Xor(c, b);
      OctetPowers();
      FeedIsShift(c, b, 8);
      OctetStep(d);
      LowOctet(d);
      UpperPartStays(c, b);
      next := Xor(table[And(d, 0xff)], c / 256);
    }

    method Compute(buf: seq<Byte>) returns (crc: Word)
      requires Valid()
      ensures crc == Crc(buf)
    {
      var c := UpdateCrc(buf);
      XorOnes(c);
      crc := Xor(c, 0xffffffff);
    }
  }

  lemma {:induction false} OnesComplement(x: nat, ones: nat, n: nat)
    requires x < Pow2(n) && ones == Pow2(n) - 1
    ensures XorBits(n, x, ones) == ones - x
  {
    if n > 0 { OnesComplement(x / 2, ones / 2, n - 1); }
  }

  lemma XorOnes(x: Word)
    ensures Xor(x, 0xffffffff) == Not(x)
  {
    Pow32();
    OnesComplement(x, 0xffffffff, 32);
  }
}
