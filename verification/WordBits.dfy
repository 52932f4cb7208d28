/** What the operations on words do to each bit. */
module WordBits {
  import opened Words

  /** Bit `i` of a number, counted from the lowest. */
  function Bit(x: nat, i: nat): bool
    decreases i
  {
    if i == 0 then x % 2 == 1 else Bit(x / 2, i - 1)
  }

  lemma {:induction false} AndBits(x: nat, y: nat, i: nat)
    ensures Bit(And(x, y), i) <==> Bit(x, i) && Bit(y, i)
    decreases i
  {
    AndBit(x, y);
    if i > 0 { AndBits(x / 2, y / 2, i - 1); }
  }

  lemma {:induction false} ComplementBits(x: nat, a: nat, n: nat, i: nat)
    requires a + x == Pow2(n) - 1 && i < n
    ensures Bit(a, i) <==> !Bit(x, i)
    decreases i
  {
    ComplementHalf(x, a, Pow2(n - 1));
    if i > 0 { ComplementBits(x / 2, a / 2, n - 1, i - 1); }
  }

  lemma NotBits(x: Word, i: nat)
    requires i < 32
    ensures Bit(Not(x), i) <==> !Bit(x, i)
  {
    Pow32();
    ComplementBits(x, Not(x), 32, i);
  }

  lemma OrBits(x: Word, y: Word, i: nat)
    requires i < 32
    ensures Bit(Or(x, y), i) <==> Bit(x, i) || Bit(y, i)
  {
    NotBits(x, i);
    NotBits(y, i);
    AndBits(Not(x), Not(y), i);
    NotBits(And(Not(x), Not(y)), i);
  }

  lemma {:induction false} XorBitsBits(n: nat, x: nat, y: nat, i: nat)
    requires x < Pow2(n) && y < Pow2(n) && i < n
    ensures Bit(XorBits(n, x, y), i) <==> Bit(x, i) != Bit(y, i)
    decreases n
  {
    if i > 0 { XorBitsBits(n - 1, x / 2, y / 2, i - 1); }
  }

  lemma XorBit(x: Word, y: Word, i: nat)
    requires i < 32
    ensures Bit(Xor(x, y), i) <==> Bit(x, i) != Bit(y, i)
  {
    Pow32();
    XorBitsBits(32, x, y, i);
  }

  lemma {:induction false} TopBit(x: nat, i: nat)
    requires x < 2 * Pow2(i)
    ensures Bit(x, i) <==> x >= Pow2(i)
    decreases i
  {
    if i > 0 { TopBit(x / 2, i - 1); }
  }

  lemma {:induction false} LowBits(x: nat, n: nat, i: nat)
    requires i < n
    ensures Bit(x % Pow2(n), i) == Bit(x, i)
    decreases i
  {
    HalvedRemainder(x, Pow2(n - 1));
    if i > 0 { LowBits(x / 2, n - 1, i - 1); }
  }

  lemma HalvedRemainder(x: nat, p: nat)
    requires p >= 1
    ensures x % (2 * p) % 2 == x % 2 && x % (2 * p) / 2 == x / 2 % p
  {
    var y := x / 2;
    DivMod(y, p);
    Products(y / p, 0, p);
    Split(y / p, y % p * 2 + x % 2, 2 * p);
    TwiceProduct(y / p, p);
    assert x == y * 2 + x % 2;
  }

  lemma TwiceProduct(a: nat, p: nat)
    ensures a * (2 * p) == 2 * (a * p)
  {
  }

  lemma TopPower()
    ensures Pow2(31) == 0x8000_0000
  {
    Pow32();
  }

  lemma RotateOneHalf(x: Word)
    ensures RotateOne(x) / 2 == x % 0x8000_0000 && (RotateOne(x) % 2 == 1 <==> x >= 0x8000_0000)
  {
  }

  lemma RotateOneBit(x: Word, i: nat)
    requires i < 31
    ensures Bit(RotateOne(x), i + 1) == Bit(x, i)
  {
    TopPower();
    RotateOneHalf(x);
    LowBits(x, 31, i);
  }

  lemma RotateTopBit(x: Word)
    ensures Bit(RotateOne(x), 0) == Bit(x, 31)
  {
    TopPower();
    RotateOneHalf(x);
    TopBit(x, 31);
  }

  /** The place `n` places up from place `i`, around the end of the word. */
  function Up(i: nat, n: nat): (j: nat)
    requires i < 32
    ensures j < 32
  {
    (i + n) % 32
  }

  lemma OneUp(i: nat, n: nat)
    requires i < 32 && n > 0
    ensures Up(i, n) == if Up(i, n - 1) == 31 then 0 else Up(i, n - 1) + 1
  {
  }

  /** Rotation takes bit `i` `n` places up. */
  lemma {:induction false} RotateBit(n: nat, x: Word, i: nat)
    requires i < 32
    ensures Bit(Rotate(n, x), Up(i, n)) == Bit(x, i)
  {
    if n > 0 {
      RotateBit(n - 1, x, i);
      OneUp(i, n);
      RotatePlace(Rotate(n - 1, x), Up(i, n - 1));
    }
  }

  lemma RotatePlace(x: Word, j: nat)
    requires j < 32
    ensures Bit(RotateOne(x), if j == 31 then 0 else j + 1) == Bit(x, j)
  {
    if j == 31 { RotateTopBit(x); } else { RotateOneBit(x, j); }
  }

  /** A number below `2^n` is known by its first `n` bits. */
  lemma {:induction false} SameBits(n: nat, x: nat, y: nat)
    requires x < Pow2(n) && y < Pow2(n) && forall i :: 0 <= i < n ==> Bit(x, i) == Bit(y, i)
    ensures x == y
  {
    if n > 0 {
      forall i | 0 <= i < n - 1 ensures Bit(x / 2, i) == Bit(y / 2, i) {
        assert Bit(x, i + 1) == Bit(y, i + 1);
      }
      assert Bit(x, 0) == Bit(y, 0);
      SameBits(n - 1, x / 2, y / 2);
    }
  }
}
