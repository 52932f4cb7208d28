/** 32-bit words as numbers, with the bit operations spelled out. */
module Words {
  const WORD_SIZE := 0x1_0000_0000

  type Word = x: int | 0 <= x < 0x1_0000_0000
  type Byte = x: int | 0 <= x < 256

  /** Bit by bit. */
  function And(x: nat, y: nat): (r: nat)
    ensures r <= x && r <= y
  {
    if x == 0 || y == 0 then 0
    else (if x % 2 == 1 && y % 2 == 1 then 1 else 0) + 2 * And(x / 2, y / 2)
  }

  function Not(x: Word): Word {
    WORD_SIZE - 1 - x
  }

  function Or(x: Word, y: Word): Word {
    Not(And(Not(x), Not(y)))
  }

  /** Bit by bit, for numbers of `n` bits. */
  function XorBits(n: nat, x: nat, y: nat): (r: nat)
    requires x < Pow2(n) && y < Pow2(n)
    ensures r < Pow2(n)
  {
    if n == 0 then 0 else (if x % 2 != y % 2 then 1 else 0) + 2 * XorBits(n - 1, x / 2, y / 2)
  }

  function Xor(x: Word, y: Word): Word {
    Pow32();
    XorBits(32, x, y)
  }

  /** Unsigned addition wraps. */
  function Plus(x: Word, y: Word): Word {
    if x + y < WORD_SIZE then x + y else x + y - WORD_SIZE
  }

  function Pow2(n: nat): (p: nat)
    ensures p >= 1
  {
    if n == 0 then 1 else 2 * Pow2(n - 1)
  }

  function ShiftLeft(x: Word, n: nat): Word {
    x * Pow2(n) % WORD_SIZE
  }

  function ShiftRight(x: Word, n: nat): Word {
    DivSmaller(x, Pow2(n));
    x / Pow2(n)
  }

  lemma Products(a: int, b: int, d: nat)
    ensures a >= b ==> a * d >= b * d
    ensures (a - b) * d == a * d - b * d
    ensures a * d == d * a
  {
  }

  lemma DivSmaller(x: nat, d: nat)
    requires d >= 1
    ensures 0 <= x / d <= x
  {
    Products(d, 1, x / d);
    Products(x / d, 1, d);
  }

  /** One bit to the left; the top bit comes in at the bottom. */
  function RotateOne(x: Word): Word {
    x % 0x8000_0000 * 2 + x / 0x8000_0000
  }

  /** The circular left shift. */
  function Rotate(n: nat, x: Word): Word {
    if n == 0 then x else RotateOne(Rotate(n - 1, x))
  }

  lemma {:induction false} PowAdd(m: nat, n: nat)
    ensures Pow2(m + n) == Pow2(m) * Pow2(n)
  {
    if m > 0 { PowAdd(m - 1, n); }
  }

  lemma Pow32()
    ensures Pow2(32) == WORD_SIZE
  {
    assert Pow2(4) == 16;
    PowAdd(4, 4);
    PowAdd(8, 8);
    PowAdd(16, 16);
  }

  lemma Split(h: nat, l: nat, d: nat)
    requires l < d
    ensures (h * d + l) / d == h && (h * d + l) % d == l
  {
    var q, r := (h * d + l) / d, (h * d + l) % d;
    Products(q, h, d);
    Products(q - h, 1, d);
    Products(h - q, 1, d);
    Products(h, q, d);
  }

  lemma HalvesFit(h: nat, l: nat, p: nat, q: nat)
    requires h * q + l < p * q && l < q
    ensures h < p && l * p + h < p * q
  {
    Products(h, p, q);
    Products(q, l + 1, p);
    assert (l + 1) * p == l * p + p;
  }

  lemma Distribute(h: nat, l: nat, p: nat, q: nat)
    ensures (h * q + l) * p == h * (p * q) + l * p
  {
    calc {
      (h * q + l) * p;
      h * q * p + l * p;
      h * (q * p) + l * p;
      h * (p * q) + l * p;
    }
  }

  lemma DivMod(x: nat, d: nat)
    requires d >= 1
    ensures x == x / d * d + x % d && 0 <= x % d < d && x / d >= 0
  {
  }

  /** The two halves of a rotation: the word is `h * 2^(32-n) + l`. */
  lemma Halves(n: nat, x: Word) returns (h: nat, l: nat)
    requires n <= 32
    ensures h == x / Pow2(32 - n) && l == x % Pow2(32 - n)
    ensures x == h * Pow2(32 - n) + l && l < Pow2(32 - n) && h < Pow2(n)
    ensures l * Pow2(n) + h < WORD_SIZE && Pow2(n) * Pow2(32 - n) == WORD_SIZE
  {
    var p, q := Pow2(n), Pow2(32 - n);
    PowAdd(n, 32 - n);
    Pow32();
    DivMod(x, q);
    h, l := x / q, x % q;
    HalvesFit(h, l, p, q);
  }

  /** Rotating by `n` exchanges the top `n` bits and the rest. */
  lemma {:induction false} RotateSwapsHalves(n: nat, x: Word)
    requires n <= 32
    ensures Rotate(n, x) == x % Pow2(32 - n) * Pow2(n) + x / Pow2(32 - n)
  {
    if n == 0 {
      Pow32();
    } else {
      var h, l := Halves(n, x);
      RotateSwapsHalves(n - 1, x);
      OneMore(x, h, l, n);
    }
  }

  lemma OneMore(x: Word, h: nat, l: nat, n: nat)
    requires 1 <= n <= 32 && x == h * Pow2(32 - n) + l && l < Pow2(32 - n) && h < Pow2(n)
    requires Pow2(n) * Pow2(32 - n) == WORD_SIZE
    requires Rotate(n - 1, x) == x % Pow2(33 - n) * Pow2(n - 1) + x / Pow2(33 - n)
    ensures Rotate(n, x) == l * Pow2(n) + h
  {
    Powers(n);
    OneMoreBit(x, h, l, Pow2(n - 1), Pow2(32 - n), Rotate(n - 1, x));
  }

  lemma Powers(n: nat)
    requires 1 <= n <= 32
    ensures Pow2(n) == 2 * Pow2(n - 1) && Pow2(33 - n) == 2 * Pow2(32 - n)
  {
  }

  lemma OneMoreBit(x: Word, h: nat, l: nat, p: nat, q: nat, y: Word)
    requires q >= 1 && x == h * q + l && l < q && h < 2 * p && 2 * p * q == WORD_SIZE
    requires y == x % (2 * q) * p + x / (2 * q)
    ensures RotateOne(y) == l * (2 * p) + h
  {
    TakeLowBit(x, h, l, q);
    HalfOf(p, q);
    MoveLowBit(h, l, p, q);
  }

  lemma HalfOf(p: nat, q: nat)
    requires 2 * p * q == WORD_SIZE
    ensures p * q == 0x8000_0000
  {
    assert 2 * p * q == 2 * (p * q);
  }

  /** The low bit of the upper part joins the lower part. */
  lemma TakeLowBit(x: nat, h: nat, l: nat, q: nat)
    requires x == h * q + l && l < q
    ensures x / (2 * q) == h / 2 && x % (2 * q) == h % 2 * q + l
  {
    var top, low := h / 2, h % 2;
    Distribute(top, low, q, 2);
    assert h == top * 2 + low;
    assert x == top * (q * 2) + (low * q + l);
    assert low * q <= q;
    Split(top, low * q + l, 2 * q);
  }

  lemma MoveLowBit(h: nat, l: nat, p: nat, q: nat)
    requires p * q == 0x8000_0000 && h < 2 * p && l < q
    ensures 0 <= (h % 2 * q + l) * p + h / 2 < WORD_SIZE
    ensures RotateOne((h % 2 * q + l) * p + h / 2) == l * (2 * p) + h
  {
    var top, low := h / 2, h % 2;
    Distribute(low, l, p, q);
    Products(q, l + 1, p);
    assert (l + 1) * p == l * p + p;
    Products(l, 0, p);
    assert l * p + top < 0x8000_0000;
    Split(low, l * p + top, 0x8000_0000);
    assert l * (2 * p) == 2 * (l * p);
  }

  /** Rotating on by the rest of the word gives the word back. */
  lemma RotateBack(n: nat, x: Word)
    requires n <= 32
    ensures Rotate(32 - n, Rotate(n, x)) == x
  {
    var h, l := Halves(n, x);
    var y := Rotated(n, x, h, l);
    var m := 32 - n;
    RotateSwapsHalves(m, y);
    assert 32 - m == n;
    Split(l, h, Pow2(n));
  }

  lemma Rotated(n: nat, x: Word, h: nat, l: nat) returns (y: Word)
    requires n <= 32 && h == x / Pow2(32 - n) && l == x % Pow2(32 - n)
    ensures y == Rotate(n, x) == l * Pow2(n) + h
  {
    RotateSwapsHalves(n, x);
    y := Rotate(n, x);
  }

  // ---- bit operations on disjoint bits ----

  lemma {:induction false} AndDisjoint(x: nat, h: nat, l: nat, n: nat)
    requires x == h * Pow2(n) && l < Pow2(n)
    ensures And(x, l) == 0
  {
    if n > 0 {
      HalfProduct(x, h, Pow2(n - 1));
      AndDisjoint(x / 2, h, l / 2, n - 1);
      AndBit(x, l);
    }
  }

  lemma HalfProduct(x: nat, h: nat, p: nat)
    requires x == h * (2 * p)
    ensures x % 2 == 0 && x / 2 == h * p
  {
    assert x == 2 * (h * p);
  }

  lemma AndBit(x: nat, y: nat)
    ensures And(x, y) == (if x % 2 == 1 && y % 2 == 1 then 1 else 0) + 2 * And(x / 2, y / 2)
  {
  }

  /** The bits of complements `a` and `b` of `x` and `y` within `n` bits. */
  lemma {:induction false} AndComplement(x: nat, y: nat, a: nat, b: nat, n: nat)
    requires a + x == b + y == Pow2(n) - 1
    ensures And(a, b) == a - y + And(x, y)
  {
    if n > 0 {
      ComplementHalf(x, a, Pow2(n - 1));
      ComplementHalf(y, b, Pow2(n - 1));
      AndComplement(x / 2, y / 2, a / 2, b / 2, n - 1);
      ComplementBit(x, y, a, b);
    }
  }

  lemma ComplementBit(x: nat, y: nat, a: nat, b: nat)
    requires a % 2 == 1 - x % 2 && b % 2 == 1 - y % 2
    requires And(a / 2, b / 2) == a / 2 - y / 2 + And(x / 2, y / 2)
    ensures And(a, b) == a - y + And(x, y)
  {
    AndBit(x, y);
    AndBit(a, b);
  }

  lemma ComplementHalf(x: nat, a: nat, p: nat)
    requires a + x == 2 * p - 1
    ensures a / 2 + x / 2 == p - 1 && a % 2 == 1 - x % 2
  {
  }

  /** Without a common bit, `|` is addition. */
  lemma OrIsSum(h: nat, l: nat, n: nat)
    requires l < Pow2(n) && h * Pow2(n) + l < WORD_SIZE
    ensures 0 <= h * Pow2(n) < WORD_SIZE && l < WORD_SIZE
    ensures Or(h * Pow2(n), l) == h * Pow2(n) + l
  {
    Products(h, 0, Pow2(n));
    AndDisjoint(h * Pow2(n), h, l, n);
    OrOfDisjoint(h * Pow2(n), l);
  }

  lemma OrOfDisjoint(x: Word, y: Word)
    requires And(x, y) == 0 && x + y < WORD_SIZE
    ensures Or(x, y) == x + y
  {
    Pow32();
    AndComplement(x, y, Not(x), Not(y), 32);
  }

  // ---- what the sources do with them ----

  lemma ShiftsAreHalves(n: nat, x: Word, h: nat, l: nat)
    requires n <= 32 && x == h * Pow2(32 - n) + l && l < Pow2(32 - n) && l * Pow2(n) + h < WORD_SIZE
    requires Pow2(n) * Pow2(32 - n) == WORD_SIZE
    ensures ShiftLeft(x, n) == l * Pow2(n) && ShiftRight(x, 32 - n) == h
  {
    var p, q := Pow2(n), Pow2(32 - n);
    Split(h, l, q);
    Distribute(h, l, p, q);
    Products(l, 0, p);
    var top := l * p;
    Split(h, top, WORD_SIZE);
  }

  /** Shifting both ways and joining with `|` is a rotation. */
  lemma ShiftsRotate(bits: nat, word: Word)
    requires bits <= 32
    ensures Or(ShiftLeft(word, bits), ShiftRight(word, 32 - bits)) == Rotate(bits, word)
  {
    var h, l := Halves(bits, word);
    ShiftsAreHalves(bits, word, h, l);
    OrIsSum(l, h, bits);
    RotateSwapsHalves(bits, word);
  }

  /** Four octets make a word, the first one most significant. */
  function BigEndian(b0: Byte, b1: Byte, b2: Byte, b3: Byte): Word {
    ((b0 * 256 + b1) * 256 + b2) * 256 + b3
  }

  /** The same word put together with shifts and `|=`. */
  function Packed(b0: Byte, b1: Byte, b2: Byte, b3: Byte): Word {
    Or(Or(Or(ShiftLeft(b0, 24), ShiftLeft(b1, 16)), ShiftLeft(b2, 8)), b3)
  }

  lemma OctetPowers()
    ensures Pow2(8) == 256 && Pow2(16) == 0x1_0000 && Pow2(24) == 0x100_0000
  {
    assert Pow2(4) == 16;
    PowAdd(4, 4);
    PowAdd(8, 8);
    PowAdd(16, 8);
  }

  lemma ShiftIsProduct(x: nat, n: nat)
    requires x * Pow2(n) < WORD_SIZE && x < WORD_SIZE
    ensures ShiftLeft(x, n) == x * Pow2(n)
  {
    Products(x, 0, Pow2(n));
  }

  lemma PackedIsBigEndian(b0: Byte, b1: Byte, b2: Byte, b3: Byte)
    ensures Packed(b0, b1, b2, b3) == BigEndian(b0, b1, b2, b3)
  {
    OctetPowers();
    ShiftIsProduct(b0, 24);
    ShiftIsProduct(b1, 16);
    ShiftIsProduct(b2, 8);
    PackSteps(b0, b1, b2, b3);
  }

  lemma PackSteps(b0: Byte, b1: Byte, b2: Byte, b3: Byte)
    ensures Or(Or(Or(b0 * 0x100_0000, b1 * 0x1_0000), b2 * 0x100), b3) == BigEndian(b0, b1, b2, b3)
  {
    OctetPowers();
    OrIsSum(b0, b1 * 0x1_0000, 24);
    OrIsSum(b0 * 256 + b1, b2 * 0x100, 16);
    OrIsSum((b0 * 256 + b1) * 256 + b2, b3, 8);
  }

  /** The four octets of a word, most significant first: `htonl`. */
  function Octets(x: Word): (s: seq<Byte>)
    ensures |s| == 4
  {
    [x / 0x100_0000, x / 0x1_0000 % 256, x / 0x100 % 256, x % 256]
  }

  /** `ntohl` undoes `htonl`. */
  lemma OctetsSpell(x: Word)
    ensures var s := Octets(x); BigEndian(s[0], s[1], s[2], s[3]) == x
  {
    var a, b, c := x / 0x100, x / 0x1_0000, x / 0x100_0000;
    assert x == a * 256 + x % 256;
    assert a == b * 256 + a % 256;
    assert b == c * 256 + b % 256 && c < 256;
  }
}
