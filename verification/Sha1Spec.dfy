/** The message digest of FIPS PUB 180-1: padding (section 4), the functions and constants
    (sections 5 and 6) and the block computation (section 7), on whole messages. */
module Sha1Spec {
  import opened Words

  datatype Hash = Hash(a: Word, b: Word, c: Word, d: Word, e: Word)

  const INITIAL := Hash(0x67452301, 0xEFCDAB89, 0x98BADCFE, 0x10325476, 0xC3D2E1F0)

  /** The length of a message in octets stays below this: two words count its bits. */
  const MAX_OCTETS := 0x2000_0000_0000_0000

  function Mix(t: nat, b: Word, c: Word, d: Word): Word
    requires t < 80
  {
    if t < 20 then Or(And(b, c), And(Not(b), d))
    else if 40 <= t < 60 then Or(Or(And(b, c), And(b, d)), And(c, d))
    else Xor(Xor(b, c), d)
  }

  function K(t: nat): Word
    requires t < 80
  {
    if t < 20 then 0x5A827999 else if t < 40 then 0x6ED9EBA1 else if t < 60 then 0x8F1BBCDC else 0xCA62C1D6
  }

  /** The word that follows `w` in the word sequence of a block. */
  function NextWord(block: seq<Byte>, w: seq<Word>): Word
    requires |block| == 64
  {
    var t := |w|;
    if t < 16 then BigEndian(block[4 * t], block[4 * t + 1], block[4 * t + 2], block[4 * t + 3])
    else Rotate(1, Xor(Xor(Xor(w[t - 3], w[t - 8]), w[t - 14]), w[t - 16]))
  }

  /** The first `n` words of the sequence. */
  function Schedule(block: seq<Byte>, n: nat): (w: seq<Word>)
    requires |block| == 64
    ensures |w| == n
  {
    if n == 0 then [] else Schedule(block, n - 1) + [NextWord(block, Schedule(block, n - 1))]
  }

  function Step(t: nat, h: Hash, w: Word): Hash
    requires t < 80
  {
    Hash(Plus(Plus(Plus(Plus(Rotate(5, h.a), Mix(t, h.b, h.c, h.d)), h.e), w), K(t)), h.a, Rotate(30, h.b), h.c, h.d)
  }

  /** The five words after the first `t` rounds. */
  function Rounds(h: Hash, w: seq<Word>, t: nat): Hash
    requires t <= |w| == 80
  {
    if t == 0 then h else Step(t - 1, Rounds(h, w, t - 1), w[t - 1])
  }

  function Add(h: Hash, k: Hash): Hash {
    Hash(Plus(h.a, k.a), Plus(h.b, k.b), Plus(h.c, k.c), Plus(h.d, k.d), Plus(h.e, k.e))
  }

  function Compress(h: Hash, block: seq<Byte>): Hash
    requires |block| == 64
  {
    Add(h, Rounds(h, Schedule(block, 80), 80))
  }

  /** The five words after all blocks of a padded message. */
  function Fold(h: Hash, m: seq<Byte>): Hash
    requires |m| % 64 == 0
    decreases |m|, 1
  {
    FoldLast(h, m)
  }

  function FoldLast(h: Hash, m: seq<Byte>): Hash
    requires |m| % 64 == 0
    decreases |m|, 0
  {
    if m == [] then h
    else
      assert |m| >= 64;
      Compress(Fold(h, m[..|m| - 64]), m[|m| - 64..])
  }

  function Zeros(n: nat): (s: seq<Byte>)
    ensures |s| == n
  {
    if n == 0 then [] else Zeros(n - 1) + [0]
  }

  function OctetOf(n: nat): Byte {
    n % 256
  }

  /** A number below 2^64 in eight octets, most significant first. */
  function EightOctets(n: nat): (s: seq<Byte>)
    ensures |s| == 8
  {
    [OctetOf(n / 0x100_0000_0000_0000), OctetOf(n / 0x1_0000_0000_0000), OctetOf(n / 0x100_0000_0000),
     OctetOf(n / 0x1_0000_0000), OctetOf(n / 0x100_0000), OctetOf(n / 0x1_0000), OctetOf(n / 0x100), OctetOf(n)]
  }

  /** How many zero octets stand between the 1 bit's octet and the length. */
  function Gap(n: nat): (k: nat)
    ensures (n + 1 + k) % 64 == 56 && k < 64
  {
    (119 - n % 64) % 64
  }

  lemma WholeBlocks(n: nat)
    requires n % 64 == 56
    ensures (n + 8) % 64 == 0
  {
  }

  function Pad(m: seq<Byte>): (p: seq<Byte>)
    ensures |p| % 64 == 0
    ensures |p| == |m| + 1 + Gap(|m|) + 8
  {
    WholeBlocks(|m| + 1 + Gap(|m|));
    m + [0x80] + Zeros(Gap(|m|)) + EightOctets(8 * |m|)
  }

  /** The digest of a message. */
  function Digest(m: seq<Byte>): Hash {
    Fold(INITIAL, Pad(m))
  }

  // ---- properties of the specification ----

  lemma FoldNothing(h: Hash)
    ensures Fold(h, []) == h
  {
  }

  lemma FoldAppend(h: Hash, m: seq<Byte>, block: seq<Byte>)
    requires |m| % 64 == 0 && |block| == 64
    ensures Fold(h, m + block) == Compress(Fold(h, m), block)
  {
    var x := m + block;
    assert x[..|x| - 64] == m && x[|x| - 64..] == block;
  }

  lemma {:induction false} ZerosAppend(a: nat, b: nat)
    ensures Zeros(a) + Zeros(b) == Zeros(a + b)
  {
    if b > 0 { ZerosAppend(a, b - 1); }
  }

  /** The number that eight octets spell. */
  function Spelled(s: seq<Byte>): nat
    requires |s| == 8
  {
    BigEndian(s[0], s[1], s[2], s[3]) * WORD_SIZE + BigEndian(s[4], s[5], s[6], s[7])
  }

  lemma SpelledOctets(n: nat)
    requires n < 0x1_0000_0000_0000_0000
    ensures Spelled(EightOctets(n)) == n
  {
    TwoWordsSpelled(n / WORD_SIZE, n % WORD_SIZE);
  }

  lemma TwoWordsSpelled(high: Word, low: Word)
    ensures Spelled(EightOctets(high * WORD_SIZE + low)) == high * WORD_SIZE + low
  {
    OctetsOfTwoWords(high, low);
    FourOctets(high);
    FourOctets(low);
  }

  lemma FourOctets(x: Word)
    ensures BigEndian(OctetOf(x / 0x100_0000), OctetOf(x / 0x1_0000), OctetOf(x / 0x100), OctetOf(x)) == x
  {
    OctetsSpell(x);
    assert OctetOf(x / 0x100_0000) == x / 0x100_0000;
  }

  /** The length octets can be taken from the two words of the count. */
  lemma OctetsOfTwoWords(high: Word, low: Word)
    ensures EightOctets(high * WORD_SIZE + low) ==
      [OctetOf(high / 0x100_0000), OctetOf(high / 0x1_0000), OctetOf(high / 0x100), OctetOf(high),
       OctetOf(low / 0x100_0000), OctetOf(low / 0x1_0000), OctetOf(low / 0x100), OctetOf(low)]
  {
    var n := high * WORD_SIZE + low;
    assert n / 0x100_0000_0000_0000 == high / 0x100_0000;
    assert n / 0x1_0000_0000_0000 == high / 0x1_0000;
    assert n / 0x100_0000_0000 == high / 0x100;
    assert n / 0x1_0000_0000 == high;
    assert n / 0x100_0000 == high * 0x100 + low / 0x100_0000;
    assert n / 0x1_0000 == high * 0x1_0000 + low / 0x1_0000;
    assert n / 0x100 == high * 0x100_0000 + low / 0x100;
    WholeOctets(high, low / 0x100_0000);
    WholeOctets(high * 0x100, low / 0x1_0000);
    WholeOctets(high * 0x1_0000, low / 0x100);
    WholeOctets(high * 0x100_0000, low);
  }

  lemma WholeOctets(a: nat, b: nat)
    ensures OctetOf(a * 256 + b) == OctetOf(b)
  {
  }

  /** Padding loses nothing: two messages of allowed length never pad to the same text. */
  lemma PadIsInjective(m: seq<Byte>, n: seq<Byte>)
    requires |m| < MAX_OCTETS && |n| < MAX_OCTETS && Pad(m) == Pad(n)
    ensures m == n
  {
    var p := Pad(m);
    assert p[|p| - 8..] == EightOctets(8 * |m|);
    assert Pad(n)[|p| - 8..] == EightOctets(8 * |n|);
    SpelledOctets(8 * |m|);
    SpelledOctets(8 * |n|);
    assert p[..|m|] == m && Pad(n)[..|n|] == n;
  }

  /** The gap is the shortest one that leaves room for the length. */
  lemma GapIsLeast(n: nat, k: nat)
    requires (n + 1 + k) % 64 == 56
    ensures Gap(n) <= k
  {
  }
}
