/** What the functions and constants of the digest are, and the two other forms in which FIPS PUB
    180-1 gives the computation: one recurrence instead of five registers, and the circular queue of
    sixteen words of its section 8. */
module Sha1Meaning {
  import opened Words
  import opened WordBits
  import opened Sha1Spec

  // ---- the functions, bit by bit ----

  function Ones(b: bool, c: bool, d: bool): nat {
    (if b then 1 else 0) + (if c then 1 else 0) + if d then 1 else 0
  }

  /** In each bit: a choice between `c` and `d` made by `b`, the parity of all three, their majority,
      and the parity again. */
  lemma MixBits(t: nat, b: Word, c: Word, d: Word, i: nat)
    requires t < 80 && i < 32
    ensures Bit(Mix(t, b, c, d), i) <==>
      if t < 20 then (if Bit(b, i) then Bit(c, i) else Bit(d, i))
      else if 40 <= t < 60 then Ones(Bit(b, i), Bit(c, i), Bit(d, i)) >= 2
      else Ones(Bit(b, i), Bit(c, i), Bit(d, i)) % 2 == 1
  {
    if t < 20 {
      ChoiceBit(b, c, d, i);
    } else if 40 <= t < 60 {
      MajorityBit(b, c, d, i);
    } else {
      ParityBit(b, c, d, i);
    }
  }

  lemma ParityBit(b: Word, c: Word, d: Word, i: nat)
    requires i < 32
    ensures Bit(Xor(Xor(b, c), d), i) <==> Ones(Bit(b, i), Bit(c, i), Bit(d, i)) % 2 == 1
  {
    XorBit(b, c, i);
    XorBit(Xor(b, c), d, i);
    OddOnes(Bit(b, i), Bit(c, i), Bit(d, i));
  }

  lemma OddOnes(b: bool, c: bool, d: bool)
    ensures Ones(b, c, d) % 2 == 1 <==> ((b != c) != d)
  {
  }

  lemma ChoiceBit(b: Word, c: Word, d: Word, i: nat)
    requires i < 32
    ensures Bit(Or(And(b, c), And(Not(b), d)), i) <==> if Bit(b, i) then Bit(c, i) else Bit(d, i)
  {
    AndBits(b, c, i);
    NotBits(b, i);
    AndBits(Not(b), d, i);
    OrBits(And(b, c), And(Not(b), d), i);
  }

  lemma MajorityBit(b: Word, c: Word, d: Word, i: nat)
    requires i < 32
    ensures Bit(Or(Or(And(b, c), And(b, d)), And(c, d)), i) <==> Ones(Bit(b, i), Bit(c, i), Bit(d, i)) >= 2
  {
    AndBits(b, c, i);
    AndBits(b, d, i);
    AndBits(c, d, i);
    OrBits(And(b, c), And(b, d), i);
    OrBits(Or(And(b, c), And(b, d)), And(c, d), i);
  }

  // ---- the constants ----

  /** Each added constant is the whole part of 2^30 times a square root: of 2, 3, 5 and 10. */
  lemma ConstantsAreRoots(t: nat)
    requires t < 80
    ensures var n := if t < 20 then 2 else if t < 40 then 3 else if t < 60 then 5 else 10;
            K(t) * K(t) <= n * 0x1000_0000_0000_0000 < (K(t) + 1) * (K(t) + 1)
  {
  }

  /** The octets of the first four words, each from its lowest octet on, count up by 0x22 from 0x01
      and down again; those of the last word count down by 0x0f from 0xf0. */
  lemma InitialWordsCount(j: nat)
    requires j < 4
    ensures Octets(INITIAL.a)[3 - j] == 0x01 + 0x22 * j && Octets(INITIAL.b)[3 - j] == 0x89 + 0x22 * j
    ensures Octets(INITIAL.c)[3 - j] == 0xfe - 0x22 * j && Octets(INITIAL.d)[3 - j] == 0x76 - 0x22 * j
    ensures Octets(INITIAL.e)[3 - j] == 0xf0 - 0x0f * j
  {
    InitialOctets();
  }

  lemma InitialOctets()
    ensures Octets(INITIAL.a) == [0x67, 0x45, 0x23, 0x01] && Octets(INITIAL.b) == [0xef, 0xcd, 0xab, 0x89]
    ensures Octets(INITIAL.c) == [0x98, 0xba, 0xdc, 0xfe] && Octets(INITIAL.d) == [0x10, 0x32, 0x54, 0x76]
    ensures Octets(INITIAL.e) == [0xc3, 0xd2, 0xe1, 0xf0]
  {
  }

  // ---- the padding ----

  /** Behind the message: an octet whose highest bit alone is set, zeros, and in the last eight octets
      the length of the message in bits. */
  lemma PadLayout(m: seq<Byte>, i: nat)
    requires |m| < MAX_OCTETS && i < |Pad(m)|
    ensures i < |m| ==> Pad(m)[i] == m[i]
    ensures i == |m| ==> forall j :: 0 <= j < 8 ==> (Bit(Pad(m)[i], j) <==> j == 7)
    ensures |m| < i < |Pad(m)| - 8 ==> Pad(m)[i] == 0
    ensures Spelled(Pad(m)[|Pad(m)| - 8..]) == 8 * |m|
  {
    var gap, end := Zeros(Gap(|m|)), EightOctets(8 * |m|);
    PadParts(m, gap, end, i);
    SpelledOctets(8 * |m|);
    TopBitAlone();
    if |m| < i < |m| + 1 + Gap(|m|) { ZeroAt(Gap(|m|), i - |m| - 1); }
  }

  lemma PadParts(m: seq<Byte>, gap: seq<Byte>, end: seq<Byte>, i: nat)
    requires i < |m| + 1 + |gap| + |end|
    ensures var p := m + [0x80] + gap + end;
            && p[|p| - |end|..] == end
            && p[i] == if i < |m| then m[i] else if i == |m| then 0x80
                       else if i < |m| + 1 + |gap| then gap[i - |m| - 1] else end[i - |m| - 1 - |gap|]
  {
  }

  lemma TopBitAlone()
    ensures forall j :: 0 <= j < 8 ==> (Bit(0x80, j) <==> j == 7)
  {
    assert !Bit(0x80, 0) && !Bit(0x80, 1) && !Bit(0x80, 2) && !Bit(0x80, 3);
    assert !Bit(0x80, 4) && !Bit(0x80, 5) && !Bit(0x80, 6) && Bit(0x80, 7);
  }

  lemma {:induction false} ZeroAt(n: nat, i: nat)
    requires i < n
    ensures Zeros(n)[i] == 0
  {
    if i < n - 1 { ZeroAt(n - 1, i); }
  }

  // ---- one recurrence ----

  lemma PlusIsSum(x: Word, y: Word)
    ensures Plus(x, y) == (x + y) % WORD_SIZE
  {
  }

  lemma FiveTerms(a: Word, b: Word, c: Word, d: Word, e: Word)
    ensures Plus(Plus(Plus(Plus(a, b), c), d), e) == (a + b + c + d + e) % WORD_SIZE
  {
    PlusIsSum(a, b);
    PlusIsSum(Plus(a, b), c);
    PlusIsSum(Plus(Plus(a, b), c), d);
    PlusIsSum(Plus(Plus(Plus(a, b), c), d), e);
  }

  /** The first register after `t` rounds. */
  function A(h: Hash, w: seq<Word>, t: nat): Word
    requires t <= |w| == 80
  {
    Rounds(h, w, t).a
  }

  /** All registers are first registers of earlier rounds. */
  lemma RegistersAreDelayed(h: Hash, w: seq<Word>, t: nat)
    requires 4 <= t <= |w| == 80
    ensures Rounds(h, w, t) == Hash(A(h, w, t), A(h, w, t - 1), Rotate(30, A(h, w, t - 2)),
                                    Rotate(30, A(h, w, t - 3)), Rotate(30, A(h, w, t - 4)))
  {
    assert Rounds(h, w, t) == Step(t - 1, Rounds(h, w, t - 1), w[t - 1]);
    assert Rounds(h, w, t - 1) == Step(t - 2, Rounds(h, w, t - 2), w[t - 2]);
    assert Rounds(h, w, t - 2) == Step(t - 3, Rounds(h, w, t - 3), w[t - 3]);
    assert Rounds(h, w, t - 3) == Step(t - 4, Rounds(h, w, t - 4), w[t - 4]);
  }

  /** So the eighty rounds are one recurrence, each value from the five before it. */
  lemma RoundsAreRecurrence(h: Hash, w: seq<Word>, t: nat)
    requires 4 <= t < |w| == 80
    ensures A(h, w, t + 1) ==
      (Rotate(5, A(h, w, t)) + Mix(t, A(h, w, t - 1), Rotate(30, A(h, w, t - 2)), Rotate(30, A(h, w, t - 3)))
       + Rotate(30, A(h, w, t - 4)) + w[t] + K(t)) % WORD_SIZE
  {
    RegistersAreDelayed(h, w, t);
    var r := Rounds(h, w, t);
    FiveTerms(Rotate(5, r.a), Mix(t, r.b, r.c, r.d), r.e, w[t], K(t));
  }

  // ---- the circular queue ----

  /** The first sixteen words are the block, four octets each. */
  lemma FirstWordsAreBlock(block: seq<Byte>, n: nat, t: nat)
    requires |block| == 64 && t < 16 && t < n
    ensures Octets(Schedule(block, n)[t]) == block[4 * t..4 * t + 4]
    decreases n
  {
    if t < n - 1 {
      FirstWordsAreBlock(block, n - 1, t);
    } else {
      OctetsOfSpelled(block[4 * t], block[4 * t + 1], block[4 * t + 2], block[4 * t + 3]);
    }
  }

  lemma OctetsOfSpelled(b0: Byte, b1: Byte, b2: Byte, b3: Byte)
    ensures Octets(BigEndian(b0, b1, b2, b3)) == [b0, b1, b2, b3]
  {
    var a := b0 * 256 + b1;
    var x := a * 256 + b2;
    assert (x * 256 + b3) / 256 == x && x / 256 == a && a / 256 == b0;
    assert BigEndian(b0, b1, b2, b3) == x * 256 + b3;
    assert (x * 256 + b3) / 0x1_0000 == a && (x * 256 + b3) / 0x100_0000 == b0;
  }

  /** Word `m` takes the place of the one sixteen before it. */
  function NextQueue(q: seq<Word>, m: nat): (r: seq<Word>)
    requires |q| == 16
    ensures |r| == 16
  {
    var s := m % 16;
    q[s := Rotate(1, Xor(Xor(Xor(q[(s + 13) % 16], q[(s + 8) % 16]), q[(s + 2) % 16]), q[s]))]
  }

  /** The sixteen places when there are `n` words. */
  function Circular(block: seq<Byte>, n: nat): (q: seq<Word>)
    requires |block| == 64 && n >= 16
    ensures |q| == 16
  {
    if n == 16 then Schedule(block, 16) else NextQueue(Circular(block, n - 1), n - 1)
  }

  /** The queue holds the last sixteen words. */
  predicate HoldsLast(q: seq<Word>, w: seq<Word>) {
    |q| == 16 && |w| >= 16 && forall j :: |w| - 16 <= j < |w| ==> q[j % 16] == w[j]
  }

  lemma NextHolds(q: seq<Word>, w: seq<Word>, block: seq<Byte>)
    requires |block| == 64 && HoldsLast(q, w)
    ensures HoldsLast(NextQueue(q, |w|), w + [NextWord(block, w)])
  {
    var m, q', w' := |w|, NextQueue(q, |w|), w + [NextWord(block, w)];
    Places(m);
    assert q[(m - 3) % 16] == w[m - 3] && q[(m - 8) % 16] == w[m - 8];
    assert q[(m - 14) % 16] == w[m - 14] && q[(m - 16) % 16] == w[m - 16];
    assert q'[m % 16] == w'[m];
    forall j | m - 15 <= j < m ensures q'[j % 16] == w'[j] {
      OtherPlace(m, j);
    }
  }

  /** At each point the queue holds the last sixteen words of the sequence. */
  lemma {:induction false} CircularIsSchedule(block: seq<Byte>, n: nat)
    requires |block| == 64 && n >= 16
    ensures HoldsLast(Circular(block, n), Schedule(block, n))
  {
    if n == 16 {
      FirstSixteen(Schedule(block, 16));
    } else {
      CircularIsSchedule(block, n - 1);
      NextHolds(Circular(block, n - 1), Schedule(block, n - 1), block);
    }
  }

  lemma FirstSixteen(w: seq<Word>)
    requires |w| == 16
    ensures HoldsLast(w, w)
  {
  }

  lemma Places(m: nat)
    requires m >= 16
    ensures (m % 16 + 13) % 16 == (m - 3) % 16 && (m % 16 + 8) % 16 == (m - 8) % 16
    ensures (m % 16 + 2) % 16 == (m - 14) % 16 && m % 16 == (m - 16) % 16
  {
    PlaceBefore(m, 3);
    PlaceBefore(m, 8);
    PlaceBefore(m, 14);
    PlaceBefore(m, 16);
  }

  lemma PlaceBefore(m: nat, k: nat)
    requires k <= 16 <= m
    ensures (m % 16 + (16 - k)) % 16 == (m - k) % 16
  {
    var q := m / 16;
    assert m % 16 + (16 - k) == (m - k) + 16 * (1 - q);
    SixteenMore(m - k, 1 - q);
  }

  lemma SixteenMore(x: nat, q: int)
    requires x + 16 * q >= 0
    ensures (x + 16 * q) % 16 == x % 16
  {
  }

  lemma OtherPlace(m: nat, j: nat)
    requires m - 16 < j < m
    ensures j % 16 != m % 16
  {
  }
}
