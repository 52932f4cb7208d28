/** The stored-block zlib wrapper (jspng/zlib.js:13-53, jspng/uint.js:1-14), read back by a
    decoder written from RFC 1950 section 2.2 and RFC 1951 section 3.2.4. */
module JspngZlib {
  import opened Options
  import opened Words

  const BASE := 65521

  // ---- the checksum ----

  function Total(buf: seq<Byte>): nat {
    if buf == [] then 0 else buf[0] + Total(buf[1..])
  }

  /** Each octet as often as there are octets from it on. */
  function Weighted(buf: seq<Byte>): nat {
    if buf == [] then 0 else |buf| * buf[0] + Weighted(buf[1..])
  }

  /** Adler-32 in closed form: the sum of the octets plus one, and the sum of all such sums. */
  function Adler32(buf: seq<Byte>): (r: Word) {
    (|buf| + Weighted(buf)) % BASE * 0x1_0000 + (1 + Total(buf)) % BASE
  }

  // ---- the modulus ----

  function NoneDivides(n: nat, low: nat, high: nat): bool
    requires low > 0
    decreases high - low
  {
    low > high || (n % low != 0 && NoneDivides(n, low + 1, high))
  }

  lemma {:induction false} TriedAll(n: nat, low: nat, high: nat, k: nat)
    requires low > 0 && NoneDivides(n, low, high) && low <= k <= high
    ensures n % k != 0
    decreases high - low
  {
    if k > low { TriedAll(n, low + 1, high, k); }
  }

  lemma {:induction false} TriedTo65()
    ensures NoneDivides(65521, 2, 9) && NoneDivides(65521, 10, 17)
    ensures NoneDivides(65521, 18, 25) && NoneDivides(65521, 26, 33)
    ensures NoneDivides(65521, 34, 41) && NoneDivides(65521, 42, 49)
    ensures NoneDivides(65521, 50, 57) && NoneDivides(65521, 58, 65)
  {
  }

  lemma {:induction false} TriedTo129()
    ensures NoneDivides(65521, 66, 73) && NoneDivides(65521, 74, 81)
    ensures NoneDivides(65521, 82, 89) && NoneDivides(65521, 90, 97)
    ensures NoneDivides(65521, 98, 105) && NoneDivides(65521, 106, 113)
    ensures NoneDivides(65521, 114, 121) && NoneDivides(65521, 122, 129)
  {
  }

  lemma {:induction false} TriedTo193()
    ensures NoneDivides(65521, 130, 137) && NoneDivides(65521, 138, 145)
    ensures NoneDivides(65521, 146, 153) && NoneDivides(65521, 154, 161)
    ensures NoneDivides(65521, 162, 169) && NoneDivides(65521, 170, 177)
    ensures NoneDivides(65521, 178, 185) && NoneDivides(65521, 186, 193)
  {
  }

  lemma {:induction false} TriedTo257()
    ensures NoneDivides(65521, 194, 201) && NoneDivides(65521, 202, 209)
    ensures NoneDivides(65521, 210, 217) && NoneDivides(65521, 218, 225)
    ensures NoneDivides(65521, 226, 233) && NoneDivides(65521, 234, 241)
    ensures NoneDivides(65521, 242, 249) && NoneDivides(65521, 250, 257)
  {
  }

  lemma {:induction false} TriedAmong(n: nat, a: nat, k: nat)
    requires 0 < a <= k <= a + 63
    requires NoneDivides(n, a, a + 7) && NoneDivides(n, a + 8, a + 15)
    requires NoneDivides(n, a + 16, a + 23) && NoneDivides(n, a + 24, a + 31)
    requires NoneDivides(n, a + 32, a + 39) && NoneDivides(n, a + 40, a + 47)
    requires NoneDivides(n, a + 48, a + 55) && NoneDivides(n, a + 56, a + 63)
    ensures n % k != 0
  {
    var low := a + (k - a) / 8 * 8;
    TriedAll(n, low, low + 7, k);
  }

  lemma {:induction false} BaseTried(k: nat)
    requires 2 <= k <= 255
    ensures BASE % k != 0
  {
    if k <= 65 {
      TriedTo65();
      TriedAmong(65521, 2, k);
    } else if k <= 129 {
      TriedTo129();
      TriedAmong(65521, 66, k);
    } else if k <= 193 {
      TriedTo193();
      TriedAmong(65521, 130, k);
    } else {
      TriedTo257();
      TriedAmong(65521, 194, k);
    }
  }

  /** A divisor above 255 would come with one below. */
  lemma SmallDivisor(k: nat)
    requires 256 <= k < BASE
    ensures BASE % k != 0
  {
    var q := BASE / k;
    if BASE % k == 0 {
      QuotientBelow(BASE, k, q);
      BaseTried(q);
    }
  }

  lemma QuotientBelow(n: nat, k: nat, q: nat)
    requires 256 <= k < n < 0x1_0000 && n == q * k
    ensures 2 <= q <= 255 && n % q == 0
  {
    Products(q, 256, k);
    Products(k, 256, 256);
    Products(1, q, k);
    Split(k, 0, q);
  }

  predicate Divides(k: nat, n: nat) {
    1 < k < n && n % k == 0
  }

  /** The modulus is the largest prime below 2^16. */
  lemma BaseIsLargestPrime(n: nat)
    ensures !Divides(n, BASE)
    ensures BASE < n < 0x1_0000 ==> exists k :: Divides(k, n)
  {
    if 2 <= n <= 255 {
      BaseTried(n);
    } else if 256 <= n < BASE {
      SmallDivisor(n);
    }
    if BASE < n < 0x1_0000 {
      var k := if n % 2 == 0 then 2 else if n % 3 == 0 then 3 else if n % 5 == 0 then 5 else if n % 7 == 0 then 7
               else if n == 65531 then 19 else 13;
      assert Divides(k, n);
    }
  }

  lemma {:induction false} TotalPush(buf: seq<Byte>, b: Byte)
    ensures Total(buf + [b]) == Total(buf) + b
  {
    if buf != [] {
      assert (buf + [b])[1..] == buf[1..] + [b];
      TotalPush(buf[1..], b);
    }
  }

  lemma {:induction false} WeightedPush(buf: seq<Byte>, b: Byte)
    ensures Weighted(buf + [b]) == Weighted(buf) + Total(buf) + b
  {
    if buf != [] {
      assert (buf + [b])[1..] == buf[1..] + [b];
      WeightedPush(buf[1..], b);
    }
  }

  /** The checksum that the source's own test expects (jspng/zlib_unittest.html:10-16), and that of
      nothing. */
  lemma KnownChecksums()
    ensures Adler32([1, 2, 3, 4]) == 0x0018_000b && Adler32([]) == 1
  {
    assert Total([4]) == 4 && Total([3, 4]) == 7 && Total([2, 3, 4]) == 9;
    assert Weighted([4]) == 4 && Weighted([3, 4]) == 10 && Weighted([2, 3, 4]) == 16;
  }

  lemma ModAdd(a: nat, b: nat)
    ensures (a % BASE + b) % BASE == (a + b) % BASE
    ensures (b + a % BASE) % BASE == (a + b) % BASE
  {
    assert a == a / BASE * BASE + a % BASE;
    ModMultiple(a % BASE + b, a / BASE);
  }

  lemma ModMultiple(x: nat, k: nat)
    ensures (x + k * BASE) % BASE == x % BASE
  {
  }

  /** `adler32(buf)`, that is `update_adler32(1, buf)`. */
  method ComputeAdler32(buf: seq<Byte>) returns (r: Word)
    ensures r == Adler32(buf)
  {
    var s1, s2 := 1, 0;
    for n := 0 to |buf|
      invariant s1 == (1 + Total(buf[..n])) % BASE && s2 == (n + Weighted(buf[..n])) % BASE
    {
      s1, s2 := Accumulate(buf[..n], s1, s2, buf[n]);
      assert buf[..n + 1] == buf[..n] + [buf[n]];
    }
    assert buf[..|buf|] == buf;
    r := s2 * 0x1_0000 + s1;
  }

  method Accumulate(ghost done: seq<Byte>, s1: nat, s2: nat, b: Byte) returns (r1: nat, r2: nat)
    requires s1 == (1 + Total(done)) % BASE && s2 == (|done| + Weighted(done)) % BASE
    ensures r1 == (1 + Total(done + [b])) % BASE && r2 == (|done| + 1 + Weighted(done + [b])) % BASE
  {
    TotalPush(done, b);
    WeightedPush(done, b);
    r1 := (s1 + b) % BASE;
    ModAdd(1 + Total(done), b);
    r2 := (s2 + r1) % BASE;
    ModAdd(1 + Total(done) + b, s2);
    ModAdd(|done| + Weighted(done), 1 + Total(done) + b);
  }

  // ---- the wrapper ----

  /** The exponent of the largest power of two up to `n`. */
  function Log2(n: nat): (k: nat)
    requires n >= 1
    ensures Pow2(k) <= n < Pow2(k + 1)
  {
    if n == 1 then 0 else Log2(n / 2) + 1
  }

  /** `parseInt(Math.log(blockSize) / Math.log(2) - 8)`, which truncates toward zero; for block size 0
      it is not a number, which the shift takes as 0. */
  function WindowInfo(blockSize: nat): int {
    if blockSize == 0 then 0
    else
      var k := Log2(blockSize);
      if k >= 8 || Pow2(k) == blockSize then k - 8 else k + 1 - 8
  }

  /** The remainder of JavaScript, which takes the sign of its left operand. */
  function JsRem(a: int, b: int): int
    requires b > 0
  {
    if a >= 0 then a % b else -((-a) % b)
  }

  /** The block sizes that a zlib header can express, and 0. */
  predicate GoodBlockSize(blockSize: nat) {
    blockSize == 0 || 129 <= blockSize <= 0xffff
  }

  /** `deflate`; nothing where it throws.  What it returns can be decoded exactly for the good block
      sizes: for others the first element says too large a window or is not an octet at all. */
  method Deflate(uncompressed: seq<Byte>, blockSize: nat) returns (r: Option<seq<int>>)
    ensures r.None? <==> |uncompressed| > blockSize
    ensures r.Some? ==> |r.value| == |uncompressed| + 11 && r.value[0] == WindowInfo(blockSize) * 16 + 8
    ensures r.Some? ==> Inflate(r.value) == if GoodBlockSize(blockSize) then Some(uncompressed) else None
  {
    var cminfo := WindowInfo(blockSize);
    if |uncompressed| > blockSize { return None; }
    var data := HeaderOctets(cminfo, |uncompressed|);
    ghost var head := data;
    data := data + uncompressed;
    var checksum := ComputeAdler32(uncompressed);
    data := data + Octets(checksum);
    WindowFits(blockSize);
    if GoodBlockSize(blockSize) {
      assert |uncompressed| <= 0xffff;
      WrapperReads(data, head, uncompressed, checksum);
    } else {
      WrapperFails(data, head, uncompressed, checksum, cminfo);
    }
    r := Some(data);
  }

  /** The zlib header and the block header. */
  method HeaderOctets(cminfo: int, blockLength: nat) returns (data: seq<int>)
    ensures |data| == 7 && data[0] == cminfo * 16 + 8
    ensures 0 <= cminfo <= 7 ==> GoodHeader(data[0], data[1]) && AllOctets(data)
    ensures blockLength <= 0xffff ==> StoredLength(data[2], data[3], data[4], data[5], data[6]) == Some(blockLength)
  {
    var cmf := cminfo * 16 + 8;
    var flg := 31 - JsRem(cmf * 256, 31);
    var blockLengthComp := 0xffff - blockLength % 0x1_0000;
    if 0 <= cminfo <= 7 {
      HeaderChecks(cmf, flg);
    }
    if blockLength <= 0xffff {
      LengthReads(blockLength);
    }
    data := [cmf, flg, 1,
      blockLength % 256, blockLength / 256 % 256,
      blockLengthComp % 256, blockLengthComp / 256];
  }

  /** The window of 2^(8 + info) bytes is the largest power of two in the block size, or, for sizes
      below 256, the smallest that holds it. */
  lemma WindowIsPower(n: nat)
    requires n > 0
    ensures WindowInfo(n) >= -8
    ensures n >= 256 ==> WindowInfo(n) >= 0 && Pow2(WindowInfo(n) + 8) <= n < Pow2(WindowInfo(n) + 9)
    ensures n < 256 ==> WindowInfo(n) <= 0 && n <= Pow2(WindowInfo(n) + 8) && (n == 1 || Pow2(WindowInfo(n) + 8) < 2 * n)
  {
    OctetPowers();
    var k := Log2(n);
    PowMonotone(k + 1, 8);
    PowMonotone(8, k);
  }

  /** The window is one that RFC 1950 allows exactly for the good block sizes. */
  lemma WindowFits(n: nat)
    ensures 0 <= WindowInfo(n) <= 7 <==> GoodBlockSize(n)
  {
    if n > 0 {
      OctetPowers();
      var k := Log2(n);
      PowMonotone(k + 1, 7);
      PowMonotone(k + 1, 8);
      PowMonotone(8, k);
      PowMonotone(k + 1, 16);
      PowMonotone(16, k);
      if k == 7 {
        assert Pow2(7) == 128;
      }
    }
  }

  lemma {:induction false} PowMonotone(m: nat, n: nat)
    ensures m <= n ==> Pow2(m) <= Pow2(n)
    decreases n
  {
    if m < n { PowMonotone(m, n - 1); }
  }

  lemma HeaderChecks(cmf: nat, flg: nat)
    requires cmf % 16 == 8 && cmf / 16 <= 7 && flg == 31 - JsRem(cmf * 256, 31)
    ensures GoodHeader(cmf, flg)
  {
    var x := cmf * 256;
    assert x == x / 31 * 31 + x % 31;
    assert x + flg == (x / 31 + 1) * 31;
  }

  // ---- the decoder ----

  /** RFC 1950: check bits, method 8, window size, no preset dictionary. */
  predicate GoodHeader(cmf: int, flg: int) {
    (cmf * 256 + flg) % 31 == 0 && cmf % 16 == 8 && cmf / 16 <= 7 && flg / 32 % 2 == 0
  }

  /** RFC 1951: the length of a final stored block, from its first five octets. */
  function StoredLength(block: int, len0: int, len1: int, nlen0: int, nlen1: int): Option<int> {
    var len, nlen := len0 + 256 * len1, nlen0 + 256 * nlen1;
    if block % 2 == 1 && block / 2 % 4 == 0 && nlen == 0xffff - len then Some(len) else None
  }

  predicate AllOctets(data: seq<int>) {
    forall i :: 0 <= i < |data| ==> 0 <= data[i] < 256
  }

  /** A zlib stream of one final stored block, its header and its checksum verified. */
  function Inflate(data: seq<int>): Option<seq<Byte>> {
    if |data| < 11 || !AllOctets(data) || !GoodHeader(data[0], data[1]) then None
    else
      var len := StoredLength(data[2], data[3], data[4], data[5], data[6]);
      if len == None || |data| != 7 + len.value + 4 || len.value < 0 then None
      else
        var payload: seq<Byte>, sum: seq<Byte> := data[7..7 + len.value], data[7 + len.value..];
        if BigEndian(sum[0], sum[1], sum[2], sum[3]) == Adler32(payload) then Some(payload) else None
  }

  lemma ThreeParts<T>(data: seq<T>, head: seq<T>, payload: seq<T>, tail: seq<T>)
    requires data == head + payload + tail
    ensures data[..|head|] == head && data[|head|..|head| + |payload|] == payload
    ensures data[|head| + |payload|..] == tail
    ensures forall i :: 0 <= i < |head| ==> data[i] == head[i]
  {
  }

  lemma LengthReads(n: nat)
    requires n <= 0xffff
    ensures var comp := 0xffff - n % 0x1_0000;
            StoredLength(1, n % 256, n / 256 % 256, comp % 256, comp / 256) == Some(n)
  {
  }

  lemma WrapperReads(data: seq<int>, head: seq<int>, payload: seq<Byte>, sum: Word)
    requires data == head + payload + Octets(sum) && |head| == 7 && AllOctets(head)
    requires sum == Adler32(payload) && GoodHeader(head[0], head[1])
    requires StoredLength(head[2], head[3], head[4], head[5], head[6]) == Some(|payload|)
    ensures Inflate(data) == Some(payload)
  {
    ThreeParts(data, head, payload, Octets(sum));
    OctetsSpell(sum);
  }

  lemma WrapperFails(data: seq<int>, head: seq<int>, payload: seq<Byte>, sum: Word, cminfo: int)
    requires data == head + payload + Octets(sum) && |head| == 7
    requires head[0] == cminfo * 16 + 8 && !(0 <= cminfo <= 7)
    ensures Inflate(data) == None
  {
    assert data[0] == cminfo * 16 + 8;
    if cminfo < 0 {
      assert data[0] < 0;
    } else {
      assert data[0] / 16 == cminfo;
    }
  }
}
