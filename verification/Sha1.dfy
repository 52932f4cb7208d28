/** The streaming digest (ypeer/sha1.cpp:99-211, 410-589) against the one-shot digest. */
module Sha1 {
  import opened Options
  import opened Words
  import opened Sha1Spec

  // ---- what the calls on one object amount to ----

  /** A message being fed, a delivered digest, or a corrupted object. */
  datatype Life = Open(m: seq<Byte>) | Closed(digest: Hash) | Broken

  /** `Input`: the bit count has two words, and a digest once delivered takes no more input. */
  function Fed(s: Life, data: seq<Byte>): Life {
    if data == [] then s
    else if s.Open? && |s.m| + |data| < MAX_OCTETS then Open(s.m + data)
    else Broken
  }

  /** `Result`. */
  function Asked(s: Life): Life {
    if s.Open? then Closed(Digest(s.m)) else s
  }

  datatype Call = Reset | Input(data: seq<Byte>) | Result

  function After(s: Life, c: Call): Life {
    match c
    case Reset => Open([])
    case Input(data) => Fed(s, data)
    case Result => Asked(s)
  }

  function Run(s: Life, calls: seq<Call>): Life {
    if calls == [] then s else After(Run(s, calls[..|calls| - 1]), calls[|calls| - 1])
  }

  /** Everything handed to `Input`, in order. */
  function AllInput(calls: seq<Call>): seq<Byte> {
    if calls == [] then []
    else AllInput(calls[..|calls| - 1]) + (if calls[|calls| - 1].Input? then calls[|calls| - 1].data else [])
  }

  predicate Asks(calls: seq<Call>) {
    exists i :: 0 <= i < |calls| && calls[i] == Result
  }

  /** Some input comes after a request for the digest. */
  predicate LateInput(calls: seq<Call>) {
    exists i, j :: 0 <= i < j < |calls| && calls[i] == Result && calls[j].Input? && calls[j].data != []
  }

  /** The state, from three facts about the calls since a reset. */
  function Outcome(late: bool, asked: bool, text: seq<Byte>): Life {
    if late || |text| >= MAX_OCTETS then Broken else if asked then Closed(Digest(text)) else Open(text)
  }

  /** What any calls since a reset amount to: the object is corrupted exactly when some input
      came late or there was too much of it, and otherwise a delivered digest is that of
      everything fed, however it was divided and however often the digest was requested. */
  lemma {:induction false} AnyCalls(calls: seq<Call>)
    requires Reset !in calls
    ensures Run(Open([]), calls) == Outcome(LateInput(calls), Asks(calls), AllInput(calls))
  {
    if calls != [] {
      var before, last := calls[..|calls| - 1], calls[|calls| - 1];
      AnyCalls(before);
      LastCall(calls);
      OneMoreCall(LateInput(before), Asks(before), AllInput(before), last);
    }
  }

  lemma OneMoreCall(late: bool, asked: bool, text: seq<Byte>, c: Call)
    requires c != Reset
    ensures After(Outcome(late, asked, text), c) ==
      Outcome(late || (asked && c.Input? && c.data != []), asked || c == Result,
              text + (if c.Input? then c.data else []))
  {
    assert text + [] == text;
  }

  lemma LastCall(calls: seq<Call>)
    requires calls != []
    ensures
      var n := |calls| - 1;
      var before, last := calls[..n], calls[n];
      && (Asks(calls) <==> Asks(before) || last == Result)
      && (LateInput(calls) <==> LateInput(before) || (Asks(before) && last.Input? && last.data != []))
  {
    var n := |calls| - 1;
    var before, last := calls[..n], calls[n];
    forall i | 0 <= i < n ensures before[i] == calls[i] { }
    if LateInput(calls) {
      var i, j :| 0 <= i < j < |calls| && calls[i] == Result && calls[j].Input? && calls[j].data != [];
      assert before[i] == Result;
      if j < n { assert before[j] == calls[j]; }
    }
    if LateInput(before) {
      var i, j :| 0 <= i < j < n && before[i] == Result && before[j].Input? && before[j].data != [];
      assert calls[i] == Result && calls[j] == before[j];
    }
    if Asks(before) {
      var i :| 0 <= i < n && before[i] == Result;
      assert calls[i] == Result && calls[n] == last;
    }
  }

  lemma RunPush(s: Life, calls: seq<Call>, c: Call)
    ensures Run(s, calls + [c]) == After(Run(s, calls), c)
  {
    assert (calls + [c])[..|calls|] == calls;
  }

  /** A reset forgets all that went before. */
  lemma {:induction false} ResetForgets(s: Life, before: seq<Call>, calls: seq<Call>)
    ensures Run(s, before + [Reset] + calls) == Run(Open([]), calls)
  {
    if calls == [] {
      RunPush(s, before, Reset);
      assert before + [Reset] + calls == before + [Reset];
    } else {
      var earlier, last := calls[..|calls| - 1], calls[|calls| - 1];
      ResetForgets(s, before, earlier);
      RunOneMore(s, before + [Reset], earlier, last);
      RunOneMore(Open([]), [], earlier, last);
      LastApart(calls);
    }
  }

  lemma RunOneMore(s: Life, before: seq<Call>, earlier: seq<Call>, last: Call)
    ensures Run(s, before + (earlier + [last])) == After(Run(s, before + earlier), last)
  {
    assert before + (earlier + [last]) == before + earlier + [last];
    RunPush(s, before + earlier, last);
  }

  lemma LastApart(calls: seq<Call>)
    requires calls != []
    ensures calls[..|calls| - 1] + [calls[|calls| - 1]] == calls
    ensures [] + calls == calls && [] + calls[..|calls| - 1] == calls[..|calls| - 1]
  {
  }

  method CircularShift(bits: nat, word: Word) returns (r: Word)
    requires bits <= 32
    ensures r == Rotate(bits, word)
  {
    ShiftsRotate(bits, word);
    r := Or(ShiftLeft(word, bits), ShiftRight(word, 32 - bits));
  }

  /** What the four loops mix in and add. */
  function StageMix(stage: nat, b: Word, c: Word, d: Word): Word {
    if stage == 0 then Or(And(b, c), And(Not(b), d))
    else if stage == 2 then Or(Or(And(b, c), And(b, d)), And(c, d))
    else Xor(Xor(b, c), d)
  }

  const STAGE_K: seq<Word> := [0x5A827999, 0x6ED9EBA1, 0x8F1BBCDC, 0xCA62C1D6]

  /** The body of the loops, in round `t`. */
  method TakeTurn(ghost h: Hash, ghost words: seq<Word>, t: nat, stage: nat, r: Hash, w: Word) returns (next: Hash)
    requires |words| == 80 && stage < 4 && 20 * stage <= t < 20 * stage + 20
    requires r == Rounds(h, words, t) && w == words[t]
    ensures next == Rounds(h, words, t + 1)
  {
    var mixed, k := StageMix(stage, r.b, r.c, r.d), STAGE_K[stage];
    var shiftedA := CircularShift(5, r.a);
    var shiftedB := CircularShift(30, r.b);
    next := Hash(Plus(Plus(Plus(Plus(shiftedA, mixed), r.e), w), k), r.a, shiftedB, r.c, r.d);
  }

  /** One of the four loops. */
  method RunStage(ghost h: Hash, W: array<Word>, stage: nat, from: Hash) returns (r: Hash)
    requires W.Length == 80 && stage < 4
    requires from == Rounds(h, W[..], 20 * stage)
    ensures r == Rounds(h, W[..], 20 * stage + 20)
  {
    r := from;
    for t := 20 * stage to 20 * stage + 20
      invariant r == Rounds(h, W[..], t)
    {
      r := TakeTurn(h, W[..], t, stage, r, W[t]);
    }
  }

  method RunRounds(h: Hash, W: array<Word>) returns (r: Hash)
    requires W.Length == 80
    ensures r == Rounds(h, W[..], 80)
  {
    r := RunStage(h, W, 0, h);
    r := RunStage(h, W, 1, r);
    r := RunStage(h, W, 2, r);
    r := RunStage(h, W, 3, r);
  }

  method FirstWord(ghost block: seq<Byte>, source: array<Byte>, ghost w: seq<Word>, t: nat) returns (next: Word)
    requires source.Length == 64 && block == source[..] && |w| == t < 16
    ensures next == NextWord(block, w)
  {
    PackedIsBigEndian(block[4 * t], block[4 * t + 1], block[4 * t + 2], block[4 * t + 3]);
    next := Packed(source[t * 4], source[t * 4 + 1], source[t * 4 + 2], source[t * 4 + 3]);
  }

  method LaterWord(ghost block: seq<Byte>, W: array<Word>, t: nat) returns (next: Word)
    requires |block| == 64 && 16 <= t < W.Length
    ensures next == NextWord(block, W[..t])
  {
    var mixed := Xor(Xor(Xor(W[t - 3], W[t - 8]), W[t - 14]), W[t - 16]);
    next := CircularShift(1, mixed);
  }

  /** The zeros that `PadMessage` writes fill exactly the gap. */
  lemma GapFromIndex(done: seq<Byte>, index: nat)
    requires index < 64 && |done| % 64 == 0
    ensures Gap(|done| + index) == if index > 55 then 119 - index else 55 - index
  {
  }

  lemma OneMoreBlock(done: seq<Byte>, block: seq<Byte>)
    requires |done| % 64 == 0 && |block| == 64
    ensures |done + block| % 64 == 0
  {
  }

  lemma NextPrefix<T>(m: seq<T>, data: seq<T>, i: nat)
    requires i < |data|
    ensures m + data[..i + 1] == m + data[..i] + [data[i]]
  {
  }

  lemma TwoGaps(m: seq<Byte>, full: seq<Byte>, n: nat, end: seq<Byte>)
    requires full == m + Zeros(n) && end == full + Zeros(56)
    ensures end == m + Zeros(n + 56)
  {
    ZerosAppend(n, 56);
    assert m + Zeros(n) + Zeros(56) == m + (Zeros(n) + Zeros(56));
  }

  lemma LastBlock(m: seq<Byte>, done: seq<Byte>, block: seq<Byte>)
    requires |done| % 64 == 0 && |block| == 64
    requires done + block[..56] == m + [0x80] + Zeros(Gap(|m|)) && block[56..] == EightOctets(8 * |m|)
    ensures Compress(Fold(INITIAL, done), block) == Digest(m)
  {
    assert block == block[..56] + block[56..];
    assert Pad(m) == done + block;
    FoldAppend(INITIAL, done, block);
  }

  class SHA1 {
    const H: array<Word>
    const MessageBlock: array<Byte>
    var LengthLow: Word
    var LengthHigh: Word
    var MessageBlockIndex: nat
    var Computed: bool
    var Corrupted: bool
    ghost var Life: Life
    /** What has been fed, padding included, and what of it has been digested. */
    ghost var Text: seq<Byte>
    ghost var Done: seq<Byte>

    ghost function HashWords(): Hash
      reads H
      requires H.Length == 5
    {
      Hash(H[0], H[1], H[2], H[3], H[4])
    }

    ghost predicate Shape() {
      H.Length == 5 && MessageBlock.Length == 64
    }

    ghost predicate Valid()
      reads this, H, MessageBlock
    {
      && Shape()
      && match Life
         case Open(m) => !Computed && !Corrupted && Holds(m)
         case Closed(digest) => Computed && !Corrupted && HashWords() == digest
         case Broken => Corrupted
    }

    /** `m` has been fed: its whole blocks are digested, the rest is in the buffer, its bits
        are counted. */
    ghost predicate Holds(m: seq<Byte>)
      reads this, H, MessageBlock
      requires Shape()
    {
      && Sound() && MessageBlockIndex < 64
      && m == Text && |m| < MAX_OCTETS
      && LengthHigh * WORD_SIZE + LengthLow == 8 * |m|
    }

    ghost predicate Sound()
      reads this, H, MessageBlock
      requires Shape()
    {
      && MessageBlockIndex <= 64 && |Done| % 64 == 0 && HashWords() == Fold(INITIAL, Done)
      && Text == Done + MessageBlock[..MessageBlockIndex]
    }

    constructor ()
      ensures Valid() && Life == Open([])
      ensures fresh(H) && fresh(MessageBlock)
    {
      H := new Word[5];
      MessageBlock := new Byte[64];
      new;
      Reset();
    }

    method SetWords()
      requires H.Length == 5
      modifies H
      ensures HashWords() == INITIAL
    {
      H[0], H[1], H[2], H[3], H[4] := 0x67452301, 0xEFCDAB89, 0x98BADCFE, 0x10325476, 0xC3D2E1F0;
    }

    method Reset()
      requires Shape()
      modifies this, H
      ensures Valid() && Life == Open([])
    {
      LengthLow, LengthHigh, MessageBlockIndex := 0, 0, 0;
      SetWords();
      Computed, Corrupted := false, false;
      Life, Done, Text := Open([]), [], [];
      FoldNothing(INITIAL);
    }

    /** The word sequence of the block in the buffer. */
    method ExpandBlock() returns (W: array<Word>)
      requires Shape()
      ensures fresh(W) && W[..] == Schedule(MessageBlock[..], 80)
    {
      ghost var block := MessageBlock[..];
      W := new Word[80];
      for t := 0 to 16
        invariant W[..t] == Schedule(block, t)
      {
        W[t] := FirstWord(block, MessageBlock, W[..t], t);
        assert W[..t + 1] == W[..t] + [W[t]];
      }
      for t := 16 to 80
        invariant W[..t] == Schedule(block, t)
      {
        W[t] := LaterWord(block, W, t);
        assert W[..t + 1] == W[..t] + [W[t]];
      }
      assert W[..80] == W[..];
    }

    /** One block through the compression function. */
    method ProcessMessageBlock()
      requires Shape()
      modifies H, this`MessageBlockIndex
      ensures HashWords() == Compress(old(HashWords()), old(MessageBlock[..]))
      ensures MessageBlockIndex == 0
    {
      var W := ExpandBlock();
      var r := RunRounds(Hash(H[0], H[1], H[2], H[3], H[4]), W);
      AddWords(r);
      MessageBlockIndex := 0;
    }

    method AddWords(r: Hash)
      requires H.Length == 5
      modifies H
      ensures HashWords() == Add(old(HashWords()), r)
    {
      H[0], H[1], H[2], H[3], H[4] := Plus(H[0], r.a), Plus(H[1], r.b), Plus(H[2], r.c), Plus(H[3], r.d), Plus(H[4], r.e);
    }

    // ---- the buffer ----

    method Push(octet: Byte)
      requires Shape() && Sound() && MessageBlockIndex < 64
      modifies MessageBlock, this`MessageBlockIndex, this`Text
      ensures Sound() && MessageBlockIndex == old(MessageBlockIndex) + 1
      ensures Text == old(Text) + [octet]
    {
      Text := Text + [octet];
      MessageBlock[MessageBlockIndex] := octet;
      MessageBlockIndex := MessageBlockIndex + 1;
      assert MessageBlock[..MessageBlockIndex - 1] == old(MessageBlock[..MessageBlockIndex]);
    }

    method Flush()
      requires Shape() && Sound() && MessageBlockIndex == 64
      modifies H, this`MessageBlockIndex, this`Done
      ensures Sound() && MessageBlockIndex == 0 && Text == old(Text)
    {
      ghost var block := MessageBlock[..];
      OneMoreBlock(Done, block);
      FoldAppend(INITIAL, Done, block);
      assert MessageBlock[..64] == block;
      ProcessMessageBlock();
      Done := Done + block;
    }

    // ---- Input ----

    /** Eight more bits. */
    method CountOctet(ghost n: nat)
      requires LengthHigh * WORD_SIZE + LengthLow == 8 * n && n < MAX_OCTETS && !Corrupted
      modifies this`LengthLow, this`LengthHigh, this`Corrupted
      ensures Corrupted <==> n + 1 >= MAX_OCTETS
      ensures !Corrupted ==> LengthHigh * WORD_SIZE + LengthLow == 8 * (n + 1)
    {
      LengthLow := (LengthLow + 8) % WORD_SIZE;
      if LengthLow == 0 {
        LengthHigh := (LengthHigh + 1) % WORD_SIZE;
        if LengthHigh == 0 {
          Corrupted := true;
        }
      }
    }

    method InputOctet(octet: Byte, ghost m: seq<Byte>)
      requires Shape() && Holds(m) && !Corrupted
      modifies this`LengthLow, this`LengthHigh, this`MessageBlockIndex, this`Corrupted, this`Done, this`Text, H, MessageBlock
      ensures Corrupted <==> |m| + 1 >= MAX_OCTETS
      ensures !Corrupted ==> Holds(m + [octet])
    {
      Push(octet);
      CountOctet(|m|);
      if MessageBlockIndex == 64 {
        Flush();
      }
    }

    method InputOctets(data: seq<Byte>, ghost m: seq<Byte>)
      requires Shape() && Holds(m) && !Corrupted
      modifies this`LengthLow, this`LengthHigh, this`MessageBlockIndex, this`Corrupted, this`Done, this`Text, H, MessageBlock
      ensures Corrupted <==> |m| + |data| >= MAX_OCTETS
      ensures !Corrupted ==> Holds(m + data)
    {
      var i := 0;
      assert m + data[..0] == m;
      while i < |data| && !Corrupted
        invariant i <= |data|
        invariant Corrupted <==> |m| + i >= MAX_OCTETS
        invariant !Corrupted ==> Holds(m + data[..i])
      {
        NextPrefix(m, data, i);
        InputOctet(data[i], m + data[..i]);
        i := i + 1;
      }
      assert data[..|data|] == data;
    }

    method Input(data: seq<Byte>)
      requires Valid()
      modifies this, H, MessageBlock
      ensures Valid() && Life == Fed(old(Life), data)
    {
      if |data| == 0 { return; }
      if Computed || Corrupted {
        Corrupted := true;
        Life := Broken;
        return;
      }
      ghost var m := Life.m;
      InputOctets(data, m);
      Life := if Corrupted then Broken else Open(m + data);
    }

    // ---- Result ----

    method FillZeros(upTo: nat)
      requires Shape() && Sound() && MessageBlockIndex <= upTo <= 64
      modifies MessageBlock, this`MessageBlockIndex, this`Text
      ensures Sound() && MessageBlockIndex == upTo
      ensures Text == old(Text) + Zeros(upTo - old(MessageBlockIndex))
    {
      ghost var start := MessageBlockIndex;
      while MessageBlockIndex < upTo
        invariant start <= MessageBlockIndex <= upTo && Sound()
        invariant Text == old(Text) + Zeros(MessageBlockIndex - start)
      {
        Push(0);
      }
    }

    /** The 1 bit and the zeros, over one block or two. */
    method PadGap(ghost m: seq<Byte>)
      requires Shape() && Holds(m)
      modifies this`MessageBlockIndex, this`Done, this`Text, H, MessageBlock
      ensures Sound() && MessageBlockIndex == 56
      ensures Text == m + [0x80] + Zeros(Gap(|m|))
    {
      GapFromIndex(Done, MessageBlockIndex);
      if MessageBlockIndex > 55 {
        PadTwoBlocks();
      } else {
        Push(0x80);
        FillZeros(56);
      }
    }

    method PadTwoBlocks()
      requires Shape() && Sound() && 55 < MessageBlockIndex < 64
      modifies this`MessageBlockIndex, this`Done, this`Text, H, MessageBlock
      ensures Sound() && MessageBlockIndex == 56
      ensures Text == old(Text) + [0x80] + Zeros(119 - old(MessageBlockIndex))
    {
      ghost var n := 63 - MessageBlockIndex;
      Push(0x80);
      ghost var one := Text;
      FillZeros(64);
      Flush();
      ghost var full := Text;
      FillZeros(56);
      TwoGaps(one, full, n, Text);
    }

    method StoreLength()
      requires Shape()
      modifies MessageBlock
      ensures MessageBlock[..56] == old(MessageBlock[..56])
      ensures MessageBlock[56..] == EightOctets(LengthHigh * WORD_SIZE + LengthLow)
    {
      MessageBlock[56], MessageBlock[57] := LengthHigh / 0x100_0000 % 256, LengthHigh / 0x1_0000 % 256;
      MessageBlock[58], MessageBlock[59] := LengthHigh / 0x100 % 256, LengthHigh % 256;
      MessageBlock[60], MessageBlock[61] := LengthLow / 0x100_0000 % 256, LengthLow / 0x1_0000 % 256;
      MessageBlock[62], MessageBlock[63] := LengthLow / 0x100 % 256, LengthLow % 256;
      OctetsOfTwoWords(LengthHigh, LengthLow);
    }

    method PadMessage(ghost m: seq<Byte>)
      requires Shape() && Holds(m)
      modifies this`MessageBlockIndex, this`Done, this`Text, H, MessageBlock
      ensures HashWords() == Digest(m)
    {
      PadGap(m);
      StoreLength();
      LastBlock(m, Done, MessageBlock[..]);
      ProcessMessageBlock();
    }

    /** The digest, or nothing when the object is corrupted. */
    method Result() returns (digest: Option<Hash>)
      requires Valid()
      modifies this, H, MessageBlock
      ensures Valid() && Life == Asked(old(Life))
      ensures digest == if Life.Closed? then Some(Life.digest) else None
    {
      if Corrupted { return None; }
      if !Computed {
        PadMessage(Life.m);
        Computed := true;
        Life := Asked(Life);
      }
      digest := Some(Hash(H[0], H[1], H[2], H[3], H[4]));
    }
  }
}
