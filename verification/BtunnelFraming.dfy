/** Peer messages on the wire (btunnel/lib/encoding.cpp, btunnel/lib/peer_message.cpp). */
module BtunnelFraming {
  import opened YnetBuffer
  import Words
  import opened StreamCuts

  type int32 = i: int | -0x8000_0000 <= i < 0x8000_0000

  datatype Message =
    | Register(id: int32, name: seq<byte>, kind: seq<byte>, txt: seq<byte>)
    | Unregister(id: int32)
    | Forward(id: int32, session: int32, payload: seq<byte>)

  const REGISTER: byte := 0x10
  const UNREGISTER: byte := 0x11
  const FORWARD: byte := 0x20
  const MAX_NAME := 1024
  const MAX_TYPE := 1024
  const MAX_TEXT := 8 * 1024
  const MAX_BUFFER := 1300

  // ----- Writing ------------------------------------------------------------

  /** `htons` of a string length. */
  function Be16(n: nat): (s: seq<byte>)
    requires n < 0x1_0000
    ensures |s| == 2
  {
    [n / 256, n % 256]
  }

  /** `htonl` of a signed 32-bit number. */
  function Be32(v: int32): (s: seq<byte>)
    ensures |s| == 4
  {
    var u := if v >= 0 then v as int else v + 0x1_0000_0000;
    Words.Octets(u)
  }

  function StringWire(x: seq<byte>): (s: seq<byte>)
    requires |x| < 0x1_0000
    ensures |s| == 2 + |x|
  {
    Be16(|x|) + x
  }

  predicate Fits(x: seq<byte>, max: nat) {
    0 < |x| <= max
  }

  /** Strings within the limits, which is all that the writing functions check. */
  predicate Writable(m: Message) {
    match m
    case Register(_, name, kind, txt) => |name| <= MAX_NAME && |kind| <= MAX_TYPE && |txt| <= MAX_TEXT
    case Unregister(_) => true
    case Forward(_, _, payload) => |payload| <= MAX_BUFFER
  }

  /** Nonempty strings within the limits. */
  predicate Sendable(m: Message) {
    match m
    case Register(_, name, kind, txt) => Fits(name, MAX_NAME) && Fits(kind, MAX_TYPE) && Fits(txt, MAX_TEXT)
    case Unregister(_) => true
    case Forward(_, _, payload) => Fits(payload, MAX_BUFFER)
  }

  /** What `WriteRegister`, `WriteUnregister` and `WriteForward` write. */
  function Body(m: Message): seq<byte>
    requires Writable(m)
  {
    match m
    case Register(id, name, kind, txt) => Be32(id) + (StringWire(name) + (StringWire(kind) + StringWire(txt)))
    case Unregister(id) => Be32(id)
    case Forward(id, session, payload) => Be32(id) + (Be32(session) + StringWire(payload))
  }

  function TypeOf(m: Message): byte {
    if m.Register? then REGISTER else if m.Unregister? then UNREGISTER else FORWARD
  }

  function Wire(m: Message): seq<byte>
    requires Writable(m)
  {
    [TypeOf(m)] + Body(m)
  }

  // ----- Reading ------------------------------------------------------------

  // A length of zero or less runs into an assertion of the buffer (ynet/buffer.cpp:115),
  // which is the outcome `Trap`.

  function FromBe16(s: seq<byte>): int
    requires |s| == 2
  {
    var u := s[0] as int * 256 + s[1];
    if u < 0x8000 then u else u - 0x1_0000
  }

  function FromBe32(s: seq<byte>): int32
    requires |s| == 4
  {
    var u := Words.BigEndian(s[0], s[1], s[2], s[3]);
    if u < 0x8000_0000 then u else u - 0x1_0000_0000
  }

  function ParseInt32(s: seq<byte>): Parse<int32> {
    if |s| < 4 then More else Done(FromBe32(s[..4]), 4)
  }

  function ParseString(s: seq<byte>, max: nat): Parse<seq<byte>> {
    if |s| < 2 then More
    else
      var length := FromBe16(s[..2]);
      if length > max then Bad
      else if length <= 0 then Trap
      else if |s| < 2 + length then More
      else Done(s[2..2 + length], 2 + length)
  }

  function ParseUnregister(s: seq<byte>): Parse<Message> {
    match ParseInt32(s)
    case Done(id, n) => Done(Unregister(id), n)
    case r => More
  }

  function ParseForward(s: seq<byte>): Parse<Message> {
    match ParseInt32(s)
    case Done(id, _) => (
      match ParseInt32(s[4..])
      case Done(session, _) => (
        match ParseString(s[8..], MAX_BUFFER)
        case Done(payload, n) => Done(Forward(id, session, payload), 8 + n)
        case More => More
        case Bad => Bad
        case Trap => Trap)
      case r => More)
    case r => More
  }

  /** The text string of a `Register`, `n` bytes into its body.  A missing text record is accepted:
      the last test is `< 0`, not `<= 0` (btunnel/lib/peer_message.cpp:104). */
  function ParseText(s: seq<byte>, id: int32, name: seq<byte>, kind: seq<byte>, n: nat): Parse<Message> {
    match ParseString(s, MAX_TEXT)
    case Done(txt, t) => Done(Register(id, name, kind, txt), n + t)
    case More => Done(Register(id, name, kind, []), n)
    case Bad => Bad
    case Trap => Trap
  }

  /** The type and text strings of a `Register`, `n` bytes into its body. */
  function ParseTypeAndText(s: seq<byte>, id: int32, name: seq<byte>, n: nat): Parse<Message> {
    match ParseString(s, MAX_TYPE)
    case Done(kind, k) => ParseText(s[k..], id, name, kind, n + k)
    case More => More
    case Bad => Bad
    case Trap => Trap
  }

  /** The rest of a `Register` behind its id. */
  function ParseFromName(s: seq<byte>, id: int32): Parse<Message> {
    match ParseString(s, MAX_NAME)
    case Done(name, n) => ParseTypeAndText(s[n..], id, name, 4 + n)
    case More => More
    case Bad => Bad
    case Trap => Trap
  }

  function ParseRegister(s: seq<byte>): Parse<Message> {
    match ParseInt32(s)
    case Done(id, _) => ParseFromName(s[4..], id)
    case r => More
  }

  /** `MessageReader::Read`.  On a parse error the type byte is not pushed back. */
  function ParseMessage(s: seq<byte>): (r: Parse<Message>)
    ensures r.Done? ==> 1 < r.used <= |s|
    ensures s == [] ==> r == More
  {
    if s == [] then More
    else
      var r := if s[0] == REGISTER then ParseRegister(s[1..])
               else if s[0] == UNREGISTER then ParseUnregister(s[1..])
               else if s[0] == FORWARD then ParseForward(s[1..])
               else Bad;
      match r
      case Done(m, n) => Done(m, n + 1)
      case _ => r
  }

  // ----- Round trips --------------------------------------------------------

  lemma Be16RoundTrip(n: nat)
    requires n < 0x8000
    ensures FromBe16(Be16(n)) == n
  {
  }

  lemma Be32RoundTrip(v: int32)
    ensures FromBe32(Be32(v)) == v
  {
    var u := if v >= 0 then v as int else v + 0x1_0000_0000;
    Words.OctetsSpell(u);
  }

  /** `s` starts with `a + b`, or is cut off inside it: what that says about its two parts. */
  lemma PrefixParts(a: seq<byte>, b: seq<byte>, s: seq<byte>)
    ensures a + b <= s ==> a <= s && b <= s[|a|..]
    ensures s < a + b ==> s < a || (a <= s && s[|a|..] < b)
  {
    if a + b <= s {
      assert s[..|a|] == a;
      assert s[|a|..][..|b|] == s[|a|..|a| + |b|] == b;
    } else if s < a + b && |s| >= |a| {
      assert s == (a + b)[..|s|];
      assert s[..|a|] == a;
      assert s[|a|..] == b[..|s| - |a|];
    } else if s < a + b {
      assert s == (a + b)[..|s|] == a[..|s|];
    }
  }

  lemma DropDrop(s: seq<byte>, i: nat, n: nat)
    requires i + n <= |s|
    ensures s[i..][n..] == s[i + n..]
  {
  }

  lemma Int32Framing(v: int32, s: seq<byte>)
    ensures Be32(v) <= s ==> ParseInt32(s) == Done(v, 4)
    ensures s < Be32(v) ==> ParseInt32(s) == More
  {
    Be32RoundTrip(v);
    if Be32(v) <= s {
      assert s[..4] == Be32(v);
    }
  }

  /** A string reads back from its wire form and, cut short anywhere, asks for more. */
  lemma StringFraming(x: seq<byte>, max: nat, s: seq<byte>)
    requires Fits(x, max) && max < 0x8000
    ensures StringWire(x) <= s ==> ParseString(s, max) == Done(x, 2 + |x|)
    ensures s < StringWire(x) ==> ParseString(s, max) == More
  {
    Be16RoundTrip(|x|);
    PrefixParts(Be16(|x|), x, s);
    if |s| >= 2 && (StringWire(x) <= s || s < StringWire(x)) {
      assert s[..2] == Be16(|x|);
      if StringWire(x) <= s {
        assert s[2..2 + |x|] == s[2..][..|x|] == x;
      }
    }
  }

  /** How much of the wire form of a `Register` precedes its text record. */
  function TextAt(m: Message): nat
    requires m.Register?
  {
    1 + 4 + (2 + |m.name|) + (2 + |m.kind|)
  }

  lemma ForwardFraming(m: Message, s: seq<byte>)
    requires m.Forward? && Sendable(m)
    ensures Body(m) <= s ==> ParseForward(s) == Done(m, |Body(m)|)
    ensures s < Body(m) ==> ParseForward(s) == More
  {
    var rest := Be32(m.session) + StringWire(m.payload);
    PrefixParts(Be32(m.id), rest, s);
    Int32Framing(m.id, s);
    if |s| >= 4 {
      PrefixParts(Be32(m.session), StringWire(m.payload), s[4..]);
      Int32Framing(m.session, s[4..]);
      if |s| >= 8 {
        assert s[4..][4..] == s[8..];
        StringFraming(m.payload, MAX_BUFFER, s[8..]);
      }
    }
  }

  lemma TypeAndTextFraming(m: Message, s: seq<byte>, n: nat)
    requires m.Register? && Sendable(m)
    ensures var wire, k := StringWire(m.kind) + StringWire(m.txt), 2 + |m.kind|;
            && (wire <= s ==> ParseTypeAndText(s, m.id, m.name, n) == Done(m, n + |wire|))
            && (s < wire && |s| < k ==> ParseTypeAndText(s, m.id, m.name, n) == More)
            && (s < wire && |s| >= k ==> ParseTypeAndText(s, m.id, m.name, n) == Done(m.(txt := []), n + k))
  {
    var k := 2 + |m.kind|;
    PrefixParts(StringWire(m.kind), StringWire(m.txt), s);
    StringFraming(m.kind, MAX_TYPE, s);
    if |s| >= k {
      StringFraming(m.txt, MAX_TEXT, s[k..]);
    }
  }

  /** The id and name of a `Register`: what is read of them from a stream that starts with them and
      goes on with (part of) `tail`. */
  lemma IdAndNameFraming(id: int32, name: seq<byte>, tail: seq<byte>, s: seq<byte>)
    requires Fits(name, MAX_NAME)
    requires var wire := Be32(id) + (StringWire(name) + tail); wire <= s || s < wire
    ensures var n := 6 + |name|;
            if |s| < n then ParseRegister(s) == More
            else
              && ParseRegister(s) == ParseTypeAndText(s[n..], id, name, n)
              && (if n + |tail| <= |s| then tail <= s[n..] else s[n..] < tail)
  {
    PrefixParts(Be32(id), StringWire(name) + tail, s);
    Int32Framing(id, s);
    if |s| >= 4 {
      PrefixParts(StringWire(name), tail, s[4..]);
      StringFraming(name, MAX_NAME, s[4..]);
      if |s| >= 6 + |name| {
        DropDrop(s, 4, 2 + |name|);
      }
    }
  }

  lemma RegisterFraming(m: Message, s: seq<byte>)
    requires m.Register? && Sendable(m)
    ensures Body(m) <= s ==> ParseRegister(s) == Done(m, |Body(m)|)
    ensures s < Body(m) && |s| < TextAt(m) - 1 ==> ParseRegister(s) == More
    ensures s < Body(m) && |s| >= TextAt(m) - 1 ==> ParseRegister(s) == Done(m.(txt := []), TextAt(m) - 1)
  {
    if Body(m) <= s {
      RegisterWhole(m, s);
    } else if s < Body(m) {
      RegisterCut(m, s);
    }
  }

  lemma RegisterWhole(m: Message, s: seq<byte>)
    requires m.Register? && Sendable(m) && Body(m) <= s
    ensures ParseRegister(s) == Done(m, |Body(m)|)
  {
    var tail := RegisterParts(m);
    IdAndNameFraming(m.id, m.name, tail, s);
    RegisterTail(m, tail, s, 6 + |m.name|);
  }

  lemma RegisterCut(m: Message, s: seq<byte>)
    requires m.Register? && Sendable(m) && s < Body(m)
    ensures ParseRegister(s) == if |s| < TextAt(m) - 1 then More else Done(m.(txt := []), TextAt(m) - 1)
  {
    var tail := RegisterParts(m);
    IdAndNameFraming(m.id, m.name, tail, s);
    if |s| >= 6 + |m.name| { RegisterTail(m, tail, s, 6 + |m.name|); }
  }

  lemma RegisterParts(m: Message) returns (tail: seq<byte>)
    requires m.Register? && Sendable(m)
    ensures tail == StringWire(m.kind) + StringWire(m.txt)
    ensures Body(m) == Be32(m.id) + (StringWire(m.name) + tail) && |Body(m)| == 6 + |m.name| + |tail|
  {
    tail := StringWire(m.kind) + StringWire(m.txt);
  }

  lemma RegisterTail(m: Message, tail: seq<byte>, s: seq<byte>, n: nat)
    requires m.Register? && Sendable(m) && tail == StringWire(m.kind) + StringWire(m.txt)
    requires n == 6 + |m.name| <= |s| && ParseRegister(s) == ParseTypeAndText(s[n..], m.id, m.name, n)
    requires if n + |tail| <= |s| then tail <= s[n..] else s[n..] < tail
    ensures n + |tail| <= |s| ==> ParseRegister(s) == Done(m, n + |tail|)
    ensures |s| < n + |tail| && |s| < TextAt(m) - 1 ==> ParseRegister(s) == More
    ensures TextAt(m) - 1 <= |s| < n + |tail| ==> ParseRegister(s) == Done(m.(txt := []), TextAt(m) - 1)
  {
    TypeAndTextFraming(m, s[n..], n);
  }

  /** Framing round trip, and every strict prefix: a cut message is left untouched and waited
      for, except that a `Register` cut at or inside its text record is taken at once, without
      its text. */
  lemma MessageFraming(m: Message, s: seq<byte>)
    requires Sendable(m)
    ensures Wire(m) <= s ==> ParseMessage(s) == Done(m, |Wire(m)|)
    ensures s < Wire(m) && !(m.Register? && |s| >= TextAt(m)) ==> ParseMessage(s) == More
    ensures s < Wire(m) && m.Register? && |s| >= TextAt(m) ==> ParseMessage(s) == Done(m.(txt := []), TextAt(m))
  {
    PrefixParts([TypeOf(m)], Body(m), s);
    if s != [] && (Wire(m) <= s || s < Wire(m)) {
      assert s[0] == TypeOf(m);
      match m {
        case Register(_, _, _, _) => RegisterFraming(m, s[1..]);
        case Unregister(id) => Int32Framing(id, s[1..]);
        case Forward(_, _, _) => ForwardFraming(m, s[1..]);
      }
    }
  }
}
