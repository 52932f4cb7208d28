/** The octets of a message, and what the reader makes of octets that are no message
    (btunnel/lib/encoding.cpp:12-37, btunnel/lib/peer_message.cpp:22-45). */
module BtunnelWire {
  import opened Words
  import opened YnetBuffer
  import opened BtunnelFraming
  import opened StreamCuts
  import opened BtunnelStream

  // ----- Network order --------------------------------------------------------

  /** The number that octets spell, the first one most significant. */
  function NetworkNumber(s: seq<byte>): nat {
    if s == [] then 0 else 256 * NetworkNumber(s[..|s| - 1]) + s[|s| - 1]
  }

  lemma TwoOctets(a: byte, b: byte)
    ensures NetworkNumber([a, b]) == 256 * a + b
  {
    assert [a, b][..1] == [a] && [a][..0] == [];
    assert NetworkNumber([a]) == a;
  }

  lemma FourOctets(a: byte, b: byte, c: byte, d: byte)
    ensures NetworkNumber([a, b, c, d]) == BigEndian(a, b, c, d)
  {
    assert [a, b, c, d][..3] == [a, b, c] && [a, b, c][..2] == [a, b];
    TwoOctets(a, b);
  }

  /** Written numbers are in network order, negative ones as their remainder modulo 2^32. */
  lemma WrittenInNetworkOrder(n: nat, v: int32)
    requires n < 0x1_0000
    ensures NetworkNumber(Be16(n)) == n
    ensures NetworkNumber(Be32(v)) == if v >= 0 then v as int else v + 0x1_0000_0000
  {
    TwoOctets(n / 256, n % 256);
    var u := if v >= 0 then v as int else v + 0x1_0000_0000;
    var s := Octets(u);
    assert s == [s[0], s[1], s[2], s[3]];
    FourOctets(s[0], s[1], s[2], s[3]);
    OctetsSpell(u);
  }

  /** And so are those that are read, as signed numbers of 16 and 32 bits. */
  lemma ReadInNetworkOrder(s: seq<byte>)
    ensures |s| == 2 ==> FromBe16(s) == NetworkNumber(s) - if s[0] >= 0x80 then 0x1_0000 else 0
    ensures |s| == 4 ==> FromBe32(s) == NetworkNumber(s) - if s[0] >= 0x80 then 0x1_0000_0000 else 0
  {
    if |s| == 2 {
      assert s == [s[0], s[1]];
      TwoOctets(s[0], s[1]);
    } else if |s| == 4 {
      assert s == [s[0], s[1], s[2], s[3]];
      FourOctets(s[0], s[1], s[2], s[3]);
    }
  }

  // ----- The layout of a message ----------------------------------------------

  /** A text behind its length in two octets. */
  ghost predicate Measured(s: seq<byte>, x: seq<byte>) {
    |s| == 2 + |x| && NetworkNumber(s[..2]) == |x| && s[2..] == x
  }

  lemma StringIsMeasured(x: seq<byte>)
    requires |x| < 0x1_0000
    ensures Measured(StringWire(x), x)
  {
    assert StringWire(x)[..2] == Be16(|x|);
    WrittenInNetworkOrder(|x|, 0);
  }

  /** Number, name, type and text record of a service behind 0x10; the number of a service behind
      0x11; numbers of service and session and the payload behind 0x20. */
  lemma WireLayout(m: Message) returns (texts: seq<seq<byte>>)
    requires Writable(m)
    ensures |Wire(m)| >= 5 && NetworkNumber(Wire(m)[1..5]) == if m.id >= 0 then m.id as int else m.id + 0x1_0000_0000
    ensures Wire(m) == Wire(m)[..1] + Wire(m)[1..5] + Wire(m)[5..]
    ensures match m
            case Register(_, name, kind, txt) =>
              && Wire(m)[0] == 0x10 && |texts| == 3 && Wire(m)[5..] == texts[0] + (texts[1] + texts[2])
              && Measured(texts[0], name) && Measured(texts[1], kind) && Measured(texts[2], txt)
            case Unregister(_) => Wire(m)[0] == 0x11 && |Wire(m)| == 5
            case Forward(_, session, payload) =>
              && Wire(m)[0] == 0x20 && |Wire(m)| >= 9
              && NetworkNumber(Wire(m)[5..9]) == (if session >= 0 then session as int else session + 0x1_0000_0000)
              && Measured(Wire(m)[9..], payload)
  {
    WrittenInNetworkOrder(0, m.id);
    texts := [];
    match m {
      case Register(id, name, kind, txt) =>
        texts := [StringWire(name), StringWire(kind), StringWire(txt)];
        StringIsMeasured(name);
        StringIsMeasured(kind);
        StringIsMeasured(txt);
        Behind(REGISTER, Be32(id), texts[0] + (texts[1] + texts[2]));
      case Unregister(id) =>
        assert Be32(id) + [] == Be32(id);
        Behind(UNREGISTER, Be32(id), []);
      case Forward(id, session, payload) =>
        StringIsMeasured(payload);
        WrittenInNetworkOrder(0, session);
        Behind(FORWARD, Be32(id), Be32(session) + StringWire(payload));
        Next(Wire(m), Be32(session), StringWire(payload));
    }
  }

  lemma Behind(t: byte, id: seq<byte>, rest: seq<byte>)
    requires |id| == 4
    ensures var w := [t] + (id + rest); w[0] == t && w[1..5] == id && w[5..] == rest && w == w[..1] + w[1..5] + w[5..]
  {
  }

  lemma Next(w: seq<byte>, a: seq<byte>, b: seq<byte>)
    requires |w| >= 5 && |a| == 4 && w[5..] == a + b
    ensures |w| >= 9 && w[5..9] == a && w[9..] == b
  {
    assert w[5..][..4] == a && w[5..][4..] == b;
  }

  /** What is refused for its length. */
  lemma LimitsInNumbers(m: Message)
    ensures Writable(m) <==>
      match m
      case Register(_, name, kind, txt) => |name| <= 1024 && |kind| <= 1024 && |txt| <= 8192
      case Unregister(_) => true
      case Forward(_, _, payload) => |payload| <= 1300
  {
  }

  // ----- What is no message ---------------------------------------------------

  /** The two octets of a length from -0x8000 to 0x7fff. */
  function LengthOctets(n: int): (s: seq<byte>)
    requires -0x8000 <= n < 0x8000
    ensures |s| == 2
  {
    Be16(if n >= 0 then n else n + 0x1_0000)
  }

  /** For every announced length: one above the limit is refused, zero or less runs into an assertion,
      and any other is waited for and then taken exactly. */
  lemma AnnouncedLength(n: int, rest: seq<byte>, max: nat)
    requires -0x8000 <= n < 0x8000
    ensures ParseString(LengthOctets(n) + rest, max) ==
      if n > max then Bad else if n <= 0 then Trap else if n <= |rest| then Done(rest[..n], 2 + n) else More
  {
    var s := LengthOctets(n) + rest;
    assert s[..2] == LengthOctets(n) && s[2..] == rest;
    if 0 < n <= |rest| { assert s[2..2 + n] == s[2..][..n]; }
  }

  lemma MessagesPassed(ms: seq<Message>, rest: seq<byte>, accept: Message -> bool)
    requires AllSendable(ms) && forall m :: m in ms ==> accept(m)
    ensures Progress(ParseMessage)
    ensures ReadLoop(ParseMessage, Stream(ms) + rest, accept) == After(ms, ReadLoop(ParseMessage, rest, accept))
  {
    PacketsFramed(ms, accept);
    LoopPastPackets(ParseMessage, Packets(ms), rest, accept);
    assert Packets(ms) + [] == Packets(ms);
    PacketsOfPrefix(ms, Packets(ms), []);
    assert ms[..|ms|] == ms;
  }

  /** Whole messages and then an octet that begins none: the loop hands on the messages, loses that
      octet and stops. */
  lemma StopsAtUnknownType(ms: seq<Message>, t: byte, rest: seq<byte>, accept: Message -> bool)
    requires AllSendable(ms) && (forall m :: m in ms ==> accept(m))
    requires t != 0x10 && t != 0x11 && t != 0x20
    ensures Progress(ParseMessage)
    ensures ReadLoop(ParseMessage, Stream(ms) + ([t] + rest), accept) == Loop(ms, rest, false)
  {
    MessagesPassed(ms, [t] + rest, accept);
    UnknownType(t, rest, accept);
    assert ms + [] == ms;
  }

  lemma UnknownType(t: byte, rest: seq<byte>, accept: Message -> bool)
    requires t != 0x10 && t != 0x11 && t != 0x20
    ensures Progress(ParseMessage)
    ensures ReadLoop(ParseMessage, [t] + rest, accept) == Loop([], rest, false)
  {
    assert ([t] + rest)[1..] == rest;
  }

  /** Whole messages of which the peer refuses the last: the loop hands on that one too, and stops
      behind it. */
  lemma StopsAtRefusal(ms: seq<Message>, last: Message, rest: seq<byte>, accept: Message -> bool)
    requires AllSendable(ms) && Sendable(last) && (forall m :: m in ms ==> accept(m)) && !accept(last)
    ensures Progress(ParseMessage)
    ensures ReadLoop(ParseMessage, Stream(ms) + (Wire(last) + rest), accept) == Loop(ms + [last], rest, false)
  {
    MessagesPassed(ms, Wire(last) + rest, accept);
    PacketFramed(last);
    TakenWhole(ParseMessage, PacketOf(last), rest, accept);
  }
}
