/** The message writer (btunnel/lib/encoding.cpp:39-57, btunnel/lib/peer_message.cpp:112-203,
    btunnel/lib/peer.cpp:44-87): which `Write` calls it makes, also when it fails on the way. */
module BtunnelWriter {
  import opened Texts
  import opened YnetBuffer
  import opened BtunnelFraming
  import opened StreamCuts

  /** The calls of `WriteString`: none for a string that is too long. */
  function StringCalls(x: seq<byte>, max: nat): seq<seq<byte>>
    requires max < 0x8000
  {
    if |x| > max then [] else [Be16(|x|), x]
  }

  /** The calls for the fields of a message, up to the first string that is too long. */
  function BodyCalls(m: Message): seq<seq<byte>> {
    match m
    case Register(id, name, kind, txt) =>
      [Be32(id)] + (StringCalls(name, MAX_NAME) + if |name| > MAX_NAME then [] else
                    (StringCalls(kind, MAX_TYPE) + if |kind| > MAX_TYPE then [] else StringCalls(txt, MAX_TEXT)))
    case Unregister(id) => [Be32(id)]
    case Forward(id, session, payload) => [Be32(id)] + ([Be32(session)] + StringCalls(payload, MAX_BUFFER))
  }

  /** All the `Write` calls that sending a message makes. */
  function Pieces(m: Message): seq<seq<byte>> {
    [[TypeOf(m)]] + BodyCalls(m)
  }

  lemma FlattenCons<T>(a: seq<T>, rest: seq<seq<T>>)
    ensures Flatten([a] + rest) == a + Flatten(rest)
    ensures rest == [] ==> Flatten([a]) == a
  {
    assert ([a] + rest)[1..] == rest;
    if rest == [] {
      assert [a] + rest == [a] && a + [] == a;
    }
  }

  lemma FlattenPair<T>(a: seq<T>, b: seq<T>)
    ensures Flatten([a, b]) == a + b
  {
    FlattenCons(b, []);
    FlattenCons(a, [b]);
    assert [a, b] == [a] + [b];
  }

  lemma StringCallsMakeWire(x: seq<byte>, max: nat)
    requires |x| <= max < 0x8000
    ensures Flatten(StringCalls(x, max)) == StringWire(x)
    ensures x != [] ==> forall i :: 0 <= i < |StringCalls(x, max)| ==> StringCalls(x, max)[i] != []
  {
    FlattenPair(Be16(|x|), x);
  }

  /** A message within the limits is written as its wire form. */
  lemma BodyCallsMakeBody(m: Message)
    requires Writable(m)
    ensures Flatten(BodyCalls(m)) == Body(m)
  {
    match m {
      case Register(id, name, kind, txt) =>
        StringCallsMakeWire(name, MAX_NAME);
        StringCallsMakeWire(kind, MAX_TYPE);
        StringCallsMakeWire(txt, MAX_TEXT);
        FlattenAppend(StringCalls(kind, MAX_TYPE), StringCalls(txt, MAX_TEXT));
        FlattenAppend(StringCalls(name, MAX_NAME), StringCalls(kind, MAX_TYPE) + StringCalls(txt, MAX_TEXT));
        FlattenCons(Be32(id), StringCalls(name, MAX_NAME) + (StringCalls(kind, MAX_TYPE) + StringCalls(txt, MAX_TEXT)));
      case Unregister(id) => FlattenCons(Be32(id), []);
      case Forward(id, session, payload) =>
        StringCallsMakeWire(payload, MAX_BUFFER);
        FlattenCons(Be32(session), StringCalls(payload, MAX_BUFFER));
        FlattenCons(Be32(id), [Be32(session)] + StringCalls(payload, MAX_BUFFER));
    }
  }

  /** Together the calls are the wire form, and for nonempty strings each hands over at least one
      byte, as the writer demands. */
  lemma PiecesMakeWire(m: Message)
    requires Writable(m)
    ensures Flatten(Pieces(m)) == Wire(m)
    ensures Sendable(m) ==> forall i :: 0 <= i < |Pieces(m)| ==> Pieces(m)[i] != []
  {
    BodyCallsMakeBody(m);
    FlattenCons([TypeOf(m)], BodyCalls(m));
  }

  /** What ynet/buffer.h:30-38 promises of a `WriteBuffer`, and the calls made on it. */
  class WriteBuffer {
    var data: seq<byte>
    ghost var calls: seq<seq<byte>>

    ghost predicate Valid()
      reads this
    {
      data == Flatten(calls)
    }

    constructor ()
      ensures Valid() && calls == []
    {
      data, calls := [], [];
    }

    method Write(bytes: seq<byte>) returns (ok: bool)
      requires Valid()
      modifies this
      ensures ok && Valid() && calls == old(calls) + [bytes]
    {
      data := data + bytes;
      FlattenAppend(calls, [bytes]);
      FlattenCons(bytes, []);
      calls := calls + [bytes];
      return true;
    }
  }

  method WriteString(buffer: WriteBuffer, max: nat, output: seq<byte>) returns (n: int)
    requires buffer.Valid() && 0 < max < 0x8000
    modifies buffer
    ensures buffer.Valid() && buffer.calls == old(buffer.calls) + StringCalls(output, max)
    ensures n == if |output| > max then -1 else 2 + |output|
  {
    if |output| > max {
      return -1;
    }
    var ok := buffer.Write(Be16(|output|));
    ok := buffer.Write(output);
    return 2 + |output|;
  }

  method WriteForward(buffer: WriteBuffer, m: Message) returns (n: int)
    requires buffer.Valid() && m.Forward?
    modifies buffer
    ensures buffer.Valid() && buffer.calls == old(buffer.calls) + BodyCalls(m)
    ensures n == if Writable(m) then |Body(m)| else -1
  {
    var ok := buffer.Write(Be32(m.id));
    ok := buffer.Write(Be32(m.session));
    var ret := WriteString(buffer, MAX_BUFFER, m.payload);
    if ret <= 0 {
      return -1;
    }
    return 4 + 4 + ret;
  }

  method WriteRegister(buffer: WriteBuffer, m: Message) returns (n: int)
    requires buffer.Valid() && m.Register?
    modifies buffer
    ensures buffer.Valid() && buffer.calls == old(buffer.calls) + BodyCalls(m)
    ensures n == if Writable(m) then |Body(m)| else -1
  {
    var ok := buffer.Write(Be32(m.id));
    var ret := WriteString(buffer, MAX_NAME, m.name);
    if ret <= 0 {
      return -1;
    }
    n := 4 + ret;
    ret := WriteString(buffer, MAX_TYPE, m.kind);
    if ret <= 0 {
      return -1;
    }
    n := n + ret;
    ret := WriteString(buffer, MAX_TEXT, m.txt);
    if ret <= 0 {
      return -1;
    }
    return n + ret;
  }

  /** `PeerMessageWriter`: the type byte, then the body.  On failure what was written stays. */
  method Send(buffer: WriteBuffer, m: Message) returns (ok: bool)
    requires buffer.Valid()
    modifies buffer
    ensures buffer.Valid() && buffer.calls == old(buffer.calls) + Pieces(m)
    ensures ok <==> Writable(m)
  {
    Reassociate(buffer.calls, [[TypeOf(m)]], BodyCalls(m));
    ok := buffer.Write([TypeOf(m)]);
    var n := WriteBody(buffer, m);
    return n >= 0;
  }

  method WriteBody(buffer: WriteBuffer, m: Message) returns (n: int)
    requires buffer.Valid()
    modifies buffer
    ensures buffer.Valid() && buffer.calls == old(buffer.calls) + BodyCalls(m)
    ensures n == if Writable(m) then |Body(m)| else -1
  {
    match m {
      case Register(_, _, _, _) => n := WriteRegister(buffer, m);
      case Unregister(id) =>
        var ok := buffer.Write(Be32(id));
        n := 4;
      case Forward(_, _, _) => n := WriteForward(buffer, m);
    }
  }

  /** All the `Write` calls for a sequence of messages. */
  function AllPieces(ms: seq<Message>): seq<seq<byte>>
    decreases |ms|, 1
  {
    AllPiecesLast(ms)
  }

  function AllPiecesLast(ms: seq<Message>): seq<seq<byte>>
    decreases |ms|, 0
  {
    if ms == [] then [] else AllPieces(ms[..|ms| - 1]) + Pieces(ms[|ms| - 1])
  }

  lemma NoPieces()
    ensures AllPieces([]) == []
  {
    assert AllPiecesLast([]) == [];
  }

  lemma PiecesSnoc(ms: seq<Message>, m: Message)
    ensures AllPieces(ms + [m]) == AllPieces(ms) + Pieces(m)
  {
    assert (ms + [m])[..|ms|] == ms;
    assert AllPieces(ms + [m]) == AllPiecesLast(ms + [m]);
  }

  /** One message of a sequence, the ones before it having been sent. */
  method SendNext(buffer: WriteBuffer, ms: seq<Message>, i: nat, ghost before: seq<seq<byte>>) returns (ok: bool)
    requires buffer.Valid() && i < |ms| && buffer.calls == before + AllPieces(ms[..i])
    modifies buffer
    ensures buffer.Valid() && buffer.calls == before + AllPieces(ms[..i + 1])
    ensures ok <==> Writable(ms[i])
  {
    NextPieces(ms, i, before);
    ok := Send(buffer, ms[i]);
  }

  lemma NextPieces(ms: seq<Message>, i: nat, before: seq<seq<byte>>)
    requires i < |ms|
    ensures (before + AllPieces(ms[..i])) + Pieces(ms[i]) == before + AllPieces(ms[..i + 1])
  {
    FrontGrows(ms, i);
    PiecesSnoc(ms[..i], ms[i]);
    Reassociate(before, AllPieces(ms[..i]), Pieces(ms[i]));
  }

  lemma FrontGrows<T>(s: seq<T>, i: nat)
    requires i < |s|
    ensures s[..i] + [s[i]] == s[..i + 1]
  {
  }

  lemma FrontOf<T>(s: seq<T>)
    ensures s[..0] == [] && s[..|s|] == s
  {
  }

  predicate AllWritable(ms: seq<Message>) {
    forall i :: 0 <= i < |ms| ==> Writable(ms[i])
  }

  lemma OneMoreWritable(ms: seq<Message>, i: nat)
    requires i < |ms|
    ensures AllWritable(ms[..i]) && Writable(ms[i]) ==> AllWritable(ms[..i + 1])
    ensures !Writable(ms[i]) ==> !AllWritable(ms)
  {
  }

  /** The loop over the local services (btunnel/lib/core.cpp:38-66), which stops the program when
      one cannot be registered. */
  method RegisterAll(buffer: WriteBuffer, services: seq<Message>) returns (ok: bool)
    requires buffer.Valid()
    modifies buffer
    ensures buffer.Valid()
    ensures ok <==> AllWritable(services)
    ensures ok ==> buffer.calls == old(buffer.calls) + AllPieces(services)
  {
    FrontOf(services);
    NoPieces();
    for i := 0 to |services|
      invariant buffer.Valid() && buffer.calls == old(buffer.calls) + AllPieces(services[..i])
      invariant AllWritable(services[..i])
    {
      OneMoreWritable(services, i);
      ok := SendNext(buffer, services, i, old(buffer.calls));
      if !ok {
        return false;
      }
    }
    return true;
  }
}
