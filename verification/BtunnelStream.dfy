/** Streams of peer messages cut into arbitrary chunks (the loop at btunnel/lib/core.cpp:82-86),
    and the way from the writer of one side to the reader of the other. */
module BtunnelStream {
  import opened YnetBuffer
  import opened BtunnelFraming
  import opened BtunnelWriter
  import opened StreamCuts
  import W = YnetWriter

  predicate AllSendable(ms: seq<Message>) {
    forall i :: 0 <= i < |ms| ==> Sendable(ms[i])
  }

  /** A message as a packet: a `Register` is taken too early when cut at or inside its text record. */
  function PacketOf(m: Message): Packet<byte, Message>
    requires Sendable(m)
  {
    if m.Register? then Packet(m, Wire(m), TextAt(m), m.(txt := [])) else Packet(m, Wire(m), |Wire(m)|, m)
  }

  function Packets(ms: seq<Message>): (ps: seq<Packet<byte, Message>>)
    requires AllSendable(ms)
    ensures |ps| == |ms|
  {
    if ms == [] then [] else [PacketOf(ms[0])] + Packets(ms[1..])
  }

  lemma PacketFramed(m: Message)
    requires Sendable(m)
    ensures Framed(ParseMessage, PacketOf(m))
  {
    var p := PacketOf(m);
    forall s | At(p, s)
      ensures p.wire <= s ==> ParseMessage(s) == Done(m, |p.wire|)
      ensures s < p.wire && |s| < p.gate ==> ParseMessage(s) == More
      ensures s < p.wire && |s| >= p.gate ==> ParseMessage(s) == Done(p.early, p.gate)
    {
      MessageFraming(m, s);
    }
  }

  lemma {:induction false} PacketsFramed(ms: seq<Message>, accept: Message -> bool)
    requires AllSendable(ms) && forall m :: m in ms ==> accept(m)
    ensures AllFramed(ParseMessage, accept, Packets(ms))
  {
    if ms != [] {
      var p, rest := PacketOf(ms[0]), Packets(ms[1..]);
      PacketFramed(ms[0]);
      PacketsFramed(ms[1..], accept);
      ConsFramed(p, rest, accept);
    }
  }

  lemma ConsFramed(p: Packet<byte, Message>, rest: seq<Packet<byte, Message>>, accept: Message -> bool)
    requires Framed(ParseMessage, p) && accept(p.msg) && AllFramed(ParseMessage, accept, rest)
    ensures AllFramed(ParseMessage, accept, [p] + rest)
  {
    assert ([p] + rest)[1..] == rest;
  }

  /** The bytes of a sequence of messages. */
  function Stream(ms: seq<Message>): seq<byte>
    requires AllSendable(ms)
  {
    Join(Packets(ms))
  }

  /** No chunk ends at or inside the text record of a `Register`. */
  predicate NoTextCut(ms: seq<Message>, chunks: seq<seq<byte>>)
    requires AllSendable(ms)
  {
    SafeCuts(Packets(ms), 0, chunks)
  }

  /** `received` is the messages `done` in full, followed by `tail`, a strict beginning of the next. */
  predicate WholeMessages(ms: seq<Message>, received: seq<byte>, done: seq<Message>, tail: seq<byte>)
    requires AllSendable(ms)
  {
    && done <= ms
    && received == Stream(done) + tail
    && (if |done| == |ms| then tail == [] else tail < Wire(ms[|done|]))
  }

  lemma SafelyFed(ms: seq<Message>, chunks: seq<seq<byte>>, accept: Message -> bool)
    requires AllSendable(ms) && Flatten(chunks) <= Stream(ms)
    requires (forall m :: m in ms ==> accept(m)) && NoTextCut(ms, chunks)
    ensures Progress(ParseMessage)
    ensures var l := Feed(ParseMessage, [], chunks, accept);
            !l.trapped && WholeMessages(ms, Flatten(chunks), l.msgs, l.rest)
  {
    var done, left, tail := SafelyFedPackets(ms, chunks, accept);
    PacketsOfPrefix(ms, done, left);
  }

  lemma SafelyFedPackets(ms: seq<Message>, chunks: seq<seq<byte>>, accept: Message -> bool)
    returns (done: seq<Packet<byte, Message>>, left: seq<Packet<byte, Message>>, tail: seq<byte>)
    requires AllSendable(ms) && Flatten(chunks) <= Stream(ms)
    requires (forall m :: m in ms ==> accept(m)) && NoTextCut(ms, chunks)
    ensures Progress(ParseMessage)
    ensures Packets(ms) == done + left && Flatten(chunks) == Join(done) + tail && Inside(left, tail)
    ensures Feed(ParseMessage, [], chunks, accept) == Loop(Messages(done), tail, false)
  {
    PacketsFramed(ms, accept);
    FirstWireNonempty(ms);
    assert [] + Flatten(chunks) == Flatten(chunks);
    done, left, tail := FeedSafely(ParseMessage, Packets(ms), [], chunks, accept);
  }

  lemma UnsafelyFed(ms: seq<Message>, chunks: seq<seq<byte>>, accept: Message -> bool)
    requires AllSendable(ms) && Flatten(chunks) <= Stream(ms)
    requires (forall m :: m in ms ==> accept(m)) && !NoTextCut(ms, chunks)
    ensures Progress(ParseMessage)
    ensures !(Feed(ParseMessage, [], chunks, accept).msgs <= ms)
  {
    PacketsFramed(ms, accept);
    FirstWireNonempty(ms);
    assert [] + Flatten(chunks) == Flatten(chunks);
    FeedUnsafely(ParseMessage, Packets(ms), [], chunks, accept);
    var msgs := Feed(ParseMessage, [], chunks, accept).msgs;
    if msgs <= ms {
      NeverWrong(ms, msgs);
    }
  }

  /** Fragmentation independence, with its exact condition: for every stream of messages and every
      way of cutting what has been received of it into chunks, the reader dispatches exactly the whole
      messages received, once and in order, and keeps the incomplete tail untouched, if and only if
      no chunk ends at or inside the text record of a `Register`. */
  lemma Fragmentation(ms: seq<Message>, chunks: seq<seq<byte>>, accept: Message -> bool)
    requires AllSendable(ms) && Flatten(chunks) <= Stream(ms)
    requires forall m :: m in ms ==> accept(m)
    ensures Progress(ParseMessage)
    ensures NoTextCut(ms, chunks) <==>
              var l := Feed(ParseMessage, [], chunks, accept);
              !l.trapped && WholeMessages(ms, Flatten(chunks), l.msgs, l.rest)
  {
    if NoTextCut(ms, chunks) {
      SafelyFed(ms, chunks, accept);
    } else {
      UnsafelyFed(ms, chunks, accept);
    }
  }

  lemma FirstWireNonempty(ms: seq<Message>)
    requires AllSendable(ms)
    ensures Inside(Packets(ms), [])
  {
    if ms != [] {
      assert |Wire(ms[0])| > 0;
    }
  }

  lemma {:induction false} PacketAt(ms: seq<Message>, i: nat)
    requires AllSendable(ms) && i < |ms|
    ensures Packets(ms)[i] == PacketOf(ms[i]) && Packets(ms)[i].msg == ms[i]
  {
    if i > 0 {
      PacketAt(ms[1..], i - 1);
    }
  }

  lemma PacketsOfPrefix(ms: seq<Message>, done: seq<Packet<byte, Message>>, left: seq<Packet<byte, Message>>)
    requires AllSendable(ms) && Packets(ms) == done + left
    ensures Messages(done) == ms[..|done|] && AllSendable(ms[..|done|])
    ensures Packets(ms[..|done|]) == done
    ensures left != [] ==> left[0] == PacketOf(ms[|done|])
  {
    var k := |done|;
    forall i | 0 <= i < k
      ensures Messages(done)[i] == ms[i] && Packets(ms[..k])[i] == done[i]
    {
      MessageAt(done, i);
      PacketAt(ms, i);
      PacketAt(ms[..k], i);
      assert (done + left)[i] == done[i];
    }
    if left != [] {
      PacketAt(ms, k);
      assert (done + left)[k] == left[0];
    }
  }

  lemma NeverWrong(ms: seq<Message>, msgs: seq<Message>)
    requires AllSendable(ms) && msgs <= ms
    ensures !GoesWrong(Packets(ms), msgs)
  {
    forall i | 0 <= i < |ms| && i < |msgs|
      ensures Packets(ms)[i].msg == msgs[i]
    {
      PacketAt(ms, i);
    }
  }

  lemma {:induction false} NoRegisterNoTextCut(ps: seq<Packet<byte, Message>>, n: nat, chunks: seq<seq<byte>>)
    requires forall i :: 0 <= i < |ps| ==> ps[i].gate == |ps[i].wire|
    ensures SafeCuts(ps, n, chunks)
    decreases |chunks|
  {
    if chunks != [] {
      FullGateIsSafe(ps, n + |chunks[0]|);
      NoRegisterNoTextCut(ps, n + |chunks[0]|, chunks[1..]);
    }
  }

  lemma {:induction false} FullGateIsSafe(ps: seq<Packet<byte, Message>>, n: nat)
    requires forall i :: 0 <= i < |ps| ==> ps[i].gate == |ps[i].wire|
    ensures SafeCut(ps, n)
  {
    if ps != [] && n >= |ps[0].wire| {
      FullGateIsSafe(ps[1..], n - |ps[0].wire|);
    }
  }

  /** From end to end: messages are written through the buffered writer, one `Write` call per field,
      in a run that may have got to any point and in which the descriptor takes any part of each
      write; the bytes sent so far arrive in any chunks.  The peer gets exactly the messages whose
      bytes have all been sent, once and in order, if and only if no chunk ends at or inside a
      `Register`'s text record; and all of the messages, on the same condition, once all calls have
      been made and the writer's buffer is empty. */
  lemma EndToEnd(ms: seq<Message>, es: seq<W.Event>, chunk: nat, chunks: seq<seq<byte>>, accept: Message -> bool)
    requires AllSendable(ms) && forall m :: m in ms ==> accept(m)
    requires chunk > 0 && W.Legal(W.EMPTY, es, chunk) && W.Calls(es) <= AllPieces(ms)
    requires Flatten(chunks) == W.Run(W.EMPTY, es, chunk).sent
    ensures Progress(ParseMessage)
    ensures var w, l := W.Run(W.EMPTY, es, chunk), Feed(ParseMessage, [], chunks, accept);
            && (NoTextCut(ms, chunks) <==> !l.trapped && WholeMessages(ms, w.sent, l.msgs, l.rest))
            && (W.Calls(es) == AllPieces(ms) && !w.buffered ==>
                  (NoTextCut(ms, chunks) <==> l == Loop(ms, [], false)))
  {
    var w := W.Run(W.EMPTY, es, chunk);
    SentSoFar(ms, es, chunk);
    Fragmentation(ms, chunks, accept);
    if W.Calls(es) == AllPieces(ms) && !w.buffered {
      var l := Feed(ParseMessage, [], chunks, accept);
      AllOrNotAll(ms, l.msgs, l.rest);
    }
  }

  /** And it comes to that: when all calls have been made and the descriptor then takes something each
      time it is called back, at most as many callbacks as there are bytes waiting send them all. */
  lemma EverythingArrives(ms: seq<Message>, es: seq<W.Event>, drain: seq<W.Event>, chunk: nat,
                          chunks: seq<seq<byte>>, accept: Message -> bool)
    requires AllSendable(ms) && forall m :: m in ms ==> accept(m)
    requires chunk > 0 && W.Legal(W.EMPTY, es, chunk) && W.Calls(es) == AllPieces(ms)
    requires W.Legal(W.Run(W.EMPTY, es, chunk), drain, chunk) && W.Willing(drain)
    requires var w := W.Run(W.EMPTY, es, chunk); |drain| >= |w.queue| || !W.Run(w, drain, chunk).registered
    requires Flatten(chunks) == W.Run(W.Run(W.EMPTY, es, chunk), drain, chunk).sent
    ensures Flatten(chunks) == Stream(ms)
    ensures Progress(ParseMessage)
    ensures NoTextCut(ms, chunks) <==> Feed(ParseMessage, [], chunks, accept) == Loop(ms, [], false)
  {
    W.Conservation(W.EMPTY, es, chunk);
    var w := W.Run(W.EMPTY, es, chunk);
    W.Conservation(w, drain, chunk);
    W.EverythingIsSent(w, drain, chunk);
    W.RunAppend(W.EMPTY, es, drain, chunk);
    W.CallsAppend(es, drain);
    SentSoFar(ms, es + drain, chunk);
    EndToEnd(ms, es + drain, chunk, chunks, accept);
  }

  /** Without a `Register` no cut does harm. */
  lemma EndToEndWithoutRegister(ms: seq<Message>, es: seq<W.Event>, chunk: nat, chunks: seq<seq<byte>>, accept: Message -> bool)
    requires AllSendable(ms) && (forall m :: m in ms ==> !m.Register? && accept(m))
    requires chunk > 0 && W.Legal(W.EMPTY, es, chunk) && W.Calls(es) <= AllPieces(ms)
    requires Flatten(chunks) == W.Run(W.EMPTY, es, chunk).sent
    ensures Progress(ParseMessage)
    ensures var w, l := W.Run(W.EMPTY, es, chunk), Feed(ParseMessage, [], chunks, accept);
            && !l.trapped && WholeMessages(ms, w.sent, l.msgs, l.rest)
            && (W.Calls(es) == AllPieces(ms) && !w.buffered ==> l.msgs == ms)
  {
    NoRegisterIsSafe(ms, chunks);
    EndToEnd(ms, es, chunk, chunks, accept);
  }

  lemma NoRegisterIsSafe(ms: seq<Message>, chunks: seq<seq<byte>>)
    requires AllSendable(ms) && forall m :: m in ms ==> !m.Register?
    ensures NoTextCut(ms, chunks)
  {
    forall i | 0 <= i < |ms|
      ensures Packets(ms)[i].gate == |Packets(ms)[i].wire|
    {
      PacketAt(ms, i);
      assert ms[i] in ms;
    }
    NoRegisterNoTextCut(Packets(ms), 0, chunks);
  }

  /** What the writer has sent when some of the calls have been made. */
  lemma SentSoFar(ms: seq<Message>, es: seq<W.Event>, chunk: nat)
    requires AllSendable(ms) && chunk > 0 && W.Legal(W.EMPTY, es, chunk) && W.Calls(es) <= AllPieces(ms)
    ensures var w := W.Run(W.EMPTY, es, chunk);
            w.sent <= Stream(ms) && (W.Calls(es) == AllPieces(ms) && !w.buffered ==> w.sent == Stream(ms))
  {
    var w := W.Run(W.EMPTY, es, chunk);
    W.Conservation(W.EMPTY, es, chunk);
    assert W.EMPTY.sent + W.EMPTY.queue + W.Input(es) == W.Input(es);
    InputIsCalls(es);
    FlattenPrefix(W.Calls(es), AllPieces(ms));
    AllPiecesMakeStream(ms);
  }

  lemma {:induction false} InputIsCalls(es: seq<W.Event>)
    ensures W.Input(es) == Flatten(W.Calls(es))
  {
    if es != [] {
      InputIsCalls(es[1..]);
      if es[0].Send? {
        assert ([es[0].data] + W.Calls(es[1..]))[1..] == W.Calls(es[1..]);
      } else {
        assert [] + W.Calls(es[1..]) == W.Calls(es[1..]);
      }
    }
  }

  lemma {:induction false} AllPiecesMakeStream(ms: seq<Message>)
    requires AllSendable(ms)
    ensures Flatten(AllPieces(ms)) == Stream(ms)
    ensures forall i :: 0 <= i < |AllPieces(ms)| ==> AllPieces(ms)[i] != []
    decreases |ms|
  {
    if ms == [] {
      NoPieces();
    } else {
      var front, m := ms[..|ms| - 1], ms[|ms| - 1];
      assert ms == front + [m];
      AllPiecesMakeStream(front);
      PiecesSnoc(front, m);
      PiecesMakeWire(m);
      FlattenAppend(AllPieces(front), Pieces(m));
      StreamSnoc(front, m);
    }
  }

  lemma StreamSnoc(front: seq<Message>, m: Message)
    requires AllSendable(front) && Sendable(m)
    ensures AllSendable(front + [m]) && Stream(front + [m]) == Stream(front) + Wire(m)
  {
    PacketsAppend(front, [m]);
    JoinAppend(Packets(front), Packets([m]));
    assert Packets([m]) == [PacketOf(m)];
    JoinOne(PacketOf(m));
  }

  lemma JoinOne<T, M>(p: Packet<T, M>)
    ensures Join([p]) == p.wire
  {
    assert [p][1..] == [] && p.wire + [] == p.wire;
  }

  lemma StreamStarts(ms: seq<Message>)
    requires AllSendable(ms) && ms != []
    ensures |Stream(ms)| >= |Wire(ms[0])|
  {
    assert Packets(ms)[0] == PacketOf(ms[0]);
  }

  lemma AllOrNotAll(ms: seq<Message>, done: seq<Message>, tail: seq<byte>)
    requires AllSendable(ms)
    ensures WholeMessages(ms, Stream(ms), done, tail) <==> done == ms && tail == []
  {
    if WholeMessages(ms, Stream(ms), done, tail) {
      AllReceived(ms, done, tail);
    } else {
      assert Stream(ms) + [] == Stream(ms);
    }
  }

  lemma AllReceived(ms: seq<Message>, done: seq<Message>, tail: seq<byte>)
    requires AllSendable(ms) && WholeMessages(ms, Stream(ms), done, tail)
    ensures done == ms
  {
    if |done| < |ms| {
      var left := ms[|done|..];
      assert done == ms[..|done|] && ms == done + left;
      StreamGoesOn(done, left);
    }
  }

  lemma StreamGoesOn(done: seq<Message>, left: seq<Message>)
    requires AllSendable(done) && AllSendable(left) && left != []
    ensures AllSendable(done + left) && |Stream(done + left)| >= |Stream(done)| + |Wire(left[0])|
  {
    StreamStarts(left);
    PacketsAppend(done, left);
    JoinAppend(Packets(done), Packets(left));
  }

  lemma PacketsAppend(a: seq<Message>, b: seq<Message>)
    requires AllSendable(a + b) && AllSendable(a) && AllSendable(b)
    ensures Packets(a + b) == Packets(a) + Packets(b)
  {
    forall i | 0 <= i < |a + b|
      ensures Packets(a + b)[i] == (Packets(a) + Packets(b))[i]
    {
      PacketAt(a + b, i);
      if i < |a| {
        PacketAt(a, i);
      } else {
        PacketAt(b, i - |a|);
      }
    }
  }
}
