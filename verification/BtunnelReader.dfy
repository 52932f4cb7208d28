/** The message reader over the circular buffer (btunnel/lib/encoding.cpp:12-37,
    btunnel/lib/peer_message.cpp:22-181, btunnel/lib/core.cpp:75-87).

    A reader takes bytes off the buffer and, when a message is not complete, pushes them back.
    As pushback fails across index 0, each contract says where the cursor ends up by how far the
    reader got (`Reach`), of which it keeps what the parser used. */
module BtunnelReader {
  import opened YnetBuffer
  import opened BtunnelFraming
  import opened StreamCuts

  function Used<T>(r: Parse<T>): nat {
    if r.Done? then r.used else 0
  }

  // ----- How far the readers get ----------------------------------------------

  function ReachInt32(s: seq<byte>): nat {
    if |s| < 4 then 0 else 4
  }

  function ReachString(s: seq<byte>, max: nat): nat {
    if |s| < 2 then 0
    else
      var length := FromBe16(s[..2]);
      if length > max || length <= 0 || |s| < 2 + length then 2 else 2 + length
  }

  function ReachForward(s: seq<byte>): nat {
    if |s| < 8 then ReachInt32(s) else 8 + ReachString(s[8..], MAX_BUFFER)
  }

  function ReachTypeAndText(s: seq<byte>): nat {
    var kind := ParseString(s, MAX_TYPE);
    if kind.Done? then kind.used + ReachString(s[kind.used..], MAX_TEXT) else ReachString(s, MAX_TYPE)
  }

  function ReachFromName(s: seq<byte>): nat {
    var name := ParseString(s, MAX_NAME);
    if name.Done? then name.used + ReachTypeAndText(s[name.used..]) else ReachString(s, MAX_NAME)
  }

  function ReachRegister(s: seq<byte>): nat {
    if |s| < 4 then 0 else 4 + ReachFromName(s[4..])
  }

  /** How many bytes `MessageReader::Read` has read when it stops reading. */
  function ReachMessage(s: seq<byte>): nat {
    if s == [] then 0
    else
      1 + if s[0] == REGISTER then ReachRegister(s[1..])
          else if s[0] == UNREGISTER then ReachInt32(s[1..])
          else if s[0] == FORWARD then ReachForward(s[1..])
          else 0
  }

  /** How many of them it keeps. */
  function Kept(s: seq<byte>): nat {
    var r := ParseMessage(s);
    if r.Bad? then 1 else Used(r)
  }

  lemma StringReach(s: seq<byte>, max: nat)
    ensures Used(ParseString(s, max)) <= ReachString(s, max) <= |s|
    ensures ParseString(s, max).Done? ==> ReachString(s, max) == ParseString(s, max).used
  {
  }

  // ----- The readers ----------------------------------------------------------

  // The ghost parameters of a reader are the buffer as it was when the message was begun and the
  // number of its bytes read since.

  /** `reach` bytes of `q` have been read, and all but `n` of them pushed back. */
  ghost predicate OnTape(buffer: Buffer, q: Ring<byte>, n: nat, reach: nat)
    reads buffer, buffer.cells
  {
    Good(q) && n <= reach <= |Queue(q)| && buffer.View() == Moved(q, n, reach)
  }

  /** What was in the buffer behind the first `n` bytes. */
  ghost function Rest(q: Ring<byte>, n: nat): seq<byte>
    requires Good(q) && n <= |Queue(q)|
  {
    Queue(q)[n..]
  }

  lemma RestDrop(q: Ring<byte>, n: nat, k: nat)
    requires Good(q) && n + k <= |Queue(q)|
    ensures k <= |Rest(q, n)| == |Queue(q)| - n && Rest(q, n)[k..] == Rest(q, n + k)
  {
  }

  method Take(buffer: Buffer, len: nat, ghost q: Ring<byte>, ghost n: nat) returns (ok: bool, bytes: seq<byte>)
    requires OnTape(buffer, q, n, n) && len > 0
    modifies buffer`start
    ensures ok <==> len <= |Rest(q, n)|
    ensures ok ==> bytes == Rest(q, n)[..len] && OnTape(buffer, q, n + len, n + len)
    ensures !ok ==> OnTape(buffer, q, n, n)
  {
    MovedOn(q, n, 0, 0);
    ok, bytes := buffer.Read(len);
    if ok {
      ReadingMoves(Moved(q, n, n), len);
      MovedOn(q, n, len, len);
    }
  }

  method PushBack(buffer: Buffer, len: nat, ghost q: Ring<byte>, ghost n: nat, ghost reach: nat)
    requires OnTape(buffer, q, n, reach) && 0 < len <= n
    modifies buffer`start
    ensures OnTape(buffer, q, n - len, reach)
  {
    MovedBack(q, n, reach, len);
    var ok := buffer.Unadvance(len);
  }

  method ReadInt32(buffer: Buffer, ghost q: Ring<byte>, ghost n: nat) returns (ok: bool, v: int32)
    requires OnTape(buffer, q, n, n)
    modifies buffer`start
    ensures ok <==> |Rest(q, n)| >= 4
    ensures ok ==> ParseInt32(Rest(q, n)) == Done(v, 4) && OnTape(buffer, q, n + 4, n + 4)
    ensures !ok ==> OnTape(buffer, q, n, n)
  {
    var bytes;
    ok, bytes := Take(buffer, 4, q, n);
    v := if ok then FromBe32(bytes) else 0;
  }

  method ReadString(buffer: Buffer, max: nat, ghost q: Ring<byte>, ghost n: nat) returns (r: Parse<seq<byte>>)
    requires OnTape(buffer, q, n, n) && max > 0
    modifies buffer`start
    ensures r == ParseString(Rest(q, n), max)
    ensures !r.Trap? ==> OnTape(buffer, q, n + Used(r), n + ReachString(Rest(q, n), max))
  {
    var ok, bytes := Take(buffer, 2, q, n);
    if !ok {
      return More;
    }
    RestDrop(q, n, 2);
    var length := FromBe16(bytes);
    if length > max {
      PushBack(buffer, 2, q, n + 2, n + 2);
      return Bad;
    }
    if length <= 0 {
      return Trap;
    }
    ok, bytes := Take(buffer, length, q, n + 2);
    if !ok {
      PushBack(buffer, 2, q, n + 2, n + 2);
      return More;
    }
    assert bytes == Rest(q, n)[2..2 + length];
    return Done(bytes, 2 + length);
  }

  method ReadForward(buffer: Buffer, ghost q: Ring<byte>, ghost n: nat) returns (r: Parse<Message>)
    requires OnTape(buffer, q, n, n)
    modifies buffer`start
    ensures r == ParseForward(Rest(q, n))
    ensures !r.Trap? ==> OnTape(buffer, q, n + Used(r), n + ReachForward(Rest(q, n)))
  {
    var ok, id := ReadInt32(buffer, q, n);
    if !ok {
      return More;
    }
    RestDrop(q, n, 4);
    var session;
    ok, session := ReadInt32(buffer, q, n + 4);
    if !ok {
      PushBack(buffer, 4, q, n + 4, n + 4);
      return More;
    }
    RestDrop(q, n, 8);
    var payload := ReadString(buffer, MAX_BUFFER, q, n + 8);
    if !payload.Done? {
      if !payload.Trap? {
        PushBack(buffer, 8, q, n + 8, n + ReachForward(Rest(q, n)));
      }
      return if payload.More? then More else if payload.Bad? then Bad else Trap;
    }
    StringReach(Rest(q, n + 8), MAX_BUFFER);
    return Done(Forward(id, session, payload.value), 8 + payload.used);
  }

  method ReadRegister(buffer: Buffer, ghost q: Ring<byte>, ghost n: nat) returns (r: Parse<Message>)
    requires OnTape(buffer, q, n, n)
    modifies buffer`start
    ensures r == ParseRegister(Rest(q, n))
    ensures !r.Trap? ==> OnTape(buffer, q, n + Used(r), n + ReachRegister(Rest(q, n)))
  {
    var ok, id := ReadInt32(buffer, q, n);
    if !ok {
      return More;
    }
    ghost var m := n + 4;
    RestDrop(q, n, 4);
    r := ReadFromName(buffer, id, q, m);
  }

  /** The rest of `ReadRegister`, after the id. */
  method ReadFromName(buffer: Buffer, id: int32, ghost q: Ring<byte>, ghost m: nat) returns (r: Parse<Message>)
    requires OnTape(buffer, q, m, m) && m >= 4
    modifies buffer`start
    ensures r == ParseFromName(Rest(q, m), id)
    ensures !r.Trap? ==> OnTape(buffer, q, m - 4 + Used(r), m + ReachFromName(Rest(q, m)))
  {
    var name := ReadString(buffer, MAX_NAME, q, m);
    StringReach(Rest(q, m), MAX_NAME);
    if !name.Done? {
      NoName(Rest(q, m), id);
      if !name.Trap? {
        PushBack(buffer, 4, q, m, m + ReachString(Rest(q, m), MAX_NAME));
      }
      return if name.More? then More else if name.Bad? then Bad else Trap;
    }
    ghost var m' := m + name.used;
    RestDrop(q, m, name.used);
    FromNameStep(Rest(q, m), id, name.value, name.used, Rest(q, m'));
    r := ReadTypeAndText(buffer, id, name.value, 4 + name.used, q, m');
  }

  lemma NoName(s: seq<byte>, id: int32)
    requires !ParseString(s, MAX_NAME).Done?
    ensures ReachFromName(s) == ReachString(s, MAX_NAME)
    ensures var name := ParseString(s, MAX_NAME);
            ParseFromName(s, id) == if name.More? then More else if name.Bad? then Bad else Trap
  {
  }

  lemma FromNameStep(s: seq<byte>, id: int32, name: seq<byte>, k: nat, rest: seq<byte>)
    requires ParseString(s, MAX_NAME) == Done(name, k) && rest == s[k..]
    ensures ParseFromName(s, id) == ParseTypeAndText(rest, id, name, 4 + k)
    ensures ReachFromName(s) == k + ReachTypeAndText(rest)
  {
  }

  /** The rest of `ReadRegister`, after `nbytes` bytes. */
  method ReadTypeAndText(buffer: Buffer, id: int32, name: seq<byte>, nbytes: nat, ghost q: Ring<byte>, ghost m: nat)
    returns (r: Parse<Message>)
    requires OnTape(buffer, q, m, m) && 0 < nbytes <= m
    modifies buffer`start
    ensures r == ParseTypeAndText(Rest(q, m), id, name, nbytes)
    ensures !r.Trap? ==> OnTape(buffer, q, m - nbytes + Used(r), m + ReachTypeAndText(Rest(q, m)))
  {
    var kind := ReadString(buffer, MAX_TYPE, q, m);
    StringReach(Rest(q, m), MAX_TYPE);
    if !kind.Done? {
      NoType(Rest(q, m), id, name, nbytes);
      if !kind.Trap? {
        PushBack(buffer, nbytes, q, m, m + ReachString(Rest(q, m), MAX_TYPE));
      }
      return if kind.More? then More else if kind.Bad? then Bad else Trap;
    }
    ghost var m' := m + kind.used;
    RestDrop(q, m, kind.used);
    TypeStep(Rest(q, m), id, name, nbytes, kind.value, kind.used, Rest(q, m'));
    r := ReadText(buffer, id, name, kind.value, nbytes + kind.used, q, m');
  }

  lemma NoType(s: seq<byte>, id: int32, name: seq<byte>, n: nat)
    requires !ParseString(s, MAX_TYPE).Done?
    ensures ReachTypeAndText(s) == ReachString(s, MAX_TYPE)
    ensures var kind := ParseString(s, MAX_TYPE);
            ParseTypeAndText(s, id, name, n) == if kind.More? then More else if kind.Bad? then Bad else Trap
  {
  }

  lemma TypeStep(s: seq<byte>, id: int32, name: seq<byte>, n: nat, kind: seq<byte>, k: nat, rest: seq<byte>)
    requires ParseString(s, MAX_TYPE) == Done(kind, k) && rest == s[k..]
    ensures ParseTypeAndText(s, id, name, n) == ParseText(rest, id, name, kind, n + k)
    ensures ReachTypeAndText(s) == k + ReachString(rest, MAX_TEXT)
  {
  }

  /** The end of `ReadRegister`. */
  method ReadText(buffer: Buffer, id: int32, name: seq<byte>, kind: seq<byte>, nbytes: nat, ghost q: Ring<byte>, ghost m: nat)
    returns (r: Parse<Message>)
    requires OnTape(buffer, q, m, m) && 0 < nbytes <= m
    modifies buffer`start
    ensures r == ParseText(Rest(q, m), id, name, kind, nbytes)
    ensures !r.Trap? ==> OnTape(buffer, q, m - nbytes + Used(r), m + ReachString(Rest(q, m), MAX_TEXT))
  {
    var txt := ReadString(buffer, MAX_TEXT, q, m);
    StringReach(Rest(q, m), MAX_TEXT);
    if txt.Trap? {
      return Trap;
    }
    if txt.Bad? {
      PushBack(buffer, nbytes, q, m, m + ReachString(Rest(q, m), MAX_TEXT));
      return Bad;
    }
    return Done(Register(id, name, kind, if txt.Done? then txt.value else []), nbytes + Used(txt));
  }

  /** `MessageReader::Read`: what it reads, what it keeps, and where it leaves the cursor. */
  method ReadMessage(buffer: Buffer) returns (r: Parse<Message>)
    requires buffer.Valid()
    modifies buffer`start
    ensures var s := old(buffer.Contents());
            && r == ParseMessage(s)
            && (!r.Trap? ==> buffer.View() == Moved(old(buffer.View()), Kept(s), ReachMessage(s)))
  {
    ghost var q := buffer.View();
    ghost var s := Rest(q, 0);
    var ok, bytes := Take(buffer, 1, q, 0);
    if !ok {
      return More;
    }
    RestDrop(q, 0, 1);
    if bytes[0] == REGISTER {
      r := ReadRegister(buffer, q, 1);
    } else if bytes[0] == UNREGISTER {
      var ok, id := ReadInt32(buffer, q, 1);
      r := if ok then Done(Unregister(id), 4) else More;
    } else if bytes[0] == FORWARD {
      r := ReadForward(buffer, q, 1);
    } else {
      return Bad;
    }
    if r.More? {
      PushBack(buffer, 1, q, 1, ReachMessage(s));
      return More;
    }
    if r.Done? {
      r := Done(r.value, r.used + 1);
    }
  }

  lemma ForwardReach(s: seq<byte>)
    ensures Used(ParseForward(s)) <= ReachForward(s) <= |s|
  {
    if |s| >= 8 {
      StringReach(s[8..], MAX_BUFFER);
    }
  }

  lemma TypeAndTextReach(s: seq<byte>, id: int32, name: seq<byte>, n: nat)
    ensures Used(ParseTypeAndText(s, id, name, n)) <= n + ReachTypeAndText(s) <= n + |s|
  {
    StringReach(s, MAX_TYPE);
    var kind := ParseString(s, MAX_TYPE);
    if kind.Done? {
      StringReach(s[kind.used..], MAX_TEXT);
    }
  }

  lemma FromNameReach(s: seq<byte>, id: int32)
    ensures Used(ParseFromName(s, id)) <= 4 + ReachFromName(s) <= 4 + |s|
  {
    StringReach(s, MAX_NAME);
    var name := ParseString(s, MAX_NAME);
    if name.Done? {
      TypeAndTextReach(s[name.used..], id, name.value, 4 + name.used);
    }
  }

  lemma RegisterReach(s: seq<byte>)
    ensures Used(ParseRegister(s)) <= ReachRegister(s) <= |s|
  {
    if |s| >= 4 {
      FromNameReach(s[4..], FromBe32(s[..4]));
    }
  }

  /** How far reading a message gets is at least what is kept and at most what is there. */
  lemma MessageReach(s: seq<byte>)
    ensures Kept(s) <= ReachMessage(s) <= |s|
  {
    if s != [] {
      RegisterReach(s[1..]);
      ForwardReach(s[1..]);
    }
  }

  /** Reading one message leaves the buffer fit for use if and only if what was pushed back at
      the end does not include the buffer's last cell; exactly the bytes kept are then gone. */
  lemma ReadMessageIsSafe(q: Ring<byte>)
    requires Good(q)
    ensures var s := Queue(q);
            var q' := Moved(q, Kept(s), ReachMessage(s));
            && (Good(q') <==> !(q.start + Kept(s) < |q.cells| <= q.start + ReachMessage(s)))
            && (Good(q') ==> Queue(q') == s[Kept(s)..])
  {
    MessageReach(Queue(q));
    MovedIsGood(q, Kept(Queue(q)), ReachMessage(Queue(q)));
  }

  lemma LoneType(s: seq<byte>)
    requires |s| == 1 && s[0] == FORWARD
    ensures Kept(s) == 0 && ReachMessage(s) == 1
  {
    assert s[1..] == [];
  }

  /** It is not always: a type byte in the last cell, alone. */
  lemma PushbackCanBreak() returns (q: Ring<byte>)
    ensures Good(q) && Queue(q) == [FORWARD]
    ensures !Good(Moved(q, Kept(Queue(q)), ReachMessage(Queue(q))))
  {
    q := Ring([0, FORWARD], 1, 0);
    assert Queue(q) == [FORWARD];
    LoneType([FORWARD]);
  }

  // ----- The receiving loop over the buffer -----------------------------------

  lemma ParserProgress()
    ensures Progress(ParseMessage)
  {
  }

  /** As long as what waits does not wrap around the cells, no pushback does harm. */
  method ReadUnwrapped(buffer: Buffer) returns (r: Parse<Message>)
    requires buffer.Valid() && buffer.start <= buffer.end
    modifies buffer`start
    ensures var s := old(buffer.Contents());
            && r == ParseMessage(s)
            && (!r.Trap? ==> buffer.Valid() && buffer.start <= buffer.end)
            && (r.More? ==> buffer.Contents() == s)
            && (r.Bad? ==> s != [] && buffer.Contents() == s[1..])
            && (r.Done? ==> buffer.Contents() == s[r.used..])
  {
    ghost var q, s := buffer.View(), buffer.Contents();
    r := ReadMessage(buffer);
    MessageReach(s);
    MovedIsGood(q, Kept(s), ReachMessage(s));
  }

  /** The loop of `Core::Read`; `accept` says for each message whether the peer behind the reader
      takes it. */
  method ReadMessages(buffer: Buffer, accept: Message -> bool) returns (msgs: seq<Message>, trapped: bool)
    requires buffer.Valid() && buffer.start <= buffer.end
    modifies buffer`start
    ensures Progress(ParseMessage)
    ensures var l := ReadLoop(ParseMessage, old(buffer.Contents()), accept);
            && msgs == l.msgs && trapped == l.trapped
            && (!trapped ==> buffer.Valid() && buffer.start <= buffer.end && buffer.Contents() == l.rest)
  {
    ParserProgress();
    msgs, trapped := [], false;
    ghost var whole := ReadLoop(ParseMessage, buffer.Contents(), accept);
    NothingBefore(whole);
    var going := true;
    while going
      invariant !trapped ==> buffer.Valid() && buffer.start <= buffer.end
      invariant going ==> !trapped && whole == After(msgs, ReadLoop(ParseMessage, buffer.Contents(), accept))
      invariant !going ==> msgs == whole.msgs && trapped == whole.trapped
      invariant !going && !trapped ==> buffer.Contents() == whole.rest
      decreases if trapped then 0 else |buffer.Contents()|, going
    {
      ghost var s := buffer.Contents();
      var r := ReadUnwrapped(buffer);
      LoopStep(ParseMessage, s, accept, msgs);
      match r {
        case Done(m, n) =>
          going := accept(m);
          msgs := msgs + [m];
        case Trap =>
          trapped, going := true, false;
        case _ =>
          going := false;
      }
    }
  }

  /** The chunks of a stream arrive in the buffer one by one, and the loop runs after each.  While
      they do not reach the end of the cells, the buffer and the loop are `Feed`. */
  method Receive(buffer: Buffer, chunks: seq<seq<byte>>, accept: Message -> bool) returns (msgs: seq<Message>, trapped: bool)
    requires buffer.Valid() && buffer.start <= buffer.end
    requires buffer.end + |Flatten(chunks)| <= buffer.Capacity()
    modifies buffer, buffer.cells
    ensures Progress(ParseMessage)
    ensures var l := Feed(ParseMessage, old(buffer.Contents()), chunks, accept);
            && msgs == l.msgs && trapped == l.trapped
            && (!trapped ==> buffer.Valid() && buffer.Contents() == l.rest)
    decreases |chunks|
  {
    ParserProgress();
    if chunks == [] {
      return [], false;
    }
    var ok := buffer.Write(chunks[0]);
    msgs, trapped := ReadMessages(buffer, accept);
    if !trapped {
      var more;
      more, trapped := Receive(buffer, chunks[1..], accept);
      msgs := msgs + more;
    }
  }
}
