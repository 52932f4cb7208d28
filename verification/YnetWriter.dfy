/** The buffered writer over a non-blocking descriptor (ynet/buffered_writer.cpp).

    `write()` takes any number of the bytes offered, including none; each call's answer is a
    parameter.  `sent` is everything it has taken so far. */
module YnetWriter {
  import opened YnetBuffer

  datatype Writer = Writer(sent: seq<byte>, queue: seq<byte>, buffered: bool, registered: bool)

  const EMPTY: Writer := Writer([], [], false, false)

  function Min(a: nat, b: nat): nat {
    if a < b then a else b
  }

  /** The answers of successive `write()` calls; running out of them means that the
      descriptor would block. */
  function Answer(script: seq<nat>, offered: nat): nat {
    if script == [] then 0 else Min(script[0], offered)
  }

  function Later(script: seq<nat>): seq<nat> {
    if script == [] then [] else script[1..]
  }

  function Written(w: Writer, data: seq<byte>, answer: nat): Writer {
    if w.buffered then w.(queue := w.queue + data)
    else
      var n := Min(answer, |data|);
      var w' := w.(sent := w.sent + data[..n]);
      if n == |data| then w' else w'.(queue := w.queue + data[n..], buffered := true, registered := true)
  }

  /** How many bytes a drain loop has got out, with `done` out and `size` left to offer in
      chunks of `chunk` bytes. */
  function Drained(done: nat, size: nat, chunk: nat, script: seq<nat>): (n: nat)
    requires chunk > 0
    ensures done <= n <= done + size
    decreases size, 1
  {
    DrainedFrom(done, size, chunk, script)
  }

  function DrainedFrom(done: nat, size: nat, chunk: nat, script: seq<nat>): (n: nat)
    requires chunk > 0
    ensures done <= n <= done + size
    decreases size, 0
  {
    if size == 0 then done
    else
      var offered := Min(size, chunk);
      var n := Answer(script, offered);
      if n != offered then done + n else Drained(done + n, size - n, chunk, Later(script))
  }

  function Flushed(w: Writer, chunk: nat, script: seq<nat>): Writer
    requires chunk > 0
  {
    var n := Drained(0, |w.queue|, chunk, script);
    var more := n < |w.queue|;
    Writer(w.sent + w.queue[..n], w.queue[n..], more && w.buffered, more && w.registered)
  }

  /** The flag, the registration with `Select` and a nonempty queue go together. */
  predicate WriterOk(w: Writer) {
    (w.buffered <==> w.queue != []) && (w.registered <==> w.buffered)
  }

  datatype Event = Send(data: seq<byte>, answer: nat) | Ready(script: seq<nat>)

  /** Data is nonempty (the assertion at line 42), and `Select` calls back registered
      descriptors only. */
  predicate Allowed(w: Writer, e: Event) {
    if e.Send? then e.data != [] else w.registered
  }

  function Step(w: Writer, e: Event, chunk: nat): Writer
    requires chunk > 0
  {
    match e
    case Send(data, answer) => Written(w, data, answer)
    case Ready(script) => Flushed(w, chunk, script)
  }

  predicate Legal(w: Writer, es: seq<Event>, chunk: nat)
    requires chunk > 0
    decreases |es|
  {
    es == [] || (Allowed(w, es[0]) && Legal(Step(w, es[0], chunk), es[1..], chunk))
  }

  function Run(w: Writer, es: seq<Event>, chunk: nat): Writer
    requires chunk > 0
    decreases |es|
  {
    if es == [] then w else Run(Step(w, es[0], chunk), es[1..], chunk)
  }

  /** Everything handed to `Write`, in order. */
  function Input(es: seq<Event>): seq<byte> {
    if es == [] then [] else (if es[0].Send? then es[0].data else []) + Input(es[1..])
  }

  /** The calls of `Write`, by what they hand over. */
  function Calls(es: seq<Event>): seq<seq<byte>> {
    if es == [] then [] else (if es[0].Send? then [es[0].data] else []) + Calls(es[1..])
  }

  lemma StepConserves(w: Writer, e: Event, chunk: nat)
    requires chunk > 0 && WriterOk(w) && Allowed(w, e)
    ensures var w' := Step(w, e, chunk);
            && WriterOk(w')
            && w'.sent + w'.queue == w.sent + w.queue + Input([e])
            && w.sent <= w'.sent
            && (e.Ready? ==> w.queue != [])
  {
    var w' := Step(w, e, chunk);
    match e {
      case Send(data, answer) =>
        assert Input([e]) == data;
        if !w.buffered {
          var n := Min(answer, |data|);
          assert data == data[..n] + data[n..];
        }
      case Ready(script) =>
        var n := Drained(0, |w.queue|, chunk, script);
        assert w.queue == w.queue[..n] + w.queue[n..];
        assert Input([e]) == [];
    }
  }

  /** Conservation: over every run, with every way the descriptor may cut the writes, the bytes
      sent followed by the bytes buffered are the bytes written, nothing sent is taken back,
      and the descriptor is registered exactly while something is buffered. */
  lemma {:induction false} Conservation(w: Writer, es: seq<Event>, chunk: nat)
    requires chunk > 0 && WriterOk(w) && Legal(w, es, chunk)
    ensures var w' := Run(w, es, chunk);
            && WriterOk(w')
            && w'.sent + w'.queue == w.sent + w.queue + Input(es)
            && w.sent <= w'.sent
    decreases |es|
  {
    if es != [] {
      StepConserves(w, es[0], chunk);
      var w1 := Step(w, es[0], chunk);
      Conservation(w1, es[1..], chunk);
      assert Input([es[0]]) + Input(es[1..]) == Input(es);
      Chain(w.sent + w.queue, Input([es[0]]), Input(es[1..]), w1.sent + w1.queue);
    } else {
      assert w.sent + w.queue + [] == w.sent + w.queue;
    }
  }

  lemma Chain(a: seq<byte>, b: seq<byte>, c: seq<byte>, ab: seq<byte>)
    requires ab == a + b
    ensures ab + c == a + (b + c)
  {
  }

  lemma DrainedRound(done: nat, size: nat, chunk: nat, script: seq<nat>)
    requires chunk > 0 && size > 0
    ensures var n := Answer(script, Min(size, chunk));
            Drained(done, size, chunk, script) ==
              if n != Min(size, chunk) then done + n else Drained(done + n, size - n, chunk, Later(script))
  {
  }

  // ----- Progress -----------------------------------------------------------

  /** The `j`-th chunk of a queue of `size` bytes, all before it having been taken whole. */
  function Offered(size: nat, chunk: nat, j: nat): int {
    if size - j * chunk < chunk then size - j * chunk else chunk
  }

  /** The `j`-th answer takes the whole chunk. */
  predicate TakesWhole(script: seq<nat>, size: nat, chunk: nat, j: nat) {
    j < |script| && Offered(size, chunk, j) > 0 && script[j] >= Offered(size, chunk, j)
  }

  /** Where the drain loop stops: the first `k` chunks are taken whole, and then either that was all,
      or the next chunk is not, and as much of it as the answer says has gone too. */
  predicate StopsAt(script: seq<nat>, size: nat, chunk: nat, k: nat, n: nat) {
    && (forall j :: 0 <= j < k ==> TakesWhole(script, size, chunk, j))
    && if Offered(size, chunk, k) <= 0 then n == size
       else !TakesWhole(script, size, chunk, k) && n == k * chunk + if k < |script| then script[k] else 0
  }

  lemma {:induction false} DrainStops(size: nat, chunk: nat, script: seq<nat>) returns (k: nat)
    requires chunk > 0
    ensures StopsAt(script, size, chunk, k, Drained(0, size, chunk, script))
    decreases size
  {
    k := 0;
    if size > 0 {
      DrainedRound(0, size, chunk, script);
      if TakesWhole(script, size, chunk, 0) {
        var offered := Min(size, chunk);
        DrainedFurther(offered, size - offered, chunk, Later(script));
        var j := DrainStops(size - offered, chunk, Later(script));
        k := j + 1;
        NextRound(script, size, chunk, j, Drained(0, size - offered, chunk, Later(script)));
      }
    }
  }

  lemma {:induction false} DrainedFurther(done: nat, size: nat, chunk: nat, script: seq<nat>)
    requires chunk > 0
    ensures Drained(done, size, chunk, script) == done + Drained(0, size, chunk, script)
    decreases size
  {
    if size > 0 {
      var n := Answer(script, Min(size, chunk));
      DrainedRound(done, size, chunk, script);
      DrainedRound(0, size, chunk, script);
      if n == Min(size, chunk) {
        DrainedFurther(done + n, size - n, chunk, Later(script));
        DrainedFurther(n, size - n, chunk, Later(script));
      }
    }
  }

  lemma AtLeastOnce(k: nat, chunk: nat)
    requires chunk > 0
    ensures k <= k * chunk && (k > 0 ==> chunk <= k * chunk)
  {
  }

  lemma NextRound(script: seq<nat>, size: nat, chunk: nat, j: nat, n: nat)
    requires chunk > 0 && TakesWhole(script, size, chunk, 0)
    requires StopsAt(Later(script), size - Min(size, chunk), chunk, j, n)
    ensures StopsAt(script, size, chunk, j + 1, n + Min(size, chunk))
  {
    var rest := size - Min(size, chunk);
    if size >= chunk {
      forall i: nat ensures Offered(size, chunk, i + 1) == Offered(rest, chunk, i) {
        assert (i + 1) * chunk == i * chunk + chunk;
      }
      forall i | 0 <= i < j + 1 ensures TakesWhole(script, size, chunk, i) {
        if i > 0 { assert TakesWhole(Later(script), rest, chunk, i - 1); }
      }
    } else {
      AtLeastOnce(j, chunk);
      AtLeastOnce(j + 1, chunk);
      assert j > 0 ==> TakesWhole(Later(script), rest, chunk, 0);
    }
  }

  /** What a call of `WriteFromBuffer` gets out, for every queue and every sequence of answers: the
      chunks taken whole and what was taken of the next; and the flag is cleared and the descriptor
      deregistered exactly when that is everything. */
  lemma FlushedExactly(w: Writer, chunk: nat, script: seq<nat>) returns (k: nat, n: nat)
    requires chunk > 0 && WriterOk(w) && w.registered
    ensures StopsAt(script, |w.queue|, chunk, k, n) && n <= |w.queue|
    ensures var more := n < |w.queue|;
            Flushed(w, chunk, script) == Writer(w.sent + w.queue[..n], w.queue[n..], more, more)
  {
    k := DrainStops(|w.queue|, chunk, script);
    n := Drained(0, |w.queue|, chunk, script);
  }

  /** A descriptor that takes whatever it is offered gets the whole queue. */
  lemma FlushedWhole(w: Writer, chunk: nat, script: seq<nat>)
    requires chunk > 0 && WriterOk(w) && w.registered
    requires |script| >= |w.queue| && forall j :: 0 <= j < |script| ==> script[j] >= chunk
    ensures Flushed(w, chunk, script) == Writer(w.sent + w.queue, [], false, false)
  {
    var k, n := FlushedExactly(w, chunk, script);
    var size := |w.queue|;
    AtLeastOnce(k, chunk);
    assert Offered(size, chunk, k) > 0 ==> TakesWhole(script, size, chunk, k);
    assert w.queue[..size] == w.queue;
  }

  /** A descriptor that takes at least one byte shortens the queue. */
  lemma FlushedSome(w: Writer, chunk: nat, script: seq<nat>)
    requires chunk > 0 && WriterOk(w) && w.registered && script != [] && script[0] > 0
    ensures |Flushed(w, chunk, script).queue| < |w.queue|
  {
    var k, n := FlushedExactly(w, chunk, script);
    AtLeastOnce(k, chunk);
  }

  /** What `Write` does, for every answer: all of it is sent, or the part that is taken, with the rest
      buffered and the descriptor registered; or all is buffered, while something is. */
  lemma WrittenExactly(w: Writer, data: seq<byte>, answer: nat)
    requires WriterOk(w) && data != []
    ensures w.buffered ==> Written(w, data, answer) == w.(queue := w.queue + data)
    ensures !w.buffered && answer >= |data| ==> Written(w, data, answer) == Writer(w.sent + data, [], false, false)
    ensures !w.buffered && answer < |data| ==>
              Written(w, data, answer) == Writer(w.sent + data[..answer], data[answer..], true, true)
  {
    assert data[..|data|] == data;
    assert [] + data[Min(answer, |data|)..] == data[Min(answer, |data|)..];
  }

  lemma {:induction false} RunAppend(w: Writer, es: seq<Event>, more: seq<Event>, chunk: nat)
    requires chunk > 0 && Legal(w, es, chunk) && Legal(Run(w, es, chunk), more, chunk)
    ensures Legal(w, es + more, chunk) && Run(w, es + more, chunk) == Run(Run(w, es, chunk), more, chunk)
    decreases |es|
  {
    if es == [] {
      assert es + more == more;
    } else {
      RunAppend(Step(w, es[0], chunk), es[1..], more, chunk);
      assert (es + more)[1..] == es[1..] + more;
    }
  }

  lemma {:induction false} CallsAppend(es: seq<Event>, more: seq<Event>)
    requires forall i :: 0 <= i < |more| ==> more[i].Ready?
    ensures Calls(es + more) == Calls(es)
    decreases |es|, |more|
  {
    if es != [] {
      CallsAppend(es[1..], more);
      assert (es + more)[1..] == es[1..] + more;
    } else if more != [] {
      CallsAppend([], more[1..]);
      assert [] + more == more && [] + more[1..] == more[1..];
    }
  }

  /** Callbacks on a descriptor that takes at least one byte each time. */
  predicate Willing(es: seq<Event>) {
    forall i :: 0 <= i < |es| ==> es[i].Ready? && es[i].script != [] && es[i].script[0] > 0
  }

  /** As long as the descriptor takes something each time it is called back, everything is sent
      after at most as many callbacks as there are bytes waiting. */
  lemma {:induction false} EverythingIsSent(w: Writer, es: seq<Event>, chunk: nat)
    requires chunk > 0 && WriterOk(w) && Legal(w, es, chunk) && Willing(es)
    ensures |es| + |Run(w, es, chunk).queue| <= |w.queue|
    ensures !Run(w, es, chunk).registered ==> Run(w, es, chunk) == Writer(w.sent + w.queue, [], false, false)
    decreases |es|
  {
    if es == [] {
      assert w.sent + [] == w.sent;
    } else {
      var w1 := Step(w, es[0], chunk);
      StepConserves(w, es[0], chunk);
      FlushedSome(w, chunk, es[0].script);
      assert Input([es[0]]) == [] && w.sent + w.queue + [] == w.sent + w.queue;
      EverythingIsSent(w1, es[1..], chunk);
    }
  }

  lemma Rejoin(sent: seq<byte>, queue: seq<byte>, chunk: seq<byte>, n: nat)
    requires n <= |chunk| && chunk <= queue
    ensures (sent + chunk[..n]) + queue[n..] == sent + queue && queue[0..] == queue
  {
    assert chunk[..n] + queue[n..] == queue;
  }

  /** Where a text is cut is known from the lengths. */
  lemma CutAt(sent: seq<byte>, queue: seq<byte>, sent': seq<byte>, queue': seq<byte>, n: nat)
    requires sent' + queue' == sent + queue && |sent'| == |sent| + n
    ensures n <= |queue| && sent' == sent + queue[..n] && queue' == queue[n..]
  {
    assert |sent' + queue'| == |sent + queue|;
    assert sent' == (sent' + queue')[..|sent'|] && queue' == (sent' + queue')[|sent'|..];
    assert (sent + queue)[..|sent| + n] == sent + queue[..n];
    assert (sent + queue)[|sent| + n..] == queue[n..];
  }

  class BufferedWriter {
    const buffer: Buffer
    const writeSize: nat
    var fdBuffered: bool
    var registered: bool  // with Select
    ghost var sent: seq<byte>

    ghost predicate Valid()
      reads this, buffer, buffer.cells
    {
      buffer.Valid() && buffer.Capacity() > 0 && writeSize > 0 && WriterOk(View())
    }

    ghost function View(): Writer
      reads this, buffer, buffer.cells
      requires buffer.Valid()
    {
      Writer(sent, buffer.Contents(), fdBuffered, registered)
    }

    constructor (bufferSize: nat, writeSize: nat)
      requires bufferSize > 0 && writeSize > 0
      ensures Valid() && View() == EMPTY && this.writeSize == writeSize
      ensures fresh(buffer) && fresh(buffer.cells)
    {
      this.buffer := new Buffer(bufferSize);
      this.writeSize := writeSize;
      fdBuffered, registered, sent := false, false, [];
    }

    method Write(data: seq<byte>, answer: nat) returns (ok: bool)
      requires Valid() && data != []
      modifies this, buffer, buffer.cells
      ensures ok && Valid() && (buffer.cells == old(buffer.cells) || fresh(buffer.cells))
      ensures View() == Written(old(View()), data, answer)
    {
      StepConserves(View(), Send(data, answer), writeSize);
      var shouldBuffer := fdBuffered;
      var nbytes := 0;
      if !shouldBuffer {
        nbytes := TryWrite(data, Min(answer, |data|));
        if nbytes != |data| {
          shouldBuffer := true;
        }
      }
      if shouldBuffer {
        assert fdBuffered ==> data[nbytes..] == data;
        ok := buffer.Write(data[nbytes..]);
        BufferStillHasRoom(old(buffer.Capacity()), |old(buffer.Contents())| + |data[nbytes..]|);
        if !fdBuffered {
          fdBuffered := true;
          registered := true;
        }
      }
      return true;
    }

    method WriteFromBuffer(script: seq<nat>)
      requires Valid() && registered
      modifies this, buffer
      ensures Valid() && buffer.cells == old(buffer.cells)
      ensures View() == Flushed(old(View()), writeSize, script)
    {
      StepConserves(View(), Ready(script), writeSize);
      var size := DrainLoop(script);
      if size == 0 {
        registered := false;
        fdBuffered := false;
      }
    }

    /** Offers chunks until one is not taken whole or nothing is left. */
    method DrainLoop(script: seq<nat>) returns (size: int)
      requires buffer.Valid() && writeSize > 0
      modifies this`sent, buffer
      ensures buffer.Valid() && buffer.cells == old(buffer.cells) && size == |buffer.Contents()|
      ensures var n := Drained(0, |old(buffer.Contents())|, writeSize, script);
              sent == old(sent) + old(buffer.Contents())[..n] && buffer.Contents() == old(buffer.Contents())[n..]
    {
      ghost var queue := buffer.Contents();
      ghost var all := sent + queue;
      ghost var done := 0;
      var rest, blocked := script, false;
      size := buffer.Size();
      while size > 0 && !blocked
        invariant buffer.Valid() && buffer.cells == old(buffer.cells) && size == |buffer.Contents()|
        invariant sent + buffer.Contents() == all && |sent| == |old(sent)| + done
        invariant Drained(0, |queue|, writeSize, script) ==
                    if blocked then done else Drained(done, size, writeSize, rest)
        decreases size, !blocked
      {
        DrainedRound(done, size, writeSize, rest);
        var nbytes := Min(size, writeSize);
        var wrote := OfferChunk(nbytes, Answer(rest, nbytes));
        done := done + wrote;
        size, rest := size - wrote, Later(rest);
        if wrote != nbytes {
          blocked := true;
        }
      }
      CutAt(old(sent), queue, sent, buffer.Contents(), done);
    }

    /** One round of the drain loop: peek, offer, and advance over what was taken. */
    method OfferChunk(nbytes: nat, answer: nat) returns (wrote: nat)
      requires buffer.Valid() && answer <= nbytes <= |buffer.Contents()|
      modifies this`sent, buffer
      ensures buffer.Valid() && buffer.cells == old(buffer.cells)
      ensures wrote == answer && |sent| == |old(sent)| + wrote
      ensures sent + buffer.Contents() == old(sent) + old(buffer.Contents())
    {
      var ok, chunk := buffer.Peek(nbytes);
      wrote := TryWrite(chunk, answer);
      Rejoin(old(sent), buffer.Contents(), chunk, wrote);
      if wrote > 0 {
        ok := buffer.Advance(wrote);
      }
    }

    /** `write()` takes the first `answer` bytes. */
    method TryWrite(data: seq<byte>, answer: nat) returns (n: nat)
      requires answer <= |data|
      modifies this`sent
      ensures n == answer && sent == old(sent) + data[..answer]
    {
      sent := sent + data[..answer];
      return answer;
    }
  }

  lemma {:induction false} BufferStillHasRoom(c: nat, need: nat)
    requires c > 0
    ensures Doubled(c, need) > 0
    decreases need - c
  {
    if need > c {
      BufferStillHasRoom(2 * c, need);
    }
  }
}