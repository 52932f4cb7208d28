/** Cutting a stream of packets into chunks, for any incremental parser. */
module StreamCuts {
  import opened Texts

  /** The outcome of a parser: a value and how much it took; not enough data, with everything
      pushed back; a parse error; or a failed assertion. */
  datatype Parse<+M> = Done(value: M, used: nat) | More | Bad | Trap

  type Parser<!T, +M> = seq<T> -> Parse<M>

  /** A parser that waits on no data, and takes something whenever it returns a value. */
  ghost predicate Progress<T(!new), M>(f: Parser<T, M>) {
    f([]) == More && forall s :: f(s).Done? ==> 0 < f(s).used <= |s|
  }

  /** One round of a receiving loop: the messages handed on, the data left unread, and whether
      an assertion stopped the program. */
  datatype Loop<T, M> = Loop(msgs: seq<M>, rest: seq<T>, trapped: bool)

  /** The loop stops at a parse error (having lost one element), at a message that is refused,
      or for lack of data. */
  ghost function ReadLoop<T(!new), M>(f: Parser<T, M>, s: seq<T>, accept: M -> bool): Loop<T, M>
    requires Progress(f)
    decreases |s|
  {
    match f(s)
    case More => Loop([], s, false)
    case Bad => Loop([], if s == [] then [] else s[1..], false)
    case Trap => Loop([], s, true)
    case Done(m, n) =>
      assert f(s).Done?;
      if !accept(m) then Loop([m], s[n..], false)
      else var l := ReadLoop(f, s[n..], accept); Loop([m] + l.msgs, l.rest, l.trapped)
  }

  /** Running the loop after each chunk. */
  ghost function Feed<T(!new), M>(f: Parser<T, M>, rest: seq<T>, chunks: seq<seq<T>>, accept: M -> bool): Loop<T, M>
    requires Progress(f)
    decreases |chunks|
  {
    if chunks == [] then Loop([], rest, false)
    else
      var l := ReadLoop(f, rest + chunks[0], accept);
      if l.trapped then l
      else
        var l' := Feed(f, l.rest, chunks[1..], accept);
        Loop(l.msgs + l'.msgs, l'.rest, l'.trapped)
  }

  /** A message with its wire form.  Cut short before `gate`, the parser waits for more; cut short
      at or after `gate`, it already takes the message `early`. */
  datatype Packet<T, M> = Packet(msg: M, wire: seq<T>, gate: nat, early: M)

  /** Always true; names the input at which a packet's framing is to be used. */
  predicate At<T, M>(p: Packet<T, M>, s: seq<T>) {
    true
  }

  ghost predicate Framed<T(!new), M>(f: Parser<T, M>, p: Packet<T, M>) {
    && p.wire != []
    && (p.gate < |p.wire| ==> p.early != p.msg)
    && forall s {:trigger At(p, s)} :: At(p, s) ==>
         && (p.wire <= s ==> f(s) == Done(p.msg, |p.wire|))
         && (s < p.wire && |s| < p.gate ==> f(s) == More)
         && (s < p.wire && |s| >= p.gate ==> f(s) == Done(p.early, p.gate))
  }

  ghost predicate AllFramed<T(!new), M>(f: Parser<T, M>, accept: M -> bool, ps: seq<Packet<T, M>>) {
    ps == [] || (Framed(f, ps[0]) && accept(ps[0].msg) && AllFramed(f, accept, ps[1..]))
  }

  function Join<T, M>(ps: seq<Packet<T, M>>): seq<T> {
    if ps == [] then [] else ps[0].wire + Join(ps[1..])
  }

  function Messages<T, M>(ps: seq<Packet<T, M>>): (ms: seq<M>)
    ensures |ms| == |ps|
  {
    if ps == [] then [] else [ps[0].msg] + Messages(ps[1..])
  }

  function Flatten<T>(chunks: seq<seq<T>>): seq<T> {
    if chunks == [] then [] else chunks[0] + Flatten(chunks[1..])
  }

  lemma {:induction false} FlattenAppend<T>(a: seq<seq<T>>, b: seq<seq<T>>)
    ensures Flatten(a + b) == Flatten(a) + Flatten(b)
  {
    if a == [] {
      assert a + b == b;
    } else {
      FlattenAppend(a[1..], b);
      assert (a + b)[1..] == a[1..] + b;
      assert a[0] + (Flatten(a[1..]) + Flatten(b)) == a[0] + Flatten(a[1..]) + Flatten(b);
    }
  }

  lemma FlattenPrefix<T>(a: seq<seq<T>>, b: seq<seq<T>>)
    requires a <= b
    ensures Flatten(a) <= Flatten(b)
  {
    FlattenAppend(a, b[|a|..]);
    assert a + b[|a|..] == b;
  }

  /** `tail` is a strict beginning of the first packet, or nothing when there is none. */
  predicate Inside<T(==), M>(ps: seq<Packet<T, M>>, tail: seq<T>) {
    if ps == [] then tail == [] else tail < ps[0].wire
  }

  /** The first `n` elements of the stream do not end at or after the gate of a packet. */
  predicate SafeCut<T, M>(ps: seq<Packet<T, M>>, n: nat) {
    if ps == [] then true
    else if n < |ps[0].wire| then n < ps[0].gate
    else SafeCut(ps[1..], n - |ps[0].wire|)
  }

  /** Every chunk boundary after the first `n` elements is a safe cut. */
  predicate SafeCuts<T, M>(ps: seq<Packet<T, M>>, n: nat, chunks: seq<seq<T>>)
    decreases |chunks|
  {
    chunks == [] || (SafeCut(ps, n + |chunks[0]|) && SafeCuts(ps, n + |chunks[0]|, chunks[1..]))
  }

  /** Some message dispatched differs from the one sent in its place. */
  ghost predicate GoesWrong<T, M>(ps: seq<Packet<T, M>>, msgs: seq<M>) {
    exists i :: 0 <= i < |ps| && i < |msgs| && ps[i].msg != msgs[i]
  }

  lemma StreamHead<T, M>(p: Packet<T, M>, rest: seq<T>, s: seq<T>)
    requires s <= p.wire + rest
    ensures |s| >= |p.wire| ==> p.wire <= s && s == p.wire + s[|p.wire|..] && s[|p.wire|..] <= rest
    ensures |s| < |p.wire| ==> s < p.wire
  {
    assert s == (p.wire + rest)[..|s|];
    if |s| >= |p.wire| {
      assert s[..|p.wire|] == p.wire;
      assert s[|p.wire|..] == rest[..|s| - |p.wire|];
    } else {
      assert s == p.wire[..|s|];
    }
  }

  lemma AtHead<T(!new), M>(f: Parser<T, M>, p: Packet<T, M>, s: seq<T>)
    requires Framed(f, p) && (p.wire <= s || s < p.wire)
    ensures f(s) == if p.wire <= s then Done(p.msg, |p.wire|) else if |s| < p.gate then More else Done(p.early, p.gate)
  {
    assert At(p, s);
  }

  lemma LoopTakes<T(!new), M>(f: Parser<T, M>, s: seq<T>, accept: M -> bool, m: M, n: nat)
    requires Progress(f) && f(s) == Done(m, n)
    ensures 0 < n <= |s|
    ensures accept(m) ==> var l := ReadLoop(f, s[n..], accept); ReadLoop(f, s, accept) == Loop([m] + l.msgs, l.rest, l.trapped)
    ensures [m] <= ReadLoop(f, s, accept).msgs
  {
    assert f(s).Done?;
  }

  lemma LoopInsideHead<T(!new), M>(f: Parser<T, M>, ps: seq<Packet<T, M>>, s: seq<T>, accept: M -> bool)
    requires Progress(f) && ps != [] && Framed(f, ps[0]) && s < ps[0].wire
    ensures SafeCut(ps, |s|) ==> ReadLoop(f, s, accept) == Loop([], s, false)
    ensures !SafeCut(ps, |s|) ==> GoesWrong(ps, ReadLoop(f, s, accept).msgs)
  {
    AtHead(f, ps[0], s);
    if !SafeCut(ps, |s|) {
      LoopTakes(f, s, accept, ps[0].early, ps[0].gate);
      assert ReadLoop(f, s, accept).msgs[0] == ps[0].early;
    }
  }

  lemma LoopPastHead<T(!new), M>(f: Parser<T, M>, ps: seq<Packet<T, M>>, s: seq<T>, accept: M -> bool)
    requires Progress(f) && ps != [] && Framed(f, ps[0]) && accept(ps[0].msg) && ps[0].wire <= s
    ensures var n := |ps[0].wire|;
            var l := ReadLoop(f, s[n..], accept);
            && ReadLoop(f, s, accept) == Loop([ps[0].msg] + l.msgs, l.rest, l.trapped)
            && (SafeCut(ps, |s|) <==> SafeCut(ps[1..], |s[n..]|))
            && (GoesWrong(ps[1..], l.msgs) ==> GoesWrong(ps, ReadLoop(f, s, accept).msgs))
  {
    var n := |ps[0].wire|;
    AtHead(f, ps[0], s);
    LoopTakes(f, s, accept, ps[0].msg, n);
    var l := ReadLoop(f, s[n..], accept);
    if GoesWrong(ps[1..], l.msgs) {
      WrongLater([ps[0]], ps[1..], [ps[0].msg], l.msgs);
      assert [ps[0]] + ps[1..] == ps;
    }
  }

  /** What one run of the loop dispatches from any prefix `s` of a stream: `s` is some whole packets
      and a strict beginning of the next.  When the cut is safe, the loop hands on exactly the whole
      messages, in order, and leaves the beginning untouched; otherwise it hands on a wrong one. */
  lemma {:induction false} LoopOnPrefix<T(!new), M>(f: Parser<T, M>, ps: seq<Packet<T, M>>, s: seq<T>, accept: M -> bool)
    returns (done: seq<Packet<T, M>>, left: seq<Packet<T, M>>, tail: seq<T>)
    requires Progress(f) && AllFramed(f, accept, ps) && s <= Join(ps)
    ensures ps == done + left && s == Join(done) + tail && Inside(left, tail) && AllFramed(f, accept, left)
    ensures SafeCut(ps, |s|) ==> ReadLoop(f, s, accept) == Loop(Messages(done), tail, false)
    ensures !SafeCut(ps, |s|) ==> GoesWrong(ps, ReadLoop(f, s, accept).msgs)
    decreases |ps|
  {
    if ps == [] {
      assert s == [];
      done, left, tail := [], [], [];
    } else {
      StreamHead(ps[0], Join(ps[1..]), s);
      var n := |ps[0].wire|;
      if |s| < n {
        LoopInsideHead(f, ps, s, accept);
        done, left, tail := [], ps, s;
      } else {
        LoopPastHead(f, ps, s, accept);
        var done', left', tail' := LoopOnPrefix(f, ps[1..], s[n..], accept);
        Grown(ps, done', left', s, tail');
        done, left, tail := [ps[0]] + done', left', tail';
      }
    }
  }

  lemma Grown<T, M>(ps: seq<Packet<T, M>>, done: seq<Packet<T, M>>, left: seq<Packet<T, M>>, s: seq<T>, tail: seq<T>)
    requires ps != [] && ps[1..] == done + left && s == ps[0].wire + (Join(done) + tail)
    ensures ps == ([ps[0]] + done) + left
    ensures s == Join([ps[0]] + done) + tail
    ensures Messages([ps[0]] + done) == [ps[0].msg] + Messages(done)
  {
    var more := [ps[0]] + done;
    assert more[0] == ps[0] && more[1..] == done;
    calc {
      ps;
      [ps[0]] + ps[1..];
      [ps[0]] + (done + left);
      more + left;
    }
    calc {
      s;
      ps[0].wire + (Join(done) + tail);
      (ps[0].wire + Join(done)) + tail;
      Join(more) + tail;
    }
  }

  lemma WrongLater<T, M>(first: seq<Packet<T, M>>, ps: seq<Packet<T, M>>, msgs: seq<M>, more: seq<M>)
    requires |first| == |msgs| && GoesWrong(ps, more)
    ensures GoesWrong(first + ps, msgs + more)
  {
    var i :| 0 <= i < |ps| && i < |more| && ps[i].msg != more[i];
    assert (first + ps)[|first| + i] == ps[i] && (msgs + more)[|first| + i] == more[i];
  }

  lemma {:induction false} JoinAppend<T, M>(a: seq<Packet<T, M>>, b: seq<Packet<T, M>>)
    ensures Join(a + b) == Join(a) + Join(b)
  {
    if a == [] {
      assert a + b == b;
    } else {
      calc {
        Join(a + b);
        { assert (a + b)[1..] == a[1..] + b; }
        a[0].wire + Join(a[1..] + b);
        { JoinAppend(a[1..], b); }
        a[0].wire + (Join(a[1..]) + Join(b));
        (a[0].wire + Join(a[1..])) + Join(b);
        Join(a) + Join(b);
      }
    }
  }

  lemma {:induction false} MessagesAppend<T, M>(a: seq<Packet<T, M>>, b: seq<Packet<T, M>>)
    ensures Messages(a + b) == Messages(a) + Messages(b)
  {
    if a == [] {
      assert a + b == b;
    } else {
      calc {
        Messages(a + b);
        { assert (a + b)[1..] == a[1..] + b; }
        [a[0].msg] + Messages(a[1..] + b);
        { MessagesAppend(a[1..], b); }
        [a[0].msg] + (Messages(a[1..]) + Messages(b));
        ([a[0].msg] + Messages(a[1..])) + Messages(b);
        Messages(a) + Messages(b);
      }
    }
  }

  lemma {:induction false} SafeCutLeft<T, M>(done: seq<Packet<T, M>>, left: seq<Packet<T, M>>, n: nat)
    ensures SafeCut(done + left, |Join(done)| + n) <==> SafeCut(left, n)
  {
    if done == [] {
      assert done + left == left;
    } else {
      SafeCutLeft(done[1..], left, n);
      assert (done + left)[1..] == done[1..] + left;
    }
  }

  lemma {:induction false} SafeCutsLeft<T, M>(done: seq<Packet<T, M>>, left: seq<Packet<T, M>>, n: nat, chunks: seq<seq<T>>)
    ensures SafeCuts(done + left, |Join(done)| + n, chunks) <==> SafeCuts(left, n, chunks)
    decreases |chunks|
  {
    if chunks != [] {
      var n' := n + |chunks[0]|;
      SafeCutLeft(done, left, n');
      SafeCutsLeft(done, left, n', chunks[1..]);
      assert |Join(done)| + n + |chunks[0]| == |Join(done)| + n';
    }
  }

  lemma ShorterPrefix<T>(a: seq<T>, b: seq<T>, all: seq<T>)
    requires a + b <= all
    ensures a <= all
  {
    assert a == (a + b)[..|a|];
  }

  lemma FirstOf<T>(rest: seq<T>, chunks: seq<seq<T>>, all: seq<T>)
    requires chunks != [] && rest + Flatten(chunks) <= all
    ensures rest + chunks[0] <= all
    ensures rest + Flatten(chunks) == (rest + chunks[0]) + Flatten(chunks[1..])
  {
    assert rest + Flatten(chunks) == (rest + chunks[0]) + Flatten(chunks[1..]);
    ShorterPrefix(rest + chunks[0], Flatten(chunks[1..]), all);
  }

  lemma PrefixLeft<T>(a: seq<T>, b: seq<T>, tail: seq<T>, later: seq<T>)
    requires (a + tail) + later <= a + b
    ensures tail + later <= b
  {
    var x := (a + tail) + later;
    assert x[|a|..] == tail + later;
    assert x == (a + b)[..|x|];
    assert x[|a|..] == b[..|x| - |a|];
  }

  lemma FeedOnce<T(!new), M>(f: Parser<T, M>, rest: seq<T>, chunks: seq<seq<T>>, accept: M -> bool, s: seq<T>,
                             msgs: seq<M>, rest': seq<T>)
    requires Progress(f) && chunks != [] && s == rest + chunks[0]
    requires ReadLoop(f, s, accept) == Loop(msgs, rest', false)
    ensures var l' := Feed(f, rest', chunks[1..], accept);
            Feed(f, rest, chunks, accept) == Loop(msgs + l'.msgs, l'.rest, l'.trapped)
  {
  }

  lemma FeedStarts<T(!new), M>(f: Parser<T, M>, rest: seq<T>, chunks: seq<seq<T>>, accept: M -> bool, s: seq<T>)
    requires Progress(f) && chunks != [] && s == rest + chunks[0]
    ensures ReadLoop(f, s, accept).msgs <= Feed(f, rest, chunks, accept).msgs
  {
  }

  /** After the chunk that completes `s`, which is the packets `done` and then `tail`, the stream left
      over starts with `tail`... */
  lemma StreamLeft<T, M>(done: seq<Packet<T, M>>, left: seq<Packet<T, M>>, s: seq<T>, tail: seq<T>, later: seq<T>)
    requires s == Join(done) + tail && s + later <= Join(done + left)
    ensures tail + later <= Join(left)
  {
    JoinAppend(done, left);
    PrefixLeft(Join(done), Join(left), tail, later);
  }

  /** ...and its boundaries are as safe as before. */
  lemma SafeLeft<T, M>(done: seq<Packet<T, M>>, left: seq<Packet<T, M>>, n: nat, tail: nat, chunks: seq<seq<T>>)
    requires chunks != [] && n + |chunks[0]| == |Join(done)| + tail
    ensures SafeCuts(done + left, n, chunks)
       <==> SafeCut(done + left, |Join(done)| + tail) && SafeCuts(left, tail, chunks[1..])
  {
    SafeCutsLeft(done, left, tail, chunks[1..]);
  }

  lemma ChunkStep<T, M>(ps: seq<Packet<T, M>>, done: seq<Packet<T, M>>, left: seq<Packet<T, M>>, s: seq<T>, tail: seq<T>,
                        later: seq<T>, n: nat, chunks: seq<seq<T>>)
    requires ps == done + left && s == Join(done) + tail && s + later <= Join(ps)
    requires chunks != [] && |s| == n + |chunks[0]|
    ensures tail + later <= Join(left)
    ensures SafeCuts(ps, n, chunks) <==> SafeCut(ps, |s|) && SafeCuts(left, |tail|, chunks[1..])
  {
    StreamLeft(done, left, s, tail, later);
    SafeLeft(done, left, n, |tail|, chunks);
  }

  /** Fragmentation from any point of the stream, where `rest` has been received and is a strict
      beginning of a packet.  Everything received is some whole packets and a strict beginning of the
      next; when every boundary is a safe cut, the messages handed on chunk by chunk are exactly the
      whole ones, once and in order, with the beginning left untouched. */
  lemma {:induction false} FeedSafely<T(!new), M>(f: Parser<T, M>, ps: seq<Packet<T, M>>, rest: seq<T>,
                                                  chunks: seq<seq<T>>, accept: M -> bool)
    returns (done: seq<Packet<T, M>>, left: seq<Packet<T, M>>, tail: seq<T>)
    requires Progress(f) && AllFramed(f, accept, ps) && rest + Flatten(chunks) <= Join(ps)
    requires Inside(ps, rest) && SafeCuts(ps, |rest|, chunks)
    ensures ps == done + left && rest + Flatten(chunks) == Join(done) + tail && Inside(left, tail)
    ensures Feed(f, rest, chunks, accept) == Loop(Messages(done), tail, false)
    decreases |chunks|
  {
    if chunks == [] {
      done, left, tail := [], ps, rest;
      assert rest + [] == rest;
    } else {
      var later := Flatten(chunks[1..]);
      var d1, l1, t1 := FirstChunk(f, ps, rest, chunks, accept);
      var d2, l2, t2 := FeedSafely(f, l1, t1, chunks[1..], accept);
      done, left, tail := d1 + d2, l2, t2;
      FeedCombine(f, rest, chunks, accept, rest + chunks[0], d1, t1, d2, t2);
      Joined(d1, d2, l2, t1, t2, later);
    }
  }

  /** The first chunk leaves the reader inside the packets that are left. */
  lemma FirstChunk<T(!new), M>(f: Parser<T, M>, ps: seq<Packet<T, M>>, rest: seq<T>, chunks: seq<seq<T>>, accept: M -> bool)
    returns (done: seq<Packet<T, M>>, left: seq<Packet<T, M>>, tail: seq<T>)
    requires chunks != []
    requires Progress(f) && AllFramed(f, accept, ps) && rest + Flatten(chunks) <= Join(ps)
    requires Inside(ps, rest) && SafeCuts(ps, |rest|, chunks)
    ensures ps == done + left && ReadLoop(f, rest + chunks[0], accept) == Loop(Messages(done), tail, false)
    ensures AllFramed(f, accept, left) && tail + Flatten(chunks[1..]) <= Join(left)
    ensures Inside(left, tail) && SafeCuts(left, |tail|, chunks[1..])
    ensures rest + Flatten(chunks) == (Join(done) + tail) + Flatten(chunks[1..])
  {
    var s, later := rest + chunks[0], Flatten(chunks[1..]);
    FirstOf(rest, chunks, Join(ps));
    done, left, tail := LoopOnPrefix(f, ps, s, accept);
    ChunkStep(ps, done, left, s, tail, later, |rest|, chunks);
  }

  lemma FeedCombine<T(!new), M>(f: Parser<T, M>, rest: seq<T>, chunks: seq<seq<T>>, accept: M -> bool, s: seq<T>,
                                d1: seq<Packet<T, M>>, t1: seq<T>, d2: seq<Packet<T, M>>, t2: seq<T>)
    requires Progress(f) && chunks != [] && s == rest + chunks[0]
    requires ReadLoop(f, s, accept) == Loop(Messages(d1), t1, false)
    requires Feed(f, t1, chunks[1..], accept) == Loop(Messages(d2), t2, false)
    ensures Feed(f, rest, chunks, accept) == Loop(Messages(d1 + d2), t2, false)
  {
    FeedOnce(f, rest, chunks, accept, s, Messages(d1), t1);
    MessagesAppend(d1, d2);
  }

  lemma Joined<T, M>(d1: seq<Packet<T, M>>, d2: seq<Packet<T, M>>, left: seq<Packet<T, M>>, t1: seq<T>, t2: seq<T>, later: seq<T>)
    requires t1 + later == Join(d2) + t2
    ensures (Join(d1) + t1) + later == Join(d1 + d2) + t2
    ensures d1 + (d2 + left) == (d1 + d2) + left
  {
    calc {
      (Join(d1) + t1) + later;
      Join(d1) + (t1 + later);
      Join(d1) + (Join(d2) + t2);
      (Join(d1) + Join(d2)) + t2;
      { JoinAppend(d1, d2); }
      Join(d1 + d2) + t2;
    }
  }

  /** When some boundary is not a safe cut, a message that was never sent is handed on. */
  lemma {:induction false} FeedUnsafely<T(!new), M>(f: Parser<T, M>, ps: seq<Packet<T, M>>, rest: seq<T>,
                                                    chunks: seq<seq<T>>, accept: M -> bool)
    requires Progress(f) && AllFramed(f, accept, ps) && rest + Flatten(chunks) <= Join(ps)
    requires Inside(ps, rest) && !SafeCuts(ps, |rest|, chunks)
    ensures GoesWrong(ps, Feed(f, rest, chunks, accept).msgs)
    decreases |chunks|
  {
    var s, later := rest + chunks[0], Flatten(chunks[1..]);
    FirstOf(rest, chunks, Join(ps));
    var done, left, tail := LoopOnPrefix(f, ps, s, accept);
    ChunkStep(ps, done, left, s, tail, later, |rest|, chunks);
    if SafeCut(ps, |s|) {
      FeedUnsafely(f, left, tail, chunks[1..], accept);
      WrongAfterFirst(f, done, left, rest, chunks, accept, s, tail);
    } else {
      WrongInFirst(f, ps, rest, chunks, accept, s);
    }
  }

  lemma WrongAfterFirst<T(!new), M>(f: Parser<T, M>, done: seq<Packet<T, M>>, left: seq<Packet<T, M>>, rest: seq<T>,
                                    chunks: seq<seq<T>>, accept: M -> bool, s: seq<T>, tail: seq<T>)
    requires Progress(f) && chunks != [] && s == rest + chunks[0]
    requires ReadLoop(f, s, accept) == Loop(Messages(done), tail, false)
    requires GoesWrong(left, Feed(f, tail, chunks[1..], accept).msgs)
    ensures GoesWrong(done + left, Feed(f, rest, chunks, accept).msgs)
  {
    FeedOnce(f, rest, chunks, accept, s, Messages(done), tail);
    WrongLater(done, left, Messages(done), Feed(f, tail, chunks[1..], accept).msgs);
  }

  lemma WrongInFirst<T(!new), M>(f: Parser<T, M>, ps: seq<Packet<T, M>>, rest: seq<T>,
                                 chunks: seq<seq<T>>, accept: M -> bool, s: seq<T>)
    requires Progress(f) && chunks != [] && s == rest + chunks[0]
    requires GoesWrong(ps, ReadLoop(f, s, accept).msgs)
    ensures GoesWrong(ps, Feed(f, rest, chunks, accept).msgs)
  {
    FeedStarts(f, rest, chunks, accept, s);
    WrongExtends(ps, ReadLoop(f, s, accept).msgs, Feed(f, rest, chunks, accept).msgs);
  }

  lemma WrongExtends<T, M>(ps: seq<Packet<T, M>>, msgs: seq<M>, all: seq<M>)
    requires GoesWrong(ps, msgs) && msgs <= all
    ensures GoesWrong(ps, all)
  {
    var i :| 0 <= i < |ps| && i < |msgs| && ps[i].msg != msgs[i];
    assert all[i] == msgs[i];
  }

  lemma {:induction false} MessageAt<T, M>(ps: seq<Packet<T, M>>, i: nat)
    requires i < |ps|
    ensures Messages(ps)[i] == ps[i].msg
  {
    if i > 0 {
      MessageAt(ps[1..], i - 1);
    }
  }

  /** The messages handed on before, and then those of a round. */
  function After<T, M>(msgs: seq<M>, l: Loop<T, M>): Loop<T, M> {
    l.(msgs := msgs + l.msgs)
  }

  lemma NothingBefore<T, M>(l: Loop<T, M>)
    ensures After([], l) == l
  {
  }

  /** One turn of the receiving loop, after `msgs` have been handed on. */
  lemma LoopStep<T(!new), M>(f: Parser<T, M>, s: seq<T>, accept: M -> bool, msgs: seq<M>)
    requires Progress(f)
    ensures
      var whole, r := After(msgs, ReadLoop(f, s, accept)), f(s);
      if r.More? then whole == Loop(msgs, s, false)
      else if r.Bad? then whole == Loop(msgs, if s == [] then [] else s[1..], false)
      else if r.Trap? then whole == Loop(msgs, s, true)
      else
        && 0 < r.used <= |s|
        && whole == if accept(r.value) then After(msgs + [r.value], ReadLoop(f, s[r.used..], accept))
                    else Loop(msgs + [r.value], s[r.used..], false)
  {
    var r := f(s);
    if r.Done? {
      LoopTakes(f, s, accept, r.value, r.used);
      if accept(r.value) { Regroup(msgs, r.value, ReadLoop(f, s[r.used..], accept).msgs); }
    } else {
      assert msgs + [] == msgs;
    }
  }

  /** Whole packets are handed on, and the loop goes on behind them. */
  lemma {:induction false} LoopPastPackets<T(!new), M>(f: Parser<T, M>, ps: seq<Packet<T, M>>, tail: seq<T>, accept: M -> bool)
    requires Progress(f) && AllFramed(f, accept, ps)
    ensures ReadLoop(f, Join(ps) + tail, accept) == After(Messages(ps), ReadLoop(f, tail, accept))
    decreases |ps|
  {
    if ps == [] {
      assert Join(ps) + tail == tail;
      NothingBefore(ReadLoop(f, tail, accept));
    } else {
      var p, rest := ps[0], Join(ps[1..]) + tail;
      LoopPastPackets(f, ps[1..], tail, accept);
      TakenWhole(f, p, rest, accept);
      assert Join(ps) + tail == p.wire + rest;
      Reassociate([p.msg], Messages(ps[1..]), ReadLoop(f, tail, accept).msgs);
    }
  }

  lemma TakenWhole<T(!new), M>(f: Parser<T, M>, p: Packet<T, M>, rest: seq<T>, accept: M -> bool)
    requires Progress(f) && Framed(f, p)
    ensures ReadLoop(f, p.wire + rest, accept)
         == if accept(p.msg) then After([p.msg], ReadLoop(f, rest, accept)) else Loop([p.msg], rest, false)
  {
    var s := p.wire + rest;
    assert At(p, s);
    assert s[|p.wire|..] == rest;
    LoopStep(f, s, accept, []);
    NothingBefore(ReadLoop(f, s, accept));
    assert [] + [p.msg] == [p.msg];
  }

  /** The receiving loop, one call of the parser at a time. */
  method RunLoop<T(==,!new), M>(f: Parser<T, M>, s: seq<T>, accept: M -> bool)
    returns (msgs: seq<M>, rest: seq<T>, trapped: bool)
    requires Progress(f)
    ensures Loop(msgs, rest, trapped) == ReadLoop(f, s, accept)
  {
    msgs, rest, trapped := [], s, false;
    ghost var whole := ReadLoop(f, s, accept);
    NothingBefore(whole);
    var going := true;
    while going
      invariant whole == if going then After(msgs, ReadLoop(f, rest, accept)) else Loop(msgs, rest, trapped)
      invariant going ==> !trapped
      decreases |rest|, going
    {
      LoopStep(f, rest, accept, msgs);
      match f(rest) {
        case More =>
          going := false;
        case Bad =>
          rest := if rest == [] then [] else rest[1..];
          going := false;
        case Trap =>
          trapped := true;
          going := false;
        case Done(m, n) =>
          going := accept(m);
          rest := rest[n..];
          msgs := msgs + [m];
      }
    }
  }

  lemma Regroup<M>(msgs: seq<M>, m: M, more: seq<M>)
    ensures msgs + ([m] + more) == (msgs + [m]) + more
  {
  }
}
