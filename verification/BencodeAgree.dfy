/** The C++ decoder on what the Ruby printer writes. */
module BencodeAgree {
  import opened Options
  import opened Texts
  import opened KeyOrder
  import opened Bencode
  import opened BencodeCpp

  /** The tree for a value, with dictionary entries in the order of their keys. */
  function NodeOf(v: Value): Node
    decreases v, 1, 0
  {
    match v
    case Int(i) => Number(i)
    case Str(s) => Text(Some(s))
    case List(_) => Items(ItemNodes(v, 0))
    case Dict(m) => Table(EntryNodes(v, SortedKeys(m.Keys)))
  }

  function ItemNodes(v: Value, n: nat): seq<Node>
    requires v.List? && n <= |v.items|
    decreases v, 0, |v.items| - n
  {
    if n == |v.items| then [] else [NodeOf(v.items[n])] + ItemNodes(v, n + 1)
  }

  function EntryNodes(v: Value, ks: seq<string>): seq<Entry>
    requires v.Dict? && forall k <- ks :: k in v.entries
    decreases v, 0, |ks|
  {
    if ks == [] then [] else [Entry(ks[0], NodeOf(v.entries[ks[0]]))] + EntryNodes(v, ks[1..])
  }

  /** The value is within what the C++ decoder can hold. */
  predicate Fits(v: Value)
    decreases v, 1, 0
  {
    match v
    case Int(i) => LONG_MIN <= i <= LONG_MAX
    case Str(s) => |s| <= MAX_LENGTH
    case List(_) => ItemsFit(v, 0)
    case Dict(m) => EntriesFit(v, SortedKeys(m.Keys))
  }

  predicate ItemsFit(v: Value, n: nat)
    requires v.List? && n <= |v.items|
    decreases v, 0, |v.items| - n
  {
    n == |v.items| || (Fits(v.items[n]) && ItemsFit(v, n + 1))
  }

  predicate EntriesFit(v: Value, ks: seq<string>)
    requires v.Dict? && forall k <- ks :: k in v.entries
    decreases v, 0, |ks|
  {
    ks == [] || (|ks[0]| <= MAX_LENGTH && Fits(v.entries[ks[0]]) && EntriesFit(v, ks[1..]))
  }

  lemma FitsInNumbers(i: int, s: string)
    ensures Fits(Int(i)) <==> -0x8000_0000_0000_0000 <= i < 0x8000_0000_0000_0000
    ensures Fits(Str(s)) <==> |s| <= 102400
  {
  }

  /** What a decoder that agrees with the value's printer does: the tree and the exact end
      if the value fits, and never that tree if it does not. */
  predicate Faithful(o: Outcome, node: Node, end: nat, fits: bool) {
    if fits then o == Done(node, end) else o.Done? ==> o.node != node
  }

  // ---- numbers and strings ----

  lemma {:induction false} DigitRunReads(n: nat, x: string, p: nat)
    requires Occurs(Decimal(n), x, p)
    ensures DigitRun(x, p, 0) == DigitRun(x, p + |Decimal(n)|, n)
  {
    if n < 10 {
      OccursChar(DigitChar(n), x, p);
    } else {
      OccursSplit(Decimal(n / 10), [DigitChar(n % 10)], x, p);
      OccursChar(DigitChar(n % 10), x, p + |Decimal(n / 10)|);
      DigitRunReads(n / 10, x, p);
    }
  }

  lemma UnsignedReads(n: nat, x: string, p: nat)
    requires Occurs(Decimal(n), x, p) && !Digit(At(x, p + |Decimal(n)|))
    ensures Digit(At(x, p)) && DigitRun(x, p, 0) == (n, p + |Decimal(n)|)
  {
    OccursAt(Decimal(n), x, p, 0);
    DigitRunReads(n, x, p);
  }

  lemma IntReads(i: int, x: string, p: nat)
    requires Occurs(SignedDecimal(i), x, p) && !Digit(At(x, p + |SignedDecimal(i)|))
    ensures DecodeInt(x, p) == (Clamp(i), p + |SignedDecimal(i)|)
  {
    if i < 0 {
      OccursSplit("-", Decimal(-i), x, p);
      OccursChar('-', x, p);
      UnsignedReads(-i, x, p + 1);
    } else {
      UnsignedReads(i, x, p);
    }
  }

  lemma NumeralReads(i: int, x: string, f: nat)
    requires Printed(Int(i), x, f).Some?
    ensures f < |x| && Decode(x, f) == Done(Number(Clamp(i)), Printed(Int(i), x, f).value)
  {
    var d := SignedDecimal(i);
    OccursSplit3("i", d, "e", x, f);
    OccursChar('i', x, f);
    OccursChar('e', x, f + 1 + |d|);
    IntReads(i, x, f + 1);
  }

  lemma StringReads(s: string, x: string, f: nat)
    requires Printed(Str(s), x, f).Some?
    ensures f < |x| && Digit(x[f])
    ensures |s| <= MAX_LENGTH ==> DecodeStr(x, f) == Field(s, Printed(Str(s), x, f).value)
    ensures |s| > MAX_LENGTH ==> DecodeStr(x, f).NoField?
  {
    var d := Decimal(|s|);
    OccursSplit3(d, ":", s, x, f);
    OccursChar(':', x, f + |d|);
    OccursAt(d, x, f, 0);
    IntReads(|s|, x, f);
  }

  // ---- agreement ----

  lemma {:induction false} ItemsExtend(x: string, p: nat, l: seq<Node>)
    requires p <= |x| && ItemsFrom(x, p, l).Done?
    ensures ItemsFrom(x, p, l).node.Items? && l <= ItemsFrom(x, p, l).node.items
    decreases |x| - p
  {
    if At(x, p) != 'e' {
      var d := Decode(x, p);
      ItemsExtend(x, d.pos, l + [d.node]);
    }
  }

  lemma {:induction false} TableExtends(x: string, p: nat, l: seq<Entry>)
    requires p <= |x| && TableFrom(x, p, l).Done?
    ensures TableFrom(x, p, l).node.Table? && l <= TableFrom(x, p, l).node.entries
    decreases |x| - p
  {
    if At(x, p) != 'e' {
      var key := DecodeStr(x, p);
      var d := Decode(x, key.pos);
      TableExtends(x, d.pos, l + [Entry(key.text, d.node)]);
    }
  }

  lemma ItemsStep(x: string, f: nat, l: seq<Node>, node: Node, rest: seq<Node>, mid: nat, end: nat,
                  fits: bool, restFit: bool)
    requires f < |x| && x[f] != 'e' && f < mid <= |x|
    requires Faithful(Decode(x, f), node, mid, fits)
    requires Faithful(ItemsFrom(x, mid, l + [node]), Items(l + [node] + rest), end, restFit)
    ensures Faithful(ItemsFrom(x, f, l), Items(l + ([node] + rest)), end, fits && restFit)
  {
    assert l + [node] + rest == l + ([node] + rest);
    var d := Decode(x, f);
    if !fits && d.Done? && ItemsFrom(x, f, l).Done? {
      ItemsExtend(x, d.pos, l + [d.node]);
      assert (l + ([node] + rest))[|l|] == node;
    }
  }

  lemma TableStep(x: string, f: nat, l: seq<Entry>, k: string, node: Node, rest: seq<Entry>, at: nat, mid: nat,
                  end: nat, fits: bool, restFit: bool)
    requires f < |x| && x[f] != 'e' && f < at < mid <= |x|
    requires if |k| <= MAX_LENGTH then DecodeStr(x, f) == Field(k, at) else DecodeStr(x, f).NoField?
    requires Faithful(Decode(x, at), node, mid, fits)
    requires Faithful(TableFrom(x, mid, l + [Entry(k, node)]), Table(l + [Entry(k, node)] + rest), end, restFit)
    ensures Faithful(TableFrom(x, f, l), Table(l + ([Entry(k, node)] + rest)), end,
                     |k| <= MAX_LENGTH && fits && restFit)
  {
    assert l + [Entry(k, node)] + rest == l + ([Entry(k, node)] + rest);
    if |k| <= MAX_LENGTH && !fits && Decode(x, at).Done? && TableFrom(x, f, l).Done? {
      var d := Decode(x, at);
      TableExtends(x, d.pos, l + [Entry(k, d.node)]);
      assert (l + ([Entry(k, node)] + rest))[|l|] == Entry(k, node);
    }
  }

  lemma EndsInside(v: Value, x: string, f: int)
    requires End(Printed, v, x, f).Some?
    ensures 0 <= f < End(Printed, v, x, f).value <= |x|
    decreases v, 1, 0
  {
    match v
    case List(_) => ItemsEndInside(v, 0, x, f + 1);
    case Dict(m) => EntriesEndInside(v, SortedKeys(m.Keys), x, f + 1);
    case _ =>
  }

  lemma {:induction false} ItemsEndInside(v: Value, n: nat, x: string, f: int)
    requires v.List? && n <= |v.items| && ItemsEnd(Printed, v, n, x, f).Some?
    ensures 0 <= f < ItemsEnd(Printed, v, n, x, f).value <= |x|
    decreases v, 0, |v.items| - n
  {
    if n < |v.items| { ItemsEndInside(v, n + 1, x, End(Printed, v.items[n], x, f).value); }
  }

  lemma {:induction false} EntriesEndInside(v: Value, ks: seq<string>, x: string, f: int)
    requires v.Dict? && (forall k <- ks :: k in v.entries) && EntriesEnd(Printed, v, ks, x, f).Some?
    ensures 0 <= f < EntriesEnd(Printed, v, ks, x, f).value <= |x|
    decreases v, 0, |ks|
  {
    if ks != [] {
      var at := ScalarEnd(Printed, Str(ks[0]), x, f).value;
      EntriesEndInside(v, ks[1..], x, End(Printed, v.entries[ks[0]], x, at).value);
    }
  }

  /** The tree comes out exactly when every part of the value fits. */
  lemma {:induction false} Agree(v: Value, x: string, f: nat, end: nat)
    requires End(Printed, v, x, f) == Some(end) && f < end <= |x|
    ensures Faithful(Decode(x, f), NodeOf(v), end, Fits(v))
    decreases v, 2, 0
  {
    match v
    case Int(i) => NumeralReads(i, x, f);
    case Str(s) => StringReads(s, x, f);
    case List(_) => AgreeList(v, x, f, end);
    case Dict(_) => AgreeDict(v, x, f, end);
  }

  lemma AgreeList(v: Value, x: string, f: nat, end: nat)
    requires v.List? && End(Printed, v, x, f) == Some(end) && f < end <= |x|
    ensures Faithful(Decode(x, f), NodeOf(v), end, Fits(v))
    decreases v, 1, 0
  {
    AgreeItems(v, 0, x, f + 1, end, []);
    assert [] + ItemNodes(v, 0) == ItemNodes(v, 0);
  }

  lemma AgreeDict(v: Value, x: string, f: nat, end: nat)
    requires v.Dict? && End(Printed, v, x, f) == Some(end) && f < end <= |x|
    ensures Faithful(Decode(x, f), NodeOf(v), end, Fits(v))
    decreases v, 1, 0
  {
    var ks := SortedKeys(v.entries.Keys);
    AgreeEntries(v, ks, x, f + 1, end, []);
    NothingBefore(EntryNodes(v, ks));
  }

  lemma NothingBefore<T>(s: seq<T>)
    ensures [] + s == s
  {
  }

  lemma {:induction false} AgreeItems(v: Value, n: nat, x: string, f: nat, end: nat, l: seq<Node>)
    requires v.List? && n <= |v.items| && ItemsEnd(Printed, v, n, x, f) == Some(end) && f < end <= |x|
    ensures Faithful(ItemsFrom(x, f, l), Items(l + ItemNodes(v, n)), end, ItemsFit(v, n))
    decreases v, 0, |v.items| - n
  {
    if n == |v.items| {
      assert l + [] == l;
    } else {
      var item := v.items[n];
      var mid := End(Printed, item, x, f).value;
      ItemsEndInside(v, n + 1, x, mid);
      Agree(item, x, f, mid);
      AgreeItems(v, n + 1, x, mid, end, l + [NodeOf(item)]);
      ItemsStep(x, f, l, NodeOf(item), ItemNodes(v, n + 1), mid, end, Fits(item), ItemsFit(v, n + 1));
    }
  }

  lemma {:induction false} AgreeEntries(v: Value, ks: seq<string>, x: string, f: nat, end: nat, l: seq<Entry>)
    requires v.Dict? && (forall k <- ks :: k in v.entries) && EntriesEnd(Printed, v, ks, x, f) == Some(end)
    requires f < end <= |x|
    ensures Faithful(TableFrom(x, f, l), Table(l + EntryNodes(v, ks)), end, EntriesFit(v, ks))
    decreases v, 0, |ks|
  {
    if ks == [] {
      assert l + [] == l;
    } else {
      var k, item := ks[0], v.entries[ks[0]];
      var at := ScalarEnd(Printed, Str(k), x, f).value;
      var mid := End(Printed, item, x, at).value;
      StringReads(k, x, f);
      EntriesEndInside(v, ks[1..], x, mid);
      Agree(item, x, at, mid);
      AgreeEntries(v, ks[1..], x, mid, end, l + [Entry(k, NodeOf(item))]);
      TableStep(x, f, l, k, NodeOf(item), EntryNodes(v, ks[1..]), at, mid, end, Fits(item), EntriesFit(v, ks[1..]));
    }
  }

  /** On what the Ruby printer writes, wherever it stands, the C++ decoder builds the value's
      tree and stops exactly past it if and only if the value fits. */
  lemma DecodersAgree(v: Value, x: string, f: int)
    requires Occurs(Encode(v), x, f)
    ensures Fits(v) <==> Decode(x, f) == Done(NodeOf(v), f + |Encode(v)|)
    ensures !Fits(v) ==> forall q :: Decode(x, f) != Done(NodeOf(v), q)
  {
    EncodeEnds(v, x, f);
    EndsInside(v, x, f);
    Agree(v, x, f, f + |Encode(v)|);
  }
}
