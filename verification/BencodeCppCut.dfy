/** What the C++ decoder reads as a number, and what it makes of printed values that are cut short
    (ypeer/bencode.cpp:32-155). */
module BencodeCppCut {
  import opened Options
  import opened Texts
  import opened KeyOrder
  import opened Numerals
  import opened Bencode
  import opened BencodeCut
  import opened BencodeCpp
  import opened BencodeAgree

  // ---- numbers ----

  lemma {:induction false} RunIsPlaceValue(d: string, x: string, p: nat, acc: nat)
    requires AllDigits(d) && Occurs(d, x, p)
    ensures DigitRun(x, p, acc) == DigitRun(x, p + |d|, Times(acc, Pow10(|d|)) + PlaceValue(d))
    decreases |d|
  {
    if d != "" {
      OccursAt(d, x, p, 0);
      OccursSplit([d[0]], d[1..], x, p);
      assert d == [d[0]] + d[1..];
      RunIsPlaceValue(d[1..], x, p + 1, 10 * acc + DigitValue(d[0]));
      MovedUp(acc, DigitOf(d[0]), Pow10(|d| - 1));
    }
  }

  predicate AllSpaces(s: string) {
    forall i :: 0 <= i < |s| ==> Space(s[i])
  }

  lemma {:induction false} SpacesSkipped(s: string, x: string, p: nat, q: nat)
    requires AllSpaces(s) && Occurs(s, x, p) && q == p + |s| && !Space(BencodeCpp.At(x, q))
    ensures BencodeCpp.SkipSpaces(x, p) == q
    decreases |s|
  {
    if s != "" {
      OccursAt(s, x, p, 0);
      assert s == [s[0]] + s[1..];
      OccursSplit([s[0]], s[1..], x, p);
      SpacesSkipped(s[1..], x, p + 1, q);
    }
  }

  /** A number is white space, a sign or none, and digits up to the first other character: it is what
      the digits stand for, as far as 64 bits go. */
  lemma NumberExactly(s: string, sign: string, d: string, x: string, p: nat, q: nat, start: nat, end: nat)
    requires q == p + |s| && start == q + |sign| && end == start + |d|
    requires AllSpaces(s) && (sign == "" || sign == "-" || sign == "+") && d != "" && AllDigits(d)
    requires Occurs(s, x, p) && Occurs(sign, x, q) && Occurs(d, x, start) && !Digit(BencodeCpp.At(x, end))
    ensures BencodeCpp.DecodeInt(x, p) == (Clamp(if sign == "-" then 0 - PlaceValue(d) else PlaceValue(d)), end)
  {
    SignStands(sign, d, x, q, start);
    SpacesSkipped(s, x, p, q);
    DigitsStand(d, x, start, end);
    NumberFrom(x, p, q, start, PlaceValue(d), end, sign);
  }

  lemma SignStands(sign: string, d: string, x: string, q: nat, start: nat)
    requires (sign == "" || sign == "-" || sign == "+") && d != "" && AllDigits(d)
    requires start == q + |sign| && Occurs(sign, x, q) && Occurs(d, x, start)
    ensures var c := BencodeCpp.At(x, q); !Space(c) && (if sign == "" then c != '-' && c != '+' else c == sign[0])
  {
    OccursAt(d, x, start, 0);
    if sign != "" { OccursAt(sign, x, q, 0); }
  }

  lemma DigitsStand(d: string, x: string, start: nat, end: nat)
    requires d != "" && AllDigits(d) && Occurs(d, x, start) && end == start + |d| && !Digit(BencodeCpp.At(x, end))
    ensures Digit(BencodeCpp.At(x, start)) && DigitRun(x, start, 0) == (PlaceValue(d), end)
  {
    OccursAt(d, x, start, 0);
    RunIsPlaceValue(d, x, start, 0);
    NoTimes(Pow10(|d|));
  }

  lemma NumberFrom(x: string, p: nat, q: nat, start: nat, n: nat, end: nat, sign: string)
    requires sign == "" || sign == "-" || sign == "+"
    requires BencodeCpp.SkipSpaces(x, p) == q && start == q + |sign|
    requires var c := BencodeCpp.At(x, q); if sign == "" then c != '-' && c != '+' else c == sign[0]
    requires Digit(BencodeCpp.At(x, start)) && DigitRun(x, start, 0) == (n, end)
    ensures BencodeCpp.DecodeInt(x, p) == (Clamp(if sign == "-" then 0 - n else n), end)
  {
  }

  /** At any character that begins nothing, also at the end, the decoder gives up. */
  lemma OtherCharacters(x: string, p: nat)
    requires p <= |x| && (p < |x| ==> x[p] !in {'i', 'l', 'd'} && !Digit(x[p]))
    ensures Decode(x, p) == Null
  {
  }

  // ---- cut texts ----

  /** Nothing, a wild access, or a node without its text. */
  predicate Unread(o: Outcome, v: Value, x: string) {
    o.Done? ==> v.Str? && o == Done(Text(None), |x|)
  }

  lemma CutNumeral(i: int, x: string, f: nat)
    requires PrintedCut(Int(i), x, f).Some?
    ensures Decode(x, f) == Null
  {
    var w, d := EncodeInt(i), SignedDecimal(i);
    CutAt(w, x, f, 0);
    forall k | f + 1 <= k < |x| ensures x[k] != 'e' {
      CutAt(w, x, f, k - f);
      assert w[k - f] == d[k - f - 1];
    }
  }

  lemma {:induction false} DigitsToTheEnd(x: string, p: nat, acc: nat)
    requires p <= |x| && forall k :: p <= k < |x| ==> Digit(x[k])
    ensures DigitRun(x, p, acc).1 == |x|
    decreases |x| - p
  {
    if p < |x| { DigitsToTheEnd(x, p + 1, 10 * acc + DigitValue(x[p])); }
  }

  /** A string cut in its length ends without a text, and one cut behind the colon is copied from
      beyond the end. */
  lemma CutString(s: string, x: string, f: nat)
    requires PrintedCut(Str(s), x, f).Some? && |s| <= MAX_LENGTH
    ensures f < |x| && Digit(x[f])
    ensures BencodeCpp.DecodeStr(x, f) == NoField(|x|) || BencodeCpp.DecodeStr(x, f) == WildField
  {
    var d := Decimal(|s|);
    DecimalValue(|s|);
    CutAt(EncodeStr(s), x, f, 0);
    CutSplit(d, ":" + s, x, f) by { assert d + ":" + s == d + (":" + s); }
    if Cut(d, x, f) || f + |d| == |x| {
      forall k | f <= k < |x| ensures Digit(x[k]) {
        if Cut(d, x, f) { CutAt(d, x, f, k - f); } else { OccursAt(d, x, f, k - f); }
      }
      DigitsToTheEnd(x, f, 0);
    } else {
      CutAt(":" + s, x, f + |d|, 0);
      assert x[f..f] == "";
      NumberExactly("", "", d, x, f, f, f, f + |d|);
    }
  }

  lemma WholeNode(v: Value, x: string, f: nat)
    requires Fits(v) && End(Printed, v, x, f).Some?
    ensures f < End(Printed, v, x, f).value <= |x|
    ensures Decode(x, f) == Done(NodeOf(v), End(Printed, v, x, f).value)
  {
    EndsInside(v, x, f);
    Agree(v, x, f, End(Printed, v, x, f).value);
  }

  lemma {:induction false} BreakUnread(v: Value, x: string, f: nat)
    requires Fits(v) && f < |x| && Break(Printed, PrintedCut, v, x, f).Some?
    ensures Unread(Decode(x, f), v, x)
    decreases v, 2, 0
  {
    match v
    case Int(i) => CutNumeral(i, x, f);
    case Str(s) => CutString(s, x, f);
    case List(_) => ItemsUnread(v, 0, x, f + 1, []);
    case Dict(m) => EntriesUnread(v, SortedKeys(m.Keys), x, f + 1, []);
  }

  lemma {:induction false} ItemsUnread(v: Value, n: nat, x: string, f: nat, l: seq<Node>)
    requires v.List? && n <= |v.items| && ItemsFit(v, n) && f <= |x|
    requires ItemsBreak(Printed, PrintedCut, v, n, x, f).Some?
    ensures !ItemsFrom(x, f, l).Done?
    decreases v, 0, |v.items| - n
  {
    if f < |x| {
      var w := v.items[n];
      if Break(Printed, PrintedCut, w, x, f).Some? {
        BreakUnread(w, x, f);
        if Decode(x, f).Done? { NothingAtEnd(x, l + [Decode(x, f).node]); }
      } else {
        var mid := End(Printed, w, x, f).value;
        WholeNode(w, x, f);
        ItemsUnread(v, n + 1, x, mid, l + [NodeOf(w)]);
      }
    }
  }

  lemma NothingAtEnd(x: string, l: seq<Node>)
    ensures !ItemsFrom(x, |x|, l).Done?
  {
  }

  lemma NoEntryAtEnd(x: string, l: seq<Entry>)
    ensures !TableFrom(x, |x|, l).Done?
  {
  }

  lemma {:induction false} EntriesUnread(v: Value, ks: seq<string>, x: string, f: nat, l: seq<Entry>)
    requires v.Dict? && (forall k <- ks :: k in v.entries) && EntriesFit(v, ks) && f <= |x|
    requires EntriesBreak(Printed, PrintedCut, v, ks, x, f).Some?
    ensures !TableFrom(x, f, l).Done?
    decreases v, 0, |ks|, 1
  {
    if f == |x| {
      NoEntryAtEnd(x, l);
    } else if PrintedCut(Str(ks[0]), x, f).Some? {
      CutString(ks[0], x, f);
    } else {
      var at := ScalarEnd(Printed, Str(ks[0]), x, f).value;
      BencodeAgree.StringReads(ks[0], x, f);
      if at < |x| {
        EntryUnread(v, ks, v.entries[ks[0]], x, f, at, l);
      }
    }
  }

  lemma EntryUnread(v: Value, ks: seq<string>, w: Value, x: string, f: nat, at: nat, l: seq<Entry>)
    requires v.Dict? && ks != [] && (forall k <- ks :: k in v.entries) && EntriesFit(v, ks) && w == v.entries[ks[0]]
    requires f < at < |x| && x[f] != 'e' && BencodeCpp.DecodeStr(x, f) == Field(ks[0], at)
    requires Break(Printed, PrintedCut, w, x, at).Some? ||
             (End(Printed, w, x, at).Some?
              && EntriesBreak(Printed, PrintedCut, v, ks[1..], x, End(Printed, w, x, at).value).Some?)
    ensures !TableFrom(x, f, l).Done?
    decreases v, 0, |ks|, 0
  {
    if Break(Printed, PrintedCut, w, x, at).Some? {
      BreakUnread(w, x, at);
      if Decode(x, at).Done? { NoEntryAtEnd(x, l + [Entry(ks[0], Decode(x, at).node)]); }
    } else {
      WholeNode(w, x, at);
      EntriesUnread(v, ks[1..], x, End(Printed, w, x, at).value, l + [Entry(ks[0], NodeOf(w))]);
    }
  }

  /** Of a printed value that fits and is cut short anywhere, no tree is built: the decoder gives up or
      reads wild, except that a string cut in its length gives a node without a text. */
  lemma CutTextUnread(v: Value, n: nat)
    requires Fits(v) && n < |Encode(v)|
    ensures Unread(Decode(Encode(v)[..n], 0), v, Encode(v)[..n])
  {
    var x := Encode(v)[..n];
    if n > 0 {
      CutBreaks(v, x, 0);
      BreakUnread(v, x, 0);
    }
  }

  /** Inside a list that node is freed, and freeing it follows its null pointer. */
  lemma CutLengthIsWild(x: string)
    requires x == "l3"
    ensures Decode(x, 0) == Wild
  {
    DigitsToTheEnd(x, 1, 0);
    assert DigitRun(x, 1, 0) == DigitRun(x, 2, 3) == (3, 2);
    assert Decode(x, 1) == Done(Text(None), 2);
    assert [] + [Text(None)] == [Text(None)];
    assert !Freeable(Text(None)) && Text(None) in [Text(None)];
    assert !Freeable(Items([Text(None)]));
    assert ItemsFrom(x, 2, [Text(None)]) == Freed(Items([Text(None)]));
  }
}
