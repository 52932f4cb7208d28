/** Printed values that are cut short: where the text breaks off. */
module BencodeCut {
  import opened Options
  import opened Texts
  import opened KeyOrder
  import opened Numerals
  import opened Bencode

  // ---- cut texts ----

  /** From `f` on the text is a strict beginning of `w`, with at least one character. */
  predicate Cut(w: string, x: string, f: int) {
    0 <= f < |x| && |x| - f < |w| && x[f..] == w[..|x| - f]
  }

  lemma CutSplit(a: string, b: string, x: string, f: int)
    requires Cut(a + b, x, f)
    ensures Cut(a, x, f) || (Occurs(a, x, f) && (f + |a| == |x| || Cut(b, x, f + |a|)))
  {
    var n := |x| - f;
    if n < |a| {
      assert (a + b)[..n] == a[..n];
    } else {
      assert (a + b)[..n] == a + b[..n - |a|];
      assert x[f..][..|a|] == x[f..f + |a|] && x[f..][|a|..] == x[f + |a|..];
    }
  }

  lemma CutAt(w: string, x: string, f: int, i: nat)
    requires Cut(w, x, f) && f + i < |x|
    ensures x[f + i] == w[i]
  {
    assert x[f + i] == x[f..][i];
  }

  /** The scalar's own encoding is cut there. */
  function PrintedCut(v: Value, x: string, f: int): Option<int> {
    if v.Int? && Cut(EncodeInt(v.i), x, f) then Some(f)
    else if v.Str? && Cut(EncodeStr(v.s), x, f) then Some(f)
    else None
  }

  /** A printed number stands for itself. */
  lemma {:induction false} DecimalValue(n: nat)
    ensures AllDigits(Decimal(n)) && PlaceValue(Decimal(n)) == n
  {
    if n < 10 {
      PlaceValuePush("", DigitChar(n));
      assert "" + [DigitChar(n)] == [DigitChar(n)];
    } else {
      DecimalValue(n / 10);
      PlaceValuePush(Decimal(n / 10), DigitChar(n % 10));
    }
  }

  // ---- where a value breaks off ----

  /** Where in the value `v`, which stands in `x` at `f`, the text breaks off: in a scalar that `cuts`
      knows to be cut, or behind a part that is whole according to `ends`. */
  function Break(ends: Leaf, cuts: Leaf, v: Value, x: string, f: int): Option<int>
    decreases v, 1, 0
  {
    match v
    case List(_) => if Here('l', x, f) then ItemsBreak(ends, cuts, v, 0, x, f + 1) else None
    case Dict(m) => DictBreak(ends, cuts, v, x, f)
    case _ => cuts(v, x, f)
  }

  function DictBreak(ends: Leaf, cuts: Leaf, v: Value, x: string, f: int): Option<int>
    requires v.Dict?
    decreases v, 0, |SortedKeys(v.entries.Keys)| + 1
  {
    if Here('d', x, f) then EntriesBreak(ends, cuts, v, SortedKeys(v.entries.Keys), x, f + 1) else None
  }

  function ItemsBreak(ends: Leaf, cuts: Leaf, v: Value, n: nat, x: string, f: int): Option<int>
    requires v.List? && n <= |v.items|
    decreases v, 0, |v.items| - n
  {
    if f == |x| then Some(f)
    else if n == |v.items| || !Inside(x, f) then None
    else
      var b := Break(ends, cuts, v.items[n], x, f);
      if b.Some? then b
      else
        var mid := End(ends, v.items[n], x, f);
        if mid == None then None else ItemsBreak(ends, cuts, v, n + 1, x, mid.value)
  }

  function EntriesBreak(ends: Leaf, cuts: Leaf, v: Value, ks: seq<string>, x: string, f: int): Option<int>
    requires v.Dict? && forall k <- ks :: k in v.entries
    decreases v, 0, |ks|
  {
    if f == |x| then Some(f)
    else if ks == [] || !Inside(x, f) then None
    else
      var b := cuts(Str(ks[0]), x, f);
      if b.Some? then b
      else
        var at := ScalarEnd(ends, Str(ks[0]), x, f);
        if at == None || at.value == |x| then at
        else
          var c := Break(ends, cuts, v.entries[ks[0]], x, at.value);
          if c.Some? then c
          else
            var mid := End(ends, v.entries[ks[0]], x, at.value);
            if mid == None then None else EntriesBreak(ends, cuts, v, ks[1..], x, mid.value)
  }

  // ---- cut encodings break off ----

  lemma CutOpens(c: char, body: string, x: string, f: int)
    requires Cut([c] + body + "e", x, f)
    ensures Here(c, x, f) && (f + 1 == |x| || Cut(body + "e", x, f + 1))
  {
    assert [c] + body + "e" == [c] + (body + "e");
    CutAt([c] + (body + "e"), x, f, 0);
    CutSplit([c], body + "e", x, f);
  }

  lemma ListText(v: Value)
    requires v.List?
    ensures Encode(v) == ['l'] + EncodeItems(v, 0) + "e"
  {
    assert Encode(v) == EncodeKind(v);
  }

  lemma DictText(v: Value)
    requires v.Dict?
    ensures Encode(v) == ['d'] + EncodeEntries(v, SortedKeys(v.entries.Keys)) + "e"
  {
    assert Encode(v) == EncodeKind(v) == EncodeDict(v);
  }

  /** Every strict beginning of an encoding breaks off somewhere. */
  lemma {:induction false} CutBreaks(v: Value, x: string, f: int)
    requires Cut(Encode(v), x, f)
    ensures Break(Printed, PrintedCut, v, x, f).Some?
    decreases v, 1, 0
  {
    if v.List? {
      ListText(v);
      CutOpens('l', EncodeItems(v, 0), x, f);
      CutItemsBreak(v, 0, x, f + 1);
    } else if v.Dict? {
      var ks := SortedKeys(v.entries.Keys);
      DictText(v);
      CutOpens('d', EncodeEntries(v, ks), x, f);
      CutEntriesBreak(v, ks, x, f + 1);
    } else {
      ScalarText(v);
    }
  }

  lemma ScalarText(v: Value)
    ensures v.Int? ==> Encode(v) == EncodeInt(v.i)
    ensures v.Str? ==> Encode(v) == EncodeStr(v.s)
  {
    assert Encode(v) == EncodeKind(v);
  }

  lemma {:induction false} CutItemsBreak(v: Value, n: nat, x: string, f: int)
    requires v.List? && n <= |v.items| && (f == |x| || Cut(EncodeItems(v, n) + "e", x, f))
    ensures ItemsBreak(Printed, PrintedCut, v, n, x, f).Some?
    decreases v, 0, |v.items| - n
  {
    if f != |x| {
      var mid := NextItemCut(v, n, x, f);
      if Cut(Encode(v.items[n]), x, f) {
        CutBreaks(v.items[n], x, f);
      } else {
        EncodeEnds(v.items[n], x, f);
        CutItemsBreak(v, n + 1, x, mid);
      }
    }
  }

  /** Inside a cut list there is another item, cut or with the rest behind it. */
  lemma NextItemCut(v: Value, n: nat, x: string, f: int) returns (mid: int)
    requires v.List? && n <= |v.items| && Cut(EncodeItems(v, n) + "e", x, f)
    ensures n < |v.items| && Inside(x, f) && mid == f + |Encode(v.items[n])|
    ensures Cut(Encode(v.items[n]), x, f) ||
            (Occurs(Encode(v.items[n]), x, f) && (mid == |x| || Cut(EncodeItems(v, n + 1) + "e", x, mid)))
  {
    mid := f;
    if n < |v.items| {
      mid := f + |Encode(v.items[n])|;
      var w, rest := Encode(v.items[n]), EncodeItems(v, n + 1) + "e";
      Reassociate(w, EncodeItems(v, n + 1), "e");
      assert EncodeItems(v, n) + "e" == w + rest;
      CutSplit(w, rest, x, f);
      EncodeStartsWell(v.items[n]);
      CutAt(w + rest, x, f, 0);
    }
  }

  lemma {:induction false} CutEntriesBreak(v: Value, ks: seq<string>, x: string, f: int)
    requires v.Dict? && (forall k <- ks :: k in v.entries) && (f == |x| || Cut(EncodeEntries(v, ks) + "e", x, f))
    ensures EntriesBreak(Printed, PrintedCut, v, ks, x, f).Some?
    decreases v, 0, |ks|, 1
  {
    if f != |x| {
      var at, mid := NextEntryCut(v, ks, x, f);
      if !Cut(EncodeStr(ks[0]), x, f) {
        KeyEnds(ks[0], x, f);
        if at != |x| { CutEntryBreaks(v, ks, v.entries[ks[0]], x, at, mid); }
        EntryBreaks(v, ks, x, f, at);
      }
    }
  }

  lemma CutEntryBreaks(v: Value, ks: seq<string>, w: Value, x: string, at: int, mid: int)
    requires v.Dict? && ks != [] && (forall k <- ks :: k in v.entries) && w == v.entries[ks[0]]
    requires mid == at + |Encode(w)|
    requires Cut(Encode(w), x, at) ||
             (Occurs(Encode(w), x, at) && (mid == |x| || Cut(EncodeEntries(v, ks[1..]) + "e", x, mid)))
    ensures Break(Printed, PrintedCut, w, x, at).Some? ||
            (End(Printed, w, x, at) == Some(mid) && EntriesBreak(Printed, PrintedCut, v, ks[1..], x, mid).Some?)
    decreases v, 0, |ks|, 0
  {
    if Cut(Encode(w), x, at) {
      CutBreaks(v.entries[ks[0]], x, at);
    } else {
      EncodeEnds(w, x, at);
      CutEntriesBreak(v, ks[1..], x, mid);
    }
  }

  lemma EntryBreaks(v: Value, ks: seq<string>, x: string, f: int, at: int)
    requires v.Dict? && ks != [] && (forall k <- ks :: k in v.entries) && Inside(x, f)
    requires ScalarEnd(Printed, Str(ks[0]), x, f) == Some(at)
    requires at == |x| || Break(Printed, PrintedCut, v.entries[ks[0]], x, at).Some? ||
             (End(Printed, v.entries[ks[0]], x, at).Some?
              && EntriesBreak(Printed, PrintedCut, v, ks[1..], x, End(Printed, v.entries[ks[0]], x, at).value).Some?)
    ensures EntriesBreak(Printed, PrintedCut, v, ks, x, f).Some?
  {
  }

  /** Inside a cut dictionary there is another entry: its key is cut, or its value, or it has the
      rest behind it. */
  lemma NextEntryCut(v: Value, ks: seq<string>, x: string, f: int) returns (at: int, mid: int)
    requires v.Dict? && (forall k <- ks :: k in v.entries) && Cut(EncodeEntries(v, ks) + "e", x, f)
    ensures ks != [] && Inside(x, f)
    ensures at == f + |EncodeStr(ks[0])| && mid == at + |Encode(v.entries[ks[0]])|
    ensures Cut(EncodeStr(ks[0]), x, f) || Occurs(EncodeStr(ks[0]), x, f)
    ensures Cut(EncodeStr(ks[0]), x, f) || at == |x| || Cut(Encode(v.entries[ks[0]]), x, at) ||
            (Occurs(Encode(v.entries[ks[0]]), x, at) && (mid == |x| || Cut(EncodeEntries(v, ks[1..]) + "e", x, mid)))
  {
    at, mid := f, f;
    if ks != [] {
      var key, item, rest := EncodeStr(ks[0]), Encode(v.entries[ks[0]]), EncodeEntries(v, ks[1..]) + "e";
      at := f + |key|;
      mid := at + |item|;
      assert EncodeEntries(v, ks) + "e" == key + (item + rest);
      CutSplit(key, item + rest, x, f);
      if at < |x| && !Cut(key, x, f) { CutSplit(item, rest, x, at); }
      DecimalValue(|ks[0]|);
      CutAt(key + (item + rest), x, f, 0);
    }
  }
}
