/** Bencoded values and the Ruby printer (bitrub/bencode.rb:102-150). */
module Bencode {
  import opened Options
  import opened KeyOrder
  import opened Texts

  /** Ruby's integers, byte strings, arrays and string-keyed hashes. */
  datatype Value =
    | Int(i: int)
    | Str(s: string)
    | List(items: seq<Value>)
    | Dict(entries: map<string, Value>)

  // ---- decimal numbers ----

  function DigitChar(d: nat): (c: char)
    requires d < 10
    ensures Digit(c) && (c as int) - ('0' as int) == d
  {
    '0' + (d as char)
  }

  function DigitValue(c: char): (d: nat)
    requires Digit(c)
    ensures d < 10
  {
    (c as int) - ('0' as int)
  }

  function Decimal(n: nat): (s: string)
    ensures s != "" && forall k :: 0 <= k < |s| ==> Digit(s[k])
    ensures s[0] == '0' ==> n == 0 && |s| == 1
  {
    if n < 10 then [DigitChar(n)] else Decimal(n / 10) + [DigitChar(n % 10)]
  }

  /** `Integer#to_s`. */
  function SignedDecimal(i: int): (s: string)
    ensures s != ""
  {
    if i < 0 then "-" + Decimal(-i) else Decimal(i)
  }

  // ---- the printer ----

  function Encode(v: Value): (s: string)
    ensures s != ""
    decreases v, 2, 0
  {
    EncodeKind(v)
  }

  function EncodeKind(v: Value): (s: string)
    ensures s != ""
    decreases v, 1, 0
  {
    match v
    case Int(i) => EncodeInt(i)
    case Str(s) => EncodeStr(s)
    case List(items) => "l" + EncodeItems(v, 0) + "e"
    case Dict(_) => EncodeDict(v)
  }

  function EncodeDict(v: Value): (s: string)
    requires v.Dict?
    ensures s != ""
    decreases v, 0, |SortedKeys(v.entries.Keys)| + 1
  {
    "d" + EncodeEntries(v, SortedKeys(v.entries.Keys)) + "e"
  }

  function EncodeInt(i: int): (r: string)
    ensures r != ""
  {
    "i" + SignedDecimal(i) + "e"
  }

  function EncodeStr(s: string): (r: string)
    ensures r != ""
  {
    Decimal(|s|) + ":" + s
  }

  /** The encodings of a list's items from the `n`th on. */
  function EncodeItems(v: Value, n: nat): string
    requires v.List? && n <= |v.items|
    decreases v, 0, |v.items| - n
  {
    if n == |v.items| then "" else Encode(v.items[n]) + EncodeItems(v, n + 1)
  }

  /** The encodings of a dictionary's entries under the keys `ks`, in that order. */
  function EncodeEntries(v: Value, ks: seq<string>): string
    requires v.Dict? && forall k <- ks :: k in v.entries
    decreases v, 0, |ks|
  {
    if ks == [] then ""
    else EncodeStr(ks[0]) + Encode(v.entries[ks[0]]) + EncodeEntries(v, ks[1..])
  }

  /** `Array#join`. */
  function Join(pieces: seq<string>): string {
    if pieces == [] then "" else Join(pieces[..|pieces| - 1]) + pieces[|pieces| - 1]
  }

  lemma JoinPush(pieces: seq<string>, s: string)
    ensures Join(pieces + [s]) == Join(pieces) + s
  {
    assert (pieces + [s])[..|pieces|] == pieces;
  }

  lemma JoinPushTwo(pieces: seq<string>, s: string, t: string)
    ensures Join(pieces + [s] + [t]) == Join(pieces) + s + t
  {
    JoinPush(pieces, s);
    JoinPush(pieces + [s], t);
  }

  lemma TailAppends(a: string, b: string, c: string, e: string)
    ensures a + (b + c) + e == (a + b) + c + e
  {
  }

  /** `bencode`. */
  method Bencode(v: Value) returns (s: string)
    ensures s == Encode(v)
    decreases v, 1, 0
  {
    match v
    case Int(i) => s := EncodeInt(i);
    case Str(t) => s := EncodeStr(t);
    case List(_) => s := EncodeListPieces(v);
    case Dict(_) => s := EncodeDictPieces(v);
  }

  method EncodeListPieces(v: Value) returns (s: string)
    requires v.List?
    ensures s == Encode(v)
    decreases v, 0, 1
  {
    var result := ["l"];
    assert result[..0] == [];
    for n := 0 to |v.items|
      invariant Join(result) + EncodeItems(v, n) + "e" == Encode(v)
    {
      var item := Bencode(v.items[n]);
      JoinPush(result, item);
      TailAppends(Join(result), item, EncodeItems(v, n + 1), "e");
      result := result + [item];
    }
    JoinPush(result, "e");
    assert Join(result) + "" + "e" == Join(result) + "e";
    s := Join(result + ["e"]);
  }

  lemma PushEntry(v: Value, keys: seq<string>, n: nat, done: string)
    requires v.Dict? && (forall k <- keys :: k in v.entries) && n < |keys|
    ensures done + EncodeEntries(v, keys[n..]) ==
            done + EncodeStr(keys[n]) + Encode(v.entries[keys[n]]) + EncodeEntries(v, keys[n + 1..])
  {
    var ks := keys[n..];
    assert ks[1..] == keys[n + 1..] && ks[0] == keys[n];
    var key, item, rest := EncodeStr(keys[n]), Encode(v.entries[keys[n]]), EncodeEntries(v, keys[n + 1..]);
    assert EncodeEntries(v, ks) == key + item + rest;
    assert done + (key + item + rest) == done + key + item + rest;
  }

  method EncodeDictPieces(v: Value) returns (s: string)
    requires v.Dict?
    ensures s == Encode(v)
    decreases v, 0, 1
  {
    var keys := SortedKeys(v.entries.Keys);
    var result := EntryPieces(v, keys);
    JoinPush(result, "e");
    assert Encode(v) == EncodeKind(v) == EncodeDict(v);
    s := Join(result + ["e"]);
  }

  /** The loop over the sorted keys. */
  method EntryPieces(v: Value, keys: seq<string>) returns (result: seq<string>)
    requires v.Dict? && forall k <- keys :: k in v.entries
    ensures Join(result) == "d" + EncodeEntries(v, keys)
    decreases v, 0, 0
  {
    result := ["d"];
    JoinOfOne("d");
    assert keys[0..] == keys;
    ghost var all := "d" + EncodeEntries(v, keys);
    for n := 0 to |keys|
      invariant Join(result) + EncodeEntries(v, keys[n..]) == all
    {
      var item := Bencode(v.entries[keys[n]]);
      PushEntry(v, keys, n, Join(result));
      JoinPushTwo(result, EncodeStr(keys[n]), item);
      result := result + [EncodeStr(keys[n])] + [item];
    }
    assert Join(result) + "" == Join(result);
  }

  lemma JoinOfOne(s: string)
    ensures Join([s]) == s
  {
    JoinPush([], s);
    assert [] + [s] == [s] && "" + s == s;
  }

  // ---- texts inside larger texts ----

  /** `w` stands in `x` at offset `f`. */
  predicate Occurs(w: string, x: string, f: int) {
    0 <= f <= |x| - |w| && x[f..f + |w|] == w
  }

  lemma OccursSplit(a: string, b: string, x: string, f: int)
    ensures Occurs(a + b, x, f) <==> Occurs(a, x, f) && Occurs(b, x, f + |a|)
  {
    if 0 <= f <= |x| - |a| - |b| {
      var w := x[f..f + |a| + |b|];
      assert w[..|a|] == x[f..f + |a|];
      assert w[|a|..] == x[f + |a|..f + |a| + |b|];
      assert w == w[..|a|] + w[|a|..];
      assert (a + b)[..|a|] == a && (a + b)[|a|..] == b;
    }
  }

  lemma OccursChar(c: char, x: string, f: int)
    requires Occurs([c], x, f)
    ensures f < |x| && x[f] == c
  {
    assert x[f..f + 1][0] == c;
  }

  lemma OccursAt(w: string, x: string, f: int, k: nat)
    requires Occurs(w, x, f) && k < |w|
    ensures x[f + k] == w[k]
  {
    assert x[f..f + |w|][k] == w[k];
  }

  // ---- where the parts of an encoding stand ----

  predicate Here(c: char, x: string, f: int) {
    0 <= f < |x| && x[f] == c
  }

  /** Where the text of an integer or a string that stands at an offset ends, if it stands
      there.  What lies where in a container is stated for any such function. */
  type Leaf = (Value, string, int) -> Option<int>

  function ScalarEnd(leaf: Leaf, v: Value, x: string, f: int): (r: Option<int>)
    ensures r.Some? ==> f < r.value && leaf(v, x, f) == r
  {
    var r := leaf(v, x, f);
    if r.Some? && f < r.value then r else None
  }

  /** Where the value `v`, if it stands in `x` at `f`, ends. */
  function End(leaf: Leaf, v: Value, x: string, f: int): (r: Option<int>)
    ensures r.Some? ==> f < r.value
    decreases v, 1, 0
  {
    match v
    case List(_) => if Here('l', x, f) then ItemsEnd(leaf, v, 0, x, f + 1) else None
    case Dict(m) => DictEnd(leaf, v, x, f)
    case _ => ScalarEnd(leaf, v, x, f)
  }

  function DictEnd(leaf: Leaf, v: Value, x: string, f: int): (r: Option<int>)
    requires v.Dict?
    ensures r.Some? ==> f < r.value
    decreases v, 0, |SortedKeys(v.entries.Keys)| + 1
  {
    if Here('d', x, f) then EntriesEnd(leaf, v, SortedKeys(v.entries.Keys), x, f + 1) else None
  }

  /** The items from the `n`th on, and the closing `e`. */
  function ItemsEnd(leaf: Leaf, v: Value, n: nat, x: string, f: int): (r: Option<int>)
    requires v.List? && n <= |v.items|
    ensures r.Some? ==> f < r.value
    decreases v, 0, |v.items| - n
  {
    if n == |v.items| then (if Here('e', x, f) then Some(f + 1) else None)
    else if !Inside(x, f) then None
    else
      var mid := End(leaf, v.items[n], x, f);
      if mid == None then None else ItemsEnd(leaf, v, n + 1, x, mid.value)
  }

  /** The entries under the keys `ks`, and the closing `e`. */
  function EntriesEnd(leaf: Leaf, v: Value, ks: seq<string>, x: string, f: int): (r: Option<int>)
    requires v.Dict? && forall k <- ks :: k in v.entries
    ensures r.Some? ==> f < r.value
    decreases v, 0, |ks|
  {
    if ks == [] then (if Here('e', x, f) then Some(f + 1) else None)
    else if !Inside(x, f) then None
    else
      var at := ScalarEnd(leaf, Str(ks[0]), x, f);
      if at == None then None
      else
        var mid := End(leaf, v.entries[ks[0]], x, at.value);
        if mid == None then None else EntriesEnd(leaf, v, ks[1..], x, mid.value)
  }

  /** The offset is in the text and the container is not closed there. */
  predicate Inside(x: string, f: int) {
    0 <= f < |x| && x[f] != 'e'
  }

  /** The scalar's own encoding stands there. */
  function Printed(v: Value, x: string, f: int): Option<int> {
    if v.Int? && Occurs(EncodeInt(v.i), x, f) then Some(f + |EncodeInt(v.i)|)
    else if v.Str? && Occurs(EncodeStr(v.s), x, f) then Some(f + |EncodeStr(v.s)|)
    else None
  }

  /** The first character of an encoding never closes the container it stands in. */
  lemma EncodeStartsWell(v: Value)
    ensures Encode(v)[0] != 'e'
  {
    assert Encode(v) == EncodeKind(v);
    match v
    case Int(i) => assert EncodeInt(i)[0] == 'i';
    case Str(s) => assert EncodeStr(s)[0] == Decimal(|s|)[0];
    case List(_) => assert ("l" + EncodeItems(v, 0))[0] == 'l';
    case Dict(_) => assert EncodeKind(v) == EncodeDict(v) && EncodeDict(v)[0] == 'd';
  }

  lemma OccursSplit3(a: string, b: string, c: string, x: string, f: int)
    requires Occurs(a + b + c, x, f)
    ensures Occurs(a, x, f) && Occurs(b, x, f + |a|) && Occurs(c, x, f + |a| + |b|)
  {
    OccursSplit(a + b, c, x, f);
    OccursSplit(a, b, x, f);
  }

  lemma OpensContainer(c: char, body: string, x: string, f: int)
    requires Occurs([c] + body + "e", x, f)
    ensures Here(c, x, f) && Occurs(body, x, f + 1) && Here('e', x, f + 1 + |body|)
  {
    OccursSplit3([c], body, "e", x, f);
    OccursChar(c, x, f);
    OccursChar('e', x, f + 1 + |body|);
  }

  lemma ListOpens(v: Value, x: string, f: int)
    requires v.List? && Occurs(Encode(v), x, f)
    ensures Occurs(EncodeItems(v, 0), x, f + 1) && Here('e', x, f + |Encode(v)| - 1)
    ensures End(Printed, v, x, f) == ItemsEnd(Printed, v, 0, x, f + 1)
    ensures |Encode(v)| == |EncodeItems(v, 0)| + 2
  {
    assert Encode(v) == EncodeKind(v);
    OpensContainer('l', EncodeItems(v, 0), x, f);
  }

  lemma DictOpens(v: Value, x: string, f: int) returns (ks: seq<string>, e: int)
    requires v.Dict? && Occurs(Encode(v), x, f)
    ensures forall k <- ks :: k in v.entries
    ensures Occurs(EncodeEntries(v, ks), x, f + 1)
    ensures Here('e', x, e) && e == f + 1 + |EncodeEntries(v, ks)|
    ensures e + 1 == f + |Encode(v)| && End(Printed, v, x, f) == EntriesEnd(Printed, v, ks, x, f + 1)
  {
    ks := SortedKeys(v.entries.Keys);
    e := f + 1 + |EncodeEntries(v, ks)|;
    assert Encode(v) == EncodeKind(v) == EncodeDict(v);
    OpensContainer('d', EncodeEntries(v, ks), x, f);
  }

  lemma NextItem(v: Value, n: nat, x: string, f: int)
    requires v.List? && n < |v.items| && Occurs(EncodeItems(v, n), x, f)
    ensures Occurs(Encode(v.items[n]), x, f)
    ensures Occurs(EncodeItems(v, n + 1), x, f + |Encode(v.items[n])|)
    ensures Inside(x, f)
    ensures |EncodeItems(v, n)| == |Encode(v.items[n])| + |EncodeItems(v, n + 1)|
  {
    var item := Encode(v.items[n]);
    OccursSplit(item, EncodeItems(v, n + 1), x, f);
    EncodeStartsWell(v.items[n]);
    OccursAt(item, x, f, 0);
  }

  lemma NextEntry(v: Value, ks: seq<string>, x: string, f: int) returns (key: string, item: string, rest: string)
    requires v.Dict? && ks != [] && forall k <- ks :: k in v.entries
    requires Occurs(EncodeEntries(v, ks), x, f)
    ensures key == EncodeStr(ks[0]) && item == Encode(v.entries[ks[0]]) && rest == EncodeEntries(v, ks[1..])
    ensures Occurs(key, x, f) && Occurs(item, x, f + |key|) && Occurs(rest, x, f + |key| + |item|)
    ensures Inside(x, f) && |EncodeEntries(v, ks)| == |key| + |item| + |rest|
  {
    key, item, rest := EncodeStr(ks[0]), Encode(v.entries[ks[0]]), EncodeEntries(v, ks[1..]);
    OccursSplit3(key, item, rest, x, f);
    KeyStarts(ks[0], x, f);
  }

  lemma KeyStarts(k: string, x: string, f: int)
    requires Occurs(EncodeStr(k), x, f)
    ensures Inside(x, f)
  {
    OccursAt(EncodeStr(k), x, f, 0);
  }

  lemma ScalarEnds(v: Value, x: string, f: int)
    requires (v.Int? || v.Str?) && Occurs(Encode(v), x, f)
    ensures ScalarEnd(Printed, v, x, f) == Some(f + |Encode(v)|)
  {
  }

  lemma KeyEnds(k: string, x: string, f: int)
    requires Occurs(EncodeStr(k), x, f)
    ensures ScalarEnd(Printed, Str(k), x, f) == Some(f + |EncodeStr(k)|)
  {
  }

  lemma EntriesStep(v: Value, ks: seq<string>, x: string, f: int, at: int, mid: int)
    requires v.Dict? && ks != [] && (forall k <- ks :: k in v.entries) && Inside(x, f)
    requires ScalarEnd(Printed, Str(ks[0]), x, f) == Some(at)
    requires End(Printed, v.entries[ks[0]], x, at) == Some(mid)
    ensures EntriesEnd(Printed, v, ks, x, f) == EntriesEnd(Printed, v, ks[1..], x, mid)
  {
  }

  /** Where an encoding stands, its value stands. */
  lemma {:induction false} EncodeEnds(v: Value, x: string, f: int)
    requires Occurs(Encode(v), x, f)
    ensures End(Printed, v, x, f) == Some(f + |Encode(v)|)
    decreases v, 2, 0, 0
  {
    if v.List? {
      EncodedListEnds(v, x, f);
    } else if v.Dict? {
      EncodedDictEnds(v, x, f);
    } else {
      ScalarEnds(v, x, f);
    }
  }

  lemma EncodedListEnds(v: Value, x: string, f: int)
    requires v.List? && Occurs(Encode(v), x, f)
    ensures End(Printed, v, x, f) == Some(f + |Encode(v)|)
    decreases v, 1, 0, 0
  {
    ListOpens(v, x, f);
    EncodedItemsEnd(v, 0, x, f + 1, f + |Encode(v)| - 1);
  }

  lemma EncodedDictEnds(v: Value, x: string, f: int)
    requires v.Dict? && Occurs(Encode(v), x, f)
    ensures End(Printed, v, x, f) == Some(f + |Encode(v)|)
    decreases v, 1, 0, 0
  {
    var ks, e := DictOpens(v, x, f);
    EncodedEntriesEnd(v, ks, x, f + 1, e);
  }

  lemma {:induction false} EncodedItemsEnd(v: Value, n: nat, x: string, f: int, e: int)
    requires v.List? && n <= |v.items| && Occurs(EncodeItems(v, n), x, f)
    requires Here('e', x, e) && e == f + |EncodeItems(v, n)|
    ensures ItemsEnd(Printed, v, n, x, f) == Some(e + 1)
    decreases v, 0, |v.items| - n, 0
  {
    if n < |v.items| {
      NextItem(v, n, x, f);
      EncodeEnds(v.items[n], x, f);
      EncodedItemsEnd(v, n + 1, x, f + |Encode(v.items[n])|, e);
    }
  }

  lemma {:induction false} EncodedEntriesEnd(v: Value, ks: seq<string>, x: string, f: int, e: int)
    requires v.Dict? && (forall k <- ks :: k in v.entries) && Occurs(EncodeEntries(v, ks), x, f)
    requires Here('e', x, e) && e == f + |EncodeEntries(v, ks)|
    ensures EntriesEnd(Printed, v, ks, x, f) == Some(e + 1)
    decreases v, 0, |ks|, 1
  {
    if ks == [] {
      NoEntriesEnd(v, x, f);
    } else {
      var mid := EncodedEntryEnds(v, ks, x, f);
      EncodedEntriesEnd(v, ks[1..], x, mid, e);
    }
  }

  lemma NoEntriesEnd(v: Value, x: string, f: int)
    requires v.Dict? && Here('e', x, f)
    ensures EntriesEnd(Printed, v, [], x, f) == Some(f + 1) && EncodeEntries(v, []) == ""
  {
  }

  /** The first entry of some stands there: its key up to `at`, its item up to `mid`. */
  lemma EntryStands(v: Value, ks: seq<string>, x: string, f: int) returns (at: int, mid: int)
    requires v.Dict? && ks != [] && forall k <- ks :: k in v.entries
    requires Occurs(EncodeEntries(v, ks), x, f)
    ensures Inside(x, f) && ScalarEnd(Printed, Str(ks[0]), x, f) == Some(at)
    ensures Occurs(Encode(v.entries[ks[0]]), x, at) && mid == at + |Encode(v.entries[ks[0]])|
    ensures Occurs(EncodeEntries(v, ks[1..]), x, mid)
    ensures mid + |EncodeEntries(v, ks[1..])| == f + |EncodeEntries(v, ks)|
  {
    var key, item, rest := NextEntry(v, ks, x, f);
    at := f + |key|;
    mid := at + |item|;
    KeyEnds(ks[0], x, f);
  }

  lemma EncodedEntryEnds(v: Value, ks: seq<string>, x: string, f: int) returns (mid: int)
    requires v.Dict? && ks != [] && (forall k <- ks :: k in v.entries)
    requires Occurs(EncodeEntries(v, ks), x, f)
    ensures Occurs(EncodeEntries(v, ks[1..]), x, mid)
    ensures mid + |EncodeEntries(v, ks[1..])| == f + |EncodeEntries(v, ks)|
    ensures EntriesEnd(Printed, v, ks, x, f) == EntriesEnd(Printed, v, ks[1..], x, mid)
    decreases v, 0, |ks|, 0
  {
    var at;
    at, mid := EntryStands(v, ks, x, f);
    EncodeEnds(v.entries[ks[0]], x, at);
    EntriesStep(v, ks, x, f, at, mid);
  }
}
