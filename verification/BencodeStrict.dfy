/** What the Ruby decoder refuses and what it lets pass (bitrub/bencode.rb:24-86): numerals, lengths,
    cut texts, and dictionaries in any order. */
module BencodeStrict {
  import opened Options
  import opened Texts
  import opened KeyOrder
  import opened Numerals
  import opened Bencode
  import opened BencodeCut
  import opened BencodeDecode

  // ---- numerals and lengths ----

  /** The digits from `p` on count by their places behind what has been read. */
  lemma {:induction false} RunIsPlaceValue(d: string, s: string, p: nat, acc: nat)
    requires AllDigits(d) && Occurs(d, s, p)
    ensures DigitRun(s, p, acc) == DigitRun(s, p + |d|, Times(acc, Pow10(|d|)) + PlaceValue(d))
    decreases |d|
  {
    if d != "" {
      OccursAt(d, s, p, 0);
      OccursSplit([d[0]], d[1..], s, p);
      assert d == [d[0]] + d[1..];
      RunIsPlaceValue(d[1..], s, p + 1, 10 * acc + DigitValue(d[0]));
      MovedUp(acc, DigitOf(d[0]), Pow10(|d| - 1));
    }
  }

  lemma UnsignedIsPlaceValue(d: string, s: string, p: nat)
    requires d != "" && AllDigits(d) && Occurs(d, s, p) && NumberEnds(s, p + |d|)
    ensures DigitAt(s, p) && Unsigned(s, p) == PlaceValue(d)
  {
    OccursAt(d, s, p, 0);
    RunIsPlaceValue(d, s, p, 0);
    NoTimes(Pow10(|d|));
  }

  /** `to_i` of digits, and of digits behind a minus sign, before other text. */
  lemma ToIOfDigits(neg: bool, d: string, s: string)
    requires d != "" && AllDigits(d)
    requires if neg then Occurs("-", s, 0) && Occurs(d, s, 1) && NumberEnds(s, 1 + |d|)
             else Occurs(d, s, 0) && NumberEnds(s, |d|)
    ensures ToI(s) == if neg then 0 - PlaceValue(d) else PlaceValue(d)
  {
    if neg {
      OccursChar('-', s, 0);
      UnsignedIsPlaceValue(d, s, 1);
    } else {
      OccursAt(d, s, 0, 0);
      UnsignedIsPlaceValue(d, s, 0);
    }
  }

  /** No zero in front of other digits, and none behind a minus sign. */
  predicate Canonical(neg: bool, d: string)
    requires d != ""
  {
    d[0] != '0' || (!neg && |d| == 1)
  }

  function Signed(neg: bool, d: string): string {
    (if neg then "-" else "") + d
  }

  /** Where a numeral stands: its end, its first characters, and its text. */
  lemma NumeralStands(w: string, x: string, f: int)
    requires w != "" && Occurs("i" + w + "e", x, f) && forall k :: 0 <= k < |w| ==> w[k] != 'e'
    ensures Index(x, 'e', f + 1) == Some(f + 1 + |w|) && Slice(x, f + 1, f + |w|) == w
    ensures At(x, f + 1) == Some(w[0]) && (|w| > 1 ==> At(x, f + 2) == Some(w[1]))
  {
    assert "i" + w + "e" == "i" + (w + "e");
    OccursSplit("i", w + "e", x, f);
    NumberAt(w, 'e', x, f + 1);
    SliceIs(x, f + 1, f + |w|);
  }

  lemma ToIOfSigned(neg: bool, d: string)
    requires d != "" && AllDigits(d)
    ensures ToI(Signed(neg, d)) == if neg then 0 - PlaceValue(d) else PlaceValue(d)
  {
    var w := Signed(neg, d);
    if neg {
      assert w[0..1] == "-" && w[1..1 + |d|] == d;
    } else {
      assert w[0..|d|] == d;
    }
    ToIOfDigits(neg, d, w);
  }

  /** Of all numerals, exactly the canonical ones are read, as the number that they stand for. */
  lemma NumeralExactly(neg: bool, d: string, x: string, f: int)
    requires d != "" && AllDigits(d) && Occurs("i" + Signed(neg, d) + "e", x, f)
    ensures DecodeInt(x, f) ==
      if !Canonical(neg, d) then Raised
      else Done(Int(if neg then 0 - PlaceValue(d) else PlaceValue(d)), f + |Signed(neg, d)| + 2)
  {
    var w := Signed(neg, d);
    SignedChars(neg, d);
    NumeralStands(w, x, f);
    if Canonical(neg, d) {
      NumeralAt(x, f, f + 1 + |w|);
      ToIOfSigned(neg, d);
    } else {
      NumeralRefused(neg, x, f, f + 1 + |w|);
    }
  }

  lemma SignedChars(neg: bool, d: string)
    requires d != "" && AllDigits(d)
    ensures forall k :: 0 <= k < |Signed(neg, d)| ==> Signed(neg, d)[k] != 'e'
    ensures neg ==> |Signed(neg, d)| == 1 + |d| && Signed(neg, d)[0] == '-' && Signed(neg, d)[1] == d[0]
    ensures !neg ==> Signed(neg, d) == d && d[0] != '-'
  {
  }

  lemma NumeralRefused(neg: bool, x: string, at: int, end: nat)
    requires Index(x, 'e', at + 1) == Some(end)
    requires if neg then At(x, at + 1) == Some('-') && At(x, at + 2) == Some('0')
             else At(x, at + 1) == Some('0') && end != at + 2
    ensures DecodeInt(x, at) == Raised
  {
  }

  /** A minus sign alone is read as 0, and nothing at all is refused. */
  lemma NoDigits(x: string, f: int)
    ensures Occurs("i-e", x, f) ==> DecodeInt(x, f) == Done(Int(0), f + 3)
    ensures Occurs("ie", x, f) ==> DecodeInt(x, f) == Raised
  {
    if Occurs("i-e", x, f) {
      assert "i-e" == "i" + ("-" + ['e']);
      OccursSplit("i", "-" + ['e'], x, f);
      NumberAt("-", 'e', x, f + 1);
      OccursAt("-" + ['e'], x, f + 1, 1);
      SliceIs(x, f + 1, f + 1);
      NumeralAt(x, f, f + 2);
    }
    if Occurs("ie", x, f) {
      assert "ie" == "i" + ("" + ['e']);
      OccursSplit("i", "" + ['e'], x, f);
      NumberAt("", 'e', x, f + 1);
    }
  }

  /** Of all lengths, those with a zero in front of other digits are refused; for any other, the text
      is as many characters as it says, or as there are, and the next offset is behind them all. */
  lemma LengthExactly(d: string, x: string, f: int, start: int)
    requires d != "" && AllDigits(d) && Occurs(d + ":", x, f) && start == f + |d| + 1
    ensures DecodeString(x, f) ==
      if d[0] == '0' && |d| > 1 then NoKey else Key(AsMany(x, start, PlaceValue(d)), start + PlaceValue(d))
  {
    LengthText(d, x, f);
    ToIOfLength(d);
    LengthRead(d, PlaceValue(d), x, f, start - 1);
  }

  lemma LengthRead(d: string, n: nat, x: string, f: int, colon: nat)
    requires d != "" && colon == f + |d| && Index(x, ':', f) == Some(colon)
    requires Slice(x, f, colon) == d + ":" && At(x, f) == Some(d[0]) && ToI(d + ":") == n
    ensures DecodeString(x, f) ==
      if d[0] == '0' && |d| > 1 then NoKey else Key(AsMany(x, colon + 1, n), colon + 1 + n)
  {
    if d[0] == '0' && |d| > 1 {
      KeyRefused(x, f, colon);
    } else {
      KeyAt(x, f, colon, n);
      SliceAsMany(x, colon, n);
    }
  }

  lemma KeyRefused(x: string, f: int, colon: nat)
    requires Index(x, ':', f) == Some(colon) && At(x, f) == Some('0') && colon != f + 1
    ensures DecodeString(x, f) == NoKey
  {
  }

  /** `n` characters from `start` on, or as many as there are. */
  function AsMany(x: string, start: nat, n: nat): string {
    if start > |x| then "" else if start + n <= |x| then x[start..start + n] else x[start..]
  }

  lemma SliceAsMany(x: string, colon: nat, n: nat)
    requires colon < |x|
    ensures Slice(x, colon + 1, colon + n) == AsMany(x, colon + 1, n)
  {
  }

  lemma ToIOfLength(d: string)
    requires d != "" && AllDigits(d)
    ensures ToI(d + ":") == PlaceValue(d)
  {
    assert (d + ":")[0..|d|] == d;
    ToIOfDigits(false, d, d + ":");
  }

  /** At any character that begins nothing, and where there is none, an exception is raised. */
  lemma OtherCharacters(x: string, f: int, stack: Option<nat>, gas: nat)
    requires gas > 0 && stack != Some(0)
    requires At(x, f).Some? ==> At(x, f).value !in {'i', 'l', 'd'} && !Digit(At(x, f).value)
    ensures DecodeAt(RUBY, x, f, stack, gas) == Raised
  {
  }

  // ---- cut texts ----

  lemma {:induction false} NeverFrom(x: string, c: char, p: nat)
    requires forall k :: p <= k < |x| ==> x[k] != c
    ensures FirstFrom(x, c, p) == None
    decreases |x| - p
  {
    if p < |x| { NeverFrom(x, c, p + 1); }
  }

  lemma CutInt(i: int, x: string, f: int)
    requires Cut(EncodeInt(i), x, f)
    ensures x[f] == 'i' && !DecodeInt(x, f).Done?
  {
    var w := EncodeInt(i);
    CutAt(w, x, f, 0);
    forall k | f + 1 <= k < |x| ensures x[k] != 'e' {
      CutAt(w, x, f, k - f);
      assert w[k - f] == SignedDecimal(i)[k - f - 1];
    }
    NeverFrom(x, 'e', f + 1);
  }

  predicate KeyPast(k: Key, x: string) {
    k.Key? ==> k.num > |x|
  }

  lemma CutStr(s: string, x: string, f: int)
    requires Cut(EncodeStr(s), x, f)
    ensures Digit(x[f]) && KeyPast(DecodeString(x, f), x)
  {
    var d := Decimal(|s|);
    CutAt(EncodeStr(s), x, f, 0);
    CutSplit(d + ":", s, x, f);
    if Cut(d + ":", x, f) {
      forall k | f <= k < |x| ensures x[k] != ':' {
        CutAt(d + ":", x, f, k - f);
      }
      NeverFrom(x, ':', f);
    } else {
      DecimalValue(|s|);
      LengthExactly(d, x, f, f + |d| + 1);
    }
  }

  /** A scalar that is cut according to `cuts` does not read as anything that ends within the text. */
  ghost predicate CutsLeaves(leaf: Leaves, cuts: Leaf, x: string) {
    && (forall i, f :: cuts(Int(i), x, f).Some? ==> CutsInt(leaf, x, f))
    && (forall s, f :: cuts(Str(s), x, f).Some? ==> CutsStr(leaf, x, f))
  }

  ghost predicate CutsInt(leaf: Leaves, x: string, f: int) {
    Here('i', x, f) && !leaf.number(x, f).Done?
  }

  ghost predicate CutsStr(leaf: Leaves, x: string, f: int) {
    0 <= f < |x| && Digit(x[f]) && KeyPast(leaf.key(x, f), x)
  }

  lemma RubyCutInt(i: int, x: string, f: int)
    requires PrintedCut(Int(i), x, f).Some?
    ensures CutsInt(RUBY, x, f)
  {
    CutInt(i, x, f);
  }

  lemma RubyCutStr(s: string, x: string, f: int)
    requires PrintedCut(Str(s), x, f).Some?
    ensures CutsStr(RUBY, x, f)
  {
    CutStr(s, x, f);
  }

  lemma RubyCutsLeaves(x: string)
    ensures CutsLeaves(RUBY, PrintedCut, x)
  {
    forall i, f | PrintedCut(Int(i), x, f).Some? ensures CutsInt(RUBY, x, f) { RubyCutInt(i, x, f); }
    forall s, f | PrintedCut(Str(s), x, f).Some? ensures CutsStr(RUBY, x, f) { RubyCutStr(s, x, f); }
  }

  lemma IntIsCut(leaf: Leaves, cuts: Leaf, i: int, x: string, f: int)
    requires CutsLeaves(leaf, cuts, x) && cuts(Int(i), x, f).Some?
    ensures CutsInt(leaf, x, f)
  {
  }

  lemma StrIsCut(leaf: Leaves, cuts: Leaf, s: string, x: string, f: int)
    requires CutsLeaves(leaf, cuts, x) && cuts(Str(s), x, f).Some?
    ensures CutsStr(leaf, x, f)
  {
  }

  /** The answer goes past the end of the text, or there is none. */
  predicate Past(p: Partial, x: string) {
    p.Done? ==> p.num > |x|
  }

  /** A whole value reads as itself, as far as steps and stack reach. */
  lemma WholeValue(leaf: Leaves, ends: Leaf, v: Value, x: string, f: int, stack: Option<nat>, gas: nat)
    requires ReadsLeaves(leaf, ends) && End(ends, v, x, f).Some?
    ensures var p := DecodeAt(leaf, x, f, stack, gas); p.Done? ==> p.result == v && p.num == End(ends, v, x, f).value
  {
    var enough := gas + End(ends, v, x, f).value - f;
    Reads(leaf, ends, v, x, f, stack, enough);
    GasIsMonotone(leaf, x, f, stack, gas, enough);
  }

  lemma BreakPast(leaf: Leaves, ends: Leaf, cuts: Leaf, v: Value, x: string, f: int, stack: Option<nat>, gas: nat)
    requires ReadsLeaves(leaf, ends) && CutsLeaves(leaf, cuts, x) && Break(ends, cuts, v, x, f).Some?
    ensures Past(DecodeAt(leaf, x, f, stack, gas), x)
    decreases v, 2, 0
  {
    if gas > 0 && stack != Some(0) {
      match v
      case List(_) => ItemsPast(leaf, ends, cuts, v, 0, x, f + 1, [], Inner(stack), gas - 1);
      case Dict(_) =>
        EntriesPast(leaf, ends, cuts, v, SortedKeys(v.entries.Keys), x, f + 1, map[], Inner(stack), gas - 1);
      case Int(i) => IntIsCut(leaf, cuts, i, x, f);
      case Str(s) => StrIsCut(leaf, cuts, s, x, f);
    }
  }

  lemma {:induction false} ItemsPast(leaf: Leaves, ends: Leaf, cuts: Leaf, v: Value, n: nat, x: string, f: int,
                                     r: seq<Value>, stack: Option<nat>, gas: nat)
    requires ReadsLeaves(leaf, ends) && CutsLeaves(leaf, cuts, x) && v.List? && n <= |v.items|
    requires ItemsBreak(ends, cuts, v, n, x, f).Some?
    ensures !ListFrom(leaf, x, f, r, stack, gas).Done?
    decreases v, 0, |v.items| - n
  {
    if f != |x| && gas > 0 {
      ListTurn(leaf, x, f, r, stack, gas);
      if Break(ends, cuts, v.items[n], x, f).Some? {
        BreakPast(leaf, ends, cuts, v.items[n], x, f, stack, gas - 1);
      } else {
        var d, mid := DecodeAt(leaf, x, f, stack, gas - 1), End(ends, v.items[n], x, f).value;
        WholeValue(leaf, ends, v.items[n], x, f, stack, gas - 1);
        if d.Done? { ItemsPast(leaf, ends, cuts, v, n + 1, x, mid, r + [d.result], stack, gas - 1); }
      }
    }
  }

  /** A turn of the list loop gives no more than the decoder of its item lets it. */
  lemma ListTurn(leaf: Leaves, x: string, f: int, r: seq<Value>, stack: Option<nat>, gas: nat)
    requires Inside(x, f) && gas > 0
    ensures var d, p := DecodeAt(leaf, x, f, stack, gas - 1), ListFrom(leaf, x, f, r, stack, gas);
            && (p.Done? ==> d.Done? && d.num <= |x|)
            && (d.Done? ==> p == ListFrom(leaf, x, d.num, r + [d.result], stack, gas - 1))
  {
    var d := DecodeAt(leaf, x, f, stack, gas - 1);
    if d.Done? && d.num > |x| { assert At(x, d.num) == None; }
  }

  lemma EntriesPast(leaf: Leaves, ends: Leaf, cuts: Leaf, v: Value, ks: seq<string>, x: string, f: int,
                                       r: map<string, Value>, stack: Option<nat>, gas: nat)
    requires ReadsLeaves(leaf, ends) && CutsLeaves(leaf, cuts, x) && v.Dict? && forall k <- ks :: k in v.entries
    requires EntriesBreak(ends, cuts, v, ks, x, f).Some?
    ensures !DictFrom(leaf, x, f, r, stack, gas).Done?
    decreases v, 0, |ks|, 1
  {
    if f != |x| && gas > 0 && stack != Some(0) && leaf.key(x, f).Key? {
      DictTurn(leaf, x, f, r, stack, gas);
      if cuts(Str(ks[0]), x, f).Some? {
        StrIsCut(leaf, cuts, ks[0], x, f);
      } else {
        KeyRead(leaf, ends, ks[0], x, f);
        EntryPast(leaf, ends, cuts, v, ks, x, f, leaf.key(x, f).num, r, stack, gas);
      }
    }
  }

  lemma KeyRead(leaf: Leaves, ends: Leaf, k: string, x: string, f: int)
    requires ReadsLeaves(leaf, ends) && ScalarEnd(ends, Str(k), x, f).Some?
    ensures leaf.key(x, f) == Key(k, ScalarEnd(ends, Str(k), x, f).value)
  {
    assert ReadsStr(leaf, k, x, f, ends(Str(k), x, f).value);
  }

  lemma EntryPast(leaf: Leaves, ends: Leaf, cuts: Leaf, v: Value, ks: seq<string>, x: string, f: int, at: int,
                  r: map<string, Value>, stack: Option<nat>, gas: nat)
    requires ReadsLeaves(leaf, ends) && CutsLeaves(leaf, cuts, x) && v.Dict? && ks != [] && forall k <- ks :: k in v.entries
    requires EntriesBreak(ends, cuts, v, ks, x, f).Some? && f != |x| && cuts(Str(ks[0]), x, f) == None
    requires gas > 0 && stack != Some(0) && Inside(x, f) && leaf.key(x, f) == Key(ks[0], at)
    requires ScalarEnd(ends, Str(ks[0]), x, f) == Some(at)
    ensures !DictFrom(leaf, x, f, r, stack, gas).Done?
    decreases v, 0, |ks|, 0
  {
    DictTurn(leaf, x, f, r, stack, gas);
    var w := v.entries[ks[0]];
    if at != |x| && Break(ends, cuts, w, x, at).Some? {
      BreakPast(leaf, ends, cuts, w, x, at, stack, gas - 1);
    } else if at != |x| {
      var d := DecodeAt(leaf, x, at, stack, gas - 1);
      WholeValue(leaf, ends, w, x, at, stack, gas - 1);
      if d.Done? { EntriesPast(leaf, ends, cuts, v, ks[1..], x, d.num, r[ks[0] := d.result], stack, gas - 1); }
    }
  }

  lemma DictTurn(leaf: Leaves, x: string, f: int, r: map<string, Value>, stack: Option<nat>, gas: nat)
    requires Inside(x, f) && gas > 0 && stack != Some(0) && leaf.key(x, f).Key?
    ensures var k := leaf.key(x, f);
            var d, p := DecodeAt(leaf, x, k.num, stack, gas - 1), DictFrom(leaf, x, f, r, stack, gas);
            && (p.Done? ==> k.num < |x| && d.Done? && d.num <= |x|)
            && (d.Done? ==> p == DictFrom(leaf, x, d.num, r[k.text := d.result], stack, gas - 1))
  {
    var k := leaf.key(x, f);
    var d := DecodeAt(leaf, x, k.num, stack, gas - 1);
    if k.num >= |x| { assert At(x, k.num) == None; }
    if d.Done? && d.num > |x| { assert At(x, d.num) == None; }
  }

  /** Of a printed value that is cut short anywhere, nothing is decoded. */
  lemma CutTextRaises(v: Value, n: nat, stack: Option<nat>, gas: nat)
    requires n < |Encode(v)|
    ensures !Bdecode(Encode(v)[..n], stack, gas).Done?
  {
    var x := Encode(v)[..n];
    if n == 0 {
      assert At(x, 0) == None;
    } else {
      CutBreaks(v, x, 0);
      RubyReadsLeaves();
      RubyCutsLeaves(x);
      BreakPast(RUBY, Printed, PrintedCut, v, x, 0, stack, gas);
    }
  }

  // ---- dictionaries in any order ----

  /** Keys and values one after the other, as they come. */
  function EncodePairs(es: seq<(string, Value)>): string {
    if es == [] then "" else EncodeStr(es[0].0) + (Encode(es[0].1) + EncodePairs(es[1..]))
  }

  /** The map that they make: of two values for a key the later one stays. */
  function Gathered(es: seq<(string, Value)>, r: map<string, Value>): map<string, Value> {
    if es == [] then r else Gathered(es[1..], r[es[0].0 := es[0].1])
  }

  lemma {:induction false} LastOfKeyStays(es: seq<(string, Value)>, r: map<string, Value>, i: nat)
    requires i < |es| && forall j :: i < j < |es| ==> es[j].0 != es[i].0
    ensures es[i].0 in Gathered(es, r) && Gathered(es, r)[es[i].0] == es[i].1
    decreases |es|
  {
    if i > 0 {
      LastOfKeyStays(es[1..], r[es[0].0 := es[0].1], i - 1);
    } else {
      OtherKeysLeave(es[1..], r[es[0].0 := es[0].1], es[0].0);
    }
  }

  lemma {:induction false} OtherKeysLeave(es: seq<(string, Value)>, r: map<string, Value>, k: string)
    requires forall j :: 0 <= j < |es| ==> es[j].0 != k
    ensures k in Gathered(es, r) <==> k in r
    ensures k in r ==> Gathered(es, r)[k] == r[k]
    decreases |es|
  {
    if es != [] { OtherKeysLeave(es[1..], r[es[0].0 := es[0].1], k); }
  }

  lemma {:induction false} ReadsPairs(leaf: Leaves, es: seq<(string, Value)>, r: map<string, Value>, x: string, f: int,
                                      stack: Option<nat>, gas: nat)
    requires ReadsLeaves(leaf, Printed) && Occurs(EncodePairs(es) + "e", x, f) && gas > |EncodePairs(es)|
    requires stack != Some(0) && AllNest(es, stack)
    ensures DictFrom(leaf, x, f, r, stack, gas) == Done(Dict(Gathered(es, r)), f + |EncodePairs(es)| + 1)
    decreases |es|
  {
    if es == [] {
      NoPairs(leaf, r, x, f, stack, gas);
    } else {
      var mid := PairRead(leaf, es, r, x, f, stack, gas);
      ReadsPairs(leaf, es[1..], r[es[0].0 := es[0].1], x, mid, stack, gas - 1);
    }
  }

  predicate AllNest(es: seq<(string, Value)>, stack: Option<nat>) {
    forall i :: 0 <= i < |es| ==> Nests(es[i].1, stack)
  }

  lemma NoPairs(leaf: Leaves, r: map<string, Value>, x: string, f: int, stack: Option<nat>, gas: nat)
    requires Occurs(EncodePairs([]) + "e", x, f)
    ensures EncodePairs([]) == "" && DictFrom(leaf, x, f, r, stack, gas) == Done(Dict(r), f + 1)
  {
    assert "" + "e" == "e";
    OccursAt("e", x, f, 0);
  }

  lemma PairRead(leaf: Leaves, es: seq<(string, Value)>, r: map<string, Value>, x: string, f: int,
                 stack: Option<nat>, gas: nat) returns (mid: int)
    requires ReadsLeaves(leaf, Printed) && es != [] && Occurs(EncodePairs(es) + "e", x, f) && gas > |EncodePairs(es)|
    requires stack != Some(0) && AllNest(es, stack)
    ensures AllNest(es[1..], stack) && Occurs(EncodePairs(es[1..]) + "e", x, mid)
    ensures |EncodePairs(es)| == mid - f + |EncodePairs(es[1..])| && mid > f
    ensures DictFrom(leaf, x, f, r, stack, gas) == DictFrom(leaf, x, mid, r[es[0].0 := es[0].1], stack, gas - 1)
  {
    var k, w := es[0].0, es[0].1;
    var at;
    at, mid := PairStands(es, x, f);
    assert Nests(es[0].1, stack);
    PairDecoded(leaf, x, f, r, k, at, w, mid, stack, gas);
  }

  lemma KeyStands(leaf: Leaves, k: string, x: string, f: int)
    requires ReadsLeaves(leaf, Printed) && Occurs(EncodeStr(k), x, f)
    ensures leaf.key(x, f) == Key(k, f + |EncodeStr(k)|)
  {
    assert Printed(Str(k), x, f) == Some(f + |EncodeStr(k)|);
    assert ReadsStr(leaf, k, x, f, f + |EncodeStr(k)|);
  }

  lemma PairDecoded(leaf: Leaves, x: string, f: int, r: map<string, Value>, k: string, at: int, w: Value, mid: int,
                    stack: Option<nat>, gas: nat)
    requires ReadsLeaves(leaf, Printed) && Inside(x, f) && stack != Some(0)
    requires Occurs(EncodeStr(k), x, f) && at == f + |EncodeStr(k)|
    requires Occurs(Encode(w), x, at) && mid == at + |Encode(w)| && gas > |Encode(w)| && Nests(w, stack)
    ensures DictFrom(leaf, x, f, r, stack, gas) == DictFrom(leaf, x, mid, r[k := w], stack, gas - 1)
  {
    KeyStands(leaf, k, x, f);
    NestedValue(leaf, w, x, at, stack, gas - 1);
    PairTaken(leaf, x, f, r, k, at, w, mid, stack, gas);
  }

  lemma NestedValue(leaf: Leaves, w: Value, x: string, at: int, stack: Option<nat>, gas: nat)
    requires ReadsLeaves(leaf, Printed) && Occurs(Encode(w), x, at) && gas >= |Encode(w)| && Nests(w, stack)
    ensures DecodeAt(leaf, x, at, stack, gas) == Done(w, at + |Encode(w)|)
  {
    EncodeEnds(w, x, at);
    Reads(leaf, Printed, w, x, at, stack, gas);
  }

  lemma PairTaken(leaf: Leaves, x: string, f: int, r: map<string, Value>, k: string, at: int, w: Value, mid: int,
                  stack: Option<nat>, gas: nat)
    requires Inside(x, f) && gas > 0 && stack != Some(0)
    requires leaf.key(x, f) == Key(k, at) && DecodeAt(leaf, x, at, stack, gas - 1) == Done(w, mid)
    ensures DictFrom(leaf, x, f, r, stack, gas) == DictFrom(leaf, x, mid, r[k := w], stack, gas - 1)
  {
    DictTurn(leaf, x, f, r, stack, gas);
  }

  lemma PairStands(es: seq<(string, Value)>, x: string, f: int) returns (at: int, mid: int)
    requires es != [] && Occurs(EncodePairs(es) + "e", x, f)
    ensures Inside(x, f)
    ensures Occurs(EncodeStr(es[0].0), x, f) && at == f + |EncodeStr(es[0].0)|
    ensures Occurs(Encode(es[0].1), x, at) && mid == at + |Encode(es[0].1)|
    ensures Occurs(EncodePairs(es[1..]) + "e", x, mid)
    ensures |EncodePairs(es)| == mid - f + |EncodePairs(es[1..])|
  {
    var key, item, rest := EncodeStr(es[0].0), Encode(es[0].1), EncodePairs(es[1..]) + "e";
    at := f + |key|;
    mid := at + |item|;
    PairsText(es);
    OccursTwice(key, item, rest, x, f);
    KeyInside(es[0].0, x, f);
  }

  lemma PairsText(es: seq<(string, Value)>)
    requires es != []
    ensures EncodePairs(es) + "e" == EncodeStr(es[0].0) + (Encode(es[0].1) + (EncodePairs(es[1..]) + "e"))
    ensures |EncodePairs(es)| == |EncodeStr(es[0].0)| + |Encode(es[0].1)| + |EncodePairs(es[1..])|
  {
    var key, item, rest := EncodeStr(es[0].0), Encode(es[0].1), EncodePairs(es[1..]);
    Reassociate(key, item + rest, "e");
    Reassociate(item, rest, "e");
  }

  lemma OccursTwice(a: string, b: string, c: string, x: string, f: int)
    requires Occurs(a + (b + c), x, f)
    ensures Occurs(a, x, f) && Occurs(b, x, f + |a|) && Occurs(c, x, f + |a| + |b|)
  {
    OccursSplit(a, b + c, x, f);
    OccursSplit(b, c, x, f + |a|);
  }

  lemma KeyInside(k: string, x: string, f: int)
    requires Occurs(EncodeStr(k), x, f)
    ensures Inside(x, f)
  {
    DecimalValue(|k|);
    OccursAt(EncodeStr(k), x, f, 0);
  }

  lemma WholeTextDone(x: string, stack: Option<nat>, gas: nat)
    requires DecodeAt(RUBY, x, 0, stack, gas).Done? && DecodeAt(RUBY, x, 0, stack, gas).num == |x|
    ensures Bdecode(x, stack, gas) == DecodeAt(RUBY, x, 0, stack, gas)
  {
  }

  lemma PairsDecode(leaf: Leaves, es: seq<(string, Value)>, x: string, stack: Option<nat>, gas: nat)
    requires ReadsLeaves(leaf, Printed) && Here('d', x, 0) && Occurs(EncodePairs(es) + "e", x, 1)
    requires stack != Some(0) && Inner(stack) != Some(0) && AllNest(es, Inner(stack)) && gas > |EncodePairs(es)| + 1
    ensures DecodeAt(leaf, x, 0, stack, gas) == Done(Dict(Gathered(es, map[])), |EncodePairs(es)| + 2)
  {
    DictCall(leaf, x, 0, stack, gas);
    ReadsPairs(leaf, es, map[], x, 1, Inner(stack), gas - 1);
  }

  lemma OpensPairs(body: string, x: string)
    requires x == ['d'] + body + "e"
    ensures Here('d', x, 0) && Occurs(body + "e", x, 1) && |x| == |body| + 2
  {
    assert x == ['d'] + (body + "e");
    assert x[1..|x|] == body + "e";
  }

  /** The decoder does not ask for keys in order, nor for different ones: any pairs make a dictionary,
      in which of two values for a key the later one stays. */
  lemma PairsInAnyOrder(es: seq<(string, Value)>, x: string, stack: Option<nat>, gas: nat)
    requires stack != Some(0) && Inner(stack) != Some(0) && AllNest(es, Inner(stack))
    requires x == ['d'] + EncodePairs(es) + "e" && gas >= |x|
    ensures Bdecode(x, stack, gas) == Done(Dict(Gathered(es, map[])), |x|)
  {
    OpensPairs(EncodePairs(es), x);
    RubyReadsLeaves();
    PairsDecode(RUBY, es, x, stack, gas);
    WholeTextDone(x, stack, gas);
  }
}
