/** The Ruby decoder (bitrub/bencode.rb:7-100), on every input. */
module BencodeDecode {
  import opened Options
  import opened KeyOrder
  import opened Texts
  import opened Bencode

  // ---- Ruby's string operations ----

  /** A negative index counts from the end. */
  function Wrap(x: string, f: int): int {
    if f < 0 then f + |x| else f
  }

  /** `x[f]`, nothing when out of range. */
  function At(x: string, f: int): Option<char> {
    var p := Wrap(x, f);
    if 0 <= p < |x| then Some(x[p]) else None
  }

  function FirstFrom(x: string, c: char, p: nat): (r: Option<nat>)
    ensures r.Some? ==> p <= r.value < |x| && x[r.value] == c
    decreases |x| - p
  {
    if p >= |x| then None else if x[p] == c then Some(p) else FirstFrom(x, c, p + 1)
  }

  /** `x.index(c, f)`. */
  function Index(x: string, c: char, f: int): (r: Option<nat>)
    ensures r.Some? ==> r.value < |x|
  {
    var p := Wrap(x, f);
    if p < 0 then None else FirstFrom(x, c, p)
  }

  /** `x[a .. b]`; Ruby's nil, which only the conversion `to_i` ever meets here, is "". */
  function Slice(x: string, a: int, b: int): string {
    var start := Wrap(x, a);
    var end := Wrap(x, b) + 1;
    var stop := if end > |x| then |x| else end;
    if 0 <= start <= stop then x[start..stop] else ""
  }

  function SkipSpaces(s: string, p: nat): (q: nat)
    requires p <= |s|
    ensures p <= q <= |s|
    decreases |s| - p
  {
    if p < |s| && Space(s[p]) then SkipSpaces(s, p + 1) else p
  }

  predicate DigitAt(s: string, p: nat) {
    p < |s| && Digit(s[p])
  }

  /** Digits, single underscores between them allowed, up to the first other character. */
  function DigitRun(s: string, p: nat, acc: nat): nat
    decreases |s| - p
  {
    if DigitAt(s, p) then DigitRun(s, p + 1, 10 * acc + DigitValue(s[p]))
    else if p < |s| && s[p] == '_' && DigitAt(s, p + 1) then DigitRun(s, p + 1, acc)
    else acc
  }

  function Unsigned(s: string, p: nat): nat {
    if DigitAt(s, p) then DigitRun(s, p, 0) else 0
  }

  /** `String#to_i`. */
  function ToI(s: string): int {
    var p := SkipSpaces(s, 0);
    if p < |s| && s[p] == '-' then 0 - Unsigned(s, p + 1)
    else if p < |s| && s[p] == '+' then Unsigned(s, p + 1)
    else Unsigned(s, p)
  }

  // ---- the decoder classes ----

  /** A value and where it ends, an ordinary exception, Ruby's SystemStackError, which the `rescue`
      of `bdecode` lets through, or `Hang`: the given number of calls and loop iterations is too few. */
  datatype Partial = Done(result: Value, num: int) | Raised | StackError | Hang

  datatype Key = Key(text: string, num: int) | NoKey

  function DecodeInt(x: string, at: int): Partial {
    var f := at + 1;
    var newf := Index(x, 'e', f);
    if newf.None? || newf.value == f then Raised
    else if At(x, f) == Some('-') && At(x, f + 1) == Some('0') then Raised
    else if At(x, f) == Some('0') && newf.value != f + 1 then Raised
    else Done(Int(ToI(Slice(x, f, newf.value - 1))), newf.value + 1)
  }

  function DecodeString(x: string, f: int): Key {
    var colon := Index(x, ':', f);
    if colon.None? || (At(x, f) == Some('0') && colon.value != f + 1) then NoKey
    else
      var n := ToI(Slice(x, f, colon.value));
      Key(Slice(x, colon.value + 1, colon.value + n), colon.value + 1 + n)
  }

  /** What the decoder does at a leaf.  The walk over lists and dictionaries is proved for
      any leaf functions and then used with Ruby's. */
  datatype Leaves = Leaves(number: (string, int) -> Partial, key: (string, int) -> Key)

  const RUBY := Leaves(DecodeInt, DecodeString)

  function Lift(k: Key): Partial {
    if k.Key? then Done(Str(k.text), k.num) else Raised
  }

  // The parameter `stack` of the functions is how many more decoder objects the stack can hold
  // under construction, each inside the one before; without a number there is no limit.

  function Inner(stack: Option<nat>): Option<nat>
    requires stack != Some(0)
  {
    if stack.Some? then Some(stack.value - 1) else None
  }

  /** `$decode[x[f].chr].new(x, f)`. */
  function DecodeAt(leaf: Leaves, x: string, f: int, stack: Option<nat>, gas: nat): Partial
    decreases gas
  {
    var c := At(x, f);
    if gas == 0 then Hang
    else if stack == Some(0) then StackError
    else if c == Some('l') then ListFrom(leaf, x, f + 1, [], Inner(stack), gas - 1)
    else if c == Some('d') then DictFrom(leaf, x, f + 1, map[], Inner(stack), gas - 1)
    else if c == Some('i') then leaf.number(x, f)
    else if c.Some? && Digit(c.value) then Lift(leaf.key(x, f))
    else Raised
  }

  function ListFrom(leaf: Leaves, x: string, f: int, r: seq<Value>, stack: Option<nat>, gas: nat): Partial
    decreases gas
  {
    var c := At(x, f);
    if c == None then Raised
    else if c == Some('e') then Done(List(r), f + 1)
    else if gas == 0 then Hang
    else
      var d := DecodeAt(leaf, x, f, stack, gas - 1);
      if d.Done? then ListFrom(leaf, x, d.num, r + [d.result], stack, gas - 1) else d
  }

  function DictFrom(leaf: Leaves, x: string, f: int, r: map<string, Value>, stack: Option<nat>, gas: nat): Partial
    decreases gas
  {
    var c := At(x, f);
    if c == None then Raised
    else if c == Some('e') then Done(Dict(r), f + 1)
    else if gas == 0 then Hang
    else if stack == Some(0) then StackError
    else
      var k := leaf.key(x, f);
      if k == NoKey then Raised
      else
        var d := DecodeAt(leaf, x, k.num, stack, gas - 1);
        if d.Done? then DictFrom(leaf, x, d.num, r[k.text := d.result], stack, gas - 1) else d
  }

  /** `bdecode`, with the room on the stack and the number of calls and iterations it may use. */
  function Bdecode(x: string, stack: Option<nat>, gas: nat): Partial {
    match DecodeAt(RUBY, x, 0, stack, gas)
    case Done(v, num) => if num != |x| then Raised else Done(v, num)
    case other => other
  }

  // ---- the loops ----

  method DecodeValue(leaf: Leaves, x: string, f: int, stack: Option<nat>, gas: nat) returns (p: Partial)
    ensures p == DecodeAt(leaf, x, f, stack, gas)
    decreases gas, 1
  {
    if gas == 0 { return Hang; }
    if stack == Some(0) { return StackError; }
    var c := At(x, f);
    if c == Some('l') {
      p := DecodeList(leaf, x, f, Inner(stack), gas - 1);
    } else if c == Some('d') {
      p := DecodeDict(leaf, x, f, Inner(stack), gas - 1);
    } else if c == Some('i') {
      p := leaf.number(x, f);
    } else if c.Some? && Digit(c.value) {
      p := Lift(leaf.key(x, f));
    } else {
      p := Raised;
    }
  }

  method DecodeList(leaf: Leaves, x: string, at: int, stack: Option<nat>, gas: nat) returns (p: Partial)
    ensures p == ListFrom(leaf, x, at + 1, [], stack, gas)
    decreases gas, 0
  {
    var r, f := [], at + 1;
    var g: nat := gas;
    while At(x, f).Some? && At(x, f) != Some('e')
      invariant g <= gas && ListFrom(leaf, x, at + 1, [], stack, gas) == ListFrom(leaf, x, f, r, stack, g)
      decreases g
    {
      if g == 0 { return Hang; }
      g := g - 1;
      var decoded := DecodeValue(leaf, x, f, stack, g);
      if !decoded.Done? { return decoded; }
      f := decoded.num;
      r := r + [decoded.result];
    }
    p := if At(x, f).None? then Raised else Done(List(r), f + 1);
  }

  method DecodeDict(leaf: Leaves, x: string, at: int, stack: Option<nat>, gas: nat) returns (p: Partial)
    ensures p == DictFrom(leaf, x, at + 1, map[], stack, gas)
    decreases gas, 0
  {
    var r, f := map[], at + 1;
    var g: nat := gas;
    while At(x, f).Some? && At(x, f) != Some('e')
      invariant g <= gas && DictFrom(leaf, x, at + 1, map[], stack, gas) == DictFrom(leaf, x, f, r, stack, g)
      decreases g
    {
      if g == 0 { return Hang; }
      if stack == Some(0) { return StackError; }
      g := g - 1;
      var key := leaf.key(x, f);
      if key == NoKey { return Raised; }
      var decoded := DecodeValue(leaf, x, key.num, stack, g);
      if !decoded.Done? { return decoded; }
      r := r[key.text := decoded.result];
      f := decoded.num;
    }
    p := if At(x, f).None? then Raised else Done(Dict(r), f + 1);
  }

  // ---- numbers ----

  lemma {:induction false} DigitRunReads(n: nat, s: string, p: nat)
    requires Occurs(Decimal(n), s, p)
    ensures DigitRun(s, p, 0) == DigitRun(s, p + |Decimal(n)|, n)
  {
    if n < 10 {
      OccursChar(DigitChar(n), s, p);
    } else {
      OccursSplit(Decimal(n / 10), [DigitChar(n % 10)], s, p);
      OccursChar(DigitChar(n % 10), s, p + |Decimal(n / 10)|);
      DigitRunReads(n / 10, s, p);
    }
  }

  predicate NumberEnds(s: string, p: nat) {
    !DigitAt(s, p) && (p < |s| ==> s[p] != '_')
  }

  lemma UnsignedReads(n: nat, s: string, p: nat)
    requires Occurs(Decimal(n), s, p) && NumberEnds(s, p + |Decimal(n)|)
    ensures DigitAt(s, p) && Unsigned(s, p) == n
  {
    OccursAt(Decimal(n), s, p, 0);
    DigitRunReads(n, s, p);
  }

  /** `to_i` reads a printed integer back, whatever non-numeric text follows it. */
  lemma ToIReads(i: int, s: string)
    requires Occurs(SignedDecimal(i), s, 0) && NumberEnds(s, |SignedDecimal(i)|)
    ensures ToI(s) == i
  {
    if i < 0 {
      OccursSplit("-", Decimal(-i), s, 0);
      OccursChar('-', s, 0);
      UnsignedReads(-i, s, 1);
    } else {
      UnsignedReads(i, s, 0);
    }
  }

  lemma {:induction false} FirstFromFinds(x: string, c: char, p: nat, q: nat)
    requires p <= q < |x| && x[q] == c
    requires forall k :: p <= k < q ==> x[k] != c
    ensures FirstFrom(x, c, p) == Some(q)
    decreases q - p
  {
    if p < q { FirstFromFinds(x, c, p + 1, q); }
  }

  // ---- round trip ----

  lemma NumberAt(d: string, c: char, x: string, f: int)
    requires Occurs(d + [c], x, f) && forall k :: 0 <= k < |d| ==> d[k] != c
    ensures FirstFrom(x, c, f) == Some(f + |d|)
    ensures x[f..f + |d|] == d && x[f..f + |d| + 1] == d + [c]
    ensures d != "" ==> At(x, f) == Some(d[0])
    ensures |d| > 1 ==> At(x, f + 1) == Some(d[1])
  {
    var w := d + [c];
    forall k | 0 <= k < |w| ensures x[f + k] == w[k] { OccursAt(w, x, f, k); }
    forall k | f <= k < f + |d| ensures x[k] != c {
      assert x[f + (k - f)] == w[k - f];
    }
    FirstFromFinds(x, c, f, f + |d|);
    OccursSplit(d, [c], x, f);
    assert d != "" ==> x[f + 0] == w[0];
    assert |d| > 1 ==> x[f + 1] == w[1];
  }

  lemma SliceIs(x: string, a: nat, b: nat)
    requires a <= b + 1 <= |x|
    ensures Slice(x, a, b) == x[a..b + 1]
  {
  }

  lemma IntText(d: string, x: string, f: int)
    requires Occurs("i" + d + "e", x, f) && d != "" && forall k :: 0 <= k < |d| ==> d[k] != 'e'
    requires d[0] == '0' ==> |d| == 1
    requires d[0] == '-' ==> |d| > 1 && d[1] != '0'
    ensures DecodeInt(x, f) == Done(Int(ToI(d)), f + |d| + 2)
  {
    assert "i" + d + "e" == "i" + (d + "e");
    OccursSplit("i", d + "e", x, f);
    NumberAt(d, 'e', x, f + 1);
    SliceIs(x, f + 1, f + |d|);
    NumeralAt(x, f, f + 1 + |d|);
  }

  lemma NumeralAt(x: string, at: int, end: nat)
    requires Index(x, 'e', at + 1) == Some(end) && end != at + 1
    requires At(x, at + 1) == Some('-') ==> At(x, at + 2) != Some('0')
    requires At(x, at + 1) == Some('0') ==> end == at + 2
    ensures DecodeInt(x, at) == Done(Int(ToI(Slice(x, at + 1, end - 1))), end + 1)
  {
  }

  lemma IntReads(i: int, x: string, f: int)
    requires Occurs(EncodeInt(i), x, f)
    ensures DecodeInt(x, f) == Done(Int(i), f + |EncodeInt(i)|)
  {
    IntText(SignedDecimal(i), x, f);
    ToIReads(i, SignedDecimal(i));
  }

  lemma KeyAt(x: string, f: int, colon: nat, n: int)
    requires Index(x, ':', f) == Some(colon) && ToI(Slice(x, f, colon)) == n
    requires At(x, f) == Some('0') ==> colon == f + 1
    ensures DecodeString(x, f) == Key(Slice(x, colon + 1, colon + n), colon + 1 + n)
  {
  }

  lemma StringText(d: string, s: string, x: string, f: int)
    requires Occurs(d + ":" + s, x, f) && d != "" && forall k :: 0 <= k < |d| ==> Digit(d[k])
    requires d[0] == '0' ==> |d| == 1
    requires ToI(d + ":") == |s|
    ensures DecodeString(x, f) == Key(s, f + |d| + 1 + |s|)
  {
    OccursSplit(d + ":", s, x, f);
    LengthText(d, x, f);
    KeyAt(x, f, f + |d|, |s|);
    SliceIs(x, f + |d| + 1, f + |d| + |s|);
  }

  lemma LengthText(d: string, x: string, f: int)
    requires Occurs(d + ":", x, f) && d != "" && forall k :: 0 <= k < |d| ==> Digit(d[k])
    ensures Index(x, ':', f) == Some(f + |d|) && Slice(x, f, f + |d|) == d + ":" && At(x, f) == Some(d[0])
  {
    NumberAt(d, ':', x, f);
    SliceIs(x, f, f + |d|);
  }

  lemma StringReads(s: string, x: string, f: int)
    requires Occurs(EncodeStr(s), x, f)
    ensures DecodeString(x, f) == Key(s, f + |EncodeStr(s)|)
  {
    ToIReads(|s|, Decimal(|s|) + ":");
    StringText(Decimal(|s|), s, x, f);
  }

  /** The leaf functions read what stands there according to `ends`. */
  ghost predicate ReadsLeaves(leaf: Leaves, ends: Leaf) {
    && (forall i, x, f :: ends(Int(i), x, f).Some? ==> ReadsInt(leaf, i, x, f, ends(Int(i), x, f).value))
    && (forall s, x, f :: ends(Str(s), x, f).Some? ==> ReadsStr(leaf, s, x, f, ends(Str(s), x, f).value))
  }

  ghost predicate ReadsInt(leaf: Leaves, i: int, x: string, f: int, end: int) {
    Here('i', x, f) && leaf.number(x, f) == Done(Int(i), end)
  }

  ghost predicate ReadsStr(leaf: Leaves, s: string, x: string, f: int, end: int) {
    0 <= f < |x| && Digit(x[f]) && leaf.key(x, f) == Key(s, end)
  }

  lemma RubyReadsInt(i: int, x: string, f: int)
    requires Printed(Int(i), x, f).Some?
    ensures ReadsInt(RUBY, i, x, f, Printed(Int(i), x, f).value)
  {
    OccursAt(EncodeInt(i), x, f, 0);
    IntReads(i, x, f);
  }

  lemma RubyReadsStr(s: string, x: string, f: int)
    requires Printed(Str(s), x, f).Some?
    ensures ReadsStr(RUBY, s, x, f, Printed(Str(s), x, f).value)
  {
    OccursAt(EncodeStr(s), x, f, 0);
    StringReads(s, x, f);
  }

  lemma RubyReadsLeaves()
    ensures ReadsLeaves(RUBY, Printed)
  {
    forall i, x, f | Printed(Int(i), x, f).Some?
      ensures ReadsInt(RUBY, i, x, f, Printed(Int(i), x, f).value)
    {
      RubyReadsInt(i, x, f);
    }
    forall s, x, f | Printed(Str(s), x, f).Some?
      ensures ReadsStr(RUBY, s, x, f, Printed(Str(s), x, f).value)
    {
      RubyReadsStr(s, x, f);
    }
  }

  // ---- room on the stack ----

  /** The nesting of `v` fits on the stack, where a dictionary's keys are objects like its values. */
  predicate Nests(v: Value, stack: Option<nat>) {
    stack != Some(0) &&
    match v
    case List(items) => forall i :: 0 <= i < |items| ==> Nests(items[i], Inner(stack))
    case Dict(entries) => entries == map[] || (Inner(stack) != Some(0) && forall k :: k in entries ==> Nests(entries[k], Inner(stack)))
    case _ => true
  }

  lemma {:induction false} NestsWithoutLimit(v: Value)
    ensures Nests(v, None)
  {
    match v
    case List(items) => forall i | 0 <= i < |items| ensures Nests(items[i], None) { NestsWithoutLimit(items[i]); }
    case Dict(entries) => forall k | k in entries ensures Nests(entries[k], None) { NestsWithoutLimit(entries[k]); }
    case _ =>
  }

  /** The answer for `v` read up to `end`, if there was room for it. */
  function Answer(room: bool, v: Value, end: int): Partial {
    if room then Done(v, end) else StackError
  }

  predicate ItemsNest(v: Value, n: nat, stack: Option<nat>)
    requires v.List?
  {
    forall i :: n <= i < |v.items| ==> Nests(v.items[i], stack)
  }

  predicate EntriesNest(v: Value, ks: seq<string>, stack: Option<nat>)
    requires v.Dict? && forall k <- ks :: k in v.entries
  {
    ks == [] || (stack != Some(0) && forall k <- ks :: Nests(v.entries[k], stack))
  }

  lemma ListStep(leaf: Leaves, v: Value, n: nat, x: string, f: int, mid: int, end: int, stack: Option<nat>, gas: nat)
    requires v.List? && n < |v.items| && Inside(x, f) && gas > 0
    requires DecodeAt(leaf, x, f, stack, gas - 1) == Answer(Nests(v.items[n], stack), v.items[n], mid)
    requires ListFrom(leaf, x, mid, v.items[..n + 1], stack, gas - 1) == Answer(ItemsNest(v, n + 1, stack), v, end)
    ensures ListFrom(leaf, x, f, v.items[..n], stack, gas) == Answer(ItemsNest(v, n, stack), v, end)
  {
    assert v.items[..n] + [v.items[n]] == v.items[..n + 1];
    assert ItemsNest(v, n, stack) <==> Nests(v.items[n], stack) && ItemsNest(v, n + 1, stack);
  }

  lemma DictStep(leaf: Leaves, r: map<string, Value>, k: string, w: Value, v: Value, nests: bool, nest: bool,
                 x: string, f: int, at: int, mid: int, end: int, stack: Option<nat>, gas: nat)
    requires Inside(x, f) && gas > 0 && stack != Some(0)
    requires leaf.key(x, f) == Key(k, at) && DecodeAt(leaf, x, at, stack, gas - 1) == Answer(nests, w, mid)
    requires DictFrom(leaf, x, mid, r[k := w], stack, gas - 1) == Answer(nest, v, end)
    ensures DictFrom(leaf, x, f, r, stack, gas) == Answer(nests && nest, v, end)
  {
  }

  /** The entries of `m` whose keys are not in `ks` have been collected in `r`. */
  ghost predicate Partly(m: map<string, Value>, ks: seq<string>, r: map<string, Value>) {
    && (forall k :: k in m ==> k in ks || k in r)
    && (forall k :: k in r ==> k in m && r[k] == m[k])
  }

  lemma PartlyStep(m: map<string, Value>, ks: seq<string>, r: map<string, Value>)
    requires Partly(m, ks, r) && ks != [] && ks[0] in m
    ensures Partly(m, ks[1..], r[ks[0] := m[ks[0]]])
  {
  }

  lemma PartlyDone(m: map<string, Value>, r: map<string, Value>)
    requires Partly(m, [], r)
    ensures r == m
  {
  }

  lemma {:induction false} Reads(leaf: Leaves, ends: Leaf, v: Value, x: string, f: int, stack: Option<nat>, gas: nat)
    requires ReadsLeaves(leaf, ends)
    requires End(ends, v, x, f).Some? && gas >= End(ends, v, x, f).value - f
    ensures DecodeAt(leaf, x, f, stack, gas) == Answer(Nests(v, stack), v, End(ends, v, x, f).value)
    decreases v, 2, 0
  {
    if stack == Some(0) { return; }
    match v
    case List(_) => ReadsList(leaf, ends, v, x, f, stack, gas);
    case Dict(_) => ReadsDict(leaf, ends, v, x, f, stack, gas);
    case Int(i) => assert ReadsInt(leaf, i, x, f, ends(Int(i), x, f).value);
    case Str(s) => assert ReadsStr(leaf, s, x, f, ends(Str(s), x, f).value);
  }

  lemma ReadsList(leaf: Leaves, ends: Leaf, v: Value, x: string, f: int, stack: Option<nat>, gas: nat)
    requires v.List? && ReadsLeaves(leaf, ends) && stack != Some(0)
    requires End(ends, v, x, f).Some? && gas >= End(ends, v, x, f).value - f
    ensures DecodeAt(leaf, x, f, stack, gas) == Answer(Nests(v, stack), v, End(ends, v, x, f).value)
    decreases v, 1, 0
  {
    ReadsItems(leaf, ends, v, 0, x, f + 1, Inner(stack), gas - 1);
    assert ItemsNest(v, 0, Inner(stack)) <==> Nests(v, stack);
  }

  lemma ReadsDict(leaf: Leaves, ends: Leaf, v: Value, x: string, f: int, stack: Option<nat>, gas: nat)
    requires v.Dict? && ReadsLeaves(leaf, ends) && stack != Some(0)
    requires End(ends, v, x, f).Some? && gas >= End(ends, v, x, f).value - f
    ensures DecodeAt(leaf, x, f, stack, gas) == Answer(Nests(v, stack), v, End(ends, v, x, f).value)
    decreases v, 1, 0
  {
    var ks := KeysWalked(ends, v, x, f);
    ReadsEntries(leaf, ends, v, ks, map[], x, f + 1, End(ends, v, x, f).value, Inner(stack), gas - 1);
    CollectedAll(v.entries, ks, map[]);
    AllEntriesNest(v, ks, stack);
    DictCall(leaf, x, f, stack, gas);
  }

  lemma KeysWalked(ends: Leaf, v: Value, x: string, f: int) returns (ks: seq<string>)
    requires v.Dict? && End(ends, v, x, f).Some?
    ensures forall k :: k in ks <==> k in v.entries
    ensures Here('d', x, f) && EntriesEnd(ends, v, ks, x, f + 1) == End(ends, v, x, f)
  {
    ks := SortedKeys(v.entries.Keys);
  }

  lemma DictCall(leaf: Leaves, x: string, f: int, stack: Option<nat>, gas: nat)
    requires Here('d', x, f) && stack != Some(0) && gas > 0
    ensures DecodeAt(leaf, x, f, stack, gas) == DictFrom(leaf, x, f + 1, map[], Inner(stack), gas - 1)
  {
  }

  lemma AllEntriesNest(v: Value, ks: seq<string>, stack: Option<nat>)
    requires v.Dict? && stack != Some(0) && forall k :: k in ks <==> k in v.entries
    ensures EntriesNest(v, ks, Inner(stack)) <==> Nests(v, stack)
  {
    if ks == [] {
      assert v.entries == map[];
    } else {
      assert ks[0] in v.entries;
    }
  }

  lemma {:induction false} ReadsItems(leaf: Leaves, ends: Leaf, v: Value, n: nat, x: string, f: int, stack: Option<nat>, gas: nat)
    requires ReadsLeaves(leaf, ends) && v.List? && n <= |v.items|
    requires ItemsEnd(ends, v, n, x, f).Some? && gas >= ItemsEnd(ends, v, n, x, f).value - f
    ensures ListFrom(leaf, x, f, v.items[..n], stack, gas) == Answer(ItemsNest(v, n, stack), v, ItemsEnd(ends, v, n, x, f).value)
    decreases v, 0, |v.items| - n
  {
    if n < |v.items| {
      var mid := End(ends, v.items[n], x, f).value;
      Reads(leaf, ends, v.items[n], x, f, stack, gas - 1);
      ReadsItems(leaf, ends, v, n + 1, x, mid, stack, gas - 1);
      ListStep(leaf, v, n, x, f, mid, ItemsEnd(ends, v, n, x, f).value, stack, gas);
    }
  }

  lemma {:induction false} ReadsEntries(leaf: Leaves, ends: Leaf, v: Value, ks: seq<string>,
                                        r: map<string, Value>, x: string, f: int, end: int, stack: Option<nat>, gas: nat)
    requires ReadsLeaves(leaf, ends) && v.Dict? && (forall k <- ks :: k in v.entries)
    requires EntriesEnd(ends, v, ks, x, f) == Some(end) && gas >= end - f
    ensures DictFrom(leaf, x, f, r, stack, gas) == Answer(EntriesNest(v, ks, stack), Dict(Collected(v.entries, ks, r)), end)
    decreases v, 0, |ks|, 1
  {
    if ks != [] && stack != Some(0) {
      var k := ks[0];
      var at, mid := ReadsEntry(leaf, ends, v, ks, x, f, end, stack, gas);
      ReadsEntries(leaf, ends, v, ks[1..], r[k := v.entries[k]], x, mid, end, stack, gas - 1);
      DictStep(leaf, r, k, v.entries[k], Dict(Collected(v.entries, ks, r)), Nests(v.entries[k], stack),
               EntriesNest(v, ks[1..], stack), x, f, at, mid, end, stack, gas);
      NextEntriesNest(v, ks, stack);
    }
  }

  lemma NextEntriesNest(v: Value, ks: seq<string>, stack: Option<nat>)
    requires v.Dict? && ks != [] && stack != Some(0) && forall k <- ks :: k in v.entries
    ensures EntriesNest(v, ks, stack) <==> Nests(v.entries[ks[0]], stack) && EntriesNest(v, ks[1..], stack)
  {
    assert forall k :: k in ks <==> k == ks[0] || k in ks[1..];
  }

  /** `r` after the entries under `ks` have been added in turn. */
  function Collected(m: map<string, Value>, ks: seq<string>, r: map<string, Value>): map<string, Value>
    requires forall k <- ks :: k in m
    decreases |ks|
  {
    if ks == [] then r else Collected(m, ks[1..], r[ks[0] := m[ks[0]]])
  }

  lemma {:induction false} CollectedAll(m: map<string, Value>, ks: seq<string>, r: map<string, Value>)
    requires (forall k <- ks :: k in m) && Partly(m, ks, r)
    ensures Collected(m, ks, r) == m
    decreases |ks|
  {
    if ks == [] {
      PartlyDone(m, r);
    } else {
      PartlyStep(m, ks, r);
      CollectedAll(m, ks[1..], r[ks[0] := m[ks[0]]]);
    }
  }

  lemma ReadsEntry(leaf: Leaves, ends: Leaf, v: Value, ks: seq<string>, x: string, f: int, end: int, stack: Option<nat>, gas: nat)
    returns (at: int, mid: int)
    requires ReadsLeaves(leaf, ends) && v.Dict? && ks != [] && (forall k <- ks :: k in v.entries)
    requires EntriesEnd(ends, v, ks, x, f) == Some(end) && gas >= end - f
    ensures Inside(x, f) && f < mid < end && EntriesEnd(ends, v, ks[1..], x, mid) == Some(end)
    ensures leaf.key(x, f) == Key(ks[0], at)
    ensures DecodeAt(leaf, x, at, stack, gas - 1) == Answer(Nests(v.entries[ks[0]], stack), v.entries[ks[0]], mid)
    decreases v, 0, |ks|, 0
  {
    at := ScalarEnd(ends, Str(ks[0]), x, f).value;
    mid := End(ends, v.entries[ks[0]], x, at).value;
    assert ReadsStr(leaf, ks[0], x, f, ends(Str(ks[0]), x, f).value);
    Reads(leaf, ends, v.entries[ks[0]], x, at, stack, gas - 1);
  }

  /** Decoding an encoding, wherever it stands, returns its value and its exact end if the stack has
      room for its nesting, and fails for lack of room otherwise. */
  lemma RoundTrip(v: Value, x: string, f: int, stack: Option<nat>, gas: nat)
    requires Occurs(Encode(v), x, f) && gas >= |Encode(v)|
    ensures DecodeAt(RUBY, x, f, stack, gas) == Answer(Nests(v, stack), v, f + |Encode(v)|)
  {
    RubyReadsLeaves();
    EncodeEnds(v, x, f);
    Reads(RUBY, Printed, v, x, f, stack, gas);
  }

  lemma RoundTripWithoutLimit(v: Value, x: string, f: int, gas: nat)
    requires Occurs(Encode(v), x, f) && gas >= |Encode(v)|
    ensures DecodeAt(RUBY, x, f, None, gas) == Done(v, f + |Encode(v)|)
  {
    RoundTrip(v, x, f, None, gas);
    NestsWithoutLimit(v);
  }

  /** `bdecode(bencode(v))` is `v`. */
  lemma BdecodeBencode(v: Value, stack: Option<nat>)
    ensures Bdecode(Encode(v), stack, |Encode(v)|) == Answer(Nests(v, stack), v, |Encode(v)|)
  {
    RoundTrip(v, Encode(v), 0, stack, |Encode(v)|);
  }

  /** With anything behind it, it is refused. */
  lemma TrailingTextRaises(v: Value, s: string, stack: Option<nat>, gas: nat)
    requires s != "" && gas >= |Encode(v)|
    ensures Bdecode(Encode(v) + s, stack, gas) == if Nests(v, stack) then Raised else StackError
  {
    var x := Encode(v) + s;
    OccursSplit(Encode(v), s, x, 0);
    RoundTrip(v, x, 0, stack, gas);
  }

  /** Whatever is decoded, it is all of the text. */
  lemma DecodesWholeText(x: string, stack: Option<nat>, gas: nat)
    ensures Bdecode(x, stack, gas).Done? ==> Bdecode(x, stack, gas).num == |x|
  {
  }

  /** No encoding is a proper prefix of another, and none belongs to two values. */
  lemma PrefixFree(v: Value, s: string, w: Value, t: string)
    requires Encode(v) + s == Encode(w) + t
    ensures v == w && s == t
  {
    var x := Encode(v) + s;
    var gas := |x|;
    OccursSplit(Encode(v), s, x, 0);
    OccursSplit(Encode(w), t, x, 0);
    assert x[0..|x|] == x;
    RoundTripWithoutLimit(v, x, 0, gas);
    RoundTripWithoutLimit(w, x, 0, gas);
    assert s == x[|Encode(v)|..] && t == x[|Encode(w)|..];
  }

  /** More gas never changes an answer, so the answer is the program's own. */
  lemma {:induction false} GasIsMonotone(leaf: Leaves, x: string, f: int, stack: Option<nat>, gas: nat, more: nat)
    requires gas <= more
    ensures DecodeAt(leaf, x, f, stack, gas) != Hang ==> DecodeAt(leaf, x, f, stack, more) == DecodeAt(leaf, x, f, stack, gas)
    decreases gas
  {
    if gas > 0 && stack != Some(0) {
      if At(x, f) == Some('l') {
        ListGasIsMonotone(leaf, x, f + 1, [], Inner(stack), gas - 1, more - 1);
      } else if At(x, f) == Some('d') {
        DictGasIsMonotone(leaf, x, f + 1, map[], Inner(stack), gas - 1, more - 1);
      }
    }
  }

  lemma {:induction false} ListGasIsMonotone(leaf: Leaves, x: string, f: int, r: seq<Value>, stack: Option<nat>, gas: nat, more: nat)
    requires gas <= more
    ensures ListFrom(leaf, x, f, r, stack, gas) != Hang ==> ListFrom(leaf, x, f, r, stack, more) == ListFrom(leaf, x, f, r, stack, gas)
    decreases gas
  {
    if At(x, f).Some? && At(x, f) != Some('e') && gas > 0 {
      GasIsMonotone(leaf, x, f, stack, gas - 1, more - 1);
      var d := DecodeAt(leaf, x, f, stack, gas - 1);
      if d.Done? { ListGasIsMonotone(leaf, x, d.num, r + [d.result], stack, gas - 1, more - 1); }
    }
  }

  lemma {:induction false} DictGasIsMonotone(leaf: Leaves, x: string, f: int, r: map<string, Value>, stack: Option<nat>, gas: nat, more: nat)
    requires gas <= more
    ensures DictFrom(leaf, x, f, r, stack, gas) != Hang ==> DictFrom(leaf, x, f, r, stack, more) == DictFrom(leaf, x, f, r, stack, gas)
    decreases gas
  {
    if At(x, f).Some? && At(x, f) != Some('e') && gas > 0 && leaf.key(x, f) != NoKey && stack != Some(0) {
      var k := leaf.key(x, f);
      GasIsMonotone(leaf, x, k.num, stack, gas - 1, more - 1);
      var d := DecodeAt(leaf, x, k.num, stack, gas - 1);
      if d.Done? { DictGasIsMonotone(leaf, x, d.num, r[k.text := d.result], stack, gas - 1, more - 1); }
    }
  }

  /** `more` is at least as large a stack. */
  predicate Deeper(stack: Option<nat>, more: Option<nat>) {
    more.None? || (stack.Some? && stack.value <= more.value)
  }

  /** A larger stack changes nothing but stack errors. */
  lemma {:induction false} StackIsMonotone(leaf: Leaves, x: string, f: int, stack: Option<nat>, more: Option<nat>, gas: nat)
    requires Deeper(stack, more)
    ensures DecodeAt(leaf, x, f, stack, gas) != StackError ==> DecodeAt(leaf, x, f, more, gas) == DecodeAt(leaf, x, f, stack, gas)
    decreases gas
  {
    if gas > 0 && stack != Some(0) {
      if At(x, f) == Some('l') {
        ListStackIsMonotone(leaf, x, f + 1, [], Inner(stack), Inner(more), gas - 1);
      } else if At(x, f) == Some('d') {
        DictStackIsMonotone(leaf, x, f + 1, map[], Inner(stack), Inner(more), gas - 1);
      }
    }
  }

  lemma {:induction false} ListStackIsMonotone(leaf: Leaves, x: string, f: int, r: seq<Value>, stack: Option<nat>, more: Option<nat>, gas: nat)
    requires Deeper(stack, more)
    ensures ListFrom(leaf, x, f, r, stack, gas) != StackError ==> ListFrom(leaf, x, f, r, more, gas) == ListFrom(leaf, x, f, r, stack, gas)
    decreases gas
  {
    if At(x, f).Some? && At(x, f) != Some('e') && gas > 0 {
      StackIsMonotone(leaf, x, f, stack, more, gas - 1);
      var d := DecodeAt(leaf, x, f, stack, gas - 1);
      if d.Done? { ListStackIsMonotone(leaf, x, d.num, r + [d.result], stack, more, gas - 1); }
    }
  }

  lemma {:induction false} DictStackIsMonotone(leaf: Leaves, x: string, f: int, r: map<string, Value>,
                                               stack: Option<nat>, more: Option<nat>, gas: nat)
    requires Deeper(stack, more)
    ensures DictFrom(leaf, x, f, r, stack, gas) != StackError ==> DictFrom(leaf, x, f, r, more, gas) == DictFrom(leaf, x, f, r, stack, gas)
    decreases gas
  {
    if At(x, f).Some? && At(x, f) != Some('e') && gas > 0 && leaf.key(x, f) != NoKey && stack != Some(0) {
      var k := leaf.key(x, f);
      StackIsMonotone(leaf, x, k.num, stack, more, gas - 1);
      var d := DecodeAt(leaf, x, k.num, stack, gas - 1);
      if d.Done? { DictStackIsMonotone(leaf, x, d.num, r[k.text := d.result], stack, more, gas - 1); }
    }
  }

  // ---- a dictionary key is read without looking for a digit ----

  /** The key at offset 6 points back at the integer before it. */
  ghost predicate GoesBack(leaf: Leaves, x: string) {
    && |x| > 6 && x[0] == 'd' && x[1] != 'e' && x[3] == 'i' && x[6] != 'e'
    && leaf.key(x, 1) == Key("", 3) && leaf.key(x, 6) == Key("", 3)
    && leaf.number(x, 3) == Done(Int(1), 6)
  }

  const BACKWARD_KEY := "d0:i1e-6:e"

  lemma BackwardKeyNumbers()
    ensures ToI("0:") == 0 && ToI("-6:") == -6 && ToI("1") == 1
  {
    assert DigitRun("0:", 0, 0) == DigitRun("0:", 1, 0) == 0;
    assert DigitRun("-6:", 1, 0) == DigitRun("-6:", 2, 6) == 6;
    assert DigitRun("1", 0, 0) == DigitRun("1", 1, 1) == 1;
  }

  lemma BackwardKeyParts()
    ensures GoesBack(RUBY, BACKWARD_KEY)
  {
    var x := BACKWARD_KEY;
    assert |x| == 10 && x[0] == 'd' && x[1] == '0' && x[3] == 'i' && x[6] == '-';
    BackwardKeyNumbers();
    FirstFromFinds(x, ':', 1, 2);
    FirstFromFinds(x, ':', 6, 8);
    FirstFromFinds(x, 'e', 4, 5);
    assert Slice(x, 1, 2) == "0:" && Slice(x, 6, 8) == "-6:" && Slice(x, 4, 4) == "1";
  }

  lemma {:induction false} GoingBackLoops(leaf: Leaves, x: string, r: map<string, Value>, stack: Option<nat>, gas: nat)
    requires GoesBack(leaf, x) && stack != Some(0)
    ensures DictFrom(leaf, x, 6, r, stack, gas) == Hang
    decreases gas
  {
    if gas > 1 { GoingBackLoops(leaf, x, r["" := Int(1)], stack, gas - 1); }
  }

  lemma GoingBackHangs(leaf: Leaves, x: string, stack: Option<nat>, gas: nat)
    requires GoesBack(leaf, x) && stack != Some(0) && Inner(stack) != Some(0)
    ensures DecodeAt(leaf, x, 0, stack, gas) == Hang
  {
    if gas > 2 {
      var r: map<string, Value> := map[];
      GoingBackLoops(leaf, x, r["" := Int(1)], Inner(stack), gas - 2);
      assert DictFrom(leaf, x, 1, r, Inner(stack), gas - 1) == Hang;
    }
  }

  /** A key with a negative length sends the decoder back to a value it has already read, so
      on this text the loop never ends, whatever number of iterations is allowed. */
  lemma BackwardKeyHangs(stack: Option<nat>, gas: nat)
    requires stack.Some? ==> stack.value >= 2
    ensures Bdecode(BACKWARD_KEY, stack, gas) == Hang
  {
    BackwardKeyParts();
    GoingBackHangs(RUBY, BACKWARD_KEY, stack, gas);
  }

  // ---- and the value behind it can be the dictionary itself ----

  /** The key at offset 1 points back at the dictionary it is in. */
  ghost predicate GoesIn(leaf: Leaves, x: string) {
    |x| > 1 && x[0] == 'd' && x[1] != 'e' && leaf.key(x, 1) == Key("", 0)
  }

  const INWARD_KEY := "d-4:"

  lemma InwardKeyParts()
    ensures GoesIn(RUBY, INWARD_KEY)
  {
    var x := INWARD_KEY;
    assert |x| == 4 && x[0] == 'd' && x[1] == '-';
    assert DigitRun("-4:", 1, 0) == DigitRun("-4:", 2, 4) == 4;
    FirstFromFinds(x, ':', 1, 3);
    assert Slice(x, 1, 3) == "-4:";
  }

  lemma {:induction false} GoingInFails(leaf: Leaves, x: string, stack: nat, gas: nat)
    requires GoesIn(leaf, x) && gas > 2 * stack
    ensures DecodeAt(leaf, x, 0, Some(stack), gas) == StackError
  {
    if stack > 1 { GoingInFails(leaf, x, stack - 1, gas - 2); }
  }

  /** On this text every call makes another one, which ends when the stack is full. */
  lemma InwardKeyFails(stack: nat, gas: nat)
    requires gas > 2 * stack
    ensures Bdecode(INWARD_KEY, Some(stack), gas) == StackError
  {
    InwardKeyParts();
    GoingInFails(RUBY, INWARD_KEY, stack, gas);
  }
}
