/** How the Ruby decoder ends (bitrub/bencode.rb:7-86): on which texts with a value or an ordinary
    exception, on which with a full stack, and on which never. */
module BencodeReturns {
  import opened Options
  import opened Bencode
  import opened BencodeDecode

  // ---- texts on which every key moves forward ----

  /** Wherever a dictionary key might be read, it ends after its first character: no number
      that stands before a colon is negative. */
  ghost predicate KeysGoForward(leaf: Leaves, x: string) {
    && (forall f :: 0 <= f < |x| && leaf.key(x, f).Key? ==> leaf.key(x, f).num > f)
    && (forall f :: 0 <= f < |x| && leaf.number(x, f).Done? ==> leaf.number(x, f).num > f)
    && (forall f :: 0 <= f < |x| ==> leaf.number(x, f) != Hang)
  }

  function Left(x: string, f: int): nat {
    if f < |x| then |x| - f else 0
  }

  /** Twice as many calls and iterations as there are characters are enough. */
  lemma {:induction false} ValueReturns(leaf: Leaves, x: string, f: int, stack: Option<nat>, gas: nat)
    requires KeysGoForward(leaf, x) && 0 <= f && gas >= 2 * Left(x, f) + 1
    ensures var d := DecodeAt(leaf, x, f, stack, gas); d != Hang && (d.Done? ==> d.num > f)
    decreases gas
  {
    if stack != Some(0) {
      if At(x, f) == Some('l') {
        ListReturns(leaf, x, f + 1, [], Inner(stack), gas - 1);
      } else if At(x, f) == Some('d') {
        DictReturns(leaf, x, f + 1, map[], Inner(stack), gas - 1);
      }
    }
  }

  lemma {:induction false} ListReturns(leaf: Leaves, x: string, f: int, r: seq<Value>, stack: Option<nat>, gas: nat)
    requires KeysGoForward(leaf, x) && 0 <= f && gas >= 2 * Left(x, f) + 2
    ensures var d := ListFrom(leaf, x, f, r, stack, gas); d != Hang && (d.Done? ==> d.num > f)
    decreases gas
  {
    if At(x, f).Some? && At(x, f) != Some('e') {
      ValueReturns(leaf, x, f, stack, gas - 1);
      var d := DecodeAt(leaf, x, f, stack, gas - 1);
      if d.Done? { ListReturns(leaf, x, d.num, r + [d.result], stack, gas - 1); }
    }
  }

  lemma {:induction false} DictReturns(leaf: Leaves, x: string, f: int, r: map<string, Value>, stack: Option<nat>, gas: nat)
    requires KeysGoForward(leaf, x) && 0 <= f && gas >= 2 * Left(x, f) + 2
    ensures var d := DictFrom(leaf, x, f, r, stack, gas); d != Hang && (d.Done? ==> d.num > f)
    decreases gas
  {
    var k := leaf.key(x, f);
    if At(x, f).Some? && At(x, f) != Some('e') && k != NoKey {
      ValueReturns(leaf, x, k.num, stack, gas - 1);
      var d := DecodeAt(leaf, x, k.num, stack, gas - 1);
      if d.Done? { DictReturns(leaf, x, d.num, r[k.text := d.result], stack, gas - 1); }
    }
  }

  lemma SkippedStays(s: string)
    ensures ToI(s) < 0 ==> '-' in s
  {
    var p := SkipSpaces(s, 0);
    if p < |s| && s[p] == '-' { assert s[p] in s; }
  }

  lemma RubyKeyGoesForward(x: string, f: int)
    requires '-' !in x && 0 <= f < |x|
    ensures DecodeString(x, f).Key? ==> DecodeString(x, f).num > f
    ensures DecodeInt(x, f).Done? ==> DecodeInt(x, f).num > f
    ensures DecodeInt(x, f) != Hang
  {
    var colon := Index(x, ':', f);
    if colon.Some? {
      var s := Slice(x, f, colon.value);
      SkippedStays(s);
      assert forall c :: c in s ==> c in x;
    }
  }

  /** A value or an ordinary exception. */
  predicate Settled(p: Partial) {
    p.Done? || p.Raised?
  }

  /** Without a minus sign in the text the decoder returns, and with a stack of twice the length
      of the text it does so with a value or an ordinary exception. */
  lemma ReturnsWithoutMinus(x: string, stack: Option<nat>, gas: nat)
    requires '-' !in x && gas >= 2 * |x| + 1
    ensures Bdecode(x, stack, gas) != Hang
    ensures Ample(stack, 2 * |x| + 1) ==> Settled(Bdecode(x, stack, gas))
  {
    forall f | 0 <= f < |x|
      ensures RUBY.key(x, f).Key? ==> RUBY.key(x, f).num > f
      ensures RUBY.number(x, f).Done? ==> RUBY.number(x, f).num > f
      ensures RUBY.number(x, f) != Hang
    {
      RubyKeyGoesForward(x, f);
    }
    ValueReturns(RUBY, x, 0, stack, gas);
    if Ample(stack, 2 * |x| + 1) {
      ValueReturns(RUBY, x, 0, stack, 2 * |x| + 1);
      SettlesWithin(RUBY, x, stack, 2 * |x| + 1, gas);
    }
  }

  lemma SettlesWithin(leaf: Leaves, x: string, stack: Option<nat>, gas: nat, more: nat)
    requires LeavesAnswer(leaf, x) && Ample(stack, gas) && gas <= more && DecodeAt(leaf, x, 0, stack, gas) != Hang
    ensures Settled(DecodeAt(leaf, x, 0, stack, more))
  {
    ValueFits(leaf, x, 0, stack, gas);
    GasIsMonotone(leaf, x, 0, stack, gas, more);
  }

  // ---- enough room ----

  /** The stack has room for as many calls. */
  predicate Ample(stack: Option<nat>, gas: nat) {
    stack.None? || stack.value >= gas
  }

  /** The leaf functions always answer. */
  ghost predicate LeavesAnswer(leaf: Leaves, x: string) {
    forall f :: Settled(leaf.number(x, f))
  }

  lemma {:induction false} ValueFits(leaf: Leaves, x: string, f: int, stack: Option<nat>, gas: nat)
    requires LeavesAnswer(leaf, x) && Ample(stack, gas)
    ensures DecodeAt(leaf, x, f, stack, gas) != StackError
    decreases gas
  {
    if gas > 0 {
      if At(x, f) == Some('l') {
        ListFits(leaf, x, f + 1, [], Inner(stack), gas - 1);
      } else if At(x, f) == Some('d') {
        DictFits(leaf, x, f + 1, map[], Inner(stack), gas - 1);
      } else {
        assert Settled(leaf.number(x, f));
      }
    }
  }

  lemma {:induction false} ListFits(leaf: Leaves, x: string, f: int, r: seq<Value>, stack: Option<nat>, gas: nat)
    requires LeavesAnswer(leaf, x) && Ample(stack, gas)
    ensures ListFrom(leaf, x, f, r, stack, gas) != StackError
    decreases gas
  {
    if At(x, f).Some? && At(x, f) != Some('e') && gas > 0 {
      ValueFits(leaf, x, f, stack, gas - 1);
      var d := DecodeAt(leaf, x, f, stack, gas - 1);
      if d.Done? { ListFits(leaf, x, d.num, r + [d.result], stack, gas - 1); }
    }
  }

  lemma {:induction false} DictFits(leaf: Leaves, x: string, f: int, r: map<string, Value>, stack: Option<nat>, gas: nat)
    requires LeavesAnswer(leaf, x) && Ample(stack, gas)
    ensures DictFrom(leaf, x, f, r, stack, gas) != StackError
    decreases gas
  {
    var k := leaf.key(x, f);
    if At(x, f).Some? && At(x, f) != Some('e') && gas > 0 && k != NoKey {
      ValueFits(leaf, x, k.num, stack, gas - 1);
      var d := DecodeAt(leaf, x, k.num, stack, gas - 1);
      if d.Done? { DictFits(leaf, x, d.num, r[k.text := d.result], stack, gas - 1); }
    }
  }

  // ---- the exact condition ----

  /** Where the decoder is: about to read a value, or in a list or dictionary loop; and how much
      room there is on the stack. */
  datatype Spot =
    | AtValue(f: int, stack: Option<nat>)
    | InList(f: int, stack: Option<nat>)
    | InDict(f: int, stack: Option<nat>)

  function From(leaf: Leaves, x: string, c: Spot, gas: nat): Partial {
    match c
    case AtValue(f, stack) => DecodeAt(leaf, x, f, stack, gas)
    case InList(f, stack) => ListFrom(leaf, x, f, [], stack, gas)
    case InDict(f, stack) => DictFrom(leaf, x, f, map[], stack, gas)
  }

  /** Two answers that differ at most in what has been collected. */
  predicate Alike(p: Partial, q: Partial) {
    match p
    case Done(_, num) => q.Done? && q.num == num
    case other => q == p
  }

  lemma {:induction false} ListAlike(leaf: Leaves, x: string, f: int, r: seq<Value>, r': seq<Value>, stack: Option<nat>, gas: nat)
    ensures Alike(ListFrom(leaf, x, f, r, stack, gas), ListFrom(leaf, x, f, r', stack, gas))
    decreases gas
  {
    if At(x, f).Some? && At(x, f) != Some('e') && gas > 0 {
      var d := DecodeAt(leaf, x, f, stack, gas - 1);
      if d.Done? { ListAlike(leaf, x, d.num, r + [d.result], r' + [d.result], stack, gas - 1); }
    }
  }

  lemma {:induction false} DictAlike(leaf: Leaves, x: string, f: int, r: map<string, Value>, r': map<string, Value>,
                                     stack: Option<nat>, gas: nat)
    ensures Alike(DictFrom(leaf, x, f, r, stack, gas), DictFrom(leaf, x, f, r', stack, gas))
    decreases gas
  {
    var k := leaf.key(x, f);
    if At(x, f).Some? && At(x, f) != Some('e') && gas > 0 && k != NoKey && stack != Some(0) {
      var d := DecodeAt(leaf, x, k.num, stack, gas - 1);
      if d.Done? { DictAlike(leaf, x, d.num, r[k.text := d.result], r'[k.text := d.result], stack, gas - 1); }
    }
  }

  /** A value read from `f` ends at `num`. */
  ghost predicate Ends(leaf: Leaves, x: string, f: int, stack: Option<nat>, num: int) {
    exists gas: nat, v :: DecodeAt(leaf, x, f, stack, gas) == Done(v, num)
  }

  /** `d` is where the decoder may be next: in the call it makes, or, once that call has
      returned, in the next turn of its loop. */
  ghost predicate Next(leaf: Leaves, x: string, c: Spot, d: Spot) {
    match c
    case AtValue(f, stack) =>
      && stack != Some(0)
      && ((At(x, f) == Some('l') && d == InList(f + 1, Inner(stack))) || (At(x, f) == Some('d') && d == InDict(f + 1, Inner(stack))))
    case InList(f, stack) =>
      && At(x, f).Some? && At(x, f) != Some('e')
      && (d == AtValue(f, stack) || (d.InList? && d.stack == stack && Ends(leaf, x, f, stack, d.f)))
    case InDict(f, stack) =>
      && At(x, f).Some? && At(x, f) != Some('e') && leaf.key(x, f) != NoKey && stack != Some(0)
      && (d == AtValue(leaf.key(x, f).num, stack)
          || (d.InDict? && d.stack == stack && Ends(leaf, x, leaf.key(x, f).num, stack, d.f)))
  }

  /** Too few steps for a spot are too few for one that comes next. */
  lemma HangMovesOn(leaf: Leaves, x: string, c: Spot, gas: nat) returns (d: Spot)
    requires LeavesAnswer(leaf, x) && gas > 0 && From(leaf, x, c, gas) == Hang
    ensures Next(leaf, x, c, d) && From(leaf, x, d, gas - 1) == Hang
  {
    match c
    case AtValue(f, stack) =>
      assert Settled(leaf.number(x, f));
      d := if At(x, f) == Some('l') then InList(f + 1, Inner(stack)) else InDict(f + 1, Inner(stack));
    case InList(f, stack) =>
      var v := DecodeAt(leaf, x, f, stack, gas - 1);
      if v == Hang {
        d := AtValue(f, stack);
      } else {
        d := InList(v.num, stack);
        ListAlike(leaf, x, v.num, [] + [v.result], [], stack, gas - 1);
        assert Ends(leaf, x, f, stack, v.num);
      }
    case InDict(f, stack) =>
      var k := leaf.key(x, f);
      var v := DecodeAt(leaf, x, k.num, stack, gas - 1);
      if v == Hang {
        d := AtValue(k.num, stack);
      } else {
        d := InDict(v.num, stack);
        var none: map<string, Value> := map[];
        DictAlike(leaf, x, v.num, none[k.text := v.result], none, stack, gas - 1);
        assert Ends(leaf, x, k.num, stack, v.num);
      }
  }

  lemma EndsOnce(leaf: Leaves, x: string, f: int, stack: Option<nat>, num: int, gas: nat)
    requires Ends(leaf, x, f, stack, num)
    ensures var d := DecodeAt(leaf, x, f, stack, gas); d == Hang || (d.Done? && d.num == num)
  {
    var g: nat, v :| DecodeAt(leaf, x, f, stack, g) == Done(v, num);
    if g <= gas { GasIsMonotone(leaf, x, f, stack, g, gas); } else { GasIsMonotone(leaf, x, f, stack, gas, g); }
  }

  /** And the other way round. */
  lemma HangMovesBack(leaf: Leaves, x: string, c: Spot, d: Spot, gas: nat)
    requires Next(leaf, x, c, d) && (gas > 0 ==> From(leaf, x, d, gas - 1) == Hang)
    ensures From(leaf, x, c, gas) == Hang
  {
    if gas > 0 {
      match c
      case AtValue(f, stack) =>
      case InList(f, stack) =>
        var v := DecodeAt(leaf, x, f, stack, gas - 1);
        if d.InList? {
          EndsOnce(leaf, x, f, stack, d.f, gas - 1);
          if v.Done? { ListAlike(leaf, x, v.num, [] + [v.result], [], stack, gas - 1); }
        }
      case InDict(f, stack) =>
        var k := leaf.key(x, f);
        var v := DecodeAt(leaf, x, k.num, stack, gas - 1);
        if d.InDict? {
          EndsOnce(leaf, x, k.num, stack, d.f, gas - 1);
          var none: map<string, Value> := map[];
          if v.Done? { DictAlike(leaf, x, v.num, none[k.text := v.result], none, stack, gas - 1); }
        }
    }
  }

  // ---- paths ----

  /** Each spot of the path comes next after the one before it. */
  ghost predicate Path(leaf: Leaves, x: string, p: seq<Spot>) {
    forall i :: 0 <= i < |p| - 1 ==> Next(leaf, x, p[i], p[i + 1])
  }

  /** The path runs into a circle. */
  ghost predicate Circle(leaf: Leaves, x: string, stack: Option<nat>, p: seq<Spot>, i: nat, j: nat) {
    i < j < |p| && Path(leaf, x, p) && p[0] == AtValue(0, stack) && p[i] == p[j]
  }

  /** From the start the decoder can get to a spot that it can get back to. */
  ghost predicate Circular(leaf: Leaves, x: string, stack: Option<nat>) {
    exists p: seq<Spot>, i: nat, j: nat :: Circle(leaf, x, stack, p, i, j)
  }

  /** It can do so without calls, by turns of one loop alone. */
  ghost predicate TurnsForever(leaf: Leaves, x: string, stack: Option<nat>) {
    exists p: seq<Spot>, i: nat, j: nat :: Circle(leaf, x, stack, p, i, j) && forall k :: i <= k <= j ==> !p[k].AtValue?
  }

  lemma {:induction false} HangMakesPath(leaf: Leaves, x: string, c: Spot, gas: nat) returns (p: seq<Spot>)
    requires LeavesAnswer(leaf, x) && From(leaf, x, c, gas) == Hang
    ensures |p| == gas + 1 && p[0] == c && Path(leaf, x, p)
    decreases gas
  {
    if gas == 0 {
      p := [c];
    } else {
      var d := HangMovesOn(leaf, x, c, gas);
      var q := HangMakesPath(leaf, x, d, gas - 1);
      p := [c] + q;
      forall i | 0 <= i < |p| - 1 ensures Next(leaf, x, p[i], p[i + 1]) {
        if i > 0 { assert Next(leaf, x, q[i - 1], q[i]); }
      }
    }
  }

  function Room(c: Spot): nat {
    if c.stack.Some? then c.stack.value else 0
  }

  /** A number for every offset less than `n` away from the start, from either end of the text. */
  function Place(c: Spot, n: nat): int {
    3 * (c.f + n) + match c case AtValue(_, _) => 0 case InList(_, _) => 1 case InDict(_, _) => 2
  }

  /** A number for every spot. */
  function Numbered(c: Spot, n: nat): int {
    Place(c, n) + 6 * n * Room(c)
  }

  /** How many spots there are: six for each character, at each depth of the stack. */
  function Spots(x: string, stack: Option<nat>): nat {
    if stack.Some? then 6 * |x| * (stack.value + 1) else 6 * |x|
  }

  lemma {:induction false} ProductGrows(m: nat, a: nat, b: nat)
    requires a < b
    ensures m * a + m <= m * b
  {
    NextProduct(m, b - 1);
    if a < b - 1 { ProductGrows(m, a, b - 1); }
  }

  lemma NextProduct(m: nat, b: nat)
    ensures m * (b + 1) == m * b + m
  {
  }

  lemma SpotIsNumbered(leaf: Leaves, x: string, c: Spot, d: Spot, stack: Option<nat>)
    requires Next(leaf, x, c, d) && c.stack.Some? == stack.Some? && (stack.Some? ==> c.stack.value <= stack.value)
    ensures 0 <= Place(c, |x|) < 6 * |x| && 0 <= Numbered(c, |x|) < Spots(x, stack)
  {
    assert 0 <= Place(c, |x|) < 6 * |x|;
    if stack.Some? {
      ProductGrows(6 * |x|, Room(c), stack.value + 1);
    }
  }

  lemma NumberedOnce(c: Spot, d: Spot, n: nat)
    requires 0 <= Place(c, n) < 6 * n && 0 <= Place(d, n) < 6 * n && Numbered(c, n) == Numbered(d, n)
    requires c.stack.Some? == d.stack.Some?
    ensures c == d
  {
    if Room(c) < Room(d) {
      ProductGrows(6 * n, Room(c), Room(d));
    } else if Room(d) < Room(c) {
      ProductGrows(6 * n, Room(d), Room(c));
    }
  }

  /** Room on the stack is used up by calls and by nothing else. */
  lemma {:induction false} StackFalls(leaf: Leaves, x: string, p: seq<Spot>, i: nat, j: nat)
    requires Path(leaf, x, p) && i <= j < |p|
    ensures p[j].stack.Some? == p[i].stack.Some? && Room(p[j]) <= Room(p[i])
    decreases j - i
  {
    if i < j {
      assert Next(leaf, x, p[i], p[i + 1]);
      StackFalls(leaf, x, p, i + 1, j);
    }
  }

  /** So a circle on a limited stack consists of turns of one loop. */
  lemma CircleIsTurns(leaf: Leaves, x: string, stack: nat, p: seq<Spot>, i: nat, j: nat)
    requires Circle(leaf, x, Some(stack), p, i, j)
    ensures forall k :: i <= k <= j ==> !p[k].AtValue?
  {
    StackFalls(leaf, x, p, 0, i);
    forall k | i <= k < j ensures !p[k].AtValue? {
      StackFalls(leaf, x, p, i, k);
      StackFalls(leaf, x, p, k + 1, j);
      assert Next(leaf, x, p[k], p[k + 1]);
    }
  }

  function Below(n: nat): (s: set<int>)
    ensures |s| == n && forall i :: i in s <==> 0 <= i < n
  {
    if n == 0 then {} else Below(n - 1) + {n - 1}
  }

  /** More entries than values: some entry comes twice. */
  lemma {:induction false} Pigeonhole<T>(p: seq<T>, s: set<T>) returns (i: nat, j: nat)
    requires |p| > |s| && forall k :: 0 <= k < |p| ==> p[k] in s
    ensures i < j < |p| && p[i] == p[j]
    decreases |p|
  {
    var last := |p| - 1;
    if k :| 0 <= k < last && p[k] == p[last] {
      i, j := k, last;
    } else {
      i, j := Pigeonhole(p[..last], s - {p[last]});
    }
  }

  /** Going round the circle takes any number of steps. */
  lemma {:induction false} CircleHangs(leaf: Leaves, x: string, p: seq<Spot>, i: nat, j: nat, k: nat, gas: nat)
    requires i < j < |p| && Path(leaf, x, p) && p[i] == p[j] && k < j
    ensures From(leaf, x, p[k], gas) == Hang
    decreases gas
  {
    assert Next(leaf, x, p[k], p[k + 1]);
    if gas > 0 {
      CircleHangs(leaf, x, p, i, j, if k + 1 == j then i else k + 1, gas - 1);
    }
    HangMovesBack(leaf, x, p[k], p[k + 1], gas);
  }

  lemma HangIsCircular(leaf: Leaves, x: string, stack: Option<nat>)
    requires LeavesAnswer(leaf, x) && DecodeAt(leaf, x, 0, stack, Spots(x, stack) + 1) == Hang
    ensures Circular(leaf, x, stack)
  {
    var n := Spots(x, stack) + 1;
    var p := HangMakesPath(leaf, x, AtValue(0, stack), n);
    var numbers := seq(n, k requires 0 <= k < n => Numbered(p[k], |x|));
    forall k | 0 <= k < n
      ensures numbers[k] in Below(n - 1) && 0 <= Place(p[k], |x|) < 6 * |x| && p[k].stack.Some? == stack.Some?
    {
      StackFalls(leaf, x, p, 0, k);
      SpotIsNumbered(leaf, x, p[k], p[k + 1], stack);
    }
    var i, j := Pigeonhole(numbers, Below(n - 1));
    assert numbers[i] == numbers[j];
    NumberedOnce(p[i], p[j], |x|);
    assert Circle(leaf, x, stack, p, i, j);
  }

  lemma CircularHangs(leaf: Leaves, x: string, stack: Option<nat>, gas: nat)
    requires Circular(leaf, x, stack)
    ensures DecodeAt(leaf, x, 0, stack, gas) == Hang
  {
    var p: seq<Spot>, i: nat, j: nat :| Circle(leaf, x, stack, p, i, j);
    CircleHangs(leaf, x, p, i, j, 0, gas);
    assert From(leaf, x, AtValue(0, stack), gas) == Hang;
  }

  /** Six steps for each character, at each depth of the stack, are enough to find out. */
  lemma BdecodeReturnsSoon(x: string, stack: Option<nat>)
    ensures Bdecode(x, stack, Spots(x, stack) + 1) == Hang <==> Circular(RUBY, x, stack)
  {
    if Circular(RUBY, x, stack) {
      CircularHangs(RUBY, x, stack, Spots(x, stack) + 1);
    } else if DecodeAt(RUBY, x, 0, stack, Spots(x, stack) + 1) == Hang {
      HangIsCircular(RUBY, x, stack);
    }
  }

  /** On a stack of any size `bdecode` returns, with a value or any exception, if and only if it
      does not reach a loop whose turns come back to where they were. */
  lemma BdecodeReturns(x: string, stack: nat)
    ensures (exists gas: nat :: Bdecode(x, Some(stack), gas) != Hang) <==> !TurnsForever(RUBY, x, Some(stack))
  {
    BdecodeReturnsSoon(x, Some(stack));
    if Circular(RUBY, x, Some(stack)) {
      var p: seq<Spot>, i: nat, j: nat :| Circle(RUBY, x, Some(stack), p, i, j);
      CircleIsTurns(RUBY, x, stack, p, i, j);
      forall gas: nat ensures Bdecode(x, Some(stack), gas) == Hang { CircularHangs(RUBY, x, Some(stack), gas); }
    }
  }

  /** Some stack is large enough for a value or an ordinary exception if and only if the calls and
      loops together, were the stack unlimited, never come back to where they were. */
  lemma BdecodeSettles(x: string)
    ensures (exists stack: nat, gas: nat :: Settled(Bdecode(x, Some(stack), gas))) <==> !Circular(RUBY, x, None)
  {
    if Circular(RUBY, x, None) {
      forall stack: nat, gas: nat ensures !Settled(Bdecode(x, Some(stack), gas)) {
        StackIsMonotone(RUBY, x, 0, Some(stack), None, gas);
        CircularHangs(RUBY, x, None, gas);
      }
    } else {
      EnoughRoom(x, Spots(x, None) + 1);
    }
  }

  /** Then six calls for each character are room enough, and with that the answer does not depend
      on the stack. */
  lemma EnoughRoom(x: string, stack: nat)
    requires !Circular(RUBY, x, None) && stack > Spots(x, None)
    ensures var n := Spots(x, None) + 1;
            Settled(Bdecode(x, Some(stack), n)) && Bdecode(x, Some(stack), n) == Bdecode(x, None, n)
  {
    var n := Spots(x, None) + 1;
    BdecodeReturnsSoon(x, None);
    ValueFits(RUBY, x, 0, Some(stack), n);
    StackIsMonotone(RUBY, x, 0, Some(stack), None, n);
  }

  /** A circle that is not of turns alone fills up the stack, however large. */
  lemma RunawayCallsFail(x: string, stack: nat)
    requires Circular(RUBY, x, None) && !TurnsForever(RUBY, x, Some(stack))
    ensures exists gas: nat :: Bdecode(x, Some(stack), gas) == StackError
  {
    BdecodeReturns(x, stack);
    BdecodeSettles(x);
    var gas: nat :| Bdecode(x, Some(stack), gas) != Hang;
    assert !Settled(Bdecode(x, Some(stack), gas));
  }

  /** Both kinds occur. */
  lemma BothKinds(stack: nat)
    ensures stack >= 2 ==> TurnsForever(RUBY, BACKWARD_KEY, Some(stack))
    ensures Circular(RUBY, INWARD_KEY, None) && !TurnsForever(RUBY, INWARD_KEY, Some(stack))
  {
    if stack >= 2 {
      forall gas: nat ensures Bdecode(BACKWARD_KEY, Some(stack), gas) == Hang { BackwardKeyHangs(Some(stack), gas); }
      BdecodeReturns(BACKWARD_KEY, stack);
    }
    forall room: nat, gas: nat ensures !Settled(Bdecode(INWARD_KEY, Some(room), gas)) {
      var more := gas + 2 * room + 1;
      InwardKeyFails(room, more);
      GasIsMonotone(RUBY, INWARD_KEY, 0, Some(room), gas, more);
    }
    BdecodeSettles(INWARD_KEY);
    InwardKeyFails(stack, 2 * stack + 1);
    BdecodeReturns(INWARD_KEY, stack);
  }
}
