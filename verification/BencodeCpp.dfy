/** The pointer-walking C++ decoder (ypeer/bencode.cpp:32-160), on every NUL-terminated
    text, and its agreement with the Ruby printer. */
module BencodeCpp {
  import opened Options
  import opened Texts
  import opened Bencode

  const MAX_LENGTH := 100 * 1024
  const LONG_MAX := 0x7fff_ffff_ffff_ffff
  const LONG_MIN := -0x8000_0000_0000_0000

  /** `be_node`; a text is `None` where the code stores a null `be_str`. */
  datatype Node =
    | Number(i: int)
    | Text(s: Option<string>)
    | Items(items: seq<Node>)
    | Table(entries: seq<Entry>)

  datatype Entry = Entry(key: string, val: Node)

  /** What a call does with the cursor: a node and the new position, a null node, or an
      access outside the text or through a null pointer. */
  datatype Outcome = Done(node: Node, pos: nat) | Null | Wild

  datatype Field = Field(text: string, pos: nat) | NoField(pos: nat) | WildField

  /** The character under the cursor: the text ends with a NUL. */
  function At(x: string, p: nat): char {
    if p < |x| then x[p] else '\0'
  }

  function SkipSpaces(x: string, p: nat): (q: nat)
    ensures p <= q && (p <= |x| ==> q <= |x|)
    decreases |x| - p
  {
    if p < |x| && Space(x[p]) then SkipSpaces(x, p + 1) else p
  }

  /** The digits from `p` on: the number they make, and their end. */
  function DigitRun(x: string, p: nat, acc: nat): (r: (nat, nat))
    ensures p <= r.1 && (p <= |x| ==> r.1 <= |x|)
    decreases |x| - p
  {
    if p < |x| && Digit(x[p]) then DigitRun(x, p + 1, 10 * acc + DigitValue(x[p])) else (acc, p)
  }

  function Clamp(i: int): int {
    if i > LONG_MAX then LONG_MAX else if i < LONG_MIN then LONG_MIN else i
  }

  /** `_be_decode_int`, that is `strtoll` in base ten; without digits the cursor stays. */
  function DecodeInt(x: string, p: nat): (r: (int, nat))
    ensures p <= r.1 && (p <= |x| ==> r.1 <= |x|)
    ensures p < |x| && Digit(x[p]) ==> p < r.1
  {
    var q := SkipSpaces(x, p);
    var signed := At(x, q) == '-' || At(x, q) == '+';
    var start := if signed then q + 1 else q;
    if !Digit(At(x, start)) then (0, p)
    else
      var run := DigitRun(x, start, 0);
      (Clamp(if At(x, q) == '-' then 0 - run.0 else run.0), run.1)
  }

  /** `_be_decode_str`. */
  function DecodeStr(x: string, p: nat): (r: Field)
    ensures r.Field? ==> p < r.pos <= |x|
    ensures r.NoField? ==> p <= r.pos && (p <= |x| ==> r.pos <= |x|)
    ensures r.NoField? && p < |x| && Digit(x[p]) ==> p < r.pos
  {
    var n := DecodeInt(x, p);
    if 0 <= n.0 <= MAX_LENGTH && At(x, n.1) == ':' then
      if n.1 + 1 + n.0 <= |x| then Field(x[n.1 + 1..n.1 + 1 + n.0], n.1 + 1 + n.0) else WildField
    else NoField(n.1)
  }

  /** `be_free` follows the null text of a string that could not be read. */
  predicate Freeable(node: Node) {
    match node
    case Number(_) => true
    case Text(s) => s.Some?
    case Items(items) => forall n <- items :: Freeable(n)
    case Table(entries) => forall e <- entries :: Freeable(e.val)
  }

  function Freed(node: Node): Outcome {
    if Freeable(node) then Null else Wild
  }

  /** `_be_decode`. */
  function Decode(x: string, p: nat): (r: Outcome)
    requires p <= |x|
    ensures r.Done? ==> p < r.pos <= |x|
    decreases |x| - p, 1
  {
    var c := At(x, p);
    if p == |x| then Null
    else if c == 'l' then ItemsFrom(x, p + 1, [])
    else if c == 'd' then TableFrom(x, p + 1, [])
    else if c == 'i' then Numeral(x, p + 1)
    else if Digit(c) then Stored(DecodeStr(x, p))
    else Null
  }

  function Numeral(x: string, p: nat): (r: Outcome)
    requires p <= |x|
    ensures r.Done? ==> p < r.pos <= |x|
  {
    var n := DecodeInt(x, p);
    if At(x, n.1) == 'e' then Done(Number(n.0), n.1 + 1) else Null
  }

  function Stored(f: Field): Outcome {
    match f
    case Field(s, pos) => Done(Text(Some(s)), pos)
    case NoField(pos) => Done(Text(None), pos)
    case WildField => Wild
  }

  function ItemsFrom(x: string, p: nat, l: seq<Node>): (r: Outcome)
    requires p <= |x|
    ensures r.Done? ==> p < r.pos <= |x|
    decreases |x| - p, 2
  {
    if At(x, p) == 'e' then Done(Items(l), p + 1)
    else
      var d := Decode(x, p);
      if d.Done? then ItemsFrom(x, d.pos, l + [d.node])
      else if d.Null? then Freed(Items(l))
      else Wild
  }

  function TableFrom(x: string, p: nat, l: seq<Entry>): (r: Outcome)
    requires p <= |x|
    ensures r.Done? ==> p < r.pos <= |x|
    decreases |x| - p, 2
  {
    if At(x, p) == 'e' then Done(Table(l), p + 1)
    else
      var key := DecodeStr(x, p);
      if key.NoField? then Freed(Table(l))
      else if key.WildField? then Wild
      else
        var d := Decode(x, key.pos);
        if d.Done? then TableFrom(x, d.pos, l + [Entry(key.text, d.node)])
        else if d.Null? then Freed(Table(l))
        else Wild
  }

  // ---- the loops ----

  method DecodeNode(x: string, p: nat) returns (r: Outcome)
    requires p <= |x|
    ensures r == Decode(x, p)
    decreases |x| - p, 1
  {
    if p == |x| { return Null; }
    match x[p] {
      case 'l' => r := DecodeItems(x, p + 1);
      case 'd' => r := DecodeTable(x, p + 1);
      case 'i' => r := Numeral(x, p + 1);
      case c => r := if Digit(c) then Stored(DecodeStr(x, p)) else Null;
    }
  }

  method DecodeItems(x: string, p: nat) returns (r: Outcome)
    requires p <= |x|
    ensures r == ItemsFrom(x, p, [])
    decreases |x| - p, 2
  {
    var l, data := [], p;
    while At(x, data) != 'e'
      invariant p <= data <= |x| && ItemsFrom(x, p, []) == ItemsFrom(x, data, l)
      decreases |x| - data
    {
      var d := DecodeNode(x, data);
      if d.Wild? { return Wild; }
      if d.Null? { return Freed(Items(l)); }
      l, data := l + [d.node], d.pos;
    }
    r := Done(Items(l), data + 1);
  }

  method DecodeTable(x: string, p: nat) returns (r: Outcome)
    requires p <= |x|
    ensures r == TableFrom(x, p, [])
    decreases |x| - p, 2
  {
    var l, data := [], p;
    while At(x, data) != 'e'
      invariant p <= data <= |x| && TableFrom(x, p, []) == TableFrom(x, data, l)
      decreases |x| - data
    {
      var key := DecodeStr(x, data);
      if key.WildField? { return Wild; }
      if key.NoField? { return Freed(Table(l)); }
      var d := DecodeNode(x, key.pos);
      if d.Wild? { return Wild; }
      if d.Null? { return Freed(Table(l)); }
      l, data := l + [Entry(key.text, d.node)], d.pos;
    }
    r := Done(Table(l), data + 1);
  }
}
