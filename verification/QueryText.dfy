/** Escaping and splitting of query texts: the tracker client's printer
    (ypeer/peers.cpp:275-303) and the HTTP server's `Unescape` and `Split`
    (yhttp/url.cpp:9-58, 227-249, yhttp/util.cpp:6-24).  Characters stand for bytes. */
module QueryText {
  import opened Texts

  // ---- character classes ----

  predicate Alpha(c: char) {
    'a' <= c <= 'z' || 'A' <= c <= 'Z'
  }

  /** What the printer copies, except the tilde, which the parser does not know. */
  predicate Plain(c: char) {
    Alpha(c) || Digit(c) || c == '-' || c == '_' || c == '.'
  }

  predicate Unreserved(c: char) {
    || Alpha(c) || Digit(c)
    || c == '$' || c == '-' || c == '_' || c == '.' || c == '+'
    || c == '!' || c == '*' || c == '\'' || c == '(' || c == ')' || c == ','
  }

  predicate Reserved(c: char) {
    c == ';' || c == '/' || c == '?' || c == ':' || c == '@' || c == '&' || c == '='
  }

  /** `isxchar`. */
  predicate XChar(c: char) {
    Unreserved(c) || Reserved(c) || c == '%'
  }

  predicate Octets(s: string) {
    forall i :: 0 <= i < |s| ==> s[i] as int < 256
  }

  // ---- escaping ----

  function HexDigit(n: nat): (c: char)
    requires n < 16
    ensures Digit(c) || 'a' <= c <= 'f'
  {
    if n < 10 then '0' + (n as char) else 'a' + ((n - 10) as char)
  }

  function EscapeChar(c: char): string {
    if Plain(c) || c == '~' then [c]
    else ['%', HexDigit(c as int / 16 % 16), HexDigit(c as int % 16)]
  }

  function Escape(s: string): string {
    if s == "" then "" else EscapeChar(s[0]) + Escape(s[1..])
  }

  // ---- unescaping ----

  predicate HexChar(c: char) {
    Digit(c) || 'a' <= c <= 'f'
  }

  function HexToDec(c: char): (n: nat)
    requires HexChar(c)
    ensures n < 16
  {
    if Digit(c) then c as int - '0' as int else c as int - 'a' as int + 10
  }

  predicate Escaped(s: string) {
    |s| > 2 && s[0] == '%' && HexChar(LowerChar(s[1])) && HexChar(LowerChar(s[2]))
  }

  function Unescape(s: string): string {
    if s == "" then ""
    else if Escaped(s) then
      [(16 * HexToDec(LowerChar(s[1])) + HexToDec(LowerChar(s[2]))) as char] + Unescape(s[3..])
    else [s[0]] + Unescape(s[1..])
  }

  lemma HexDigitReads(n: nat)
    requires n < 16
    ensures HexChar(LowerChar(HexDigit(n))) && HexToDec(LowerChar(HexDigit(n))) == n
  {
  }

  lemma UnescapeFirst(c: char, t: string)
    requires c as int < 256
    ensures Unescape(EscapeChar(c) + t) == [c] + Unescape(t)
  {
    var s := EscapeChar(c) + t;
    if Plain(c) || c == '~' {
      assert s[1..] == t;
    } else {
      HexDigitReads(c as int / 16 % 16);
      HexDigitReads(c as int % 16);
      assert s[3..] == t;
    }
  }

  /** The parser's decoder undoes the printer's encoder on every byte string. */
  lemma {:induction false} UnescapeEscape(s: string)
    requires Octets(s)
    ensures Unescape(Escape(s)) == s
  {
    if s != "" {
      UnescapeFirst(s[0], Escape(s[1..]));
      UnescapeEscape(s[1..]);
    }
  }

  const UNRESERVED := "ABCDEFGHIJKLMNOPQRSTUVWXYZ" + "abcdefghijklmnopqrstuvwxyz" + "0123456789-._~"

  lemma InUnreserved(c: char)
    ensures c in UNRESERVED <==>
      c in "ABCDEFGHIJKLMNOPQRSTUVWXYZ" || c in "abcdefghijklmnopqrstuvwxyz" || c in "0123456789-._~"
  {
  }

  /** The characters that the printer copies are the unreserved ones of RFC 3986 section 2.3. */
  lemma CopiedCharacters(c: char)
    ensures EscapeChar(c) == [c] <==> c in UNRESERVED
  {
    InUnreserved(c);
    UpperLetters(c);
    LowerLetters(c);
    DigitsAndMarks(c);
  }

  /** The characters that the parser lets pass (yhttp/url.cpp:13-41). */
  lemma AllowedCharacters(c: char)
    ensures XChar(c) <==>
      c in "ABCDEFGHIJKLMNOPQRSTUVWXYZ" || c in "abcdefghijklmnopqrstuvwxyz" || Digit(c) || c in "$-_.+!*'(),;/?:@&=%"
  {
    UpperLetters(c);
    LowerLetters(c);
    OtherAllowed(c);
  }

  lemma OtherAllowed(c: char)
    ensures c in "$-_.+!*'(),;/?:@&=%" <==>
      || c == '$' || c == '-' || c == '_' || c == '.' || c == '+' || c == '!' || c == '*' || c == '\'' || c == '('
      || c == ')' || c == ',' || c == ';' || c == '/' || c == '?' || c == ':' || c == '@' || c == '&' || c == '=' || c == '%'
  {
    var all := "$-_.+!*'(),;/?:@&=%";
    assert all[0] == '$' && all[1] == '-' && all[2] == '_' && all[3] == '.' && all[4] == '+' && all[5] == '!';
    assert all[6] == '*' && all[7] == '\'' && all[8] == '(' && all[9] == ')' && all[10] == ',' && all[11] == ';';
    assert all[12] == '/' && all[13] == '?' && all[14] == ':' && all[15] == '@' && all[16] == '&' && all[17] == '=' && all[18] == '%';
  }

  lemma UpperLetters(c: char)
    ensures c in "ABCDEFGHIJKLMNOPQRSTUVWXYZ" <==> 'A' <= c <= 'Z'
  {
    if 'A' <= c <= 'Z' { assert "ABCDEFGHIJKLMNOPQRSTUVWXYZ"[c as int - 'A' as int] == c; }
  }

  lemma LowerLetters(c: char)
    ensures c in "abcdefghijklmnopqrstuvwxyz" <==> 'a' <= c <= 'z'
  {
    if 'a' <= c <= 'z' { assert "abcdefghijklmnopqrstuvwxyz"[c as int - 'a' as int] == c; }
  }

  lemma DigitsAndMarks(c: char)
    ensures c in "0123456789-._~" <==> Digit(c) || c == '-' || c == '.' || c == '_' || c == '~'
  {
    var all := "0123456789-._~";
    if Digit(c) { assert all[c as int - '0' as int] == c; }
    assert all[10] == '-' && all[11] == '.' && all[12] == '_' && all[13] == '~';
  }

  /** Text without a percent sign stands for itself. */
  lemma {:induction false} UnescapeCopies(a: string, t: string)
    requires '%' !in a
    ensures Unescape(a + t) == a + Unescape(t)
  {
    if a == "" {
      assert a + t == t;
    } else {
      UnescapeCopies(a[1..], t);
      assert (a + t)[1..] == a[1..] + t;
      assert [a[0]] + (a[1..] + Unescape(t)) == a + Unescape(t);
    }
  }

  /** The digit, lower or upper case, that stands for `n`. */
  predicate HexValue(c: char, n: nat)
    requires n < 16
  {
    c == "0123456789abcdef"[n] || c == "0123456789ABCDEF"[n]
  }

  lemma HexValueReads(c: char, n: nat)
    requires n < 16 && HexValue(c, n)
    ensures HexChar(LowerChar(c)) && HexToDec(LowerChar(c)) == n
  {
  }

  /** A percent sign and two hexadecimal digits in either case stand for a byte... */
  lemma UnescapePercent(c: char, d: char, h: nat, l: nat, t: string)
    requires h < 16 && l < 16 && HexValue(c, h) && HexValue(d, l)
    ensures Unescape(['%', c, d] + t) == [(16 * h + l) as char] + Unescape(t)
  {
    HexValueReads(c, h);
    HexValueReads(d, l);
    var s := ['%', c, d] + t;
    assert s[0] == '%' && s[1] == c && s[2] == d && s[3..] == t;
  }

  /** ...and any other percent sign stands for itself. */
  lemma UnescapeStrayPercent(t: string)
    requires !Escaped(['%'] + t)
    ensures Unescape(['%'] + t) == ['%'] + Unescape(t)
  {
    assert (['%'] + t)[1..] == t;
  }

  /** The printer writes lower case digits. */
  lemma HexDigitIsLower(n: nat)
    requires n < 16
    ensures HexDigit(n) == "0123456789abcdef"[n]
  {
  }

  predicate AllPlain(s: string) {
    forall c <- s :: Plain(c)
  }

  lemma {:induction false} EscapeChars(s: string)
    ensures forall c <- Escape(s) :: Plain(c) || c == '%' || (c == '~' && '~' in s)
    ensures '~' in s ==> '~' in Escape(s)
    ensures Escape(s) == "" <==> s == ""
  {
    if s != "" { EscapeChars(s[1..]); }
  }

  lemma {:induction false} EscapePlain(s: string)
    requires AllPlain(s)
    ensures Escape(s) == s
  {
    if s != "" { EscapePlain(s[1..]); }
  }

  /** Escaping anything else makes a text longer, and leaves it in need of escaping. */
  lemma {:induction false} EscapeGrows(s: string)
    ensures |Escape(s)| >= |s|
    ensures !AllPlain(s) && '~' !in s ==> |Escape(s)| > |s| && '%' in Escape(s)
  {
    if s != "" { EscapeGrows(s[1..]); }
  }

  // ---- splitting ----

  function IndexOf(m: string, c: char): (i: nat)
    ensures i <= |m| && c !in m[..i] && (i < |m| ==> m[i] == c)
  {
    if m == "" || m[0] == c then 0 else IndexOf(m[1..], c) + 1
  }

  function NonEmpty(s: string): seq<string> {
    if s == "" then [] else [s]
  }

  /** `Split`: the non-empty texts between separators. */
  function Split(m: string, c: char): seq<string>
    decreases |m|, 1
  {
    SplitOnce(m, c)
  }

  function SplitOnce(m: string, c: char): seq<string>
    decreases |m|, 0
  {
    var i := IndexOf(m, c);
    if i == |m| then NonEmpty(m) else NonEmpty(m[..i]) + Split(m[i + 1..], c)
  }

  lemma {:induction false} IndexAfter(a: string, c: char, b: string)
    requires c !in a
    ensures IndexOf(a + [c] + b, c) == |a|
  {
    if a != "" {
      assert (a + [c] + b)[1..] == a[1..] + [c] + b;
      IndexAfter(a[1..], c, b);
    }
  }

  lemma {:induction false} NoIndex(a: string, c: char)
    requires c !in a
    ensures IndexOf(a, c) == |a| && Split(a, c) == NonEmpty(a)
  {
    if a != "" { NoIndex(a[1..], c); }
  }

  lemma SplitFirst(a: string, c: char, b: string)
    requires c !in a
    ensures Split(a + [c] + b, c) == NonEmpty(a) + Split(b, c)
  {
    var m := a + [c] + b;
    IndexAfter(a, c, b);
    assert m[..|a|] == a && m[|a| + 1..] == b;
  }

  /** `m` without the separators. */
  function Without(m: string, c: char): string {
    if m == "" then "" else (if m[0] == c then "" else [m[0]]) + Without(m[1..], c)
  }

  function Concatenated(parts: seq<string>): string {
    if parts == [] then "" else parts[0] + Concatenated(parts[1..])
  }

  /** The parts are not empty, contain no separator, and have all other characters in order. */
  lemma {:induction false} SplitParts(m: string, c: char)
    ensures forall p <- Split(m, c) :: p != "" && c !in p
    ensures Concatenated(Split(m, c)) == Without(m, c)
    decreases |m|
  {
    var i := IndexOf(m, c);
    if i == |m| {
      assert m[..i] == m;
      OnePart(m, c);
    } else {
      var a, b := m[..i], m[i + 1..];
      assert m == a + [c] + b;
      SplitParts(b, c);
      FirstPart(a, c, b);
    }
  }

  lemma OnePart(m: string, c: char)
    requires c !in m
    ensures (forall p <- Split(m, c) :: p != "" && c !in p) && Concatenated(Split(m, c)) == Without(m, c)
  {
    NoIndex(m, c);
    WithoutFree(m, c, "");
    assert m + "" == m;
    ConcatenatedFirst(m, []);
    assert NonEmpty(m) + [] == NonEmpty(m);
  }

  lemma FirstPart(a: string, c: char, b: string)
    requires c !in a && forall p <- Split(b, c) :: p != "" && c !in p
    requires Concatenated(Split(b, c)) == Without(b, c)
    ensures forall p <- Split(a + [c] + b, c) :: p != "" && c !in p
    ensures Concatenated(Split(a + [c] + b, c)) == Without(a + [c] + b, c)
  {
    SplitFirst(a, c, b);
    PartOrRest(a, Split(b, c), c);
    ConcatenatedFirst(a, Split(b, c));
    WithoutSeparator(a, c, b);
  }

  lemma PartOrRest(a: string, parts: seq<string>, c: char)
    requires c !in a && forall p <- parts :: p != "" && c !in p
    ensures forall p <- NonEmpty(a) + parts :: p != "" && c !in p
  {
  }

  lemma WithoutSeparator(a: string, c: char, b: string)
    requires c !in a
    ensures Without(a + [c] + b, c) == a + Without(b, c)
  {
    WithoutFree(a, c, [c] + b);
    assert a + [c] + b == a + ([c] + b) && ([c] + b)[1..] == b;
  }

  lemma ConcatenatedFirst(a: string, rest: seq<string>)
    ensures Concatenated(NonEmpty(a) + rest) == a + Concatenated(rest)
  {
    if a == "" {
      assert NonEmpty(a) + rest == rest;
    } else {
      assert (NonEmpty(a) + rest)[1..] == rest;
    }
  }

  lemma {:induction false} WithoutFree(a: string, c: char, t: string)
    requires c !in a
    ensures Without(a + t, c) == a + Without(t, c)
  {
    if a == "" {
      assert a + t == t;
    } else {
      WithoutFree(a[1..], c, t);
      assert (a + t)[1..] == a[1..] + t;
      assert [a[0]] + (a[1..] + Without(t, c)) == a + Without(t, c);
    }
  }

  // ---- the loops ----

  /** `EscapeAndAppend`. */
  method EscapeAndAppend(value: string, message: string) returns (r: string)
    ensures r == message + Escape(value)
  {
    r := message;
    for i := 0 to |value|
      invariant r + Escape(value[i..]) == message + Escape(value)
    {
      assert value[i..][1..] == value[i + 1..];
      assert r + (EscapeChar(value[i]) + Escape(value[i + 1..])) == r + EscapeChar(value[i]) + Escape(value[i + 1..]);
      r := r + EscapeChar(value[i]);
    }
    assert value[|value|..] == "";
  }

  method RunUnescape(str: string) returns (result: string)
    ensures result == Unescape(str)
  {
    result := "";
    var cur := 0;
    while cur < |str|
      invariant cur <= |str| && result + Unescape(str[cur..]) == Unescape(str)
    {
      var s := str[cur..];
      if Escaped(s) {
        var value := (16 * HexToDec(LowerChar(s[1])) + HexToDec(LowerChar(s[2]))) as char;
        assert s[3..] == str[cur + 3..];
        Reassociate(result, [value], Unescape(str[cur + 3..]));
        result := result + [value];
        cur := cur + 3;
      } else {
        assert s[1..] == str[cur + 1..];
        Reassociate(result, [s[0]], Unescape(str[cur + 1..]));
        result := result + [s[0]];
        cur := cur + 1;
      }
    }
    assert str[cur..] == "";
  }

  method RunSplit(message: string, c: char) returns (parts: seq<string>)
    ensures parts == Split(message, c)
  {
    parts := [];
    var last, cur := 0, 0;
    assert message[0..] == message;
    while cur < |message|
      invariant last <= cur <= |message| && Free(message, c, last, cur)
      invariant parts + Split(message[last..], c) == Split(message, c)
    {
      if message[cur] == c {
        parts := PushPart(message, c, last, cur, parts);
        last := cur + 1;
      }
      cur := cur + 1;
    }
    LastPart(message, c, last);
    parts := parts + NonEmpty(message[last..]);
  }

  /** `if ((cur - last) != 0) parts->push_back(...)`. */
  method PushPart(message: string, c: char, last: nat, cur: nat, parts: seq<string>) returns (r: seq<string>)
    requires last <= cur < |message| && message[cur] == c && Free(message, c, last, cur)
    ensures r + Split(message[cur + 1..], c) == parts + Split(message[last..], c)
  {
    PartEnds(message, c, last, cur);
    Reassociate(parts, NonEmpty(message[last..cur]), Split(message[cur + 1..], c));
    r := parts + NonEmpty(message[last..cur]);
  }

  predicate Free(m: string, c: char, last: nat, cur: nat)
    requires last <= cur <= |m|
  {
    forall k :: last <= k < cur ==> m[k] != c
  }

  lemma LastPart(m: string, c: char, last: nat)
    requires last <= |m| && Free(m, c, last, |m|)
    ensures Split(m[last..], c) == NonEmpty(m[last..])
  {
    NoIndex(m[last..], c);
  }

  lemma PartEnds(m: string, c: char, last: nat, cur: nat)
    requires last <= cur < |m| && m[cur] == c && Free(m, c, last, cur)
    ensures Split(m[last..], c) == NonEmpty(m[last..cur]) + Split(m[cur + 1..], c)
  {
    assert m[last..] == m[last..cur] + [c] + m[cur + 1..];
    SplitFirst(m[last..cur], c, m[cur + 1..]);
  }
}
