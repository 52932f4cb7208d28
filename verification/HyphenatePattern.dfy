/** What the hyphenator computes (syllable/hyphenate.py:22-81), without its trie: patterns
    as texts, matching as a search through all substrings, pieces as cuts in a word. */
module HyphenatePattern {
  import opened Options
  import opened Texts

  // ---- patterns ----

  predicate Letter(c: char) {
    'a' <= c <= 'z'
  }

  predicate LetterOrDot(c: char) {
    c == '.' || Letter(c)
  }

  /** The pattern without its digits. */
  function Chars(pattern: string): string {
    if pattern == "" then ""
    else if Digit(pattern[0]) then Chars(pattern[1..])
    else [pattern[0]] + Chars(pattern[1..])
  }

  /** `re.split` at single characters. */
  function Split(at: char -> bool, s: string): (r: seq<string>)
    ensures r != []
  {
    if s == "" then [""]
    else
      var r := Split(at, s[1..]);
      if at(s[0]) then [""] + r else [[s[0]] + r[0]] + r[1..]
  }

  function Digits(d: string): Option<nat> {
    if d == "" then Some(0)
    else
      var c := d[|d| - 1];
      var rest := Digits(d[..|d| - 1]);
      if rest == None || !Digit(c) then None else Some(10 * rest.value + (c as int - '0' as int))
  }

  /** `int(d or 0)`, or nothing where `int` raises an error: a sign may stand before digits. */
  function Number(d: string): Option<int> {
    var signed := d != "" && (d[0] == '-' || d[0] == '+');
    var digits := if signed then d[1..] else d;
    if signed && digits == "" then None
    else if Digits(digits) == None then None
    else Some(if signed && d[0] == '-' then 0 - Digits(digits).value else Digits(digits).value)
  }

  function Numbers(ds: seq<string>): (r: Option<seq<int>>)
    ensures r.Some? ==> |r.value| == |ds|
  {
    if ds == [] then Some([])
    else
      var first, rest := Number(ds[0]), Numbers(ds[1..]);
      if first == None || rest == None then None else Some([first.value] + rest.value)
  }

  function Points(pattern: string): Option<seq<int>> {
    Numbers(Split(LetterOrDot, pattern))
  }

  /** There is at most one point on each side of every character. */
  lemma {:induction false} SplitFramesChars(pattern: string)
    ensures |Split(LetterOrDot, pattern)| <= |Chars(pattern)| + 1
  {
    if pattern != "" { SplitFramesChars(pattern[1..]); }
  }

  /** What a trie of patterns stands for: the points of each character string. */
  type Table = map<string, seq<int>>

  function Inserted(table: Table, pattern: string): Option<Table> {
    if Points(pattern) == None then None else Some(table[Chars(pattern) := Points(pattern).value])
  }

  /** The table of a pattern list: of two patterns for the same characters the last one stays. */
  function TableOf(patterns: seq<string>): Option<Table> {
    if patterns == [] then Some(map[])
    else
      var before := TableOf(patterns[..|patterns| - 1]);
      if before == None then None else Inserted(before.value, patterns[|patterns| - 1])
  }

  /** Every pattern that no later one repeats is in the table with its points. */
  lemma {:induction false} LastPatternWins(patterns: seq<string>, i: nat)
    requires i < |patterns| && TableOf(patterns).Some?
    requires forall j :: i < j < |patterns| ==> Chars(patterns[j]) != Chars(patterns[i])
    ensures
      var table, w := TableOf(patterns).value, Chars(patterns[i]);
      w in table && Some(table[w]) == Points(patterns[i])
    decreases |patterns|
  {
    var n := |patterns| - 1;
    if i < n { LastPatternWins(patterns[..n], i); }
  }

  /** The table holds nothing else. */
  lemma {:induction false} TableHasOnlyPatterns(patterns: seq<string>, w: string)
    requires TableOf(patterns).Some? && w in TableOf(patterns).value
    ensures exists i :: 0 <= i < |patterns| && Chars(patterns[i]) == w
    decreases |patterns|
  {
    var n := |patterns| - 1;
    if Chars(patterns[n]) != w {
      TableHasOnlyPatterns(patterns[..n], w);
      var i :| 0 <= i < n && Chars(patterns[..n][i]) == w;
      assert Chars(patterns[i]) == w;
    }
  }

  predicate WellFormed(table: Table) {
    forall w :: w in table ==> |table[w]| <= |w| + 1
  }

  // ---- matching ----

  /** The `l` characters from `s` on are a pattern that has a say at point `k`. */
  predicate Hit(table: Table, work: string, s: nat, l: nat, k: nat) {
    1 <= l && s + l <= |work| && work[s..s + l] in table && s <= k < s + |table[work[s..s + l]]|
  }

  /** What that pattern says there, 0 if there is none. */
  function Say(table: Table, work: string, s: nat, l: nat, k: nat): int
  {
    if Hit(table, work, s, l, k) then table[work[s..s + l]][k - s] else 0
  }

  function Max(a: int, b: int): int {
    if a >= b then a else b
  }

  /** The largest number said at `k` from positions before `s`, and from `s` by patterns of at
      most `l` characters. */
  function Best(table: Table, work: string, s: nat, l: nat, k: nat): (r: int)
    requires s <= |work| && l <= |work| - s
    ensures r >= 0
    decreases s, l
  {
    if l > 0 then Max(Best(table, work, s, l - 1, k), Say(table, work, s, l, k))
    else if s > 0 then Best(table, work, s - 1, |work| - (s - 1), k)
    else 0
  }

  /** `v` is the maximum over all patterns at all positions. */
  ghost predicate IsMaximum(table: Table, work: string, k: nat, v: nat) {
    && (forall s: nat, l: nat :: Hit(table, work, s, l, k) ==> Say(table, work, s, l, k) <= v)
    && (v == 0 || exists s: nat, l: nat :: Hit(table, work, s, l, k) && Say(table, work, s, l, k) == v)
  }

  lemma {:induction false} BestBounds(table: Table, work: string, s: nat, l: nat, k: nat, s': nat, l': nat)
    requires s <= |work| && l <= |work| - s
    requires Hit(table, work, s', l', k) && (s' < s || (s' == s && l' <= l))
    ensures Say(table, work, s', l', k) <= Best(table, work, s, l, k)
    decreases s, l
  {
    if l > 0 {
      if !(s' == s && l' == l) { BestBounds(table, work, s, l - 1, k, s', l'); }
    } else {
      BestBounds(table, work, s - 1, |work| - (s - 1), k, s', l');
    }
  }

  lemma {:induction false} BestReached(table: Table, work: string, s: nat, l: nat, k: nat)
    requires s <= |work| && l <= |work| - s
    ensures Best(table, work, s, l, k) == 0 ||
            exists s': nat, l': nat :: Hit(table, work, s', l', k) && Say(table, work, s', l', k) == Best(table, work, s, l, k)
    decreases s, l
  {
    if l > 0 {
      BestReached(table, work, s, l - 1, k);
      if Say(table, work, s, l, k) > Best(table, work, s, l - 1, k) {
        assert Hit(table, work, s, l, k);
      }
    } else if s > 0 {
      BestReached(table, work, s - 1, |work| - (s - 1), k);
    }
  }

  lemma BestIsMaximum(table: Table, work: string, k: nat)
    ensures IsMaximum(table, work, k, Best(table, work, |work|, 0, k))
  {
    forall s: nat, l: nat | Hit(table, work, s, l, k)
      ensures Say(table, work, s, l, k) <= Best(table, work, |work|, 0, k)
    {
      BestBounds(table, work, |work|, 0, k, s, l);
    }
    BestReached(table, work, |work|, 0, k);
  }

  lemma MaximumIsUnique(table: Table, work: string, k: nat, v: nat, u: nat)
    requires IsMaximum(table, work, k, v) && IsMaximum(table, work, k, u)
    ensures v == u
  {
  }

  // ---- pieces ----

  /** The pieces after `k` letters: a new one starts after each letter whose point is odd. */
  function Cut(word: string, pts: seq<int>, k: nat): (r: seq<string>)
    requires k <= |word| && k <= |pts|
    ensures r != []
  {
    if k == 0 then [""]
    else
      Pushed(Cut(word, pts, k - 1), word[k - 1], pts[k - 1])
  }

  function Flat(pieces: seq<string>): string {
    if pieces == [] then "" else Flat(pieces[..|pieces| - 1]) + pieces[|pieces| - 1]
  }

  /** Some of the pieces, from the first on, make up the first `n` letters. */
  ghost predicate BreakAt(pieces: seq<string>, n: nat) {
    exists i :: 0 < i < |pieces| && |Flat(pieces[..i])| == n
  }

  lemma FlatPush(pieces: seq<string>, s: string)
    ensures Flat(pieces + [s]) == Flat(pieces) + s
  {
    assert (pieces + [s])[..|pieces|] == pieces;
  }

  lemma FlatPushNothing(pieces: seq<string>)
    ensures Flat(pieces + [""]) == Flat(pieces)
  {
    FlatPush(pieces, "");
    assert Flat(pieces) + "" == Flat(pieces);
  }

  /** The pieces with one more letter in the last one. */
  function Grown(r: seq<string>, c: char): seq<string>
    requires r != []
  {
    r[..|r| - 1] + [r[|r| - 1] + [c]]
  }

  lemma FlatGrown(r: seq<string>, c: char)
    requires r != []
    ensures Flat(Grown(r, c)) == Flat(r) + [c]
  {
    var init, last := r[..|r| - 1], r[|r| - 1];
    FlatPush(init, last + [c]);
    assert Flat(init) + (last + [c]) == Flat(init) + last + [c];
  }

  function Pushed(r: seq<string>, c: char, point: int): seq<string>
    requires r != []
  {
    if point % 2 == 1 then Grown(r, c) + [""] else Grown(r, c)
  }

  lemma FlatPushed(r: seq<string>, c: char, point: int)
    requires r != []
    ensures Flat(Pushed(r, c, point)) == Flat(r) + [c]
  {
    FlatGrown(r, c);
    FlatPushNothing(Grown(r, c));
  }

  lemma {:induction false} CutFlat(word: string, pts: seq<int>, k: nat)
    requires k <= |word| && k <= |pts|
    ensures Flat(Cut(word, pts, k)) == word[..k]
  {
    if k == 0 {
      FlatOfNothing();
    } else {
      CutFlat(word, pts, k - 1);
      FlatPushed(Cut(word, pts, k - 1), word[k - 1], pts[k - 1]);
      PrefixGrows(word, k);
    }
  }

  lemma PrefixGrows<T>(s: seq<T>, k: nat)
    requires 0 < k <= |s|
    ensures s[..k] == s[..k - 1] + [s[k - 1]]
  {
  }

  lemma FlatOfNothing()
    ensures Flat([""]) == ""
  {
    FlatPushNothing([]);
    assert [] + [""] == [""];
  }

  lemma {:induction false} CutNonempty(word: string, pts: seq<int>, k: nat)
    requires k <= |word| && k <= |pts|
    ensures
      var r := Cut(word, pts, k);
      && (forall i :: 0 <= i < |r| - 1 ==> r[i] != "")
      && (r[|r| - 1] == "" <==> k == 0 || pts[k - 1] % 2 == 1)
  {
    if k > 0 {
      CutNonempty(word, pts, k - 1);
      PushedNonempty(Cut(word, pts, k - 1), word[k - 1], pts[k - 1]);
    }
  }

  lemma PushedNonempty(r: seq<string>, c: char, point: int)
    requires r != [] && forall i :: 0 <= i < |r| - 1 ==> r[i] != ""
    ensures
      var q := Pushed(r, c, point);
      && (forall i :: 0 <= i < |q| - 1 ==> q[i] != "")
      && (q[|q| - 1] == "" <==> point % 2 == 1)
  {
  }

  lemma GrownBreaks(r: seq<string>, c: char, n: nat)
    requires r != []
    ensures BreakAt(Grown(r, c), n) <==> BreakAt(r, n)
  {
    var g := Grown(r, c);
    forall i | 0 < i < |r| ensures g[..i] == r[..i] { }
    if BreakAt(r, n) {
      var i :| 0 < i < |r| && |Flat(r[..i])| == n;
      assert |Flat(g[..i])| == n;
    }
    if BreakAt(g, n) {
      var i :| 0 < i < |g| && |Flat(g[..i])| == n;
      assert |Flat(r[..i])| == n;
    }
  }

  lemma PushBreaks(r: seq<string>, n: nat)
    requires r != []
    ensures BreakAt(r + [""], n) <==> BreakAt(r, n) || n == |Flat(r)|
  {
    var g := r + [""];
    forall i | 0 < i <= |r| ensures g[..i] == r[..i] { }
    assert r[..|r|] == r;
    if BreakAt(r, n) {
      var i :| 0 < i < |r| && |Flat(r[..i])| == n;
      assert |Flat(g[..i])| == n;
    }
    if n == |Flat(r)| { assert |Flat(g[..|r|])| == n; }
    if BreakAt(g, n) {
      var i :| 0 < i < |g| && |Flat(g[..i])| == n;
      assert i < |r| ==> |Flat(r[..i])| == n;
    }
  }

  lemma GrownLength(word: string, pts: seq<int>, k: nat)
    requires 0 < k <= |word| && k <= |pts|
    ensures |Flat(Grown(Cut(word, pts, k - 1), word[k - 1]))| == k
  {
    CutFlat(word, pts, k - 1);
    FlatGrown(Cut(word, pts, k - 1), word[k - 1]);
  }

  /** The word is cut exactly after the letters whose point is odd. */
  lemma {:induction false} CutBreaks(word: string, pts: seq<int>, k: nat, n: nat)
    requires k <= |word| && k <= |pts|
    ensures BreakAt(Cut(word, pts, k), n) <==> 1 <= n <= k && pts[n - 1] % 2 == 1
  {
    if k > 0 {
      var r, c := Cut(word, pts, k - 1), word[k - 1];
      var g := Grown(r, c);
      CutBreaks(word, pts, k - 1, n);
      GrownBreaks(r, c, n);
      GrownLength(word, pts, k);
      if pts[k - 1] % 2 == 1 {
        PushBreaks(g, n);
        assert Cut(word, pts, k) == g + [""];
      } else {
        assert Cut(word, pts, k) == g;
      }
    }
  }
}
