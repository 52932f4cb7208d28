/** The hyphenator's trie of nested dictionaries, built and searched in place
    (syllable/hyphenate.py:22-81), against the search through all substrings. */
module Hyphenate {
  import opened Options
  import opened Texts
  import opened HyphenatePattern
  import opened HyphenateExceptions

  // ---- the computation ----

  function Dotted(word: string): string {
    "." + Lower(word) + "."
  }

  /** Patterns are looked for in the word in lower case, with a dot at each end. */
  lemma DottedChars(word: string, i: nat)
    requires i < |word| + 2
    ensures |Dotted(word)| == |word| + 2
    ensures Dotted(word)[i] == if i == 0 || i == |word| + 1 then '.' else LowerChar(word[i - 1])
  {
    if 0 < i <= |word| { LowerAt(word, i - 1); }
  }

  lemma {:induction false} LowerAt(word: string, i: nat)
    requires i < |word|
    ensures Lower(word)[i] == LowerChar(word[i])
  {
    if i > 0 { LowerAt(word[1..], i - 1); }
  }

  /** The points of a word before the edges are cleared. */
  ghost predicate Scored(table: Table, work: string, points: seq<int>)
  {
    ScoredTo(table, work, points, |work|, 0)
  }

  /** The points when positions before `s` and, at `s`, patterns of at most `l` characters
      have been looked at. */
  ghost predicate ScoredTo(table: Table, work: string, points: seq<int>, s: nat, l: nat)
    requires s <= |work| && l <= |work| - s
  {
    |points| == |work| + 1 &&
    forall k :: 0 <= k < |points| ==> points[k] == Best(table, work, s, l, k)
  }

  /** The largest numbers of `points` and of `p` laid from `s` on. */
  ghost predicate Raised(points: seq<int>, s: nat, p: seq<int>, r: seq<int>) {
    |r| == |points| &&
    forall k :: 0 <= k < |r| ==> r[k] == if s <= k < s + |p| then Max(points[k], p[k - s]) else points[k]
  }

  lemma RaisedIsScored(table: Table, work: string, s: nat, l: nat, points: seq<int>, r: seq<int>)
    requires s + l < |work| && ScoredTo(table, work, points, s, l)
    requires var w := work[s..s + l + 1]; Raised(points, s, if w in table then table[w] else [], r)
    ensures ScoredTo(table, work, r, s, l + 1)
  {
  }

  function From(work: string, s: nat, l: nat): string
    requires s + l <= |work|
  {
    work[s..s + l]
  }

  lemma NextFrom(work: string, s: nat, l: nat)
    requires s + l < |work|
    ensures From(work, s, l + 1) == From(work, s, l) + [work[s + l]]
  {
  }

  ghost predicate NoneLonger(table: Table, work: string, s: nat, l: nat)
    requires s <= |work|
  {
    forall m :: l < m <= |work| - s ==> From(work, s, m) !in table
  }

  /** Once no pattern starts with the characters matched, the position is done. */
  lemma {:induction false} NothingMore(table: Table, work: string, s: nat, l: nat, points: seq<int>)
    requires s + l <= |work| && ScoredTo(table, work, points, s, l)
    requires NoneLonger(table, work, s, l)
    ensures ScoredTo(table, work, points, s, |work| - s)
    decreases |work| - s - l
  {
    if s + l < |work| {
      assert From(work, s, l + 1) !in table;
      RaisedIsScored(table, work, s, l, points, points);
      NothingMore(table, work, s, l + 1, points);
    }
  }

  /** `points[1] = points[2] = points[-2] = points[-3] = 0`. */
  function EdgesCleared(points: seq<int>): (r: seq<int>)
    requires |points| >= 6
    ensures |r| == |points|
  {
    points[1 := 0][2 := 0][|points| - 2 := 0][|points| - 3 := 0]
  }

  /** An odd number wins at the point after `n` letters of the word. */
  ghost predicate OddAfter(table: Table, word: string, n: nat)
  {
    exists v: nat :: IsMaximum(table, Dotted(word), n + 1, v) && v % 2 == 1
  }

  /** What hyphenating a word that is no exception promises. */
  ghost predicate Hyphenated(table: Table, word: string, pieces: seq<string>)
  {
    && pieces != [] && Flat(pieces) == word
    && (forall i :: 0 <= i < |pieces| && word != "" ==> pieces[i] != "")
    && (forall n: nat :: BreakAt(pieces, n) <==> |word| > 4 && 2 <= n <= |word| - 2 && OddAfter(table, word, n))
  }

  lemma OddAfterIsBest(table: Table, word: string, n: nat)
    ensures OddAfter(table, word, n) <==> Best(table, Dotted(word), |Dotted(word)|, 0, n + 1) % 2 == 1
  {
    var work, k := Dotted(word), n + 1;
    var best := Best(table, work, |work|, 0, k);
    BestIsMaximum(table, work, k);
    forall v: nat | IsMaximum(table, work, k, v) ensures v == best {
      MaximumIsUnique(table, work, k, v, best);
    }
  }

  /** Which points are odd once the edges are cleared. */
  lemma ClearedPoint(table: Table, word: string, points: seq<int>, n: nat)
    requires |word| > 4 && Scored(table, Dotted(word), points) && 1 <= n <= |word|
    ensures EdgesCleared(points)[n + 1] % 2 == 1 <==> 2 <= n <= |word| - 2 && OddAfter(table, word, n)
  {
    OddAfterIsBest(table, word, n);
  }

  /** Scoring, clearing the edges and cutting at odd points is what was promised. */
  lemma CutsArePromised(table: Table, word: string, points: seq<int>, pieces: seq<string>)
    requires |word| > 4 && Scored(table, Dotted(word), points)
    requires PiecesFrom(word, EdgesCleared(points), pieces)
    ensures Hyphenated(table, word, pieces)
  {
    var pts := EdgesCleared(points)[2..];
    CutFlat(word, pts, |word|);
    CutNonempty(word, pts, |word|);
    assert word[..|word|] == word;
    forall n: nat
      ensures BreakAt(pieces, n) <==> 2 <= n <= |word| - 2 && OddAfter(table, word, n)
    {
      CutBreaks(word, pts, |word|, n);
      if 1 <= n <= |word| { ClearedPoint(table, word, points, n); }
    }
    ClearedPoint(table, word, points, |word|);
  }

  lemma WholeWord(table: Table, word: string)
    requires |word| <= 4
    ensures Hyphenated(table, word, [word])
  {
    FlatPush([], word);
    assert [] + [word] == [word];
  }

  /** A pattern that cannot be read makes the whole list unreadable. */
  lemma {:induction false} BadPatternStays(patterns: seq<string>, n: nat)
    requires n <= |patterns| && TableOf(patterns[..n]) == None
    ensures TableOf(patterns) == None
    decreases |patterns| - n
  {
    if n < |patterns| {
      assert patterns[..n + 1][..n] == patterns[..n];
      BadPatternStays(patterns, n + 1);
    } else {
      assert patterns[..n] == patterns;
    }
  }

  // ---- the trie ----

  lemma PathsDiffer(p: string, c: char)
    ensures forall q: string, d: char :: q + [d] == p + [c] ==> q == p && d == c
    ensures p + [c] != "" && p + [c] != p
  {
    forall q: string, d: char | q + [d] == p + [c] ensures q == p && d == c {
      assert (q + [d])[..|q + [d]| - 1] == q && (p + [c])[..|p + [c]| - 1] == p;
      assert (q + [d])[|q|] == d && (p + [c])[|p|] == c;
    }
  }

  class Node {
    var kids: map<char, Node>
    var points: Option<seq<int>>
    ghost const path: string

    constructor (ghost p: string)
      ensures kids == map[] && points == None && path == p
    {
      kids, points, path := map[], None, p;
    }
  }

  class Hyphenator {
    var tree: Node
    var exceptions: map<string, seq<int>>
    /** The node at the end of each path, and the points stored so far. */
    ghost var nodes: map<string, Node>
    ghost var table: Table

    ghost predicate Valid()
      reads this, nodes.Values
    {
      Trie() && Agrees() && WellFormed(table) && forall w <- exceptions :: |exceptions[w]| >= 2
    }

    /** The dictionaries form a tree whose paths are the keys of `nodes`. */
    ghost predicate Trie()
      reads this, nodes.Values
    {
      && "" in nodes && nodes[""] == tree
      && (forall p <- nodes :: nodes[p].path == p)
      && (forall p, c :: p + [c] in nodes ==> p in nodes)
      && (forall p <- nodes, c :: c in nodes[p].kids <==> p + [c] in nodes)
      && (forall p <- nodes, c <- nodes[p].kids :: nodes[p].kids[c] == nodes[p + [c]])
    }

    ghost predicate Agrees()
      reads this, nodes.Values
    {
      && (forall p <- nodes :: nodes[p].points == if p in table then Some(table[p]) else None)
      && (forall w <- table :: w in nodes)
    }

    constructor ()
      ensures Valid() && table == map[] && exceptions == map[]
      ensures fresh(nodes.Values)
    {
      var root := new Node("");
      tree, exceptions := root, map[];
      nodes, table := map["" := root], map[];
    }

    /** `if c not in t: t[c] = {}`, then `t = t[c]`. */
    method Descend(t: Node, c: char, ghost p: string) returns (u: Node)
      requires Valid() && p in nodes && nodes[p] == t
      modifies this`nodes, t`kids
      ensures Valid() && table == old(table) && tree == old(tree)
      ensures p + [c] in nodes && nodes[p + [c]] == u
      ensures fresh(nodes.Values - old(nodes.Values))
    {
      if c !in t.kids {
        AddKid(t, c, p);
      }
      u := t.kids[c];
    }

    method AddKid(t: Node, c: char, ghost p: string)
      requires Trie() && p in nodes && nodes[p] == t && c !in t.kids
      modifies this`nodes, t`kids
      ensures Trie() && p + [c] !in old(nodes) && c in t.kids
      ensures fresh(t.kids[c]) && t.kids[c].points == None && nodes == old(nodes)[p + [c] := t.kids[c]]
    {
      var empty := new Node(p + [c]);
      PathsDiffer(p, c);
      assert forall d :: p + [c] + [d] !in nodes;
      t.kids := t.kids[c := empty];
      nodes := nodes[p + [c] := empty];
      assert forall q, d :: q + [d] in nodes <==> q + [d] in old(nodes) || (q == p && d == c);
    }

    /** `_insert_pattern`; false where it raises an error. */
    method InsertPattern(pattern: string) returns (ok: bool)
      requires Valid()
      modifies this`nodes, this`table, nodes.Values
      ensures Valid() && fresh(nodes.Values - old(nodes.Values))
      ensures ok <==> Inserted(old(table), pattern).Some?
      ensures ok ==> table == Inserted(old(table), pattern).value
      ensures !ok ==> table == old(table)
    {
      var chars, points := Chars(pattern), Points(pattern);
      if points == None { return false; }
      var t := Grow(chars);
      SplitFramesChars(pattern);
      StorePoints(t, chars, points.value);
      ok := true;
    }

    /** The walk along a pattern, making the dictionaries it needs. */
    method Grow(chars: string) returns (t: Node)
      requires Valid()
      modifies this`nodes, nodes.Values
      ensures Valid() && table == old(table) && fresh(nodes.Values - old(nodes.Values))
      ensures chars in nodes && nodes[chars] == t
    {
      t := tree;
      var i := 0;
      while i < |chars|
        invariant Valid() && i <= |chars| && table == old(table)
        invariant chars[..i] in nodes && nodes[chars[..i]] == t
        invariant fresh(nodes.Values - old(nodes.Values))
      {
        assert chars[..i + 1] == chars[..i] + [chars[i]];
        t := Descend(t, chars[i], chars[..i]);
        i := i + 1;
      }
      assert chars[..i] == chars;
    }

    /** `t[None] = points`. */
    method StorePoints(t: Node, chars: string, points: seq<int>)
      requires Valid() && chars in nodes && nodes[chars] == t && |points| <= |chars| + 1
      modifies this`table, t`points
      ensures Valid() && table == old(table)[chars := points]
    {
      t.points := Some(points);
      table := table[chars := points];
    }

    /** The loop of `__init__` over the patterns; false where it raises an error. */
    method InsertPatterns(patterns: seq<string>) returns (ok: bool)
      requires Valid() && table == map[]
      modifies this`nodes, this`table, nodes.Values
      ensures Valid()
      ensures ok <==> TableOf(patterns).Some?
      ensures ok ==> table == TableOf(patterns).value
    {
      var i := 0;
      while i < |patterns|
        invariant Valid() && i <= |patterns| && fresh(nodes.Values - old(nodes.Values))
        invariant TableOf(patterns[..i]) == Some(table)
      {
        assert patterns[..i + 1][..i] == patterns[..i];
        var inserted := InsertPattern(patterns[i]);
        if !inserted {
          BadPatternStays(patterns, i + 1);
          return false;
        }
        i := i + 1;
      }
      assert patterns[..i] == patterns;
      ok := true;
    }

    /** The loop of `__init__` over the exceptions. */
    method InsertExceptions(exs: seq<string>)
      requires Valid() && exceptions == map[]
      modifies this`exceptions
      ensures Valid() && exceptions == ExceptionsOf(exs)
    {
      for i := 0 to |exs|
        invariant exceptions == ExceptionsOf(exs[..i])
      {
        assert exs[..i + 1][..i] == exs[..i];
        exceptions := exceptions[Unhyphenated(exs[i]) := ExceptionPoints(exs[i])];
      }
      assert exs[..|exs|] == exs;
    }

    // ---- matching ----

    /** The dictionary lookup in the innermost loop of the search. */
    method Step(t: Node, c: char, ghost p: string) returns (u: Option<Node>)
      requires Valid() && p in nodes && nodes[p] == t
      ensures u.Some? <==> p + [c] in nodes
      ensures u.Some? ==> nodes[p + [c]] == u.value
    {
      u := if c in t.kids then Some(t.kids[c]) else None;
    }

    /** The trie holds no pattern beyond a missing dictionary. */
    lemma NoPath(p: string, q: string)
      requires Valid() && p !in nodes && p <= q
      ensures q !in nodes && q !in table
      decreases |q|
    {
      if |p| < |q| {
        var shorter := q[..|q| - 1];
        assert q == shorter + [q[|q| - 1]];
        NoPath(p, shorter);
      } else {
        assert p == q;
      }
    }

    /** `points[i+j] = max(points[i+j], p[j])` for all `j`. */
    method Raise(points: seq<int>, i: nat, p: seq<int>) returns (r: seq<int>)
      requires i + |p| <= |points|
      ensures Raised(points, i, p, r)
    {
      r := points;
      for j := 0 to |p|
        invariant Raised(points, i, p[..j], r)
      {
        r := r[i + j := Max(r[i + j], p[j])];
      }
      assert p[..|p|] == p;
    }

    /** All patterns that start at position `i`. */
    method MatchAt(work: string, i: nat, before: seq<int>) returns (points: seq<int>)
      requires Valid() && i <= |work| && ScoredTo(table, work, before, i, 0)
      ensures ScoredTo(table, work, points, i, |work| - i)
    {
      points := before;
      var t := tree;
      var m := 0;
      assert work[i..i + 0] == "";
      while m < |work| - i
        invariant m <= |work| - i && ScoredTo(table, work, points, i, m)
        invariant From(work, i, m) in nodes && nodes[From(work, i, m)] == t
      {
        NextFrom(work, i, m);
        var next := Step(t, work[i + m], From(work, i, m));
        if next == None {
          NoPattern(work, i, m);
          NothingMore(table, work, i, m, points);
          return;
        }
        t := next.value;
        points := RaiseHere(t, work, i, m, points);
        m := m + 1;
      }
    }

    /** The points of the pattern that ends here, if there is one. */
    method RaiseHere(t: Node, work: string, i: nat, m: nat, points: seq<int>) returns (raised: seq<int>)
      requires Valid() && i + m < |work| && ScoredTo(table, work, points, i, m)
      requires From(work, i, m + 1) in nodes && nodes[From(work, i, m + 1)] == t
      ensures ScoredTo(table, work, raised, i, m + 1)
    {
      raised := points;
      if t.points.Some? {
        raised := Raise(points, i, t.points.value);
      }
      RaisedIsScored(table, work, i, m, points, raised);
    }

    lemma NoPattern(work: string, i: nat, m: nat)
      requires Valid() && i + m < |work| && From(work, i, m + 1) !in nodes
      ensures NoneLonger(table, work, i, m)
    {
      forall n | m < n <= |work| - i ensures From(work, i, n) !in table {
        NoPath(From(work, i, m + 1), From(work, i, n));
      }
    }

    method Score(work: string) returns (points: seq<int>)
      requires Valid()
      ensures Scored(table, work, points)
    {
      points := seq(|work| + 1, _ => 0);
      for i := 0 to |work|
        invariant ScoredTo(table, work, points, i, 0)
      {
        points := MatchAt(work, i, points);
      }
    }

    /** The pieces list. */
    method BuildPieces(word: string, points: seq<int>) returns (pieces: seq<string>)
      requires |points| >= 2
      ensures PiecesFrom(word, points, pieces)
    {
      var rest := points[2..];
      pieces := [""];
      var n := if |word| <= |rest| then |word| else |rest|;
      for k := 0 to n
        invariant pieces == Cut(word, rest, k)
      {
        pieces := pieces[|pieces| - 1 := pieces[|pieces| - 1] + [word[k]]];
        if rest[k] % 2 == 1 {
          pieces := pieces + [""];
        }
      }
    }

    method HyphenateWord(word: string) returns (pieces: seq<string>)
      requires Valid()
      ensures |word| <= 4 || Lower(word) !in exceptions ==> Hyphenated(table, word, pieces)
      ensures |word| > 4 && Lower(word) in exceptions ==> PiecesFrom(word, exceptions[Lower(word)], pieces)
      ensures |word| > 4 ==> forall ex :: Records(exceptions, Lower(word), ex) ==>
                pieces != [] && (Lower(Hyphened(pieces)) == ex <==> WellHyphenated(ex))
    {
      if |word| <= 4 {
        WholeWord(table, word);
        return [word];
      }
      if Lower(word) in exceptions {
        pieces := BuildPieces(word, exceptions[Lower(word)]);
        forall ex | Records(exceptions, Lower(word), ex)
          ensures pieces != [] && (Lower(Hyphened(pieces)) == ex <==> WellHyphenated(ex))
        {
          ExceptionComesBack(ex, word, pieces);
        }
      } else {
        var points := Score(Dotted(word));
        pieces := BuildPieces(word, EdgesCleared(points));
        CutsArePromised(table, word, points, pieces);
      }
    }
  }
}
