/** The exceptions of the hyphenator, words written with their hyphens (syllable/hyphenate.py:27-30),
    and what comes back of them when a word is hyphenated (syllable/hyphenate.py:52-53, 75-81). */
module HyphenateExceptions {
  import opened Texts
  import opened HyphenatePattern

  function Lower(word: string): (r: string)
    ensures |r| == |word|
  {
    if word == "" then "" else [LowerChar(word[0])] + Lower(word[1..])
  }

  /** `ex.replace('-', '')`. */
  function Unhyphenated(ex: string): string {
    if ex == "" then ""
    else if ex[0] == '-' then Unhyphenated(ex[1..])
    else [ex[0]] + Unhyphenated(ex[1..])
  }

  function HyphenFlags(gaps: seq<string>): (r: seq<int>)
    ensures |r| == |gaps|
  {
    if gaps == [] then [] else [if gaps[0] == "-" then 1 else 0] + HyphenFlags(gaps[1..])
  }

  function ExceptionPoints(ex: string): seq<int> {
    [0] + HyphenFlags(Split(Letter, ex))
  }

  /** The exceptions dictionary of `__init__`. */
  function ExceptionsOf(exs: seq<string>): (r: map<string, seq<int>>)
    ensures forall w <- r :: |r[w]| >= 2
  {
    if exs == [] then map[]
    else
      var ex := exs[|exs| - 1];
      ExceptionsOf(exs[..|exs| - 1])[Unhyphenated(ex) := ExceptionPoints(ex)]
  }

  /** The dictionary holds the points of this exception for the word. */
  predicate Records(exceptions: map<string, seq<int>>, word: string, ex: string) {
    word in exceptions && Unhyphenated(ex) == word && exceptions[word] == ExceptionPoints(ex)
  }

  /** Of the exceptions for one word the last is recorded. */
  predicate LastFor(exs: seq<string>, i: nat, word: string) {
    i < |exs| && Unhyphenated(exs[i]) == word && forall j :: i < j < |exs| ==> Unhyphenated(exs[j]) != word
  }

  lemma {:induction false} LastExceptionCounts(exs: seq<string>, word: string)
    ensures word in ExceptionsOf(exs) <==> exists i: nat :: LastFor(exs, i, word)
    ensures forall i: nat :: LastFor(exs, i, word) ==> Records(ExceptionsOf(exs), word, exs[i])
  {
    if exs != [] {
      var front, n := exs[..|exs| - 1], |exs| - 1;
      LastExceptionCounts(front, word);
      if Unhyphenated(exs[n]) == word {
        assert LastFor(exs, n, word);
      } else {
        forall i: nat ensures LastFor(exs, i, word) <==> LastFor(front, i, word) { }
      }
    }
  }

  /** The word falls into these pieces at these points, which start two before its letters. */
  predicate PiecesFrom(word: string, points: seq<int>, pieces: seq<string>) {
    |points| >= 2 &&
    var n := if |word| <= |points| - 2 then |word| else |points| - 2;
    pieces == Cut(word, points[2..], n)
  }

  // ---- pieces joined again ----

  /** The pieces with hyphens between them. */
  function Hyphened(pieces: seq<string>): string
    requires pieces != []
  {
    if |pieces| == 1 then pieces[0] else Hyphened(pieces[..|pieces| - 1]) + "-" + pieces[|pieces| - 1]
  }

  function Mark(point: int): string {
    if point % 2 == 1 then "-" else ""
  }

  /** The letters, each followed by the hyphen that its point calls for. */
  function Spelled(word: string, pts: seq<int>): string {
    if word == "" || pts == [] then "" else [word[0]] + Mark(pts[0]) + Spelled(word[1..], pts[1..])
  }

  lemma HyphenedGrown(r: seq<string>, c: char)
    requires r != []
    ensures Hyphened(Grown(r, c)) == Hyphened(r) + [c]
  {
    var init, last := r[..|r| - 1], r[|r| - 1];
    assert Grown(r, c)[..|r| - 1] == init;
    if |r| > 1 { Reassociate(Hyphened(init) + "-", last, [c]); }
  }

  lemma HyphenedNew(r: seq<string>)
    requires r != []
    ensures Hyphened(r + [""]) == Hyphened(r) + "-"
  {
    assert (r + [""])[..|r|] == r;
  }

  lemma HyphenedPushed(r: seq<string>, c: char, point: int)
    requires r != []
    ensures Hyphened(Pushed(r, c, point)) == Hyphened(r) + [c] + Mark(point)
  {
    HyphenedGrown(r, c);
    HyphenedNew(Grown(r, c));
  }

  lemma {:induction false} SpelledPush(w: string, pts: seq<int>, c: char, point: int)
    requires |w| == |pts|
    ensures Spelled(w + [c], pts + [point]) == Spelled(w, pts) + [c] + Mark(point)
  {
    if w != "" {
      SpelledPush(w[1..], pts[1..], c, point);
      assert (w + [c])[1..] == w[1..] + [c] && (pts + [point])[1..] == pts[1..] + [point];
    }
  }

  lemma {:induction false} CutSpells(word: string, pts: seq<int>, k: nat)
    requires k <= |word| && k <= |pts|
    ensures Hyphened(Cut(word, pts, k)) == Spelled(word[..k], pts[..k])
  {
    if k > 0 {
      CutSpells(word, pts, k - 1);
      HyphenedPushed(Cut(word, pts, k - 1), word[k - 1], pts[k - 1]);
      SpelledPush(word[..k - 1], pts[..k - 1], word[k - 1], pts[k - 1]);
      PrefixGrows(word, k);
      PrefixGrows(pts, k);
    }
  }

  lemma {:induction false} SpelledPrefix(word: string, pts: seq<int>, n: nat)
    requires n == if |word| <= |pts| then |word| else |pts|
    ensures Spelled(word[..n], pts[..n]) == Spelled(word, pts)
  {
    if n > 0 {
      SpelledPrefix(word[1..], pts[1..], n - 1);
      assert word[..n][1..] == word[1..][..n - 1] && pts[..n][1..] == pts[1..][..n - 1];
    }
  }

  lemma PiecesSpell(word: string, points: seq<int>, pieces: seq<string>)
    requires PiecesFrom(word, points, pieces)
    ensures pieces != [] && Hyphened(pieces) == Spelled(word, points[2..])
  {
    var n := if |word| <= |points| - 2 then |word| else |points| - 2;
    CutSpells(word, points[2..], n);
    SpelledPrefix(word, points[2..], n);
  }

  lemma {:induction false} LowerAppend(a: string, b: string)
    ensures Lower(a + b) == Lower(a) + Lower(b)
  {
    if a == "" {
      assert a + b == b;
    } else {
      LowerAppend(a[1..], b);
      assert (a + b)[1..] == a[1..] + b;
    }
  }

  lemma LowerFirst(c: char, mark: string, rest: string)
    requires mark == "" || mark == "-"
    ensures Lower([c] + mark + rest) == [LowerChar(c)] + mark + Lower(rest)
  {
    LowerAppend([c] + mark, rest);
    LowerAppend([c], mark);
    assert Lower([c]) == [LowerChar(c)] && Lower(mark) == mark;
  }

  lemma {:induction false} LowerSpells(word: string, pts: seq<int>)
    ensures Lower(Spelled(word, pts)) == Spelled(Lower(word), pts)
  {
    if word != "" && pts != [] {
      LowerSpells(word[1..], pts[1..]);
      LowerFirst(word[0], Mark(pts[0]), Spelled(word[1..], pts[1..]));
    }
  }

  // ---- which exceptions come back ----

  predicate LetterOrHyphen(c: char) {
    c == '-' || Letter(c)
  }

  predicate NoDoubleHyphen(ex: string) {
    forall i :: 0 < i < |ex| && ex[i - 1] == '-' ==> ex[i] != '-'
  }

  /** Lower-case letters, with single hyphens after them. */
  predicate WellHyphenated(ex: string) {
    (forall i :: 0 <= i < |ex| ==> LetterOrHyphen(ex[i])) && NoDoubleHyphen(ex) && (ex != "" ==> ex[0] != '-')
  }

  function Flags(ex: string): (r: seq<int>)
    ensures r != []
  {
    HyphenFlags(Split(Letter, ex))
  }

  /** What is spelled for an exception, but for a hyphen in front. */
  function Respelled(ex: string): string {
    Spelled(Unhyphenated(ex), Flags(ex)[1..])
  }

  lemma FlagsOfLetter(ex: string)
    requires ex != "" && Letter(ex[0])
    ensures Flags(ex)[0] == 0 && Flags(ex)[1..] == Flags(ex[1..])
  {
    var gaps := Split(Letter, ex);
    assert gaps[1..] == Split(Letter, ex[1..]);
  }

  /** The first gap of a text is its beginning up to the first letter. */
  lemma FirstGap(ex: string)
    ensures ex == "" || Letter(ex[0]) ==> Split(Letter, ex)[0] == ""
    ensures ex != "" && !Letter(ex[0]) ==> Split(Letter, ex)[0] == [ex[0]] + Split(Letter, ex[1..])[0]
  {
  }

  lemma FlagsOfOther(ex: string)
    requires ex != "" && !Letter(ex[0])
    ensures Flags(ex)[1..] == Flags(ex[1..])[1..]
    ensures Flags(ex)[0] == if ex[0] == '-' && (|ex| == 1 || Letter(ex[1])) then 1 else 0
  {
    var r := Split(Letter, ex[1..]);
    var gaps := Split(Letter, ex);
    assert gaps == [[ex[0]] + r[0]] + r[1..];
    assert gaps[1..] == r[1..];
    assert Flags(ex)[1..] == HyphenFlags(r[1..]) == Flags(ex[1..])[1..];
    FirstGap(ex[1..]);
    assert gaps[0] == [ex[0]] + r[0];
    assert r[0] == "" <==> |ex| == 1 || Letter(ex[1]);
    SingleHyphen(ex[0], r[0]);
  }

  lemma SingleHyphen(c: char, s: string)
    ensures [c] + s == "-" <==> c == '-' && s == ""
  {
    assert ([c] + s)[0] == c && |[c] + s| == 1 + |s|;
  }

  lemma NoHyphenFirst(ex: string)
    ensures Respelled(ex) != "" ==> Respelled(ex)[0] != '-'
  {
    UnhyphenatedHasNone(ex);
  }

  lemma {:induction false} UnhyphenatedHasNone(ex: string)
    ensures '-' !in Unhyphenated(ex)
  {
    if ex != "" { UnhyphenatedHasNone(ex[1..]); }
  }

  lemma RespelledLetter(ex: string)
    requires ex != "" && Letter(ex[0])
    ensures Respelled(ex) == [ex[0]] + Mark(Flags(ex[1..])[0]) + Respelled(ex[1..])
  {
    FlagsOfLetter(ex);
    assert Unhyphenated(ex)[1..] == Unhyphenated(ex[1..]);
  }

  /** Of letters and hyphens, what comes back together with the hyphen in front is the text, if and
      only if no two hyphens are together. */
  lemma {:induction false} LettersRespelled(ex: string)
    requires forall i :: 0 <= i < |ex| ==> LetterOrHyphen(ex[i])
    ensures Mark(Flags(ex)[0]) + Respelled(ex) == ex <==> NoDoubleHyphen(ex)
  {
    if ex == "" {
      assert Flags("") == [0];
    } else {
      var rest := ex[1..];
      LettersRespelled(rest);
      NoDoubleInRest(ex);
      if Letter(ex[0]) { LetterRespelled(ex); } else { HyphenRespelled(ex); }
    }
  }

  lemma LetterRespelled(ex: string)
    requires ex != "" && Letter(ex[0])
    ensures Mark(Flags(ex)[0]) + Respelled(ex) == ex <==> Mark(Flags(ex[1..])[0]) + Respelled(ex[1..]) == ex[1..]
  {
    var mark, more := Mark(Flags(ex[1..])[0]), Respelled(ex[1..]);
    FlagsOfLetter(ex);
    RespelledLetter(ex);
    Reassociate([ex[0]], mark, more);
    SameFirst(ex[0], mark + more, ex);
    assert "" + Respelled(ex) == Respelled(ex);
  }

  lemma NoDoubleInRest(ex: string)
    requires ex != ""
    ensures NoDoubleHyphen(ex) <==> NoDoubleHyphen(ex[1..]) && !(|ex| > 1 && ex[0] == '-' && ex[1] == '-')
  {
    if NoDoubleHyphen(ex[1..]) && !(|ex| > 1 && ex[0] == '-' && ex[1] == '-') {
      forall i | 0 < i < |ex| && ex[i - 1] == '-' ensures ex[i] != '-' {
        if i > 1 { assert ex[1..][i - 1] == ex[i] && ex[1..][i - 2] == ex[i - 1]; }
      }
    }
    if NoDoubleHyphen(ex) {
      forall i | 0 < i < |ex[1..]| && ex[1..][i - 1] == '-' ensures ex[1..][i] != '-' {
        assert ex[i + 1 - 1] == '-';
      }
    }
  }

  lemma SameFirst(c: char, s: string, t: string)
    requires t != "" && t[0] == c
    ensures [c] + s == t <==> s == t[1..]
  {
    assert t == [c] + t[1..];
    assert ([c] + s)[1..] == s;
  }

  lemma HyphenRespelled(ex: string)
    requires ex != "" && ex[0] == '-' && forall i :: 0 <= i < |ex| ==> LetterOrHyphen(ex[i])
    requires NoDoubleHyphen(ex) <==> NoDoubleHyphen(ex[1..]) && !(|ex| > 1 && ex[1] == '-')
    requires Mark(Flags(ex[1..])[0]) + Respelled(ex[1..]) == ex[1..] <==> NoDoubleHyphen(ex[1..])
    ensures Mark(Flags(ex)[0]) + Respelled(ex) == ex <==> NoDoubleHyphen(ex)
  {
    var rest := ex[1..];
    FlagsOfOther(ex);
    assert Respelled(ex) == Respelled(rest);
    if |ex| > 1 && ex[1] == '-' {
      NoHyphenFirst(rest);
      assert Mark(Flags(ex)[0]) == "";
    } else {
      FirstFlag(rest);
      assert Mark(Flags(ex)[0]) == "-" && Mark(Flags(rest)[0]) == "";
      SameFirst('-', Respelled(rest), ex);
    }
  }

  lemma FirstFlag(ex: string)
    requires ex == "" || Letter(ex[0])
    ensures Flags(ex)[0] == 0
  {
    FirstGap(ex);
  }

  // ---- other characters ----

  function Count(ok: char -> bool, s: string): nat {
    if s == "" then 0 else (if ok(s[0]) then 1 else 0) + Count(ok, s[1..])
  }

  function Odds(pts: seq<int>): nat {
    if pts == [] then 0 else (if pts[0] % 2 == 1 then 1 else 0) + Odds(pts[1..])
  }

  lemma {:induction false} SpelledLength(word: string, pts: seq<int>)
    ensures |Spelled(word, pts)| <= |pts| + Odds(pts)
  {
    if word != "" && pts != [] { SpelledLength(word[1..], pts[1..]); }
  }

  lemma OddsSplit(pts: seq<int>)
    requires pts != []
    ensures Odds(pts) == |Mark(pts[0])| + Odds(pts[1..])
  {
  }

  /** There is a flag for each letter and one more, and no more of them are set than there are
      hyphens. */
  lemma {:induction false} FlagsCount(ex: string)
    ensures |Flags(ex)| - 1 + Odds(Flags(ex)) <= Count(LetterOrHyphen, ex)
  {
    if ex == "" {
      assert Flags("") == [0];
    } else {
      var rest := ex[1..];
      FlagsCount(rest);
      OddsSplit(Flags(ex));
      OddsSplit(Flags(rest));
      if Letter(ex[0]) { FlagsOfLetter(ex); } else { FlagsOfOther(ex); FirstGap(rest); }
    }
  }

  lemma {:induction false} CountAll(ok: char -> bool, s: string)
    ensures Count(ok, s) <= |s|
    ensures Count(ok, s) == |s| <==> forall i :: 0 <= i < |s| ==> ok(s[i])
  {
    if s != "" {
      CountAll(ok, s[1..]);
      if forall i :: 0 <= i < |s[1..]| ==> ok(s[1..][i]) {
        assert forall i :: 0 < i < |s| ==> s[i] == s[1..][i - 1];
      }
      if forall i :: 0 <= i < |s| ==> ok(s[i]) {
        assert forall i :: 0 <= i < |s[1..]| ==> s[1..][i] == s[i + 1];
      }
    }
  }

  /** An exception comes back if and only if it is well hyphenated: it is not if it has any other
      character than lower-case letters and hyphens, in which case letters are lost at the end. */
  lemma RespelledIff(ex: string)
    ensures Respelled(ex) == ex <==> WellHyphenated(ex)
  {
    CountAll(LetterOrHyphen, ex);
    if forall i :: 0 <= i < |ex| ==> LetterOrHyphen(ex[i]) {
      LettersRespelled(ex);
      NoHyphenFirst(ex);
      if ex == "" || Letter(ex[0]) { FirstFlag(ex); }
    } else {
      FlagsCount(ex);
      OddsSplit(Flags(ex));
      SpelledLength(Unhyphenated(ex), Flags(ex)[1..]);
    }
  }

  /** Hyphenating a word, in any letter case, by an exception for it: the pieces joined by hyphens are
      the exception if and only if it consists of lower-case letters with single hyphens after them. */
  lemma ExceptionComesBack(ex: string, word: string, pieces: seq<string>)
    requires Lower(word) == Unhyphenated(ex) && PiecesFrom(word, ExceptionPoints(ex), pieces)
    ensures pieces != [] && (Lower(Hyphened(pieces)) == ex <==> WellHyphenated(ex))
  {
    PiecesSpell(word, ExceptionPoints(ex), pieces);
    assert ExceptionPoints(ex)[2..] == Flags(ex)[1..];
    LowerSpells(word, Flags(ex)[1..]);
    RespelledIff(ex);
  }
}
