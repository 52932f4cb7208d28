/** How a pattern such as `a1bc3d4` is read (syllable/hyphenate.py:32-36): which characters it is
    for, and which number stands at which point between them. */
module HyphenateReading {
  import opened Options
  import opened Texts
  import opened Numerals
  import opened HyphenatePattern

  predicate AllCharacters(cs: string) {
    forall i :: 0 <= i < |cs| ==> LetterOrDot(cs[i])
  }

  /** The digits and characters of a pattern in turn. */
  function Interleaved(ds: seq<string>, cs: string): string
    requires |ds| == |cs| + 1
  {
    if cs == "" then ds[0] else ds[0] + ([cs[0]] + Interleaved(ds[1..], cs[1..]))
  }

  predicate Regular(ds: seq<string>, cs: string) {
    |ds| == |cs| + 1 && AllCharacters(cs) && forall i :: 0 <= i < |ds| ==> AllDigits(ds[i])
  }

  // ---- numbers ----

  lemma {:induction false} DigitsAreValue(d: string)
    requires AllDigits(d)
    ensures Digits(d) == Some(PlaceValue(d))
  {
    if d != "" {
      var front := d[..|d| - 1];
      assert d == front + [d[|d| - 1]];
      DigitsAreValue(front);
      PlaceValuePush(front, d[|d| - 1]);
    }
  }

  lemma {:induction false} OnlyDigitsRead(d: string)
    ensures Digits(d).Some? <==> AllDigits(d)
  {
    if d != "" {
      var front := d[..|d| - 1];
      assert d == front + [d[|d| - 1]];
      OnlyDigitsRead(front);
    }
  }

  /** A number is read from nothing, or from digits, which may have a sign before them. */
  lemma NumberIsRead(d: string)
    ensures AllDigits(d) ==> Number(d) == Some(PlaceValue(d))
    ensures d != "" && (d[0] == '-' || d[0] == '+') && AllDigits(d[1..]) && d[1..] != "" ==>
              Number(d) == Some(if d[0] == '-' then 0 - PlaceValue(d[1..]) else PlaceValue(d[1..]))
    ensures Number(d).Some? ==>
              AllDigits(d) || ((d[0] == '-' || d[0] == '+') && AllDigits(d[1..]) && d[1..] != "")
  {
    if AllDigits(d) { DigitsAreValue(d); }
    OnlyDigitsRead(d);
    if d != "" {
      OnlyDigitsRead(d[1..]);
      if AllDigits(d[1..]) { DigitsAreValue(d[1..]); }
    }
  }

  /** Each gap is read where it stands, and one that is no number spoils the pattern. */
  lemma {:induction false} NumbersInPlace(ds: seq<string>)
    ensures Numbers(ds).Some? <==> forall i :: 0 <= i < |ds| ==> Number(ds[i]).Some?
    ensures Numbers(ds).Some? ==> forall i :: 0 <= i < |ds| ==> Number(ds[i]) == Some(Numbers(ds).value[i])
  {
    if ds != [] {
      NumbersInPlace(ds[1..]);
      if Number(ds[0]).Some? && forall i :: 0 <= i < |ds[1..]| ==> Number(ds[1..][i]).Some? {
        forall i | 0 <= i < |ds|
          ensures Number(ds[i]).Some? && Number(ds[i]) == Some(Numbers(ds).value[i])
        {
          if i > 0 { assert ds[i] == ds[1..][i - 1]; }
        }
      } else if Number(ds[0]).Some? {
        var i :| 0 <= i < |ds[1..]| && Number(ds[1..][i]) == None;
        assert Number(ds[i + 1]) == None;
      }
    }
  }

  // ---- characters and gaps ----

  lemma {:induction false} CharsSkipDigits(d: string, rest: string)
    requires AllDigits(d)
    ensures Chars(d + rest) == Chars(rest)
  {
    if d == "" {
      assert d + rest == rest;
    } else {
      CharsSkipDigits(d[1..], rest);
      assert (d + rest)[1..] == d[1..] + rest;
    }
  }

  lemma {:induction false} CharsOfInterleaved(ds: seq<string>, cs: string)
    requires Regular(ds, cs)
    ensures Chars(Interleaved(ds, cs)) == cs
    decreases |cs|
  {
    if cs == "" {
      CharsSkipDigits(ds[0], "");
      assert ds[0] + "" == ds[0];
    } else {
      var rest := Interleaved(ds[1..], cs[1..]);
      CharsOfInterleaved(ds[1..], cs[1..]);
      CharsSkipDigits(ds[0], [cs[0]] + rest);
      assert ([cs[0]] + rest)[1..] == rest && [cs[0]] + cs[1..] == cs;
    }
  }

  lemma {:induction false} SplitJoinsDigits(d: string, rest: string)
    requires AllDigits(d)
    ensures Split(LetterOrDot, d + rest) ==
              [d + Split(LetterOrDot, rest)[0]] + Split(LetterOrDot, rest)[1..]
  {
    var r := Split(LetterOrDot, rest);
    if d == "" {
      assert d + rest == rest && d + r[0] == r[0];
    } else {
      SplitJoinsDigits(d[1..], rest);
      assert (d + rest)[1..] == d[1..] + rest;
      FirstJoined(d[0], d[1..], r);
      assert [d[0]] + d[1..] == d;
    }
  }

  lemma FirstJoined(c: char, d: string, r: seq<string>)
    requires r != []
    ensures var q := [d + r[0]] + r[1..]; [[c] + q[0]] + q[1..] == [([c] + d) + r[0]] + r[1..]
  {
    assert [c] + (d + r[0]) == ([c] + d) + r[0];
  }

  lemma {:induction false} SplitOfInterleaved(ds: seq<string>, cs: string)
    requires Regular(ds, cs)
    ensures Split(LetterOrDot, Interleaved(ds, cs)) == ds
    decreases |cs|
  {
    if cs == "" {
      SplitJoinsDigits(ds[0], "");
      assert ds[0] + "" == ds[0] && [ds[0]] == ds;
    } else {
      var rest := Interleaved(ds[1..], cs[1..]);
      SplitOfInterleaved(ds[1..], cs[1..]);
      SplitJoinsDigits(ds[0], [cs[0]] + rest);
      assert ([cs[0]] + rest)[1..] == rest;
      assert Split(LetterOrDot, [cs[0]] + rest) == [""] + ds[1..];
      assert ds[0] + "" == ds[0] && [ds[0]] + ds[1..] == ds;
    }
  }

  /** A pattern is read as it is written: its characters are the letters and dots, and its points are
      the numbers of the digits before, between and after them, 0 where there are none. */
  lemma PatternIsRead(ds: seq<string>, cs: string)
    requires Regular(ds, cs)
    ensures Chars(Interleaved(ds, cs)) == cs
    ensures Points(Interleaved(ds, cs)).Some? && |Points(Interleaved(ds, cs)).value| == |ds|
    ensures forall i :: 0 <= i < |ds| ==> Points(Interleaved(ds, cs)).value[i] == PlaceValue(ds[i])
  {
    CharsOfInterleaved(ds, cs);
    SplitOfInterleaved(ds, cs);
    forall i | 0 <= i < |ds| ensures Number(ds[i]) == Some(PlaceValue(ds[i])) {
      NumberIsRead(ds[i]);
    }
    NumbersInPlace(ds);
  }

  /** Every text of digits, letters and dots is such a pattern. */
  lemma {:induction false} EveryPatternInterleaves(pattern: string) returns (ds: seq<string>, cs: string)
    requires forall i :: 0 <= i < |pattern| ==> Digit(pattern[i]) || LetterOrDot(pattern[i])
    ensures Regular(ds, cs) && Interleaved(ds, cs) == pattern
  {
    if pattern == "" {
      ds, cs := [""], "";
    } else {
      var c, rest := pattern[0], pattern[1..];
      var ds1, cs1 := EveryPatternInterleaves(rest);
      assert pattern == [c] + rest;
      if Digit(c) {
        ds, cs := [[c] + ds1[0]] + ds1[1..], cs1;
        DigitInFront(c, ds1, cs1);
      } else {
        ds, cs := [""] + ds1, [c] + cs1;
        assert ds[1..] == ds1 && cs[1..] == cs1 && "" + ([c] + rest) == pattern;
      }
    }
  }

  lemma DigitInFront(c: char, ds: seq<string>, cs: string)
    requires Regular(ds, cs) && Digit(c)
    ensures var ds' := [[c] + ds[0]] + ds[1..]; Regular(ds', cs) && Interleaved(ds', cs) == [c] + Interleaved(ds, cs)
  {
    var ds' := [[c] + ds[0]] + ds[1..];
    assert ds'[1..] == ds[1..];
    if cs != "" {
      Reassociate([c], ds[0], [cs[0]] + Interleaved(ds[1..], cs[1..]));
    }
  }
}
