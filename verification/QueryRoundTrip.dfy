/** The tracker client's `BuildQuery` (ypeer/peers.cpp:275-289) and the HTTP server's
    `ConsumePath` (yhttp/url.cpp:171-207): what comes back, and exactly when it is what was
    sent. */
module QueryRoundTrip {
  import opened KeyOrder
  import opened QueryText

  type Params = map<string, string>

  // ---- the printer ----

  function Pair(params: Params, k: string): string
    requires k in params
  {
    Escape(k) + ['='] + Escape(params[k])
  }

  /** The entries under `ks`, each but the first of all after an ampersand. */
  function Body(params: Params, ks: seq<string>, first: bool): string
    requires forall k <- ks :: k in params
  {
    if ks == [] then ""
    else (if first then "" else "&") + Pair(params, ks[0]) + Body(params, ks[1..], false)
  }

  function Query(params: Params): string {
    Body(params, SortedKeys(params.Keys), true)
  }

  method BuildQuery(params: Params) returns (message: string)
    ensures message == "?" + Query(params)
  {
    var keys := SortedKeys(params.Keys);
    message := "?";
    assert keys[0..] == keys;
    for i := 0 to |keys|
      invariant message + Body(params, keys[i..], i == 0) == "?" + Query(params)
    {
      assert keys[i..][1..] == keys[i + 1..];
      message := AppendPair(params, keys, i, message);
    }
    assert message + "" == message;
  }

  method AppendPair(params: Params, keys: seq<string>, i: nat, message: string) returns (r: string)
    requires i < |keys| && forall k <- keys :: k in params
    ensures r + Body(params, keys[i + 1..], false) == message + Body(params, keys[i..], i == 0)
  {
    BodyUnfolds(params, keys, i, message);
    r := if i != 0 then message + "&" else message + "";
    r := AppendEntry(params, keys[i], r);
  }

  lemma BodyUnfolds(params: Params, keys: seq<string>, i: nat, m: string)
    requires i < |keys| && forall k <- keys :: k in params
    ensures m + Body(params, keys[i..], i == 0) ==
      m + (if i != 0 then "&" else "") + Pair(params, keys[i]) + Body(params, keys[i + 1..], false)
  {
    assert keys[i..][1..] == keys[i + 1..];
    var sep, pair, rest := if i == 0 then "" else "&", Pair(params, keys[i]), Body(params, keys[i + 1..], false);
    assert Body(params, keys[i..], i == 0) == sep + pair + rest;
    assert m + (sep + pair + rest) == m + sep + pair + rest;
  }

  method AppendEntry(params: Params, k: string, message: string) returns (r: string)
    requires k in params
    ensures r == message + Pair(params, k)
  {
    r := EscapeAndAppend(k, message);
    r := r + ['='];
    r := EscapeAndAppend(params[k], r);
    JoinPair(message, Escape(k), Escape(params[k]));
  }

  lemma JoinPair(m: string, a: string, b: string)
    ensures m + a + ['='] + b == m + (a + ['='] + b)
  {
  }

  // ---- the parser ----

  /** What `ConsumePath` leaves in its arguments. */
  datatype Consumed = Consumed(ok: bool, path: string, query: string, params: Params)

  function StripSlashes(url: string): string {
    if url != "" && url[0] == '/' then StripSlashes(url[1..]) else url
  }

  /** All slashes in front go, and nothing else. */
  lemma {:induction false} SlashesStripped(url: string) returns (n: nat)
    ensures n <= |url| && StripSlashes(url) == url[n..]
    ensures (forall i :: 0 <= i < n ==> url[i] == '/') && (n < |url| ==> url[n] != '/')
  {
    n := 0;
    if url != "" && url[0] == '/' {
      var m := SlashesStripped(url[1..]);
      n := m + 1;
    }
  }

  predicate XChars(s: string) {
    forall c <- s :: XChar(c)
  }

  /** The loop over the pairs, up to the first bad one. */
  function TakePairs(pairs: seq<string>, params: Params): (bool, Params) {
    if pairs == [] then (true, params)
    else
      var pair := Split(pairs[0], '=');
      if (|pair| != 1 && |pair| != 2) || pair[0] == "" then (false, params)
      else TakePairs(pairs[1..], params[pair[0] := if |pair| == 1 then "" else Unescape(pair[1])])
  }

  function ConsumePath(url: string, params: Params): Consumed {
    ConsumeStripped(StripSlashes(url), params)
  }

  function ConsumeStripped(u: string, params: Params): Consumed {
    if !XChars(u) then Consumed(false, "", "", params)
    else
      var i := IndexOf(u, '?');
      var query := if i < |u| then u[i + 1..] else "";
      var taken := TakePairs(Split(query, '&'), params);
      Consumed(taken.0, u[..i], query, taken.1)
  }

  method RunConsumePath(url: string, params: Params) returns (r: Consumed)
    ensures r == ConsumePath(url, params)
  {
    var u := url;
    while u != "" && u[0] == '/'
      invariant StripSlashes(u) == StripSlashes(url)
      decreases |u|
    {
      u := u[1..];
    }
    for i := 0 to |u|
      invariant forall j :: 0 <= j < i ==> XChar(u[j])
    {
      if !XChar(u[i]) { return Consumed(false, "", "", params); }
    }
    var pos := IndexOf(u, '?');
    var path := u[..pos];
    var query := if pos < |u| then u[pos + 1..] else "";
    var pairs := RunSplit(query, '&');
    var ok, done := RunTakePairs(pairs, params);
    r := Consumed(ok, path, query, done);
  }

  method RunTakePairs(pairs: seq<string>, params: Params) returns (ok: bool, done: Params)
    ensures (ok, done) == TakePairs(pairs, params)
  {
    done := params;
    for n := 0 to |pairs|
      invariant TakePairs(pairs, params) == TakePairs(pairs[n..], done)
    {
      assert pairs[n..][1..] == pairs[n + 1..];
      var pair := RunSplit(pairs[n], '=');
      if (|pair| != 1 && |pair| != 2) || pair[0] == "" {
        return false, done;
      }
      var value := "";
      if |pair| == 2 {
        value := RunUnescape(pair[1]);
      }
      done := done[pair[0] := value];
    }
    ok := true;
  }

  /** A name with or without a value is taken, the value unescaped, the name not; a pair without a name,
      or with a second equals sign between texts, is refused, and those before it stay taken. */
  lemma PairsAreTaken(k: string, v: string, w: string, rest: seq<string>, params: Params)
    requires k != "" && '=' !in k && '=' !in v
    ensures TakePairs([k] + rest, params) == TakePairs(rest, params[k := ""])
    ensures TakePairs([k + ['='] + v] + rest, params) == TakePairs(rest, params[k := Unescape(v)])
    ensures v != "" && w != "" && '=' !in w ==> TakePairs([k + ['='] + (v + ['='] + w)] + rest, params) == (false, params)
    ensures TakePairs(["="] + rest, params) == (false, params)
  {
    NoIndex(k, '=');
    NoIndex(v, '=');
    SplitFirst(k, '=', v);
    SplitFirst(k, '=', v + ['='] + w);
    SplitFirst(v, '=', w);
    assert "" + ['='] + "" == "=";
    SplitFirst("", '=', "");
    NoIndex("", '=');
    if '=' !in w { NoIndex(w, '='); }
    OnePair(k, rest, params);
    OnePair(k + ['='] + v, rest, params);
    OnePair(k + ['='] + (v + ['='] + w), rest, params);
    OnePair("=", rest, params);
  }

  lemma OnePair(p: string, rest: seq<string>, params: Params)
    ensures var pair := Split(p, '=');
            TakePairs([p] + rest, params) ==
              if (|pair| != 1 && |pair| != 2) || pair[0] == "" then (false, params)
              else TakePairs(rest, params[pair[0] := if |pair| == 1 then "" else Unescape(pair[1])])
  {
    assert ([p] + rest)[1..] == rest;
  }

  // ---- what comes back ----

  predicate Bytes(params: Params) {
    forall k <- params :: Octets(k) && Octets(params[k])
  }

  predicate Tildeless(params: Params) {
    forall k <- params :: '~' !in k && '~' !in params[k]
  }

  /** What the caller can check beforehand: the parser knows no tilde, skips empty keys and
      does not unescape keys. */
  predicate Fit(params: Params) {
    forall k <- params :: k != "" && AllPlain(k) && '~' !in params[k]
  }

  lemma EscapedChars(s: string)
    ensures '=' !in Escape(s) && '&' !in Escape(s) && '?' !in Escape(s)
    ensures '~' in Escape(s) <==> '~' in s
    ensures '~' !in s ==> XChars(Escape(s))
  {
    EscapeChars(s);
  }

  /** Apart from tildes, a pair contains nothing that the parser stops at. */
  lemma PairChars(params: Params, k: string)
    requires k in params
    ensures Pair(params, k) != "" && '&' !in Pair(params, k) && '?' !in Pair(params, k)
    ensures '~' in k || '~' in params[k] <==> '~' in Pair(params, k)
    ensures '~' !in k && '~' !in params[k] ==> XChars(Pair(params, k))
  {
    EscapedChars(k);
    EscapedChars(params[k]);
    JoinedChars(Escape(k), Escape(params[k]));
  }

  lemma JoinedChars(a: string, b: string)
    ensures forall c :: c in a + ['='] + b <==> c in a || c == '=' || c in b
    ensures a + ['='] + b != ""
  {
  }

  lemma {:induction false} BodyChars(params: Params, ks: seq<string>, first: bool)
    requires forall k <- ks :: k in params
    ensures (exists k <- ks :: '~' in k || '~' in params[k]) ==> '~' in Body(params, ks, first)
    ensures Tildeless(params) ==> XChars(Body(params, ks, first))
  {
    if ks != [] {
      PairChars(params, ks[0]);
      BodyChars(params, ks[1..], false);
    }
  }

  function Pairs(params: Params, ks: seq<string>): seq<string>
    requires forall k <- ks :: k in params
  {
    if ks == [] then [] else [Pair(params, ks[0])] + Pairs(params, ks[1..])
  }

  lemma SeparatorFirst(params: Params, ks: seq<string>)
    requires ks != [] && forall k <- ks :: k in params
    ensures Body(params, ks, false) == ['&'] + Body(params, ks, true)
  {
    var pair, rest := Pair(params, ks[0]), Body(params, ks[1..], false);
    assert "&" + pair + rest == ['&'] + ("" + pair + rest);
  }

  /** The body falls into the pairs. */
  lemma {:induction false} SplitBody(params: Params, ks: seq<string>)
    requires forall k <- ks :: k in params
    ensures Split(Body(params, ks, true), '&') == Pairs(params, ks)
  {
    if ks != [] {
      var pair, rest := Pair(params, ks[0]), ks[1..];
      PairChars(params, ks[0]);
      if rest == [] {
        SplitLast(pair);
      } else {
        SeparatorFirst(params, rest);
        SplitMore(pair, Body(params, rest, true));
        SplitBody(params, rest);
      }
    }
  }

  lemma SplitLast(pair: string)
    requires pair != "" && '&' !in pair
    ensures Split("" + pair + "", '&') == [pair]
  {
    assert "" + pair + "" == pair;
    NoIndex(pair, '&');
  }

  lemma SplitMore(pair: string, rest: string)
    requires pair != "" && '&' !in pair
    ensures Split("" + pair + (['&'] + rest), '&') == [pair] + Split(rest, '&')
  {
    assert "" + pair + (['&'] + rest) == pair + ['&'] + rest;
    SplitFirst(pair, '&', rest);
  }

  /** A pair falls into its escaped key and value, as far as they are not empty. */
  lemma SplitPair(params: Params, k: string)
    requires k in params
    ensures Split(Pair(params, k), '=') == NonEmpty(Escape(k)) + NonEmpty(Escape(params[k]))
  {
    EscapedChars(k);
    EscapedChars(params[k]);
    SplitTwo(Escape(k), Escape(params[k]));
  }

  lemma SplitTwo(a: string, b: string)
    requires '=' !in a && '=' !in b
    ensures Split(a + ['='] + b, '=') == NonEmpty(a) + NonEmpty(b)
  {
    SplitFirst(a, '=', b);
    NoIndex(b, '=');
  }

  /** What one pair does. */
  lemma TakePair(params: Params, ks: seq<string>, got: Params)
    requires Bytes(params) && ks != [] && (forall k <- ks :: k in params)
    ensures
      var k := ks[0];
      var v := params[k];
      TakePairs(Pairs(params, ks), got) ==
        if k != "" then TakePairs(Pairs(params, ks[1..]), got[Escape(k) := v])
        else if v != "" then TakePairs(Pairs(params, ks[1..]), got[Escape(v) := ""])
        else (false, got)
  {
    var k := ks[0];
    SplitPair(params, k);
    EscapeChars(k);
    EscapeChars(params[k]);
    UnescapeEscape(params[k]);
    assert Pairs(params, ks)[1..] == Pairs(params, ks[1..]);
  }

  /** The entries of `params` whose keys are not in `ks` have been collected. */
  predicate Partly(params: Params, ks: seq<string>, got: Params) {
    && (forall k <- params :: k in ks || k in got)
    && (forall k <- got :: k in params && got[k] == params[k])
  }

  lemma {:induction false} FitIsTaken(params: Params, ks: seq<string>, got: Params)
    requires Bytes(params) && Fit(params) && (forall k <- ks :: k in params) && Partly(params, ks, got)
    ensures TakePairs(Pairs(params, ks), got) == (true, params)
  {
    if ks == [] {
      assert got == params;
    } else {
      TakePair(params, ks, got);
      EscapePlain(ks[0]);
      FitIsTaken(params, ks[1..], got[ks[0] := params[ks[0]]]);
    }
  }

  /** Nothing collected is lost, no key is empty, and every other key arrives escaped. */
  lemma {:induction false} TakenKeys(params: Params, ks: seq<string>, got: Params)
    requires Bytes(params) && (forall k <- ks :: k in params) && "" !in got
    ensures
      var r := TakePairs(Pairs(params, ks), got);
      && "" !in r.1
      && (r.0 ==> (forall k <- got :: k in r.1) && (forall k <- ks :: k != "" ==> Escape(k) in r.1))
  {
    if ks != [] {
      var k := ks[0];
      var v := params[k];
      TakePair(params, ks, got);
      EscapeChars(k);
      EscapeChars(v);
      if k != "" {
        TakenKeys(params, ks[1..], got[Escape(k) := v]);
      } else if v != "" {
        TakenKeys(params, ks[1..], got[Escape(v) := ""]);
      }
    }
  }

  // ---- the whole query ----

  lemma {:induction false} StripKeepsRest(p: string, q: string)
    requires q != "" && q[0] != '/'
    ensures StripSlashes(p + q) == StripSlashes(p) + q
  {
    if p != "" && p[0] == '/' {
      assert (p + q)[1..] == p[1..] + q;
      StripKeepsRest(p[1..], q);
    } else if p != "" {
      assert (p + q)[0] == p[0];
    } else {
      assert p + q == q;
    }
  }

  lemma {:induction false} StrippedChars(p: string)
    ensures forall c <- StripSlashes(p) :: c in p
  {
    if p != "" && p[0] == '/' { StrippedChars(p[1..]); }
  }

  lemma ConsumeParts(path: string, query: string, params: Params)
    requires XChars(path) && '?' !in path
    ensures
      var r := ConsumeStripped(path + ("?" + query), params);
      if XChars(query) then
        var taken := TakePairs(Split(query, '&'), params);
        r == Consumed(taken.0, path, query, taken.1)
      else !r.ok
  {
    UrlParts(path, query);
    IndexAfter(path, '?', query);
  }

  lemma UrlParts(path: string, query: string)
    ensures var u := path + ("?" + query);
      && u == path + ['?'] + query && u[..|path|] == path && u[|path| + 1..] == query
      && (forall c :: c in u <==> c in path || c == '?' || c in query)
  {
    var u := path + ("?" + query);
    assert u == path + ['?'] + query;
  }

  /** The keys in the order of the map. */
  ghost predicate Lists(params: Params, ks: seq<string>) {
    (forall k <- ks :: k in params) && (forall k <- params :: k in ks)
  }

  lemma TildesSpoil(params: Params, ks: seq<string>)
    requires Lists(params, ks)
    ensures XChars(Body(params, ks, true)) <==> Tildeless(params)
  {
    BodyChars(params, ks, true);
    if !Tildeless(params) {
      var k :| k in params && ('~' in k || '~' in params[k]);
      assert k in ks;
      assert !XChar('~');
    }
  }

  lemma StripsToPath(p: string, query: string)
    requires XChars(p) && '?' !in p
    ensures StripSlashes(p + ("?" + query)) == StripSlashes(p) + ("?" + query)
    ensures XChars(StripSlashes(p)) && '?' !in StripSlashes(p)
  {
    StripKeepsRest(p, "?" + query);
    StrippedChars(p);
  }

  /** A URL path followed by a built query: all is looked at, or nothing is. */
  lemma ConsumeBuilt(p: string, params: Params, ks: seq<string>)
    requires XChars(p) && '?' !in p && Lists(params, ks)
    ensures
      var query := Body(params, ks, true);
      var r := ConsumePath(p + ("?" + query), map[]);
      if Tildeless(params) then
        var taken := TakePairs(Pairs(params, ks), map[]);
        r == Consumed(taken.0, StripSlashes(p), query, taken.1)
      else !r.ok
  {
    var query := Body(params, ks, true);
    StripsToPath(p, query);
    ConsumeParts(StripSlashes(p), query, map[]);
    TildesSpoil(params, ks);
    SplitBody(params, ks);
  }

  lemma LongestOddKey(params: Params, ks: set<string>, k: string) returns (longest: string)
    requires ks <= params.Keys && k in ks && !AllPlain(k)
    ensures longest in ks && !AllPlain(longest)
    ensures forall j <- ks :: !AllPlain(j) ==> |j| <= |longest|
    decreases |ks|
  {
    longest := k;
    if j :| j in ks && !AllPlain(j) && |j| > |k| {
      longest := LongestOddKey(params, ks - {k}, j);
    }
  }

  /** No finite set of keys that need escaping holds all their escaped forms. */
  lemma ClosedIsFit(params: Params)
    requires Tildeless(params) && "" !in params && forall k <- params :: Escape(k) in params
    ensures Fit(params)
  {
    if k :| k in params && !AllPlain(k) {
      var longest := LongestOddKey(params, params.Keys, k);
      EscapeGrows(longest);
    }
  }

  lemma UnfitIsNotTaken(params: Params, ks: seq<string>)
    requires Bytes(params) && Tildeless(params) && !Fit(params) && Lists(params, ks)
    ensures TakePairs(Pairs(params, ks), map[]) != (true, params)
  {
    TakenKeys(params, ks, map[]);
    if TakePairs(Pairs(params, ks), map[]) == (true, params) {
      ClosedIsFit(params);
    }
  }

  lemma BuiltComesBack(p: string, params: Params, ks: seq<string>)
    requires XChars(p) && '?' !in p && Bytes(params) && Lists(params, ks)
    ensures
      var r := ConsumePath(p + ("?" + Body(params, ks, true)), map[]);
      && (r.ok && r.params == params <==> Fit(params))
      && (Fit(params) ==> r == Consumed(true, StripSlashes(p), Body(params, ks, true), params))
  {
    ConsumeBuilt(p, params, ks);
    if Fit(params) {
      assert forall k <- params :: AllPlain(k);
      FitIsTaken(params, ks, map[]);
      FitIsTildeless(params);
    } else if Tildeless(params) {
      UnfitIsNotTaken(params, ks);
    }
  }

  lemma FitIsTildeless(params: Params)
    requires Fit(params)
    ensures Tildeless(params)
  {
  }

  /** The server reads back exactly the parameters that the client wrote if and only if every
      key is a non-empty plain text and no value contains a tilde; then it also finds the path,
      without its leading slashes, and the query text. */
  lemma QueryComesBack(p: string, params: Params)
    requires XChars(p) && '?' !in p && Bytes(params)
    ensures
      var r := ConsumePath(p + ("?" + Query(params)), map[]);
      && (r.ok && r.params == params <==> Fit(params))
      && (Fit(params) ==> r == Consumed(true, StripSlashes(p), Query(params), params))
  {
    BuiltComesBack(p, params, SortedKeys(params.Keys));
  }
}
