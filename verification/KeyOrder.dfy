/** Texts in the order of their bytes: Ruby's `keys.sort` and the order in which a C++
    `std::map<std::string, ...>` lists its keys. */
module KeyOrder {
  predicate Before(a: string, b: string) {
    b != "" && (a == "" || a[0] < b[0] || (a[0] == b[0] && Before(a[1..], b[1..])))
  }

  lemma BeforeIsTotal(a: string, b: string)
    ensures a == b || Before(a, b) || Before(b, a)
  {
    if a != "" && b != "" && a[0] == b[0] {
      BeforeIsTotal(a[1..], b[1..]);
      assert a == [a[0]] + a[1..] && b == [b[0]] + b[1..];
    }
  }

  /** The first difference decides, and a text comes before its continuations. */
  lemma {:induction false} BeforeByFirstDifference(a: string, b: string)
    ensures Before(a, b) <==>
      exists n: nat :: n <= |a| && n < |b| && a[..n] == b[..n] && (n == |a| || a[n] < b[n])
  {
    if Before(a, b) {
      var n := FirstDifference(a, b);
      assert a[..n] == b[..n];
    } else if n: nat :| n <= |a| && n < |b| && a[..n] == b[..n] && (n == |a| || a[n] < b[n]) {
      DifferenceDecides(a, b, n);
    }
  }

  lemma {:induction false} FirstDifference(a: string, b: string) returns (n: nat)
    requires Before(a, b)
    ensures n <= |a| && n < |b| && a[..n] == b[..n] && (n == |a| || a[n] < b[n])
  {
    if a == "" || a[0] < b[0] {
      n := 0;
    } else {
      var m := FirstDifference(a[1..], b[1..]);
      n := m + 1;
      assert a[..n] == [a[0]] + a[1..][..m] && b[..n] == [b[0]] + b[1..][..m];
    }
  }

  lemma {:induction false} DifferenceDecides(a: string, b: string, n: nat)
    requires n <= |a| && n < |b| && a[..n] == b[..n] && (n == |a| || a[n] < b[n])
    ensures Before(a, b)
  {
    if n > 0 {
      assert a[0] == a[..n][0] == b[..n][0] == b[0];
      assert a[1..][..n - 1] == a[..n][1..] == b[..n][1..] == b[1..][..n - 1];
      DifferenceDecides(a[1..], b[1..], n - 1);
    }
  }

  lemma BeforeIsStrict(a: string, b: string)
    requires Before(a, b)
    ensures !Before(b, a)
  {
  }

  lemma BeforeIsTransitive(a: string, b: string, c: string)
    requires Before(a, b) && Before(b, c)
    ensures Before(a, c)
  {
  }

  predicate Least(keys: set<string>, k: string) {
    k in keys && forall j <- keys :: j == k || Before(k, j)
  }

  lemma LeastExists(keys: set<string>)
    requires keys != {}
    ensures exists k :: Least(keys, k)
    ensures forall j, k :: Least(keys, j) && Least(keys, k) ==> j == k
  {
    forall j, k | Least(keys, j) && Least(keys, k) ensures j == k {
      if j != k { BeforeIsStrict(j, k); }
    }
    var a :| a in keys;
    var rest := keys - {a};
    if rest == {} {
      assert keys == {a};
      assert Least(keys, a);
    } else {
      LeastExists(rest);
      var b :| Least(rest, b);
      BeforeIsTotal(a, b);
      if Before(a, b) {
        forall j | j in keys ensures j == a || Before(a, j) {
          if j != a && j != b { BeforeIsTransitive(a, b, j); }
        }
        assert Least(keys, a);
      } else {
        assert Least(keys, b);
      }
    }
  }

  ghost predicate Ascending(ks: seq<string>) {
    forall i, j :: 0 <= i < j < |ks| ==> Before(ks[i], ks[j])
  }

  /** `keys.sort`. */
  function SortedKeys(keys: set<string>): (ks: seq<string>)
    ensures Ascending(ks)
    ensures forall k :: k in ks <==> k in keys
  {
    if keys == {} then []
    else
      LeastExists(keys);
      var k :| Least(keys, k);
      [k] + SortedKeys(keys - {k})
  }

  /** There is one ascending arrangement of a set of keys. */
  lemma {:induction false} SortedKeysIsTheOnlyOrder(ks: seq<string>, keys: set<string>)
    requires Ascending(ks)
    requires forall k :: k in ks <==> k in keys
    ensures ks == SortedKeys(keys)
  {
    if ks == [] {
      assert keys == {};
    } else {
      var k := ks[0];
      assert k in keys;
      assert Least(keys, k);
      LeastExists(keys);
      var j := SortedKeys(keys)[0];
      assert Least(keys, j);
      forall m | m in ks[1..] ensures m in keys - {k} {
        BeforeIsStrict(k, m);
      }
      SortedKeysIsTheOnlyOrder(ks[1..], keys - {k});
    }
  }
}
