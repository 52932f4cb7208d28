/** The numbers that decimal digits stand for. */
module Numerals {
  import opened Texts

  predicate AllDigits(d: string) {
    forall i :: 0 <= i < |d| ==> Digit(d[i])
  }

  function DigitOf(c: char): nat
    requires Digit(c)
  {
    c as int - '0' as int
  }

  function Pow10(n: nat): nat {
    if n == 0 then 1 else 10 * Pow10(n - 1)
  }

  function Times(a: nat, b: nat): nat {
    a * b
  }

  /** The number that digits stand for: each counts by its place.  No digits are 0. */
  function PlaceValue(d: string): nat
    requires AllDigits(d)
  {
    if d == "" then 0 else Times(DigitOf(d[0]), Pow10(|d| - 1)) + PlaceValue(d[1..])
  }

  lemma {:induction false} PlaceValuePush(d: string, c: char)
    requires AllDigits(d) && Digit(c)
    ensures AllDigits(d + [c]) && PlaceValue(d + [c]) == 10 * PlaceValue(d) + DigitOf(c)
  {
    var e := d + [c];
    if d != "" {
      PlaceValuePush(d[1..], c);
      assert e[1..] == d[1..] + [c];
      TenTimes(DigitOf(d[0]), Pow10(|d| - 1));
    }
  }

  lemma TenTimes(a: nat, p: nat)
    ensures Times(a, 10 * p) == 10 * Times(a, p)
  {
  }

  lemma {:induction false} PlaceValueAppend(d: string, e: string)
    requires AllDigits(d) && AllDigits(e)
    ensures AllDigits(d + e) && PlaceValue(d + e) == Times(PlaceValue(d), Pow10(|e|)) + PlaceValue(e)
    decreases |e|
  {
    if e == "" {
      assert d + e == d;
    } else {
      var front, last := e[..|e| - 1], e[|e| - 1];
      assert e == front + [last] && d + e == d + front + [last];
      PlaceValueAppend(d, front);
      PlaceValuePush(front, last);
      PlaceValuePush(d + front, last);
      TenTimes(PlaceValue(d), Pow10(|front|));
    }
  }

  lemma MovedUp(acc: nat, digit: nat, p: nat)
    ensures Times(10 * acc + digit, p) == Times(acc, 10 * p) + Times(digit, p)
  {
  }

  lemma NoTimes(p: nat)
    ensures Times(0, p) == 0
  {
  }
}
