/** Character classes of C and Python, and a law of concatenation. */
module Texts {
  predicate Digit(c: char) {
    '0' <= c <= '9'
  }

  /** `isspace`. */
  predicate Space(c: char) {
    c == ' ' || '\t' <= c <= '\r'
  }

  /** `tolower`. */
  function LowerChar(c: char): char {
    if 'A' <= c <= 'Z' then 'a' + (c - 'A') else c
  }

  lemma Reassociate<T>(a: seq<T>, b: seq<T>, c: seq<T>)
    ensures a + (b + c) == (a + b) + c
  {
  }
}
