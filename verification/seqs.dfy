/**
 * Regrouping facts about sequence concatenation that the proofs elsewhere
 * use. They are stated generically: proved on sequences of records
 * directly, the same steps cost the solver far more.
 */
module Seqs {

  lemma ConsAssoc<T>(r: T, x: seq<T>, y: seq<T>)
    ensures [r] + (x + y) == ([r] + x) + y
  {
  }

  lemma SnocAssoc<T>(x: seq<T>, r: T, y: seq<T>)
    ensures x + ([r] + y) == (x + [r]) + y
  {
  }

  /** Two elements appended one after the other extend the sequence by both, in order. */
  lemma SnocTwo<T>(log: seq<T>, drawn: seq<T>, first: T, second: T)
    ensures log + drawn + [first] + [second] == log + (drawn + [first, second])
  {
  }

  /** Appending all of `d` is appending all but its last element, then that element. */
  lemma AppendLast<T>(v: seq<T>, d: seq<T>)
    requires d != []
    ensures v + d[..|d| - 1] + [d[|d| - 1]] == v + d
  {
    assert d[..|d| - 1] + [d[|d| - 1]] == d;
  }

  /** Moving the first element of `s` across the concatenation. */
  lemma HeadThenRest<T>(h: seq<T>, s: seq<T>)
    requires s != []
    ensures h + [s[0]] + s[1..] == h + s
  {
    assert s == [s[0]] + s[1..];
  }

  /** A sequence of at least three elements is its first three followed by the rest. */
  lemma FirstThree<T>(b: seq<T>)
    requires |b| >= 3
    ensures b == [b[0], b[1], b[2]] + b[3..]
  {
  }
}
