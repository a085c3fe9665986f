/** Small facts about sequences that the solver should not have to find again in larger contexts. */
module Sequences {

  /** Moving the head of `b` behind `q` and splitting the rest is splitting `b` one further on. */
  lemma ShiftOne<T>(q: seq<T>, b: seq<T>, k: nat)
    requires 0 < k <= |b|
    ensures (q + [b[0]]) + b[1..][..k - 1] == q + b[..k]
    ensures b[1..][k - 1..] == b[k..]
  {
  }

  /** The head and tail of a concatenation whose left part is not empty. */
  lemma ConsAppend<T>(a: seq<T>, b: seq<T>)
    requires a != []
    ensures (a + b)[0] == a[0] && (a + b)[1..] == a[1..] + b
  {
  }

  lemma NilAppend<T>(b: seq<T>)
    ensures [] + b == b
  {
  }

  lemma Assoc<T>(a: seq<T>, b: seq<T>, c: seq<T>)
    ensures (a + b) + c == a + (b + c)
  {
  }

  lemma Split<T>(s: seq<T>, k: nat)
    requires k <= |s|
    ensures s == s[..k] + s[k..]
  {
  }
}
