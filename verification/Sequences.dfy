/** Facts about sequences that the verifier wants to be reminded of. */
module Sequences {

  lemma Associate<T>(a: seq<T>, b: seq<T>, c: seq<T>)
    ensures a + (b + c) == a + b + c
  {}

  lemma Split<T>(a: seq<T>, b: seq<T>, n: nat)
    requires n <= |b|
    ensures a + b[..n] + b[n..] == a + b
  {}

  lemma NothingBefore<T>(q: seq<T>)
    ensures [] + q == q
  {}

  lemma NothingBehind<T>(q: seq<T>)
    ensures q + [] == q
  {}

  lemma InitOfSlice<T>(b: seq<T>, at: nat, s: seq<T>)
    requires s != [] && at + |s| <= |b| && b[at..at + |s|] == s
    ensures b[at..at + |s| - 1] == s[..|s| - 1] && b[at + |s| - 1] == s[|s| - 1]
  {
    forall i | 0 <= i < |s|
      ensures b[at + i] == s[i]
    {
      assert b[at..at + |s|][i] == b[at + i];
    }
  }
}
