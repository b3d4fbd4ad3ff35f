/** Facts about sequences that the other modules share. */
module Seqs {

  lemma SliceSnoc<T>(s: seq<T>, a: nat, n: nat)
    requires a <= n < |s|
    ensures s[a..n + 1] == s[..n][a..n] + [s[n]]
    ensures s[a..n + 1] == s[a..n] + [s[n]]
  {
  }

  lemma HasElement<T>(s: seq<T>)
    ensures s == [] || exists x :: x in s
  {
    if s != [] {
      assert s[0] in s;
    }
  }
}
