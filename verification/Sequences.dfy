/** Facts about slices and concatenations that several modules need. */
module Sequences {
  lemma Regroup<T>(a: seq<T>, b: seq<T>, c: seq<T>)
    ensures a + (b + c) == (a + b) + c
    ensures a == [] ==> a + b == b
  {
  }

  lemma SliceOfSlice<T>(s: seq<T>, lo: nat, hi: nat, m: nat, n: nat)
    requires lo <= hi <= |s| && m <= n <= hi - lo
    ensures s[lo..hi][m..n] == s[lo + m..lo + n]
  {
    forall k | 0 <= k < n - m ensures s[lo..hi][m..n][k] == s[lo + m..lo + n][k] {
    }
  }

  lemma TakeMore<T>(s: seq<T>, i: nat, j: nat)
    requires i <= j <= |s|
    ensures s[..i] + s[i..j] == s[..j]
  {
  }

  lemma TakeOne<T>(s: seq<T>, i: nat)
    requires i < |s|
    ensures s[..i] + [s[i]] == s[..i + 1]
  {
  }
}
