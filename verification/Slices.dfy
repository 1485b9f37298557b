/**
 Slices of slices.
 */
module Slices {
  lemma Subslice<T>(s: seq<T>, lo: nat, hi: nat, a: nat, b: nat)
    requires lo <= a <= b <= hi <= |s|
    ensures s[a..b] == s[lo..hi][a - lo..b - lo]
  {
    var t := s[lo..hi][a - lo..b - lo];
    assert forall i :: 0 <= i < b - a ==> t[i] == s[lo..hi][a - lo + i] == s[a + i];
  }

  // Two sequences that agree on a range agree on each of its parts.
  lemma Agree<T>(s: seq<T>, t: seq<T>, lo: nat, hi: nat, a: nat, b: nat)
    requires lo <= a <= b <= hi <= |s| && hi <= |t| && s[lo..hi] == t[lo..hi]
    ensures s[a..b] == t[a..b]
  {
    Subslice(s, lo, hi, a, b);
    Subslice(t, lo, hi, a, b);
  }
}
