/** Facts about slicing and concatenating sequences, shared by the decoders and the service. */
module Sequences {

  /** Reading a part off the front of a suffix leaves the next suffix. */
  lemma Split<T>(s: seq<T>, p: nat, x: seq<T>, t: seq<T>)
    requires p <= |s| && s[p..] == x + t
    ensures p + |x| <= |s| && s[p .. p + |x|] == x && s[p + |x|..] == t
  {
    assert s[p .. p + |x|] == s[p..][..|x|];
    assert s[p + |x|..] == s[p..][|x|..];
  }

  /** A slice lying inside the second part of a concatenation is a slice of that part. */
  lemma SliceAfter<T>(a: seq<T>, b: seq<T>, lo: nat, hi: nat)
    requires |a| <= lo <= hi <= |a| + |b|
    ensures (a + b)[lo .. hi] == b[lo - |a| .. hi - |a|]
  {
  }

  /** Concatenation is associative; stated once so loop invariants can regroup a growing prefix. */
  lemma Reassociate<T>(a: seq<T>, b: seq<T>, c: seq<T>)
    ensures a + (b + c) == (a + b) + c
  {
  }
}
