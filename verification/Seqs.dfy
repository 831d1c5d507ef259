/** Facts about slices that the verifier needs to be pointed at. */
module Seqs {

  lemma SliceOfSlice<T>(s: seq<T>, i: nat, j: nat, k: nat, l: nat)
    requires i <= j <= |s| && k <= l <= j - i
    ensures s[i..j][k..l] == s[i + k..i + l]
  {
    var a, b := s[i..j][k..l], s[i + k..i + l];
    forall x | 0 <= x < |a|
      ensures a[x] == b[x]
    {
      assert s[i..j][k + x] == s[i + (k + x)];
    }
  }

  lemma SlicesJoin<T>(s: seq<T>, i: nat, j: nat, k: nat)
    requires i <= j <= k <= |s|
    ensures s[i..j] + s[j..k] == s[i..k]
  {}

  lemma AppendAssoc<T>(a: seq<T>, b: seq<T>, c: seq<T>)
    ensures a + b + c == a + (b + c)
  {}

  /** A slice of a slice, with every index and the slice by a name of its own. */
  lemma SliceInside<T>(s: seq<T>, i: nat, j: nat, t: seq<T>, k: nat, l: nat, from: nat, to: nat)
    requires i <= j <= |s| && s[i..j] == t && k <= l <= |t| && from == i + k && to == i + l
    ensures to <= |s| && s[from..to] == t[k..l]
  {
    SliceOfSlice(s, i, j, k, l);
  }

  /** Equal concatenations with first parts of equal length. */
  lemma SameParts<T>(a: seq<T>, x: seq<T>, b: seq<T>, y: seq<T>)
    requires |a| == |b| && a + x == b + y
    ensures a == b && x == y
  {
    assert a == (a + x)[..|a|] && b == (b + y)[..|b|];
    assert x == (a + x)[|a|..] && y == (b + y)[|b|..];
  }

  lemma BothParts<T>(a: seq<T>, b: seq<T>, a': seq<T>, b': seq<T>)
    requires |a| == |a'|
    ensures a + b == a' + b' <==> a == a' && b == b'
  {
    if a + b == a' + b' {
      SameParts(a, b, a', b');
    }
  }
}
