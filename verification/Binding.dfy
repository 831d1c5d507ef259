/** What the hash of a tree binds, unless SHA-256 maps two different buffers to the same hash. */
module Binding {
  import opened Bits
  import opened Seqs
  import opened Cells
  import opened CellHash

  // The buffer that is hashed determines the cell.

  lemma {:induction false} KidBytesInjective(a: seq<Node>, b: seq<Node>)
    requires |a| == |b| && DepthBytes(a) == DepthBytes(b) && HashBytes(a) == HashBytes(b)
    ensures a == b
  {
    if a != [] {
      var n := |a| - 1;
      KidBytesSize(a[..n]);
      KidBytesSize(b[..n]);
      SameParts(DepthBytes(a[..n]), [0, a[n].depth], DepthBytes(b[..n]), [0, b[n].depth]);
      SameParts(HashBytes(a[..n]), a[n].hash, HashBytes(b[..n]), b[n].hash);
      KidBytesInjective(a[..n], b[..n]);
    }
  }

  /** The sizes the descriptors announce are the sizes there are. */
  ghost predicate Proper(t: Tree) {
    t.Branch? && t.d1 != PRUNED_BRANCH_D1 && WellFormed(t) && |t.data| == DataSize(t.d2) && |t.kids| == RefsCount(t.d1)
  }

  ghost function TreePreimage(sha: Sha256, t: Tree): seq<byte>
    requires Proper(t)
  {
    Preimage(t.d1, t.d2, t.data, EvalAll(sha, t.kids))
  }

  /** SHA-256 does not map the two different buffers of these two cells to the same hash. */
  ghost predicate NoCollision(sha: Sha256, t: Tree, t': Tree)
    requires Proper(t) && Proper(t')
  {
    sha(TreePreimage(sha, t)) == sha(TreePreimage(sha, t')) ==> TreePreimage(sha, t) == TreePreimage(sha, t')
  }

  /** Cells with the same hash have the same descriptors up to the level, the same data and equal children. */
  lemma SameHashSameCell(sha: Sha256, t: Tree, t': Tree)
    requires Proper(t) && Proper(t') && NoCollision(sha, t, t')
    requires Eval(sha, t).hash == Eval(sha, t').hash
    ensures t.d1 % 32 == t'.d1 % 32 && t.d2 == t'.d2 && t.data == t'.data
    ensures EvalAll(sha, t.kids) == EvalAll(sha, t'.kids)
  {
    var kids, kids' := EvalAll(sha, t.kids), EvalAll(sha, t'.kids);
    BranchEval(sha, t);
    BranchEval(sha, t');
    KidBytesSize(kids);
    KidBytesSize(kids');
    hide DepthBytes, HashBytes, DataSize, EvalAll;
    PreimageParts(t.d1, t.d2, t.data, kids, t'.d1, t'.d2, t'.data, kids');
    KidBytesInjective(kids, kids');
  }

  lemma PreimageParts(d1: byte, d2: byte, data: seq<byte>, kids: seq<Node>,
                      d1': byte, d2': byte, data': seq<byte>, kids': seq<Node>)
    requires |data| == DataSize(d2) && |data'| == DataSize(d2') && |kids| == d1 % 8 && |kids'| == d1' % 8
    requires |DepthBytes(kids)| == 2 * |kids| && |DepthBytes(kids')| == 2 * |kids'|
    requires Preimage(d1, d2, data, kids) == Preimage(d1', d2', data', kids')
    ensures d1 % 32 == d1' % 32 && d2 == d2' && data == data' && |kids| == |kids'|
    ensures DepthBytes(kids) == DepthBytes(kids') && HashBytes(kids) == HashBytes(kids')
  {
    var h, h' := [d1 % 32, d2], [d1' % 32, d2'];
    assert Preimage(d1, d2, data, kids) == h + data + DepthBytes(kids) + HashBytes(kids);
    assert Preimage(d1', d2', data', kids') == h' + data' + DepthBytes(kids') + HashBytes(kids');
    hide DepthBytes, HashBytes, DataSize, Preimage;
    AppendAssoc4(h, data, DepthBytes(kids), HashBytes(kids));
    AppendAssoc4(h', data', DepthBytes(kids'), HashBytes(kids'));
    SameHead(h, data + DepthBytes(kids) + HashBytes(kids), h', data' + DepthBytes(kids') + HashBytes(kids'));
    assert h[0] == h'[0] && h[1] == h'[1];
    LowBits(d1, d1');
    FourParts(h, data, DepthBytes(kids), HashBytes(kids), h', data', DepthBytes(kids'), HashBytes(kids'));
  }

  lemma AppendAssoc4<T>(h: seq<T>, a: seq<T>, b: seq<T>, c: seq<T>)
    ensures h + a + b + c == h + (a + b + c)
  {}

  lemma SameHead(h: seq<byte>, x: seq<byte>, h': seq<byte>, x': seq<byte>)
    requires |h| == |h'|
    ensures h + x == h' + x' ==> h == h'
  {
    if h + x == h' + x' {
      SameParts(h, x, h', x');
    }
  }

  lemma LowBitsOf(a: nat)
    ensures a % 8 == a % 32 % 8
  {
    var q, r := a / 32, a % 32;
    DivModUnique(a, 8, 4 * q + r / 8, r % 8);
  }

  lemma LowBits(a: byte, b: byte)
    requires a % 32 == b % 32
    ensures a % 8 == b % 8
  {
    LowBitsOf(a);
    LowBitsOf(b);
  }

  lemma FourParts<T>(h: seq<T>, a: seq<T>, b: seq<T>, c: seq<T>, h': seq<T>, a': seq<T>, b': seq<T>, c': seq<T>)
    requires |h| == |h'| && |a| == |a'| && |b| == |b'| && h + a + b + c == h' + a' + b' + c'
    ensures h == h' && a == a' && b == b' && c == c'
  {
    SameParts(h + a + b, c, h' + a' + b', c');
    SameParts(h + a, b, h' + a', b');
    SameParts(h, a, h', a');
  }

  // The hash determines the contents of the tree.

  /** Cells at the same place do not collide, as long as neither is pruned or unknown. */
  ghost predicate Distinguishes(sha: Sha256, t: Tree, t': Tree) {
    Proper(t) && Proper(t') ==>
      && NoCollision(sha, t, t')
      && forall k | 0 <= k < |t.kids| && k < |t'.kids| :: Distinguishes(sha, t.kids[k], t'.kids[k])
  }

  /** Cells at the same place have the same contents, as long as neither is pruned or unknown. */
  ghost predicate SameContents(t: Tree, t': Tree) {
    Proper(t) && Proper(t') ==>
      && t.d1 % 32 == t'.d1 % 32 && t.d2 == t'.d2 && t.data == t'.data && |t.kids| == |t'.kids|
      && forall k | 0 <= k < |t.kids| && k < |t'.kids| :: SameContents(t.kids[k], t'.kids[k])
  }

  /** Trees of the same hash have the same contents. */
  lemma {:induction false} SameHashSameContents(sha: Sha256, t: Tree, t': Tree)
    requires WellFormed(t) && WellFormed(t') && Distinguishes(sha, t, t') && Eval(sha, t).hash == Eval(sha, t').hash
    ensures SameContents(t, t')
  {
    hide Eval, NoCollision, DataSize, RefsCount;
    if Proper(t) && Proper(t') {
      SameHashSameCell(sha, t, t');
      var nodes, nodes' := EvalAll(sha, t.kids), EvalAll(sha, t'.kids);
      assert |t.kids| == |nodes| == |nodes'| == |t'.kids|;
      forall k | 0 <= k < |t.kids|
        ensures SameContents(t.kids[k], t'.kids[k])
      {
        assert nodes[k] == nodes'[k];
        SameHashSameContents(sha, t.kids[k], t'.kids[k]);
      }
    }
  }

  lemma {:induction false} SameIsDistinguished(sha: Sha256, t: Tree)
    ensures Distinguishes(sha, t, t)
  {
    if Proper(t) {
      forall k | 0 <= k < |t.kids|
        ensures Distinguishes(sha, t.kids[k], t.kids[k])
      {
        SameIsDistinguished(sha, t.kids[k]);
      }
    }
  }
}
