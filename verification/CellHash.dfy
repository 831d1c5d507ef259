/**
 The hash and depth of a tree of cells: what the program computes, what the TVM whitepaper defines
 (sections 3.1.4 to 3.1.7), and what pruning and truncation leave unchanged.
 */
module CellHash {
  import opened Bits
  import opened Cells
  import opened Seqs

  type Hash = h: seq<byte> | |h| == HASH_SIZE witness seq(HASH_SIZE, _ => 0)

  /** SHA-256 is a parameter: any function from byte strings to 32 bytes. */
  type Sha256 = seq<byte> -> Hash

  datatype Node = Node(hash: Hash, depth: byte)

  /**
   A tree of cells; a leaf stands for a subtree of which only hash and depth are given. A cell comes
   with the depth that its slot holds before it is evaluated.
   */
  datatype Tree = Leaf(node: Node) | Branch(d1: byte, d2: byte, data: seq<byte>, stored: byte, kids: seq<Tree>)

  /** There are a hash and a depth behind the first two bytes. */
  ghost predicate PrunedData(data: seq<byte>) {
    |data| >= PRUNED_BRANCH_DATA_SIZE
  }

  /** Every pruned branch cell carries a hash and a depth. */
  ghost predicate WellFormed(t: Tree) {
    match t
    case Leaf(_) => true
    case Branch(d1, _, data, _, kids) =>
      && (d1 == PRUNED_BRANCH_D1 ==> PrunedData(data))
      && forall k | 0 <= k < |kids| :: WellFormed(kids[k])
  }

  // What the program computes.

  function DepthBytes(kids: seq<Node>): seq<byte> {
    if kids == [] then [] else DepthBytes(kids[..|kids| - 1]) + [0, kids[|kids| - 1].depth]
  }

  function HashBytes(kids: seq<Node>): seq<byte> {
    if kids == [] then [] else HashBytes(kids[..|kids| - 1]) + kids[|kids| - 1].hash
  }

  /** The buffer that is hashed: the level bits of the first descriptor byte are masked away. */
  function Preimage(d1: byte, d2: byte, data: seq<byte>, kids: seq<Node>): seq<byte> {
    [d1 % 32, d2] + data + DepthBytes(kids) + HashBytes(kids)
  }

  /** The larger of two depths, in eight bits. */
  function Deeper(depth: byte, child: byte): byte {
    if depth > child + 1 then depth else ToByte(child + 1)
  }

  function DepthOver(stored: byte, kids: seq<Node>): byte {
    if kids == [] then stored else Deeper(DepthOver(stored, kids[..|kids| - 1]), kids[|kids| - 1].depth)
  }

  function PrunedNode(data: seq<byte>): Node
    requires |data| >= PRUNED_BRANCH_DATA_SIZE
  {
    Node(data[2..2 + HASH_SIZE], data[2 + HASH_SIZE + 1])
  }

  /** The hash and the depth the program computes for a tree. */
  ghost function Eval(sha: Sha256, t: Tree): Node
    requires WellFormed(t)
  {
    match t
    case Leaf(node) => node
    case Branch(d1, d2, data, stored, kids) =>
      if d1 == PRUNED_BRANCH_D1 then PrunedNode(data)
      else
        var nodes := EvalAll(sha, kids);
        Node(sha(Preimage(d1, d2, data, nodes)), DepthOver(stored, nodes))
  }

  ghost function EvalAll(sha: Sha256, kids: seq<Tree>): (nodes: seq<Node>)
    requires forall k | 0 <= k < |kids| :: WellFormed(kids[k])
    ensures |nodes| == |kids|
    ensures forall k | 0 <= k < |kids| :: nodes[k] == Eval(sha, kids[k])
  {
    seq(|kids|, k requires 0 <= k < |kids| => Eval(sha, kids[k]))
  }

  // Pruning.

  /** cut is full with some subtrees replaced by pruned branch cells and level bits changed. */
  ghost predicate Prunes(sha: Sha256, full: Tree, cut: Tree)
    requires WellFormed(full) && WellFormed(cut)
  {
    || full == cut
    || (cut.Branch? && cut.d1 == PRUNED_BRANCH_D1 && PrunedNode(cut.data) == Eval(sha, full))
    || (&& full.Branch? && cut.Branch?
        && full.d1 != PRUNED_BRANCH_D1 && cut.d1 != PRUNED_BRANCH_D1 && full.d1 % 32 == cut.d1 % 32
        && full.d2 == cut.d2 && full.data == cut.data && full.stored == cut.stored && |full.kids| == |cut.kids|
        && forall k | 0 <= k < |full.kids| :: Prunes(sha, full.kids[k], cut.kids[k]))
  }

  /** Pruning any set of subtrees leaves hash and depth of the whole unchanged. */
  lemma {:induction false} PruningPreservesHash(sha: Sha256, full: Tree, cut: Tree)
    requires WellFormed(full) && WellFormed(cut) && Prunes(sha, full, cut)
    ensures Eval(sha, full) == Eval(sha, cut)
  {
    if full != cut && cut.d1 != PRUNED_BRANCH_D1 {
      forall k | 0 <= k < |full.kids|
        ensures EvalAll(sha, full.kids)[k] == EvalAll(sha, cut.kids)[k]
      {
        PruningPreservesHash(sha, full.kids[k], cut.kids[k]);
      }
      assert EvalAll(sha, full.kids) == EvalAll(sha, cut.kids);
    }
  }

  /** The pruned branch cell, of a level given, that stands for a subtree. */
  ghost function PrunedBranch(sha: Sha256, t: Tree, level: byte): (cut: Tree)
    requires WellFormed(t)
    ensures WellFormed(cut)
  {
    var node := Eval(sha, t);
    Branch(PRUNED_BRANCH_D1, 72, [1, level] + node.hash + [0, node.depth], 0, [])
  }

  /** Every subtree can be pruned. */
  lemma AnySubtreePrunes(sha: Sha256, t: Tree, level: byte)
    requires WellFormed(t)
    ensures Prunes(sha, t, PrunedBranch(sha, t, level))
  {
    var node := Eval(sha, t);
    var data := [1, level] + node.hash + [0, node.depth];
    assert data[2..2 + HASH_SIZE] == node.hash;
  }

  // The whitepaper: depths are unbounded and written in two bytes.

  ghost function TvmDepth(t: Tree): nat
    requires WellFormed(t)
  {
    match t
    case Leaf(node) => node.depth
    case Branch(d1, _, data, _, kids) =>
      if d1 == PRUNED_BRANCH_D1 then 0x100 * data[2 + HASH_SIZE] + data[2 + HASH_SIZE + 1]
      else MaxDepth(kids, |kids|)
  }

  /** One more than the greatest depth among the first n children; zero if there are none. */
  ghost function MaxDepth(kids: seq<Tree>, n: nat): nat
    requires n <= |kids| && forall k | 0 <= k < |kids| :: WellFormed(kids[k])
    decreases kids, n
  {
    if n == 0 then 0
    else
      var rest, child := MaxDepth(kids, n - 1), TvmDepth(kids[n - 1]) + 1;
      if rest > child then rest else child
  }

  ghost function TwoByteDepths(kids: seq<Tree>, n: nat): seq<byte>
    requires n <= |kids| && forall k | 0 <= k < |kids| :: WellFormed(kids[k])
  {
    if n == 0 then []
    else
      var depth := TvmDepth(kids[n - 1]);
      TwoByteDepths(kids, n - 1) + [ToByte(depth / 0x100), ToByte(depth)]
  }

  ghost function TvmHash(sha: Sha256, t: Tree): Hash
    requires WellFormed(t)
  {
    match t
    case Leaf(node) => node.hash
    case Branch(d1, d2, data, stored, kids) =>
      if d1 == PRUNED_BRANCH_D1 then data[2..2 + HASH_SIZE]
      else sha([d1 % 32, d2] + data + TwoByteDepths(kids, |kids|) + TvmHashes(sha, kids, |kids|))
  }

  ghost function TvmHashes(sha: Sha256, kids: seq<Tree>, n: nat): seq<byte>
    requires n <= |kids| && forall k | 0 <= k < |kids| :: WellFormed(kids[k])
    decreases kids, n
  {
    if n == 0 then [] else TvmHashes(sha, kids, n - 1) + TvmHash(sha, kids[n - 1])
  }

  /** No cell starts from a depth greater than its own; a cleared context is an instance. */
  ghost predicate Settled(t: Tree)
    requires WellFormed(t)
  {
    t.Branch? && t.d1 != PRUNED_BRANCH_D1 ==>
      t.stored <= TvmDepth(t) && forall k | 0 <= k < |t.kids| :: Settled(t.kids[k])
  }

  /** The program gets the whitepaper's depth for the tree and for every subtree. */
  ghost predicate DepthsRight(sha: Sha256, t: Tree)
    requires WellFormed(t)
  {
    && Eval(sha, t).depth == TvmDepth(t)
    && (t.Branch? && t.d1 != PRUNED_BRANCH_D1 ==> forall k | 0 <= k < |t.kids| :: DepthsRight(sha, t.kids[k]))
  }

  lemma {:induction false} ChildIsShallower(kids: seq<Tree>, n: nat, k: nat)
    requires k < n <= |kids| && forall k | 0 <= k < |kids| :: WellFormed(kids[k])
    ensures TvmDepth(kids[k]) < MaxDepth(kids, n)
  {
    if k < n - 1 {
      ChildIsShallower(kids, n - 1, k);
    }
  }

  /**
   The program computes the whitepaper's depth for a tree and all its subtrees exactly when no slot
   holds too great a depth beforehand and the depth of the root fits a byte.
   */
  lemma {:induction false} DepthsAreTvm(sha: Sha256, t: Tree)
    requires WellFormed(t)
    ensures DepthsRight(sha, t) <==> Settled(t) && TvmDepth(t) < 0x100
  {
    if t.Branch? && t.d1 != PRUNED_BRANCH_D1 && TvmDepth(t) < 0x100 {
      forall k | 0 <= k < |t.kids|
        ensures TvmDepth(t.kids[k]) < TvmDepth(t)
        ensures DepthsRight(sha, t.kids[k]) <==> Settled(t.kids[k])
      {
        ChildIsShallower(t.kids, |t.kids|, k);
        DepthsAreTvm(sha, t.kids[k]);
      }
      if forall k | 0 <= k < |t.kids| :: DepthsRight(sha, t.kids[k]) {
        DepthOverKids(sha, t.kids, |t.kids|, t.stored, TvmDepth(t));
        assert EvalAll(sha, t.kids)[..|t.kids|] == EvalAll(sha, t.kids);
      }
    }
  }

  lemma {:induction false} DepthOverKids(sha: Sha256, kids: seq<Tree>, n: nat, stored: byte, bound: nat)
    requires n <= |kids| && bound < 0x100
    requires forall k | 0 <= k < |kids| :: WellFormed(kids[k]) && TvmDepth(kids[k]) < bound && DepthsRight(sha, kids[k])
    ensures var depth := MaxDepth(kids, n);
            DepthOver(stored, EvalAll(sha, kids)[..n]) == (if stored > depth then stored else depth)
  {
    if n > 0 {
      hide Eval, TvmDepth, ToByte;
      DepthOverKids(sha, kids, n - 1, stored, bound);
      assert DepthsRight(sha, kids[n - 1]);
      assert EvalAll(sha, kids)[..n][..n - 1] == EvalAll(sha, kids)[..n - 1];
    }
  }

  /** Every child starts from no greater depth than its own, and its depth fits a byte. */
  ghost predicate KidsSettled(t: Tree)
    requires WellFormed(t)
  {
    t.Branch? && t.d1 != PRUNED_BRANCH_D1 ==>
      forall k | 0 <= k < |t.kids| :: Settled(t.kids[k]) && TvmDepth(t.kids[k]) < 0x100
  }

  /** The depth of every child fits a byte. */
  ghost predicate KidsFit(t: Tree)
    requires WellFormed(t)
  {
    t.Branch? && t.d1 != PRUNED_BRANCH_D1 ==> forall k | 0 <= k < |t.kids| :: TvmDepth(t.kids[k]) < 0x100
  }

  /** The buffer the whitepaper hashes. */
  ghost function TvmPreimage(sha: Sha256, t: Tree): seq<byte>
    requires WellFormed(t) && t.Branch?
  {
    [t.d1 % 32, t.d2] + t.data + TwoByteDepths(t.kids, |t.kids|) + TvmHashes(sha, t.kids, |t.kids|)
  }

  /** Nowhere in the tree does SHA-256 map the program's buffer and a different one of the whitepaper to one hash. */
  ghost predicate NoClash(sha: Sha256, t: Tree)
    requires WellFormed(t)
  {
    t.Branch? && t.d1 != PRUNED_BRANCH_D1 ==>
      var preimage := Preimage(t.d1, t.d2, t.data, EvalAll(sha, t.kids));
      && (sha(preimage) == sha(TvmPreimage(sha, t)) ==> preimage == TvmPreimage(sha, t))
      && forall k | 0 <= k < |t.kids| :: NoClash(sha, t.kids[k])
  }

  /**
   The program computes the whitepaper's hash if every child of the root is settled and of a depth
   that fits a byte, and only then if SHA-256 does not clash and depths fit two bytes.
   */
  lemma EvalIsTvm(sha: Sha256, t: Tree)
    requires WellFormed(t)
    ensures KidsSettled(t) ==> Eval(sha, t).hash == TvmHash(sha, t)
    ensures NoClash(sha, t) && TvmDepth(t) < 0x1_0000 ==> (Eval(sha, t).hash == TvmHash(sha, t) <==> KidsSettled(t))
  {
    if KidsSettled(t) {
      HashIfSettled(sha, t);
    }
    if NoClash(sha, t) && TvmDepth(t) < 0x1_0000 && Eval(sha, t).hash == TvmHash(sha, t) {
      HashOnlyIfSettled(sha, t);
    }
  }

  lemma {:induction false} HashIfSettled(sha: Sha256, t: Tree)
    requires WellFormed(t) && KidsSettled(t)
    ensures Eval(sha, t).hash == TvmHash(sha, t)
  {
    if t.Branch? && t.d1 != PRUNED_BRANCH_D1 {
      forall k | 0 <= k < |t.kids|
        ensures DepthsRight(sha, t.kids[k]) && Eval(sha, t.kids[k]).hash == TvmHash(sha, t.kids[k])
      {
        DepthsAreTvm(sha, t.kids[k]);
        SettledKids(t.kids[k]);
        HashIfSettled(sha, t.kids[k]);
      }
      KidBytesAreTvm(sha, t.kids, |t.kids|);
      assert EvalAll(sha, t.kids)[..|t.kids|] == EvalAll(sha, t.kids);
    }
  }

  lemma SettledKids(t: Tree)
    requires WellFormed(t) && Settled(t) && TvmDepth(t) < 0x100
    ensures KidsSettled(t)
  {
    if t.Branch? && t.d1 != PRUNED_BRANCH_D1 {
      forall k | 0 <= k < |t.kids|
        ensures TvmDepth(t.kids[k]) < TvmDepth(t)
      {
        KidDepth(t, k);
      }
    }
  }

  lemma {:induction false} KidBytesAreTvm(sha: Sha256, kids: seq<Tree>, n: nat)
    requires n <= |kids|
    requires forall k | 0 <= k < |kids| ::
               WellFormed(kids[k]) && TvmDepth(kids[k]) < 0x100
               && Eval(sha, kids[k]) == Node(TvmHash(sha, kids[k]), TvmDepth(kids[k]))
    ensures DepthBytes(EvalAll(sha, kids)[..n]) == TwoByteDepths(kids, n)
    ensures HashBytes(EvalAll(sha, kids)[..n]) == TvmHashes(sha, kids, n)
  {
    if n > 0 {
      hide Eval, TvmDepth, TvmHash, ToByte;
      KidBytesAreTvm(sha, kids, n - 1);
      assert TvmDepth(kids[n - 1]) / 0x100 == 0;
      assert EvalAll(sha, kids)[..n][..n - 1] == EvalAll(sha, kids)[..n - 1];
    }
  }

  lemma {:induction false} HashOnlyIfSettled(sha: Sha256, t: Tree)
    requires WellFormed(t) && NoClash(sha, t) && TvmDepth(t) < 0x1_0000
    requires Eval(sha, t).hash == TvmHash(sha, t)
    ensures KidsSettled(t)
  {
    if t.Branch? && t.d1 != PRUNED_BRANCH_D1 {
      SameBuffer(sha, t);
      assert EvalAll(sha, t.kids)[..|t.kids|] == EvalAll(sha, t.kids);
      hide Eval, TvmDepth, TvmHash, Settled, DepthBytes, HashBytes, TwoByteDepths, TvmHashes, Preimage, TvmPreimage;
      forall k | 0 <= k < |t.kids|
        ensures Settled(t.kids[k]) && TvmDepth(t.kids[k]) < 0x100
      {
        assert TvmDepth(t.kids[k]) < 0x1_0000 by { KidDepth(t, k); }
        SameKid(sha, t.kids, |t.kids|, k);
        HashOnlyIfSettled(sha, t.kids[k]);
        RightAbove(sha, t.kids[k]);
        DepthsAreTvm(sha, t.kids[k]);
      }
    }
  }

  lemma KidDepth(t: Tree, k: nat)
    requires WellFormed(t) && t.Branch? && t.d1 != PRUNED_BRANCH_D1 && k < |t.kids|
    ensures TvmDepth(t.kids[k]) < TvmDepth(t)
  {
    ChildIsShallower(t.kids, |t.kids|, k);
  }

  /** The right depth above settled children. */
  lemma RightAbove(sha: Sha256, t: Tree)
    requires WellFormed(t) && KidsSettled(t) && Eval(sha, t).depth == TvmDepth(t)
    ensures DepthsRight(sha, t)
  {
    if t.Branch? && t.d1 != PRUNED_BRANCH_D1 {
      forall k | 0 <= k < |t.kids|
        ensures DepthsRight(sha, t.kids[k])
      {
        DepthsAreTvm(sha, t.kids[k]);
      }
    }
  }

  lemma SameBuffer(sha: Sha256, t: Tree)
    requires WellFormed(t) && t.Branch? && t.d1 != PRUNED_BRANCH_D1
    requires Preimage(t.d1, t.d2, t.data, EvalAll(sha, t.kids)) == TvmPreimage(sha, t)
    ensures DepthBytes(EvalAll(sha, t.kids)) == TwoByteDepths(t.kids, |t.kids|)
    ensures HashBytes(EvalAll(sha, t.kids)) == TvmHashes(sha, t.kids, |t.kids|)
  {
    var nodes, n := EvalAll(sha, t.kids), |t.kids|;
    var front := [t.d1 % 32, t.d2] + t.data;
    KidBytesSize(nodes);
    TvmBytesSize(sha, t.kids, n);
    assert Preimage(t.d1, t.d2, t.data, nodes) == front + DepthBytes(nodes) + HashBytes(nodes);
    assert TvmPreimage(sha, t) == front + TwoByteDepths(t.kids, n) + TvmHashes(sha, t.kids, n);
    hide DepthBytes, HashBytes, TwoByteDepths, TvmHashes;
    SameParts(front + DepthBytes(nodes), HashBytes(nodes), front + TwoByteDepths(t.kids, n), TvmHashes(sha, t.kids, n));
    SameParts(front, DepthBytes(nodes), front, TwoByteDepths(t.kids, n));
  }

  /** The program hashes the whitepaper's buffer only if the depths of the children fit a byte. */
  lemma SameBufferFits(sha: Sha256, t: Tree)
    requires WellFormed(t) && t.Branch? && t.d1 != PRUNED_BRANCH_D1 && TvmDepth(t) < 0x1_0000
    requires Preimage(t.d1, t.d2, t.data, EvalAll(sha, t.kids)) == TvmPreimage(sha, t)
    ensures KidsFit(t)
  {
    SameBuffer(sha, t);
    assert EvalAll(sha, t.kids)[..|t.kids|] == EvalAll(sha, t.kids);
    hide Eval, TvmDepth, TvmHash, DepthBytes, HashBytes, TwoByteDepths, TvmHashes, Preimage, TvmPreimage;
    forall k | 0 <= k < |t.kids|
      ensures TvmDepth(t.kids[k]) < 0x100
    {
      KidDepth(t, k);
      SameKid(sha, t.kids, |t.kids|, k);
    }
  }

  lemma {:induction false} KidBytesSize(kids: seq<Node>)
    ensures |DepthBytes(kids)| == 2 * |kids| && |HashBytes(kids)| == HASH_SIZE * |kids|
  {
    if kids != [] {
      KidBytesSize(kids[..|kids| - 1]);
    }
  }

  lemma {:induction false} TvmBytesSize(sha: Sha256, kids: seq<Tree>, n: nat)
    requires n <= |kids| && forall k | 0 <= k < |kids| :: WellFormed(kids[k])
    ensures |TwoByteDepths(kids, n)| == 2 * n && |TvmHashes(sha, kids, n)| == HASH_SIZE * n
  {
    if n > 0 {
      TvmBytesSize(sha, kids, n - 1);
    }
  }

  /** Equal bytes for all children mean equal hashes, and equal depths if they fit two bytes. */
  lemma {:induction false} SameKid(sha: Sha256, kids: seq<Tree>, n: nat, k: nat)
    requires k < n <= |kids| && forall k | 0 <= k < |kids| :: WellFormed(kids[k])
    requires DepthBytes(EvalAll(sha, kids)[..n]) == TwoByteDepths(kids, n)
    requires HashBytes(EvalAll(sha, kids)[..n]) == TvmHashes(sha, kids, n)
    requires TvmDepth(kids[k]) < 0x1_0000
    ensures TvmDepth(kids[k]) < 0x100 && Eval(sha, kids[k]) == Node(TvmHash(sha, kids[k]), TvmDepth(kids[k]))
  {
    hide Eval, TvmDepth, TvmHash, ToByte;
    var nodes := EvalAll(sha, kids)[..n];
    var node, depth := nodes[n - 1], TvmDepth(kids[n - 1]);
    assert nodes[..n - 1] == EvalAll(sha, kids)[..n - 1];
    KidBytesSize(nodes[..n - 1]);
    TvmBytesSize(sha, kids, n - 1);
    SameParts(DepthBytes(nodes[..n - 1]), [0, node.depth],
              TwoByteDepths(kids, n - 1), [ToByte(depth / 0x100), ToByte(depth)]);
    SameParts(HashBytes(nodes[..n - 1]), node.hash, TvmHashes(sha, kids, n - 1), TvmHash(sha, kids[n - 1]));
    if k < n - 1 {
      SameKid(sha, kids, n - 1, k);
    } else {
      DepthFitsByte(node.depth, depth);
    }
  }

  lemma DepthFitsByte(b: byte, depth: nat)
    requires depth < 0x1_0000 && [0, b] == [ToByte(depth / 0x100), ToByte(depth)]
    ensures depth < 0x100 && b == depth
  {
    assert [0, b][0] == ToByte(depth / 0x100) && [0, b][1] == ToByte(depth);
  }

  // Tables: cells in slots, referring to later slots; slots without a cell hold a given node.

  ghost predicate Forward(cells: seq<CellView>, slots: nat) {
    && |cells| <= slots
    && forall i | 0 <= i < |cells| ::
         && cells[i].Shaped()
         && (cells[i].Pruned() ==> PrunedData(cells[i].data))
         && forall k | 0 <= k < |cells[i].refs| :: i < cells[i].refs[k] < slots
  }

  /** The tree a slot is the root of. */
  ghost function Unfold(cells: seq<CellView>, given: seq<Node>, i: nat): (t: Tree)
    requires Forward(cells, |given|) && i < |given|
    ensures WellFormed(t)
    decreases |given| - i
  {
    if i >= |cells| then Leaf(given[i])
    else Branch(cells[i].d1, cells[i].d2, cells[i].data, given[i].depth, UnfoldAll(cells, given, i, |cells[i].refs|))
  }

  ghost function UnfoldAll(cells: seq<CellView>, given: seq<Node>, i: nat, n: nat): (kids: seq<Tree>)
    requires Forward(cells, |given|) && i < |cells| && n <= |cells[i].refs|
    ensures |kids| == n
    ensures forall k | 0 <= k < n :: kids[k] == Unfold(cells, given, cells[i].refs[k])
    ensures forall k | 0 <= k < n :: WellFormed(kids[k])
    decreases |given| - i, 0, n
  {
    if n == 0 then [] else UnfoldAll(cells, given, i, n - 1) + [Unfold(cells, given, cells[i].refs[n - 1])]
  }

  ghost function NodesOf(refs: seq<byte>, nodes: seq<Node>): seq<Node>
    requires forall k | 0 <= k < |refs| :: refs[k] < |nodes|
  {
    seq(|refs|, k requires 0 <= k < |refs| => nodes[refs[k]])
  }

  /** One step: the node of a cell from the nodes of the slots and the depth its slot holds. */
  ghost function Step(sha: Sha256, cell: CellView, stored: byte, nodes: seq<Node>): Node
    requires forall k | 0 <= k < |cell.refs| :: cell.refs[k] < |nodes|
    requires cell.Pruned() ==> PrunedData(cell.data)
  {
    if cell.Pruned() then PrunedNode(cell.data)
    else
      var kids := NodesOf(cell.refs, nodes);
      Node(sha(Preimage(cell.d1, cell.d2, cell.data, kids)), DepthOver(stored, kids))
  }

  /** Slots from i on hold the nodes of their trees; slots before i are as they were. */
  ghost predicate Evaluated(sha: Sha256, cells: seq<CellView>, given: seq<Node>, nodes: seq<Node>, i: nat)
    requires Forward(cells, |given|)
  {
    && |nodes| == |given|
    && (forall j | i <= j < |given| :: nodes[j] == Eval(sha, Unfold(cells, given, j)))
    && (forall j | 0 <= j < |given| && j < i :: nodes[j] == given[j])
  }

  lemma EvaluatedNothing(sha: Sha256, cells: seq<CellView>, given: seq<Node>)
    requires Forward(cells, |given|)
    ensures Evaluated(sha, cells, given, given, |cells|)
  {}

  /** The step of the backward loop. */
  lemma EvaluatedStep(sha: Sha256, cells: seq<CellView>, given: seq<Node>, nodes: seq<Node>, i: nat)
    requires Forward(cells, |given|) && i < |cells| && Evaluated(sha, cells, given, nodes, i + 1)
    ensures Evaluated(sha, cells, given, nodes[i := Step(sha, cells[i], nodes[i].depth, nodes)], i)
  {
    hide Eval, Preimage, DepthOver;
    var t := Unfold(cells, given, i);
    assert NodesOf(cells[i].refs, nodes) == EvalAll(sha, t.kids);
    BranchEval(sha, t);
  }

  lemma BranchEval(sha: Sha256, t: Tree)
    requires t.Branch? && WellFormed(t)
    ensures Eval(sha, t) == if t.d1 == PRUNED_BRANCH_D1 then PrunedNode(t.data)
                            else var nodes := EvalAll(sha, t.kids);
                                 Node(sha(Preimage(t.d1, t.d2, t.data, nodes)), DepthOver(t.stored, nodes))
  {}

  /** Cells whose slots, from the root on, hold depth zero beforehand make a settled tree. */
  lemma {:induction false} ClearedIsSettled(cells: seq<CellView>, given: seq<Node>, i: nat)
    requires Forward(cells, |given|) && i < |given| && forall j | i <= j < |cells| :: given[j].depth == 0
    ensures Settled(Unfold(cells, given, i))
    decreases |given| - i
  {
    if i < |cells| {
      forall k | 0 <= k < |cells[i].refs|
        ensures Settled(Unfold(cells, given, cells[i].refs[k]))
      {
        ClearedIsSettled(cells, given, cells[i].refs[k]);
      }
    }
  }

  // Leftovers.

  /** Above a child of the greatest depth the depth wraps around to zero. */
  ghost predicate Wraps(kids: seq<Node>) {
    exists k | 0 <= k < |kids| :: kids[k].depth == 0xff
  }

  /** Behind a wrap-around the stored depth is forgotten; otherwise it counts like one more child. */
  lemma {:induction false} DepthOverStored(stored: byte, kids: seq<Node>)
    ensures DepthOver(stored, kids) ==
              if Wraps(kids) || DepthOver(0, kids) >= stored then DepthOver(0, kids) else stored
  {
    if kids != [] {
      var n := |kids| - 1;
      var front := kids[..n];
      DepthOverStored(stored, front);
      assert Wraps(kids) <==> Wraps(front) || kids[n].depth == 0xff by {
        if Wraps(kids) && kids[n].depth != 0xff {
          var k :| 0 <= k < |kids| && kids[k].depth == 0xff;
          assert front[k].depth == 0xff;
        }
        if Wraps(front) {
          var k :| 0 <= k < |front| && front[k].depth == 0xff;
          assert kids[k].depth == 0xff;
        }
      }
    }
  }

  /** A table evaluated again, over the depths the first evaluation left, evaluates to the same. */
  lemma {:induction false} EvalAgain(sha: Sha256, cells: seq<CellView>, given: seq<Node>, left: seq<Node>, i: nat)
    requires Forward(cells, |given|) && |left| == |given| && i < |given|
    requires forall j | 0 <= j < |cells| :: left[j].depth == Eval(sha, Unfold(cells, given, j)).depth
    requires forall j | |cells| <= j < |given| :: left[j] == given[j]
    ensures Eval(sha, Unfold(cells, left, i)) == Eval(sha, Unfold(cells, given, i))
    decreases |given| - i
  {
    if i < |cells| {
      var t, t' := Unfold(cells, given, i), Unfold(cells, left, i);
      forall k | 0 <= k < |cells[i].refs|
        ensures Eval(sha, t'.kids[k]) == Eval(sha, t.kids[k])
      {
        EvalAgain(sha, cells, given, left, cells[i].refs[k]);
      }
      var nodes := EvalAll(sha, t.kids);
      assert EvalAll(sha, t'.kids) == nodes;
      hide Eval, Preimage, DepthOver;
      BranchEval(sha, t);
      BranchEval(sha, t');
      DepthOverStored(t.stored, nodes);
      DepthOverStored(DepthOver(t.stored, nodes), nodes);
    }
  }

  // Truncation.

  /**
   A prefix of a table evaluates like the whole table when the slots behind the prefix that its
   cells refer to hold what the whole table evaluates to there.
   */
  lemma {:induction false} TruncationPreservesHash(sha: Sha256, full: seq<CellView>, given: seq<Node>, n: nat,
                                                   planted: seq<Node>, i: nat)
    requires Forward(full, |given|) && n <= |full| && Forward(full[..n], |planted|)
    requires forall j, k | 0 <= j < n && 0 <= k < |full[j].refs| && full[j].refs[k] >= n ::
               planted[full[j].refs[k]] == Eval(sha, Unfold(full, given, full[j].refs[k]))
    requires forall j | 0 <= j < n :: planted[j].depth == given[j].depth
    requires i < n
    ensures Eval(sha, Unfold(full[..n], planted, i)) == Eval(sha, Unfold(full, given, i))
    decreases n - i
  {
    var t, t' := Unfold(full, given, i), Unfold(full[..n], planted, i);
    forall k | 0 <= k < |full[i].refs|
      ensures Eval(sha, t'.kids[k]) == Eval(sha, t.kids[k])
    {
      if full[i].refs[k] < n {
        TruncationPreservesHash(sha, full, given, n, planted, full[i].refs[k]);
      }
    }
    assert EvalAll(sha, t'.kids) == EvalAll(sha, t.kids);
  }
}
