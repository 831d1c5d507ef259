/** Places in a table of cells: where references lead to, starting from the root. */
module Places {
  import opened Bits
  import opened Cells
  import opened CellHash
  import opened Binding

  /** These references, taken one after the other, lead from cell i to cell n. */
  ghost predicate Leads(cells: seq<CellView>, path: seq<nat>, i: nat, n: nat) {
    if path == [] then i == n
    else i < |cells| && path[0] < |cells[i].refs| && Leads(cells, path[1..], cells[i].refs[path[0]], n)
  }

  ghost predicate Reaches(cells: seq<CellView>, i: nat, n: nat) {
    exists path :: Leads(cells, path, i, n)
  }

  /** Cell i has a reference n. */
  predicate Refers(cells: seq<CellView>, i: nat, n: nat) {
    i < |cells| && exists k | 0 <= k < |cells[i].refs| :: cells[i].refs[k] == n
  }

  lemma {:induction false} LeadsForward(cells: seq<CellView>, slots: nat, path: seq<nat>, i: nat, n: nat)
    requires Forward(cells, slots) && Leads(cells, path, i, n)
    ensures if path == [] then i == n else i < n
  {
    if path != [] {
      LeadsForward(cells, slots, path[1..], cells[i].refs[path[0]], n);
    }
  }

  /** Only references matter. */
  lemma {:induction false} SameReferences(cells: seq<CellView>, cells': seq<CellView>, path: seq<nat>, i: nat, n: nat)
    requires |cells| == |cells'| && forall j | 0 <= j < |cells| :: cells[j].refs == cells'[j].refs
    ensures Leads(cells, path, i, n) <==> Leads(cells', path, i, n)
  {
    if path != [] && i < |cells| && path[0] < |cells[i].refs| {
      SameReferences(cells, cells', path[1..], cells[i].refs[path[0]], n);
    }
  }

  lemma ReachesItself(cells: seq<CellView>, n: nat)
    ensures Reaches(cells, n, n)
  {
    assert Leads(cells, [], n, n);
  }

  lemma ReachesFrom(cells: seq<CellView>, i: nat, k: nat, n: nat)
    requires i < |cells| && k < |cells[i].refs| && Reaches(cells, cells[i].refs[k], n)
    ensures Reaches(cells, i, n)
  {
    var path :| Leads(cells, path, cells[i].refs[k], n);
    assert ([k] + path)[1..] == path;
    assert Leads(cells, [k] + path, i, n);
  }

  /** Another cell is reached through one of the references. */
  lemma ReachesThrough(cells: seq<CellView>, i: nat, n: nat) returns (k: nat)
    requires Reaches(cells, i, n) && i != n
    ensures i < |cells| && k < |cells[i].refs| && Reaches(cells, cells[i].refs[k], n)
  {
    var path :| Leads(cells, path, i, n);
    k := path[0];
    assert Leads(cells, path[1..], cells[i].refs[k], n);
  }

  /** Cell 1 is reached exactly if the root refers to it. */
  lemma GiftReached(cells: seq<CellView>, slots: nat)
    requires Forward(cells, slots)
    ensures Reaches(cells, 0, 1) <==> Refers(cells, 0, 1)
  {
    hide Forward;
    if Reaches(cells, 0, 1) {
      var k := ReachesThrough(cells, 0, 1);
      OnlyItself(cells, slots, cells[0].refs[k], 1, 0, k);
    }
    if Refers(cells, 0, 1) {
      var k :| 0 <= k < |cells[0].refs| && cells[0].refs[k] == 1;
      ReachesItself(cells, 1);
      ReachesFrom(cells, 0, k, 1);
    }
  }

  /** A cell behind cell i - 1 that cell i is reached from is cell i. */
  lemma OnlyItself(cells: seq<CellView>, slots: nat, j: nat, n: nat, i: nat, k: nat)
    requires Forward(cells, slots) && Reaches(cells, j, n)
    requires i < |cells| && k < |cells[i].refs| && cells[i].refs[k] == j
    ensures i < j <= n
  {
    var path :| Leads(cells, path, j, n);
    LeadsForward(cells, slots, path, j, n);
  }

  /** Cell 2 is reached exactly if the root refers to it, or to cell 1, which refers to it. */
  lemma BodyReached(cells: seq<CellView>, slots: nat)
    requires Forward(cells, slots)
    ensures Reaches(cells, 0, 2) <==> Refers(cells, 0, 2) || (Refers(cells, 0, 1) && Refers(cells, 1, 2))
  {
    hide Forward;
    if Reaches(cells, 0, 2) {
      var k := ReachesThrough(cells, 0, 2);
      OnlyItself(cells, slots, cells[0].refs[k], 2, 0, k);
      if cells[0].refs[k] == 1 {
        var j := ReachesThrough(cells, 1, 2);
        OnlyItself(cells, slots, cells[1].refs[j], 2, 1, j);
      }
    }
    ReachesItself(cells, 2);
    if Refers(cells, 0, 2) {
      var k :| 0 <= k < |cells[0].refs| && cells[0].refs[k] == 2;
      ReachesFrom(cells, 0, k, 2);
    }
    if Refers(cells, 0, 1) && Refers(cells, 1, 2) {
      var j :| 0 <= j < |cells[1].refs| && cells[1].refs[j] == 2;
      ReachesFrom(cells, 1, j, 2);
      var k :| 0 <= k < |cells[0].refs| && cells[0].refs[k] == 1;
      ReachesFrom(cells, 0, k, 2);
    }
  }

  /** A cell that is not reached is not part of the tree: it can be any other cell. */
  lemma {:induction false} UnreachedCell(cells: seq<CellView>, slots: seq<Node>, n: nat, c: CellView, i: nat)
    requires Forward(cells, |slots|) && n < |cells| && Forward(cells[n := c], |slots|)
    requires i < |slots| && !Reaches(cells, i, n)
    ensures Unfold(cells[n := c], slots, i) == Unfold(cells, slots, i)
    decreases |slots| - i
  {
    ReachesItself(cells, n);
    if i < |cells| {
      var kids, kids' := Unfold(cells, slots, i).kids, Unfold(cells[n := c], slots, i).kids;
      forall k | 0 <= k < |cells[i].refs|
        ensures kids'[k] == kids[k]
      {
        if Reaches(cells, cells[i].refs[k], n) {
          ReachesFrom(cells, i, k, n);
        }
        UnreachedCell(cells, slots, n, c, cells[i].refs[k]);
      }
      assert kids' == kids;
    }
  }

  /** These references lead to cell n of the one table and to cell n' of the other, and neither is pruned. */
  ghost predicate SamePlace(cells: seq<CellView>, cells': seq<CellView>, path: seq<nat>, n: nat, n': nat) {
    && n < |cells| && n' < |cells'| && Leads(cells, path, 0, n) && Leads(cells', path, 0, n')
    && !cells[n].Pruned() && !cells'[n'].Pruned()
  }

  /** The sizes of data and references, and the data, are the same. */
  ghost predicate SameCell(c: CellView, c': CellView) {
    c.d2 == c'.d2 && c.data == c'.data && |c.refs| == |c'.refs|
  }

  lemma UnfoldsProper(cells: seq<CellView>, slots: seq<Node>, i: nat)
    requires Forward(cells, |slots|) && i < |cells| && !cells[i].Pruned()
    ensures var t := Unfold(cells, slots, i);
            && Proper(t) && t.d2 == cells[i].d2 && t.data == cells[i].data && |t.kids| == |cells[i].refs|
            && forall k | 0 <= k < |t.kids| :: t.kids[k] == Unfold(cells, slots, cells[i].refs[k])
  {
    hide DataSize;
  }

  lemma SameProper(t: Tree, t': Tree)
    requires Proper(t) && Proper(t') && SameContents(t, t')
    ensures t.d2 == t'.d2 && t.data == t'.data && |t.kids| == |t'.kids|
    ensures forall k | 0 <= k < |t.kids| && k < |t'.kids| :: SameContents(t.kids[k], t'.kids[k])
  {}

  /** A pruned cell has no references. */
  lemma Unpruned(cells: seq<CellView>, slots: nat, i: nat)
    requires Forward(cells, slots) && i < |cells| && cells[i].refs != []
    ensures !cells[i].Pruned()
  {}

  /** Trees of the same contents have the same cells at the same places. */
  lemma {:induction false} SameContentsSameCell(cells: seq<CellView>, slots: seq<Node>, cells': seq<CellView>,
                                                slots': seq<Node>, path: seq<nat>, i: nat, i': nat, n: nat, n': nat)
    requires Forward(cells, |slots|) && Forward(cells', |slots'|) && i < |slots| && i' < |slots'|
    requires Leads(cells, path, i, n) && Leads(cells', path, i', n')
    requires n < |cells| && n' < |cells'| && !cells[n].Pruned() && !cells'[n'].Pruned()
    requires SameContents(Unfold(cells, slots, i), Unfold(cells', slots', i'))
    ensures SameCell(cells[n], cells'[n'])
    decreases |path|
  {
    hide Unfold, SameContents, Proper;
    if path != [] {
      Unpruned(cells, |slots|, i);
      Unpruned(cells', |slots'|, i');
    }
    UnfoldsProper(cells, slots, i);
    UnfoldsProper(cells', slots', i');
    SameProper(Unfold(cells, slots, i), Unfold(cells', slots', i'));
    if path != [] {
      var k := path[0];
      SameContentsSameCell(cells, slots, cells', slots', path[1..], cells[i].refs[k], cells'[i'].refs[k], n, n');
    }
  }

  /** A cell in whose place there is one of the same hash and depth, pruned or not. */
  lemma {:induction false} SameNodeEvaluates(sha: Sha256, cells: seq<CellView>, slots: seq<Node>, n: nat, c: CellView,
                                             i: nat)
    requires Forward(cells, |slots|) && n < |cells| && Forward(cells[n := c], |slots|) && i < |slots|
    requires Eval(sha, Unfold(cells[n := c], slots, n)) == Eval(sha, Unfold(cells, slots, n))
    ensures Eval(sha, Unfold(cells[n := c], slots, i)) == Eval(sha, Unfold(cells, slots, i))
    decreases |slots| - i
  {
    if i < |cells| && i != n {
      var t, t' := Unfold(cells, slots, i), Unfold(cells[n := c], slots, i);
      forall k | 0 <= k < |cells[i].refs|
        ensures Eval(sha, t'.kids[k]) == Eval(sha, t.kids[k])
      {
        SameNodeEvaluates(sha, cells, slots, n, c, cells[i].refs[k]);
      }
      assert EvalAll(sha, t'.kids) == EvalAll(sha, t.kids);
      hide Eval, Preimage, DepthOver;
      BranchEval(sha, t);
      BranchEval(sha, t');
    }
  }

  /** A pruned cell in the place of a cell of its hash and depth is not mistaken for it. */
  lemma {:induction false} PrunedIsDistinguished(sha: Sha256, cells: seq<CellView>, slots: seq<Node>, n: nat,
                                                 c: CellView, i: nat)
    requires Forward(cells, |slots|) && n < |cells| && Forward(cells[n := c], |slots|) && i < |slots|
    requires Eval(sha, Unfold(cells[n := c], slots, n)) == Eval(sha, Unfold(cells, slots, n)) && c.Pruned()
    ensures Distinguishes(sha, Unfold(cells, slots, i), Unfold(cells[n := c], slots, i))
    decreases |slots| - i
  {
    if i < |cells| && i != n {
      var t, t' := Unfold(cells, slots, i), Unfold(cells[n := c], slots, i);
      forall k | 0 <= k < |cells[i].refs|
        ensures Eval(sha, t'.kids[k]) == Eval(sha, t.kids[k])
        ensures Distinguishes(sha, t.kids[k], t'.kids[k])
      {
        SameNodeEvaluates(sha, cells, slots, n, c, cells[i].refs[k]);
        PrunedIsDistinguished(sha, cells, slots, n, c, cells[i].refs[k]);
      }
      assert EvalAll(sha, t'.kids) == EvalAll(sha, t.kids);
    }
  }

  /** Trees of the same hash have cells of the same hash and depth at the same places below the root. */
  lemma {:induction false} SameHashSameNode(sha: Sha256, cells: seq<CellView>, slots: seq<Node>, cells': seq<CellView>,
                                            slots': seq<Node>, path: seq<nat>, i: nat, i': nat, n: nat, n': nat)
    requires Forward(cells, |slots|) && Forward(cells', |slots'|) && i < |slots| && i' < |slots'|
    requires path != [] && Leads(cells, path, i, n) && Leads(cells', path, i', n') && n < |slots| && n' < |slots'|
    requires Distinguishes(sha, Unfold(cells, slots, i), Unfold(cells', slots', i'))
    requires Eval(sha, Unfold(cells, slots, i)).hash == Eval(sha, Unfold(cells', slots', i')).hash
    ensures Eval(sha, Unfold(cells, slots, n)) == Eval(sha, Unfold(cells', slots', n'))
    ensures Distinguishes(sha, Unfold(cells, slots, n), Unfold(cells', slots', n'))
    decreases |path|
  {
    hide Unfold, Eval, NoCollision;
    Unpruned(cells, |slots|, i);
    Unpruned(cells', |slots'|, i');
    UnfoldsProper(cells, slots, i);
    UnfoldsProper(cells', slots', i');
    var t, t', k := Unfold(cells, slots, i), Unfold(cells', slots', i'), path[0];
    SameHashSameCell(sha, t, t');
    assert EvalAll(sha, t.kids)[k] == EvalAll(sha, t'.kids)[k];
    assert Distinguishes(sha, t.kids[k], t'.kids[k]);
    if path[1..] != [] {
      SameHashSameNode(sha, cells, slots, cells', slots', path[1..], cells[i].refs[k], cells'[i'].refs[k], n, n');
    }
  }

  /** The references lead, before they end, to a cell that is pruned or that the table does not hold. */
  ghost predicate Stops(cells: seq<CellView>, path: seq<nat>, i: nat) {
    i >= |cells| || cells[i].Pruned()
    || (path != [] && path[0] < |cells[i].refs| && Stops(cells, path[1..], cells[i].refs[path[0]]))
  }

  /** References that lead to a cell in one of two tables of the same contents do in the other, unless they stop. */
  lemma {:induction false} PlaceInBoth(cells: seq<CellView>, slots: seq<Node>, cells': seq<CellView>,
                                       slots': seq<Node>, path: seq<nat>, i: nat, i': nat, n': nat)
    returns (n: nat)
    requires Forward(cells, |slots|) && Forward(cells', |slots'|) && i < |slots| && i' < |slots'|
    requires Leads(cells', path, i', n') && n' < |cells'| && !cells'[n'].Pruned() && !Stops(cells, path, i)
    requires SameContents(Unfold(cells, slots, i), Unfold(cells', slots', i'))
    ensures Leads(cells, path, i, n) && n < |cells| && !cells[n].Pruned()
    decreases |path|
  {
    if path == [] {
      n := i;
    } else {
      hide Unfold, SameContents, Proper;
      Unpruned(cells', |slots'|, i');
      UnfoldsProper(cells, slots, i);
      UnfoldsProper(cells', slots', i');
      SameProper(Unfold(cells, slots, i), Unfold(cells', slots', i'));
      var k := path[0];
      n := PlaceInBoth(cells, slots, cells', slots', path[1..], cells[i].refs[k], cells'[i'].refs[k], n');
    }
  }
}
