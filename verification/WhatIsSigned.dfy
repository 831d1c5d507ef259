/**
 What is shown and what is signed. Unless SHA-256 maps two different buffers to the same hash, the bytes
 to sign bind the hash and depth of every cell that the root reaches, at its place in the tree, and so
 its data, if neither it nor a cell in its place is pruned. They bind neither a cell that is not reached
 nor which places of the tree are those of cells 1 and 2, the gift and the body that are shown.
 */
module WhatIsSigned {
  import opened Bits
  import opened Seqs
  import opened Outcomes
  import opened Cells
  import opened CellHash
  import opened SliceWriter
  import opened Fields
  import opened BocFormat
  import opened Prepending
  import opened Display
  import opened MessageFormat
  import opened Signing
  import opened Binding
  import opened Places

  ghost function Shown(cells: seq<CellView>, order: Order): Result<Screen>
    requires cells != []
  {
    Message(order.walletType, cells, order.wc, order.address, order.currency)
  }

  /** The message is accepted. */
  ghost predicate Signs(sha: Sha256, cells: seq<CellView>, order: Order, slots: seq<Node>) {
    && cells != [] && order.Valid() && |slots| == MAX_CONTRACT_CELLS_COUNT
    && SignCells(sha, cells, order, slots).Success?
  }

  /** The cells of which the hash is signed. */
  ghost function Table(cells: seq<CellView>, order: Order): Result<seq<CellView>>
    requires cells != [] && order.Valid()
  {
    SignedCells(cells, Prepends(order.walletType), order.wc, order.prependAddress)
  }

  ghost predicate HasTable(cells: seq<CellView>, order: Order) {
    cells != [] && order.Valid() && Table(cells, order).Success?
  }

  /** The tree of which the hash is signed. */
  ghost function TreeOf(sha: Sha256, cells: seq<CellView>, order: Order, slots: seq<Node>): (t: Tree)
    requires Signs(sha, cells, order, slots)
    ensures WellFormed(t) && SignCells(sha, cells, order, slots).value.hash == Eval(sha, t).hash
  {
    Unfold(Table(cells, order).value, slots, 0)
  }

  /** Two accepted messages with the same hash to sign. */
  ghost predicate SameHash(sha: Sha256, cells: seq<CellView>, cells': seq<CellView>, order: Order, slots: seq<Node>) {
    && Signs(sha, cells, order, slots) && Signs(sha, cells', order, slots)
    && SignCells(sha, cells, order, slots).value.hash == SignCells(sha, cells', order, slots).value.hash
  }

  /** And SHA-256 distinguishes between them. */
  ghost predicate SignedAlike(sha: Sha256, cells: seq<CellView>, cells': seq<CellView>, order: Order, slots: seq<Node>)
  {
    && SameHash(sha, cells, cells', order, slots)
    && Distinguishes(sha, TreeOf(sha, cells, order, slots), TreeOf(sha, cells', order, slots))
  }

  /** Both messages are accepted and have the same tree: their hashes are equal for every SHA-256. */
  ghost predicate SameTree(sha: Sha256, cells: seq<CellView>, cells': seq<CellView>, order: Order, slots: seq<Node>) {
    && Signs(sha, cells, order, slots) && Signs(sha, cells', order, slots)
    && TreeOf(sha, cells, order, slots) == TreeOf(sha, cells', order, slots)
  }

  lemma SameTreeIsSignedAlike(sha: Sha256, cells: seq<CellView>, cells': seq<CellView>, order: Order, slots: seq<Node>)
    requires SameTree(sha, cells, cells', order, slots)
    ensures SignedAlike(sha, cells, cells', order, slots)
  {
    hide Signs, Eval;
    SameIsDistinguished(sha, TreeOf(sha, cells, order, slots));
  }

  // The table that is hashed differs from the message's in the root at most, and has the same references.

  ghost predicate Kept(cells: seq<CellView>, table: seq<CellView>) {
    && |table| == |cells| > 0 && table[0].d1 == cells[0].d1 && table[0].refs == cells[0].refs
    && forall j | 1 <= j < |cells| :: table[j] == cells[j]
  }

  lemma PrependKeepsRefs(cell: CellView, wc: byte, address: seq<byte>)
    requires |address| == 32
    ensures Fits(cell) ==> Prepended(cell, wc, address).refs == cell.refs && Prepended(cell, wc, address).d1 == cell.d1
  {
    hide D2For, Pack, Raw, NewLength;
  }

  lemma TableKeeps(cells: seq<CellView>, order: Order)
    requires cells != [] && order.Valid() && Table(cells, order).Success?
    ensures Kept(cells, Table(cells, order).value)
  {
    hide Prepended, Fits;
    PrependKeepsRefs(cells[0], order.wc, order.prependAddress);
  }

  lemma KeptLeads(cells: seq<CellView>, table: seq<CellView>, path: seq<nat>, n: nat)
    requires Kept(cells, table)
    ensures Leads(cells, path, 0, n) <==> Leads(table, path, 0, n)
  {
    forall j | 0 <= j < |cells|
      ensures cells[j].refs == table[j].refs
    {}
    SameReferences(cells, table, path, 0, n);
  }

  // The root.

  /** A longer bit string has the same function number. */
  lemma FunctionOfPrefix(bits: seq<bool>, more: seq<bool>)
    requires ContractHeader(bits).Success?
    ensures ContractHeader(bits + more).Success?
    ensures ContractHeader(bits + more).value.value == ContractHeader(bits).value.value
  {
    hide Num;
    var n := 97 + if bits[0] then 256 else 0;
    assert (bits + more)[n..][..32] == bits[n..][..32];
  }

  /** Bit strings that differ in zeros at the end have the same function number. */
  lemma SameFunction(bits: seq<bool>, bits': seq<bool>, m: nat, m': nat)
    requires ContractHeader(bits).Success? && ContractHeader(bits').Success?
    requires bits + Zeros(m) == bits' + Zeros(m')
    ensures ContractHeader(bits).value.value == ContractHeader(bits').value.value
  {
    FunctionOfPrefix(bits, Zeros(m));
    FunctionOfPrefix(bits', Zeros(m'));
  }

  lemma AppendedZeros(bits: seq<bool>, m: nat, k: nat)
    ensures bits + Zeros(m) + Zeros(k) == bits + Zeros(m + k)
  {}

  /** Two bit strings that begin alike and go on with zeros. */
  lemma ZerosAtTheEnd(bits: seq<bool>, bits': seq<bool>, kept: seq<bool>, m: nat, m': nat)
    requires kept + Zeros(m) == bits + Zeros(5) && kept + Zeros(m') == bits' + Zeros(5)
    ensures bits + Zeros(m' + 5) == bits' + Zeros(m + 5)
  {
    AppendedZeros(kept, m, m');
    AppendedZeros(kept, m', m);
    AppendedZeros(bits, 5, m');
    AppendedZeros(bits', 5, m);
    assert Zeros(m + m') == Zeros(m' + m);
  }

  /** Cells that are the same with the address in front have the same function number, tagged or not. */
  lemma PrependKeepsFunction(cell: CellView, cell': CellView, wc: byte, address: seq<byte>)
    requires |address| == 32 && Fits(cell) && Fits(cell')
    requires Prepended(cell, wc, address).data == Prepended(cell', wc, address).data
    requires Prepended(cell, wc, address).d2 == Prepended(cell', wc, address).d2
    requires ContractHeader(BitsOf(cell.data)).Success? && ContractHeader(BitsOf(cell'.data)).Success?
    ensures ContractHeader(BitsOf(cell.data)).value.value == ContractHeader(BitsOf(cell'.data)).value.value
  {
    hide ContractHeader, BitsOf, Prepended, Payload, Tagged, Zeros, D2For, NewLength, Fits;
    SameWholeness(cell, cell', wc, address);
    PrependKeeps(cell, wc, address);
    PrependKeeps(cell', wc, address);
    var kept := BitsOf(Prepended(cell, wc, address).data)[ADDRESS_BITS..];
    if NewLength(cell) % 8 != 0 {
      SameBeforeZeros(BitsOf(cell.data), BitsOf(cell'.data), kept);
    } else {
      SameWithTag(cell, cell', kept);
    }
  }

  lemma SameWholeness(cell: CellView, cell': CellView, wc: byte, address: seq<byte>)
    requires |address| == 32 && Fits(cell) && Fits(cell')
    requires Prepended(cell, wc, address).d2 == Prepended(cell', wc, address).d2
    ensures NewLength(cell) % 8 == 0 <==> NewLength(cell') % 8 == 0
  {
    NewLengthParity(cell);
    NewLengthParity(cell');
    hide D2For, NewLength, Pack, Raw;
  }

  lemma SameBeforeZeros(bits: seq<bool>, bits': seq<bool>, kept: seq<bool>)
    requires |kept| <= |bits| + 5 && kept + Zeros(|bits| + 5 - |kept|) == bits + Zeros(5)
    requires |kept| <= |bits'| + 5 && kept + Zeros(|bits'| + 5 - |kept|) == bits' + Zeros(5)
    requires ContractHeader(bits).Success? && ContractHeader(bits').Success?
    ensures ContractHeader(bits).value.value == ContractHeader(bits').value.value
  {
    hide ContractHeader, Zeros;
    var m, m' := |bits| + 5 - |kept|, |bits'| + 5 - |kept|;
    ZerosAtTheEnd(bits, bits', kept, m, m');
    SameFunction(bits, bits', m' + 5, m + 5);
  }

  lemma NewLengthParity(cell: CellView)
    requires Fits(cell)
    ensures D2For(NewLength(cell)) % 2 == 0 <==> NewLength(cell) % 8 == 0
  {
    NewSizeFits(cell);
    SizeFor(NewLength(cell));
  }

  lemma SameWithTag(cell: CellView, cell': CellView, kept: seq<bool>)
    requires Tagged(cell) && Tagged(cell') && Payload(cell.d2, cell.data) == kept == Payload(cell'.d2, cell'.data)
    requires ContractHeader(BitsOf(cell.data)).Success? && ContractHeader(BitsOf(cell'.data)).Success?
    ensures ContractHeader(BitsOf(cell.data)).value.value == ContractHeader(BitsOf(cell'.data)).value.value
  {
    hide ContractHeader, BitsOf, Untagged;
    var a, b := BitsOf(cell.data), BitsOf(cell'.data);
    TagSplits(a);
    TagSplits(b);
    var m, m' := |a| - |kept| - 1, |b| - |kept| - 1;
    AppendedZeros(kept + [true], m, m');
    AppendedZeros(kept + [true], m', m);
    SameFunction(a, b, m', m);
  }

  /** Roots that are hashed as the same cell are read alike. */
  lemma RootsReadAlike(cells: seq<CellView>, cells': seq<CellView>, order: Order)
    requires HasTable(cells, order) && HasTable(cells', order)
    requires Shown(cells, order).Success? && Shown(cells', order).Success?
    requires SameCell(Table(cells, order).value[0], Table(cells', order).value[0])
    ensures ReadAlike(order.walletType, cells[0], cells'[0])
  {
    hide BitsOf, Prepended, Fits, ContractHeader, MultisigCall;
    TableKeeps(cells, order);
    TableKeeps(cells', order);
    if Prepends(order.walletType) {
      PrependKeepsFunction(cells[0], cells'[0], order.wc, order.prependAddress);
    }
  }

  // Replacing one cell.

  /** Cell n replaced by another one that is not pruned either. */
  ghost predicate Replaces(cells: seq<CellView>, n: nat, c: CellView) {
    1 <= n < |cells| && !cells[n].Pruned() && !c.Pruned()
  }

  /** The cell is hashed as it is: it is not a root that is rewritten. */
  predicate Replaceable(n: nat, order: Order) {
    n == 0 ==> !Prepends(order.walletType)
  }

  lemma ReplacedTable(cells: seq<CellView>, n: nat, c: CellView, order: Order)
    requires order.Valid() && n < |cells| && Table(cells, order).Success? && Replaceable(n, order)
    ensures Table(cells[n := c], order) == Success(Table(cells, order).value[n := c])
  {
    hide Prepended, Fits;
    var table := Table(cells, order).value;
    if Prepends(order.walletType) {
      assert cells[n := c][0] == cells[0];
      assert table[n := c] == cells[n := c][0 := table[0]];
    }
  }

  lemma ReachedInTable(cells: seq<CellView>, table: seq<CellView>, n: nat)
    requires Kept(cells, table)
    ensures Reaches(cells, 0, n) <==> Reaches(table, 0, n)
  {
    if Reaches(cells, 0, n) {
      var path :| Leads(cells, path, 0, n);
      KeptLeads(cells, table, path, n);
    }
    if Reaches(table, 0, n) {
      var path :| Leads(table, path, 0, n);
      KeptLeads(cells, table, path, n);
    }
  }

  /** A cell that is not reached can be any cell with which the message is accepted. */
  lemma UnreachedIsNotSigned(sha: Sha256, cells: seq<CellView>, n: nat, c: CellView, order: Order, slots: seq<Node>)
    requires Signs(sha, cells, order, slots) && 1 <= n < |cells| && Signs(sha, cells[n := c], order, slots)
    requires !Reaches(cells, 0, n)
    ensures SameTree(sha, cells, cells[n := c], order, slots)
  {
    hide Message, Eval, SignedCells;
    TableKeeps(cells, order);
    ReplacedTable(cells, n, c, order);
    var table := Table(cells, order).value;
    ReachedInTable(cells, table, n);
    UnreachedCell(table, slots, n, c, 0);
  }

  /** Of a cell that is reached the data are signed, unless it is pruned. */
  lemma ReachedIsSigned(sha: Sha256, cells: seq<CellView>, n: nat, c: CellView, order: Order, slots: seq<Node>)
    requires Replaces(cells, n, c) && SignedAlike(sha, cells, cells[n := c], order, slots) && Reaches(cells, 0, n)
    ensures SameCell(cells[n], c)
  {
    hide Message, Eval, SignedCells;
    TableKeeps(cells, order);
    ReplacedTable(cells, n, c, order);
    var table := Table(cells, order).value;
    var path :| Leads(cells, path, 0, n);
    KeptLeads(cells, table, path, n);
    LeadsForward(table, |slots|, path, 0, n);
    SameHashSameContents(sha, TreeOf(sha, cells, order, slots), TreeOf(sha, cells[n := c], order, slots));
    LeadsReplaced(table, |slots|, path, 0, n, c);
    SameContentsSameCell(table, slots, table[n := c], slots, path, 0, 0, n, n);
  }

  /** The way to a cell does not depend on the cell. */
  lemma {:induction false} LeadsReplaced(cells: seq<CellView>, slots: nat, path: seq<nat>, i: nat, n: nat, c: CellView)
    requires Forward(cells, slots) && n < |cells| && Leads(cells, path, i, n)
    ensures Leads(cells[n := c], path, i, n)
  {
    if path != [] {
      LeadsForward(cells, slots, path, i, n);
      LeadsReplaced(cells, slots, path[1..], cells[i].refs[path[0]], n, c);
    }
  }

  /** The hash and depth of a cell of the table that is hashed. */
  ghost function NodeOf(sha: Sha256, cells: seq<CellView>, n: nat, order: Order, slots: seq<Node>): Node
    requires Signs(sha, cells, order, slots) && n < |cells|
  {
    Eval(sha, Unfold(Table(cells, order).value, slots, n))
  }

  /** The message is accepted with either of two cells in the place of cell n, between which SHA-256 distinguishes. */
  ghost predicate Exchangeable(sha: Sha256, cells: seq<CellView>, n: nat, c: CellView, order: Order, slots: seq<Node>) {
    && 1 <= n < |cells| && Signs(sha, cells, order, slots) && Signs(sha, cells[n := c], order, slots)
    && Distinguishes(sha, TreeOf(sha, cells, order, slots), TreeOf(sha, cells[n := c], order, slots))
  }

  /**
   With another cell in the place of cell n, pruned or not, an accepted message has the same hash to
   sign exactly if the root does not reach cell n, or the other cell has the same hash and depth.
   */
  lemma CellIsSigned(sha: Sha256, cells: seq<CellView>, n: nat, c: CellView, order: Order, slots: seq<Node>)
    ensures Exchangeable(sha, cells, n, c, order, slots) ==>
              (SameHash(sha, cells, cells[n := c], order, slots)
               <==> !Reaches(cells, 0, n)
                    || NodeOf(sha, cells[n := c], n, order, slots) == NodeOf(sha, cells, n, order, slots))
  {
    if Exchangeable(sha, cells, n, c, order, slots) {
      hide SameHash, Reaches, Signs, NodeOf, Eval;
      if !Reaches(cells, 0, n) {
        UnreachedIsNotSigned(sha, cells, n, c, order, slots);
        SameTreeIsSignedAlike(sha, cells, cells[n := c], order, slots);
      } else if NodeOf(sha, cells[n := c], n, order, slots) == NodeOf(sha, cells, n, order, slots) {
        SameNodeIsSignedAlike(sha, cells, n, c, order, slots);
      } else if SameHash(sha, cells, cells[n := c], order, slots) {
        ReachedNode(sha, cells, n, c, order, slots);
      }
    }
  }

  lemma SameNodeIsSignedAlike(sha: Sha256, cells: seq<CellView>, n: nat, c: CellView, order: Order, slots: seq<Node>)
    requires Signs(sha, cells, order, slots) && n < |cells| && Signs(sha, cells[n := c], order, slots)
    requires Replaceable(n, order)
    requires NodeOf(sha, cells[n := c], n, order, slots) == NodeOf(sha, cells, n, order, slots)
    ensures SameHash(sha, cells, cells[n := c], order, slots)
  {
    hide Message, Eval, SignedCells, Unfold, Forward;
    ReplacedTable(cells, n, c, order);
    TableKeeps(cells, order);
    SameNodeEvaluates(sha, Table(cells, order).value, slots, n, c, 0);
  }

  lemma ReachedNode(sha: Sha256, cells: seq<CellView>, n: nat, c: CellView, order: Order, slots: seq<Node>)
    requires 1 <= n < |cells| && SignedAlike(sha, cells, cells[n := c], order, slots) && Reaches(cells, 0, n)
    ensures NodeOf(sha, cells[n := c], n, order, slots) == NodeOf(sha, cells, n, order, slots)
  {
    hide Message, Eval, SignedCells, Unfold, Distinguishes;
    TableKeeps(cells, order);
    ReplacedTable(cells, n, c, order);
    var table := Table(cells, order).value;
    var path :| Leads(cells, path, 0, n);
    KeptLeads(cells, table, path, n);
    LeadsReplaced(table, |slots|, path, 0, n, c);
    SameHashSameNode(sha, table, slots, table[n := c], slots, path, 0, 0, n, n);
  }

  // Two messages.

  /** The first message with its cells g and b in the places of gift and body. */
  ghost function Rearranged(cells: seq<CellView>, g: nat, b: nat): seq<CellView>
    requires g < |cells| && b < |cells|
  {
    [cells[0], cells[g], cells[b]]
  }

  /**
   The places of the gift and the body in the second message, as far as these are read, are those of
   cells g and b in the first.
   */
  ghost predicate Corresponds(cells: seq<CellView>, cells': seq<CellView>, order: Order, p: seq<nat>, q: seq<nat>,
                              g: nat, b: nat) {
    && g < |cells| && b < |cells| && cells' != [] && !cells[0].Pruned() && !cells'[0].Pruned()
    && (ReadsGift(order.walletType, cells') ==> SamePlace(cells, cells', p, g, 1))
    && (ReadsBody(order.walletType, cells', order.currency) ==> SamePlace(cells, cells', q, b, 2))
  }

  /** Two messages of the same contents have the same cells at the same places. */
  lemma SamePlaceSameCell(cells: seq<CellView>, cells': seq<CellView>, order: Order, slots: seq<Node>, path: seq<nat>,
                          n: nat, n': nat)
    requires HasTable(cells, order) && HasTable(cells', order)
    requires Forward(Table(cells, order).value, |slots|) && Forward(Table(cells', order).value, |slots|)
    requires |slots| > 0
    requires SameContents(Unfold(Table(cells, order).value, slots, 0), Unfold(Table(cells', order).value, slots, 0))
    requires SamePlace(cells, cells', path, n, n')
    ensures SameCell(Table(cells, order).value[n], Table(cells', order).value[n'])
    ensures n > 0 && n' > 0 ==> SameCell(cells[n], cells'[n'])
  {
    hide SignedCells, SameContents, Unfold, Forward;
    TableKeeps(cells, order);
    TableKeeps(cells', order);
    var table, table' := Table(cells, order).value, Table(cells', order).value;
    KeptLeads(cells, table, path, n);
    KeptLeads(cells', table', path, n');
    SameContentsSameCell(table, slots, table', slots, path, 0, 0, n, n');
  }

  lemma NotTheRoot(cells: seq<CellView>, order: Order, slots: nat, path: seq<nat>, n: nat)
    requires cells != [] && order.Valid() && Table(cells, order).Success? && Forward(Table(cells, order).value, slots)
    requires Leads(cells, path, 0, n)
    ensures n > 0 <==> path != []
  {
    hide SignedCells, Forward;
    TableKeeps(cells, order);
    KeptLeads(cells, Table(cells, order).value, path, n);
    LeadsForward(Table(cells, order).value, slots, path, 0, n);
  }

  lemma SameCellSaysTheSame(cells: seq<CellView>, cells': seq<CellView>, order: Order, slots: seq<Node>,
                            path: seq<nat>, n: nat, n': nat)
    requires HasTable(cells, order) && HasTable(cells', order)
    requires Forward(Table(cells, order).value, |slots|) && Forward(Table(cells', order).value, |slots|)
    requires |slots| > 0
    requires SameContents(Unfold(Table(cells, order).value, slots, 0), Unfold(Table(cells', order).value, slots, 0))
    requires SamePlace(cells, cells', path, n, n') && n' > 0
    ensures SaysTheSame(cells'[n'], cells[n])
  {
    hide SignedCells, SameContents, Unfold, Forward;
    NotTheRoot(cells, order, |slots|, path, n);
    NotTheRoot(cells', order, |slots|, path, n');
    SamePlaceSameCell(cells, cells', order, slots, path, n, n');
  }

  /**
   Of two messages that are signed alike the second is shown as the first would be with the cells at the
   second's places of gift and body. So they are shown alike exactly if this is how the first is shown.
   */
  lemma SignedAlikeShownAs(sha: Sha256, cells: seq<CellView>, cells': seq<CellView>, order: Order, slots: seq<Node>,
                           p: seq<nat>, q: seq<nat>, g: nat, b: nat)
    ensures SignedAlike(sha, cells, cells', order, slots) && Corresponds(cells, cells', order, p, q, g, b) ==>
              && Shown(cells', order) == Shown(Rearranged(cells, g, b), order)
              && (Shown(cells, order) == Shown(cells', order)
                  <==> Shown(Rearranged(cells, g, b), order) == Shown(cells, order))
  {
    if SignedAlike(sha, cells, cells', order, slots) && Corresponds(cells, cells', order, p, q, g, b) {
      ShownAs(sha, cells, cells', order, slots, p, q, g, b);
    }
  }

  lemma ShownAs(sha: Sha256, cells: seq<CellView>, cells': seq<CellView>, order: Order, slots: seq<Node>,
                p: seq<nat>, q: seq<nat>, g: nat, b: nat)
    requires SignedAlike(sha, cells, cells', order, slots) && Corresponds(cells, cells', order, p, q, g, b)
    ensures Shown(cells', order) == Shown(Rearranged(cells, g, b), order)
  {
    hide SignedCells, SameContents, Unfold, Forward, Eval, Distinguishes, ReadsGift, ReadsBody, Message, ReadAlike,
         SaysTheSame;
    SameHashSameContents(sha, TreeOf(sha, cells, order, slots), TreeOf(sha, cells', order, slots));
    assert Leads(cells, [], 0, 0) && Leads(cells', [], 0, 0);
    SamePlaceSameCell(cells, cells', order, slots, [], 0, 0);
    RootsReadAlike(cells', cells, order);
    if ReadsGift(order.walletType, cells') {
      SameCellSaysTheSame(cells, cells', order, slots, p, g, 1);
    }
    if ReadsBody(order.walletType, cells', order.currency) {
      SameCellSaysTheSame(cells, cells', order, slots, q, b, 2);
    }
    SameReading(order.walletType, cells', Rearranged(cells, g, b), order.wc, order.address, order.currency);
  }

  /**
   What is at a place in the second of two messages that are signed alike has its counterpart at this
   place in the first, unless the way there stops at a cell that is pruned or that the table does not hold.
   */
  lemma PlaceExists(sha: Sha256, cells: seq<CellView>, cells': seq<CellView>, order: Order, slots: seq<Node>,
                    path: seq<nat>, n': nat) returns (n: nat)
    requires SignedAlike(sha, cells, cells', order, slots) && n' < |cells'| && Leads(cells', path, 0, n')
    requires !cells'[n'].Pruned() && !Stops(cells, path, 0)
    ensures SamePlace(cells, cells', path, n, n')
  {
    hide SignedCells, SameContents, Unfold, Eval, Distinguishes, Message;
    SameHashSameContents(sha, TreeOf(sha, cells, order, slots), TreeOf(sha, cells', order, slots));
    TableKeeps(cells, order);
    TableKeeps(cells', order);
    var table, table' := Table(cells, order).value, Table(cells', order).value;
    KeptLeads(cells', table', path, n');
    KeptStops(cells, table, path, 0);
    n := PlaceInBoth(table, slots, table', slots, path, 0, 0, n');
    KeptLeads(cells, table, path, n);
  }

  lemma {:induction false} KeptStops(cells: seq<CellView>, table: seq<CellView>, path: seq<nat>, i: nat)
    requires Kept(cells, table)
    ensures Stops(cells, path, i) <==> Stops(table, path, i)
  {
    if path != [] && i < |cells| && path[0] < |cells[i].refs| {
      assert cells[i].refs == table[i].refs;
      KeptStops(cells, table, path[1..], cells[i].refs[path[0]]);
    }
  }

  /** The second message has gift and body, as far as these are read, at the places of the first one's. */
  ghost predicate SamePlaces(cells: seq<CellView>, cells': seq<CellView>, order: Order, p: seq<nat>, q: seq<nat>) {
    && cells != [] && cells' != [] && !cells[0].Pruned() && !cells'[0].Pruned()
    && (ReadsGift(order.walletType, cells') ==> SamePlace(cells, cells', p, 1, 1))
    && (ReadsBody(order.walletType, cells', order.currency) ==> SamePlace(cells, cells', q, 2, 2))
  }

  /** Two messages that are signed alike and have gift and body at the same places are shown alike. */
  lemma SameHashSameScreen(sha: Sha256, cells: seq<CellView>, cells': seq<CellView>, order: Order, slots: seq<Node>,
                           p: seq<nat>, q: seq<nat>)
    ensures SignedAlike(sha, cells, cells', order, slots) && SamePlaces(cells, cells', order, p, q) ==>
              Shown(cells, order) == Shown(cells', order)
  {
    if SignedAlike(sha, cells, cells', order, slots) && SamePlaces(cells, cells', order, p, q) {
      var g := if ReadsGift(order.walletType, cells') then 1 else 0;
      var b := if ReadsBody(order.walletType, cells', order.currency) then 2 else 0;
      ShownAs(sha, cells, cells', order, slots, p, q, g, b);
      ReadsNoMore(sha, cells, cells', order, slots, p);
      hide SignedAlike, Corresponds, ReadsGift, ReadsBody, Message, ReadAlike, SaysTheSame;
      AlikeItself(cells, order);
      assert Shown(cells, order).Success? by { Accepted(sha, cells, cells', order, slots); }
      SameReading(order.walletType, cells, Rearranged(cells, g, b), order.wc, order.address, order.currency);
    }
  }

  lemma Accepted(sha: Sha256, cells: seq<CellView>, cells': seq<CellView>, order: Order, slots: seq<Node>)
    requires SignedAlike(sha, cells, cells', order, slots)
    ensures cells != [] && cells' != [] && Shown(cells, order).Success? && Shown(cells', order).Success?
  {
    hide Message, SignedCells, Distinguishes, Eval;
  }

  lemma AlikeItself(cells: seq<CellView>, order: Order)
    requires cells != [] && Shown(cells, order).Success?
    ensures ReadAlike(order.walletType, cells[0], cells[0])
    ensures forall j | 0 <= j < |cells| :: SaysTheSame(cells[j], cells[j])
  {
    hide BitsOf, ContractHeader, MultisigCall;
  }

  /** If the gift that the second message reads is at the place of cell 1, the first message reads the same cells. */
  lemma ReadsNoMore(sha: Sha256, cells: seq<CellView>, cells': seq<CellView>, order: Order, slots: seq<Node>,
                    p: seq<nat>)
    requires SignedAlike(sha, cells, cells', order, slots) && !cells[0].Pruned() && !cells'[0].Pruned()
    requires ReadsGift(order.walletType, cells') ==> SamePlace(cells, cells', p, 1, 1)
    ensures ReadsGift(order.walletType, cells') <==> ReadsGift(order.walletType, cells)
    ensures ReadsBody(order.walletType, cells', order.currency) <==> ReadsBody(order.walletType, cells, order.currency)
    ensures Shown(cells, order).Success?
  {
    hide SignedCells, SameContents, Unfold, Forward, Eval, Distinguishes, ReadsGift, ReadsBody, Message, ReadAlike,
         SaysTheSame;
    SameHashSameContents(sha, TreeOf(sha, cells, order, slots), TreeOf(sha, cells', order, slots));
    assert Leads(cells, [], 0, 0) && Leads(cells', [], 0, 0);
    SamePlaceSameCell(cells, cells', order, slots, [], 0, 0);
    RootsReadAlike(cells', cells, order);
    if ReadsGift(order.walletType, cells') {
      SameCellSaysTheSame(cells, cells', order, slots, p, 1, 1);
    }
    ReadsTheSame(order.walletType, cells', cells, order.wc, order.address, order.currency);
  }

  // Plain transfers of multisig wallets.

  predicate IsMultisig(walletType: byte) {
    OlderMultisig(walletType) || Prepends(walletType)
  }

  /** The function number in the root and the data of the gift make a plain transfer, and the gift has no body. */
  ghost predicate ShowsTransfer(root: CellView, gift: CellView) {
    var header := ContractHeader(BitsOf(root.data));
    header.Success? && PlainTransfer(BitsOf(gift.data), header.value.value) && gift.refs == []
  }

  ghost function TransferScreen(root: CellView, gift: CellView, order: Order): Result<Screen>
    requires ShowsTransfer(root, gift)
  {
    var functionId := ContractHeader(BitsOf(root.data)).value.value;
    MultisigParams(BitsOf(gift.data), functionId, order.wc, order.address, order.currency)
  }

  /** A message of a multisig wallet that is a plain transfer. */
  ghost predicate IsTransfer(cells: seq<CellView>, order: Order) {
    IsMultisig(order.walletType) && |cells| >= 2 && ShowsTransfer(cells[0], cells[1])
  }

  /** The screen of a plain transfer is that of the gift, and no body is read. */
  lemma TransferMessage(cells: seq<CellView>, order: Order)
    requires IsTransfer(cells, order)
    ensures Shown(cells, order) == TransferScreen(cells[0], cells[1], order)
    ensures ReadsGift(order.walletType, cells) && !ReadsBody(order.walletType, cells, order.currency)
  {
    hide BitsOf, ContractHeader, TransferParams, StartsStd;
  }

  /** Plain transfers are shown alike if and only if workchain, address and amount are the same. */
  lemma TransfersShownAlike(cells: seq<CellView>, cells': seq<CellView>, order: Order)
    requires IsTransfer(cells, order) && IsTransfer(cells', order) && Shown(cells, order).Success?
    ensures Shown(cells, order) == Shown(cells', order)
            <==> BitsOf(cells[1].data)[3..395] == BitsOf(cells'[1].data)[3..395]
  {
    hide BitsOf, ContractHeader, MultisigParams;
    TransferMessage(cells, order);
    TransferMessage(cells', order);
    ScreenDeterminesTransfer(BitsOf(cells[1].data), ContractHeader(BitsOf(cells[0].data)).value.value,
                             BitsOf(cells'[1].data), ContractHeader(BitsOf(cells'[0].data)).value.value,
                             order.wc, order.address, order.currency);
  }

  /**
   Two plain transfers that are signed alike are shown alike exactly if the first one's gift has the
   workchain, address and amount of the first one's cell at the place of the second one's gift.
   */
  lemma TransferShownAs(sha: Sha256, cells: seq<CellView>, cells': seq<CellView>, order: Order, slots: seq<Node>,
                        p: seq<nat>, g: nat)
    ensures IsTransfer(cells, order) && IsTransfer(cells', order) && SignedAlike(sha, cells, cells', order, slots)
            && SamePlace(cells, cells', p, g, 1) ==>
              && |BitsOf(cells[g].data)| >= 395
              && (Shown(cells, order) == Shown(cells', order)
                  <==> BitsOf(cells[1].data)[3..395] == BitsOf(cells[g].data)[3..395])
  {
    hide BitsOf, Message, SignedCells, Eval, SameContents, Unfold, Forward, Distinguishes, ShowsTransfer;
    if IsTransfer(cells, order) && IsTransfer(cells', order) && SignedAlike(sha, cells, cells', order, slots)
       && SamePlace(cells, cells', p, g, 1) {
      SameHashSameContents(sha, TreeOf(sha, cells, order, slots), TreeOf(sha, cells', order, slots));
      SameCellSaysTheSame(cells, cells', order, slots, p, g, 1);
      assert |BitsOf(cells'[1].data)| >= 395 by { TransferSize(cells'[0], cells'[1]); }
      TransfersShownAlike(cells, cells', order);
    }
  }

  lemma TransferSize(root: CellView, gift: CellView)
    requires ShowsTransfer(root, gift)
    ensures |BitsOf(gift.data)| >= 397
  {
    hide ContractHeader, BitsOf;
  }

  /** A plain transfer is longer than a pruned cell. */
  lemma GiftNotPruned(root: CellView, gift: CellView, count: nat)
    requires gift.Valid(1, count) && ShowsTransfer(root, gift)
    ensures !gift.Pruned()
  {
    hide ContractHeader;
  }

  /** Any cell in the place of the gift that is not pruned. */
  ghost predicate OtherGift(c: CellView, count: nat) {
    c.Valid(1, count) && !c.Pruned()
  }

  /** An accepted message that is a plain transfer. */
  ghost predicate AcceptedTransfer(sha: Sha256, cells: seq<CellView>, order: Order, slots: seq<Node>, count: nat) {
    Signs(sha, cells, order, slots) && IsTransfer(cells, order) && cells[1].Valid(1, count)
  }

  /** A cell without references can be put anywhere. */
  lemma ReplacedIsForward(table: seq<CellView>, slots: nat, n: nat, c: CellView)
    requires Forward(table, slots) && n < |table| && c.Shaped() && !c.Pruned() && c.refs == []
    ensures Forward(table[n := c], slots)
  {}

  lemma ReplacedIsAccepted(sha: Sha256, cells: seq<CellView>, n: nat, c: CellView, order: Order, slots: seq<Node>)
    requires Signs(sha, cells, order, slots) && 1 <= n < |cells| && c.Shaped() && !c.Pruned() && c.refs == []
    requires Shown(cells[n := c], order).Success?
    ensures Signs(sha, cells[n := c], order, slots)
  {
    hide Message, Forward, SignedCells, CellView.Shaped;
    ReplacedTable(cells, n, c, order);
    TableKeeps(cells, order);
    ReplacedIsForward(Table(cells, order).value, |slots|, n, c);
  }

  /** The gift with the first bit of the workchain turned over. */
  ghost function Flipped(gift: CellView): CellView
    requires |gift.data| >= 1
  {
    var bits := BitsOf(gift.data);
    gift.(data := Pack(bits[3 := !bits[3]]))
  }

  lemma FlippedIsOther(cells: seq<CellView>, order: Order, count: nat)
    requires |cells| >= 2 && cells[1].Valid(1, count) && ShowsTransfer(cells[0], cells[1])
    requires TransferScreen(cells[0], cells[1], order).Success?
    ensures cells[1].data != [] && OtherGift(Flipped(cells[1]), count) && Flipped(cells[1]).refs == []
    ensures ShowsTransfer(cells[0], Flipped(cells[1]))
    ensures TransferScreen(cells[0], Flipped(cells[1]), order).Success?
    ensures BitsOf(Flipped(cells[1]).data)[3..395] != BitsOf(cells[1].data)[3..395]
  {
    hide BitsOf, Pack, ContractHeader, Num, MultisigParams, AmountLine, DataSize, RefsCount, Exotic, WithHashes;
    var bits, functionId := BitsOf(cells[1].data), ContractHeader(BitsOf(cells[0].data)).value.value;
    var flipped := bits[3 := !bits[3]];
    BitsOfPack(flipped);
    assert flipped[..2] == bits[..2] && flipped[267..395] == bits[267..395];
    assert |bits| >= 404 ==> flipped[396..404] == bits[396..404];
    PlainTransferScreen(bits, functionId, order.wc, order.address, order.currency);
    PlainTransferScreen(flipped, functionId, order.wc, order.address, order.currency);
    assert flipped[3..395][0] != bits[3..395][0];
  }

  /**
   No other cell that is not pruned can take the place of cell 1 so that the message is signed alike
   and shown differently, exactly if the root refers to cell 1.
   */
  lemma TransferIsSigned(sha: Sha256, cells: seq<CellView>, order: Order, slots: seq<Node>, count: nat)
    ensures AcceptedTransfer(sha, cells, order, slots, count) ==>
              (Refers(cells, 0, 1) <==>
                forall c | OtherGift(c, count) && SignedAlike(sha, cells, cells[1 := c], order, slots) ::
                  Shown(cells[1 := c], order) == Shown(cells, order))
  {
    hide SignedAlike, Signs, ShowsTransfer, Message, Refers, CellView.Valid, BitsOf, Reaches, Eval;
    if AcceptedTransfer(sha, cells, order, slots, count) {
      WhatIsReached(sha, cells, order, slots);
      if Refers(cells, 0, 1) {
        forall c | OtherGift(c, count) && SignedAlike(sha, cells, cells[1 := c], order, slots)
          ensures Shown(cells[1 := c], order) == Shown(cells, order)
        {
          ReferencedGift(sha, cells, c, order, slots, count);
        }
      } else {
        UnreferencedGift(sha, cells, order, slots, count);
      }
    }
  }

  lemma WhatIsReached(sha: Sha256, cells: seq<CellView>, order: Order, slots: seq<Node>)
    requires Signs(sha, cells, order, slots)
    ensures Shown(cells, order).Success?
    ensures Reaches(cells, 0, 1) <==> Refers(cells, 0, 1)
    ensures Reaches(cells, 0, 2) <==> Refers(cells, 0, 2) || (Refers(cells, 0, 1) && Refers(cells, 1, 2))
  {
    hide Message, SignedCells, Forward, Eval, Reaches;
    TableKeeps(cells, order);
    var table := Table(cells, order).value;
    ReachedInTable(cells, table, 1);
    ReachedInTable(cells, table, 2);
    GiftReached(table, |slots|);
    BodyReached(table, |slots|);
    assert forall n | 0 <= n < 2 && n < |cells| :: cells[n].refs == table[n].refs;
  }

  lemma ReferencedGift(sha: Sha256, cells: seq<CellView>, c: CellView, order: Order, slots: seq<Node>, count: nat)
    requires AcceptedTransfer(sha, cells, order, slots, count) && Reaches(cells, 0, 1)
    requires OtherGift(c, count) && SignedAlike(sha, cells, cells[1 := c], order, slots)
    ensures Shown(cells[1 := c], order) == Shown(cells, order)
  {
    hide SignedAlike, Signs, ShowsTransfer, BitsOf, Reaches, MultisigParams, ContractHeader, Message, CellView.Valid;
    GiftNotPruned(cells[0], cells[1], count);
    ReachedIsSigned(sha, cells, 1, c, order, slots);
    SameCellShowsTransfer(cells[0], cells[1], c);
    TransferMessage(cells, order);
    TransferMessage(cells[1 := c], order);
  }

  lemma SameCellShowsTransfer(root: CellView, gift: CellView, c: CellView)
    requires ShowsTransfer(root, gift) && SameCell(gift, c)
    ensures ShowsTransfer(root, c)
  {
    hide ContractHeader, BitsOf;
  }

  lemma UnreferencedGift(sha: Sha256, cells: seq<CellView>, order: Order, slots: seq<Node>, count: nat)
    requires AcceptedTransfer(sha, cells, order, slots, count) && !Reaches(cells, 0, 1) && Shown(cells, order).Success?
    ensures var c := Flipped(cells[1]);
            && OtherGift(c, count) && SignedAlike(sha, cells, cells[1 := c], order, slots)
            && Shown(cells[1 := c], order) != Shown(cells, order)
  {
    hide SignedAlike, Signs, ShowsTransfer, BitsOf, Reaches, MultisigParams, ContractHeader, Message, Flipped;
    TransferMessage(cells, order);
    FlippedIsOther(cells, order, count);
    var c := Flipped(cells[1]);
    TransferMessage(cells[1 := c], order);
    GiftNotPruned(cells[0], c, count);
    ReplacedIsAccepted(sha, cells, 1, c, order, slots);
    UnreachedIsNotSigned(sha, cells, 1, c, order, slots);
    SameTreeIsSignedAlike(sha, cells, cells[1 := c], order, slots);
    TransfersShownAlike(cells, cells[1 := c], order);
  }

  // Bodies of multisig calls.

  /** A cell without data and references. */
  const NO_BODY := CellView(0, 0, [], [])

  /** Too short for a function number. */
  const SHORT_BODY := CellView(0, 2, [0], [])

  /** The function number of a burn, and an amount of zero. */
  function BurnBits(): (bits: seq<bool>)
    ensures |bits| == 160
  {
    ToBits(TOKEN_BURN, 32) + Zeros(128)
  }

  function BurnBody(): (c: CellView)
    ensures c.d1 == 0 && c.Shaped() && c.refs == [] && |c.data| == 20
  {
    CellView(0, 40, Pack(BurnBits()), [])
  }

  lemma BurnIsBurn()
    ensures TokenBurn(BitsOf(BurnBody().data)) && Num(BitsOf(BurnBody().data)[32..160]) == 0
  {
    hide Num, ToBits, Pow2, BitsOf, Pack;
    Pow2Add(16, 16);
    Pow2Values();
    NumToBitsSmall(TOKEN_BURN, 32);
    NumZeros(128);
    BitsOfPack(BurnBits());
    assert BurnBits()[..32] == ToBits(TOKEN_BURN, 32) && BurnBits()[32..160] == Zeros(128);
  }

  /** A call to a multisig wallet of which the body is shown. */
  ghost predicate ShowsBody(cells: seq<CellView>, order: Order) {
    && |cells| >= 3 && IsMultisig(order.walletType) && ReadsBody(order.walletType, cells, order.currency)
    && Shown(cells, order).Success?
  }

  /** The screen is that of the call without the body, completed by what the body says. */
  lemma BodyDecides(cells: seq<CellView>, c: CellView, order: Order)
    requires ShowsBody(cells, order)
    ensures var bare := Shown(cells[2 := NO_BODY], order);
            && bare.Success? && bare.value.flow != Burn
            && Shown(cells[2 := c], order)
               == if c.data == [] then bare else BodyScreen(BitsOf(c.data), bare.value, order.currency)
  {
    hide BitsOf, ContractHeader, BodyScreen, Destination, AmountLine, Num, AddressText, Hex, Pack;
  }

  /** Some body would be shown differently from another. */
  ghost predicate BodyMatters(cells: seq<CellView>, order: Order)
    requires |cells| >= 3
  {
    var bare := Shown(cells[2 := NO_BODY], order);
    (bare.Success? && bare.value.flow != Transfer) || AmountLine(0, NORMAL_FLAG, order.currency).Success?
  }

  /** A body that is shown differently from the one there is. */
  ghost function OtherThan(cells: seq<CellView>, order: Order): (c: CellView)
    requires |cells| >= 3
    ensures c.d1 == 0 && c.Shaped() && c.refs == []
  {
    var screen := Shown(cells, order);
    if AmountLine(0, NORMAL_FLAG, order.currency).Success? then
      if screen.Success? && screen.value.flow == Burn then NO_BODY else BurnBody()
    else if screen.Success? && screen.value.flow == Transfer then NO_BODY
    else SHORT_BODY
  }

  lemma OtherThanIsOther(cells: seq<CellView>, order: Order, count: nat)
    requires |cells| >= 3
    ensures var c := OtherThan(cells, order); OtherBody(c, count) && c.refs == []
  {
    hide Shown, AmountLine, OtherThan;
    UnreferringIsValid(OtherThan(cells, order), 2, count);
  }

  lemma UnreferringIsValid(c: CellView, index: nat, count: nat)
    requires c.d1 == 0 && c.Shaped() && c.refs == []
    ensures c.Valid(index, count) && !c.Pruned()
  {
    hide DataSize;
  }

  lemma OtherThanDiffers(cells: seq<CellView>, order: Order)
    requires ShowsBody(cells, order) && BodyMatters(cells, order)
    ensures var other := Shown(cells[2 := OtherThan(cells, order)], order);
            other.Success? && other != Shown(cells, order)
  {
    hide Message, BitsOf, BodyScreen, AmountLine, Num, ReadsBody;
    var bare := Shown(cells[2 := NO_BODY], order);
    BodyDecides(cells, OtherThan(cells, order), order);
    BurnIsBurn();
    TokenBurnScreen(BitsOf(BurnBody().data), bare.value, order.currency);
    ShortBodyScreen(bare.value, order.currency);
  }

  lemma ShortBodyScreen(screen: Screen, currency: Currency)
    ensures BodyScreen(BitsOf(SHORT_BODY.data), screen, currency) == Success(screen.(flow := Transfer))
  {
    hide BitsOf, TokenTransfer, TokenAmount;
  }

  /** If no body matters, every body leaves the screen as it is without one. */
  lemma NoBodyMatters(cells: seq<CellView>, c: CellView, order: Order)
    requires ShowsBody(cells, order) && !BodyMatters(cells, order) && Shown(cells[2 := c], order).Success?
    ensures Shown(cells[2 := c], order) == Shown(cells[2 := NO_BODY], order)
  {
    hide Message, BitsOf, BodyScreen, AmountLine, ReadsBody;
    BodyDecides(cells, c, order);
    if c.data != [] {
      OtherBodyScreen(BitsOf(c.data), Shown(cells[2 := NO_BODY], order).value, order.currency);
    }
  }

  /** An accepted call of which the body is shown, and not pruned. */
  ghost predicate AcceptedCall(sha: Sha256, cells: seq<CellView>, order: Order, slots: seq<Node>) {
    Signs(sha, cells, order, slots) && ShowsBody(cells, order) && !cells[2].Pruned()
  }

  ghost predicate OtherBody(c: CellView, count: nat) {
    c.Valid(2, count) && !c.Pruned()
  }

  /** The root refers to the body, or to a gift that does. */
  predicate RefersToBody(cells: seq<CellView>) {
    Refers(cells, 0, 2) || (Refers(cells, 0, 1) && Refers(cells, 1, 2))
  }

  /**
   No other body can take the place of cell 2 that is signed alike and shown differently, exactly if
   the root refers to cell 2, or to a gift that refers to it, or no body makes a difference.
   */
  lemma BodyIsSigned(sha: Sha256, cells: seq<CellView>, order: Order, slots: seq<Node>, count: nat)
    ensures AcceptedCall(sha, cells, order, slots) ==>
              (RefersToBody(cells) || !BodyMatters(cells, order) <==>
                forall c | OtherBody(c, count) && SignedAlike(sha, cells, cells[2 := c], order, slots) ::
                  Shown(cells[2 := c], order) == Shown(cells, order))
  {
    hide SignedAlike, Signs, Message, ReadsBody, Refers, CellView.Valid, Reaches, Eval, BodyMatters, AmountLine;
    if AcceptedCall(sha, cells, order, slots) {
      WhatIsReached(sha, cells, order, slots);
      if RefersToBody(cells) || !BodyMatters(cells, order) {
        forall c | OtherBody(c, count) && SignedAlike(sha, cells, cells[2 := c], order, slots)
          ensures Shown(cells[2 := c], order) == Shown(cells, order)
        {
          SignedBody(sha, cells, c, order, slots);
        }
      } else {
        UnsignedBody(sha, cells, order, slots, count);
      }
    }
  }

  lemma SignedBody(sha: Sha256, cells: seq<CellView>, c: CellView, order: Order, slots: seq<Node>)
    requires AcceptedCall(sha, cells, order, slots) && !c.Pruned()
    requires SignedAlike(sha, cells, cells[2 := c], order, slots)
    requires Reaches(cells, 0, 2) || !BodyMatters(cells, order)
    ensures Shown(cells[2 := c], order) == Shown(cells, order)
  {
    hide Signs, Message, Reaches, ReadsBody, BodyMatters, SignedAlike;
    assert cells[2 := cells[2]] == cells;
    if Reaches(cells, 0, 2) {
      ReachedIsSigned(sha, cells, 2, c, order, slots);
      BodyDecides(cells, c, order);
      BodyDecides(cells, cells[2], order);
    } else {
      Accepted(sha, cells, cells[2 := c], order, slots);
      NoBodyMatters(cells, c, order);
      NoBodyMatters(cells, cells[2], order);
    }
  }

  lemma UnsignedBody(sha: Sha256, cells: seq<CellView>, order: Order, slots: seq<Node>, count: nat)
    requires AcceptedCall(sha, cells, order, slots)
    requires !Reaches(cells, 0, 2) && BodyMatters(cells, order)
    ensures var c := OtherThan(cells, order);
            && OtherBody(c, count) && SignedAlike(sha, cells, cells[2 := c], order, slots)
            && Shown(cells[2 := c], order) != Shown(cells, order)
  {
    var c := OtherThan(cells, order);
    OtherThanIsOther(cells, order, count);
    hide Signs, Message, Reaches, ReadsBody, BodyMatters, SignedAlike, AmountLine, OtherThan;
    OtherThanDiffers(cells, order);
    ReplacedIsAccepted(sha, cells, 2, c, order, slots);
    UnreachedIsNotSigned(sha, cells, 2, c, order, slots);
    SameTreeIsSignedAlike(sha, cells, cells[2 := c], order, slots);
  }
}
