/**
 Pruning what is shown. A pruned cell counts with the hash and the depth among its bytes, and is read
 like any other cell; neither its type byte nor its level byte is checked or hashed. So a pruned cell
 in the place of a cell that is shown leaves the bytes to sign unchanged, and is shown as what its
 bytes happen to say.
 */
module Pruning {
  import opened Bits
  import opened Seqs
  import opened Outcomes
  import opened Cells
  import opened CellHash
  import opened SliceWriter
  import opened Fields
  import opened Prepending
  import opened Display
  import opened MessageFormat
  import opened Signing
  import opened Binding
  import opened Places
  import opened WhatIsSigned

  /** A pruned cell with the hash and depth of cell n of an accepted message. */
  ghost predicate StandsFor(sha: Sha256, cells: seq<CellView>, n: nat, c: CellView, order: Order, slots: seq<Node>) {
    && Signs(sha, cells, order, slots) && n < |cells| && Replaceable(n, order)
    && c.Pruned() && c.Shaped() && |c.data| == PRUNED_BRANCH_DATA_SIZE
    && PrunedNode(c.data) == NodeOf(sha, cells, n, order, slots)
  }

  /** There is one for every type byte, level byte and high byte of the depth. */
  ghost function StandIn(node: Node, kind: byte, level: byte, high: byte): (c: CellView)
    ensures c.d1 == PRUNED_BRANCH_D1 && c.d2 == 72 && |c.data| == PRUNED_BRANCH_DATA_SIZE && c.refs == []
    ensures c.data[0] == kind && PrunedNode(c.data) == node
  {
    var data := [kind, level] + node.hash + [high, node.depth];
    assert data[2..2 + HASH_SIZE] == node.hash;
    CellView(PRUNED_BRANCH_D1, 72, data, [])
  }

  /** These are all of them. */
  lemma AllStandIns(data: seq<byte>)
    requires |data| == PRUNED_BRANCH_DATA_SIZE
    ensures StandIn(PrunedNode(data), data[0], data[1], data[34]).data == data
  {
    assert data == [data[0], data[1]] + data[2..34] + [data[34], data[35]];
  }

  lemma StandInStands(sha: Sha256, cells: seq<CellView>, n: nat, kind: byte, level: byte, high: byte, order: Order,
                      slots: seq<Node>)
    requires Signs(sha, cells, order, slots) && n < |cells| && Replaceable(n, order)
    ensures StandsFor(sha, cells, n, StandIn(NodeOf(sha, cells, n, order, slots), kind, level, high), order, slots)
  {
    hide Signs, NodeOf;
  }

  lemma StandInIsValid(c: CellView, n: nat, count: nat)
    requires c.Pruned() && c.Shaped() && |c.data| == PRUNED_BRANCH_DATA_SIZE
    ensures c.Valid(n, count) && c.refs == []
  {}

  lemma StandInIsForward(table: seq<CellView>, slots: nat, n: nat, c: CellView)
    requires Forward(table, slots) && n < |table| && c.Pruned() && c.Shaped() && |c.data| == PRUNED_BRANCH_DATA_SIZE
    ensures Forward(table[n := c], slots)
  {}

  /**
   In the place of the cell it stands for a pruned cell is valid; the message is accepted exactly if it
   can be shown, and then it is signed alike.
   */
  lemma CellCanBePruned(sha: Sha256, cells: seq<CellView>, n: nat, c: CellView, order: Order, slots: seq<Node>,
                        count: nat)
    ensures StandsFor(sha, cells, n, c, order, slots) ==>
              && c.Valid(n, count)
              && (Signs(sha, cells[n := c], order, slots) <==> Shown(cells[n := c], order).Success?)
              && (Signs(sha, cells[n := c], order, slots) ==> SignedAlike(sha, cells, cells[n := c], order, slots))
  {
    if StandsFor(sha, cells, n, c, order, slots) {
      StandInIsValid(c, n, count);
      hide Signs, CellView.Valid, SignedAlike, Shown, NodeOf;
      if Shown(cells[n := c], order).Success? {
        StandInIsSigned(sha, cells, n, c, order, slots);
        BothAccepted(sha, cells, cells[n := c], order, slots);
      } else if Signs(sha, cells[n := c], order, slots) {
        AcceptedIsShown(sha, cells[n := c], order, slots);
      }
    }
  }

  lemma BothAccepted(sha: Sha256, cells: seq<CellView>, cells': seq<CellView>, order: Order, slots: seq<Node>)
    requires SignedAlike(sha, cells, cells', order, slots)
    ensures Signs(sha, cells, order, slots) && Signs(sha, cells', order, slots)
  {
    hide Signs, TreeOf, Distinguishes;
  }

  lemma AcceptedIsShown(sha: Sha256, cells: seq<CellView>, order: Order, slots: seq<Node>)
    requires Signs(sha, cells, order, slots)
    ensures Shown(cells, order).Success?
  {
    hide Message, SignedCells, RootHash;
  }

  lemma StandInIsSigned(sha: Sha256, cells: seq<CellView>, n: nat, c: CellView, order: Order, slots: seq<Node>)
    requires StandsFor(sha, cells, n, c, order, slots) && Shown(cells[n := c], order).Success?
    ensures SignedAlike(sha, cells, cells[n := c], order, slots)
  {
    hide Message, SignedCells, Forward, Eval, Unfold, Distinguishes;
    var table := Table(cells, order).value;
    TableKeeps(cells, order);
    ReplacedTable(cells, n, c, order);
    StandInIsForward(table, |slots|, n, c);
    StandInEvaluates(sha, table, slots, n, c);
    SameNodeEvaluates(sha, table, slots, n, c, 0);
    PrunedIsDistinguished(sha, table, slots, n, c, 0);
  }

  lemma StandInEvaluates(sha: Sha256, table: seq<CellView>, slots: seq<Node>, n: nat, c: CellView)
    requires n < |table| && Forward(table[n := c], |slots|) && c.Pruned()
    ensures PrunedData(c.data) && Eval(sha, Unfold(table[n := c], slots, n)) == PrunedNode(c.data)
  {
    assert table[n := c][n] == c;
  }

  // The gift.

  /** A call of a multisig wallet that transfers, and reads what in cell 1. */
  ghost predicate Transfers(cells: seq<CellView>, order: Order) {
    && |cells| >= 2 && IsMultisig(order.walletType)
    && var header := ContractHeader(BitsOf(cells[0].data));
       header.Success? && (header.value.value == MULTISIG_SEND_TRANSACTION || IsSubmit(header.value.value))
  }

  /** The flags are given in eight bits. */
  ghost predicate Sends(cells: seq<CellView>)
    requires cells != []
  {
    var header := ContractHeader(BitsOf(cells[0].data));
    header.Success? && header.value.value == MULTISIG_SEND_TRANSACTION
  }

  lemma PrunedGiftScreen(cells: seq<CellView>, c: CellView, order: Order)
    requires Transfers(cells, order) && |c.data| == PRUNED_BRANCH_DATA_SIZE && c.refs == []
    ensures var line := PrunedLine(c.data, Sends(cells), order.currency);
            if c.data[0] >= 0x40 || line.Failure? then Shown(cells[1 := c], order).Failure?
            else Shown(cells[1 := c], order) == Success(Screen(Transfer, Garbled, Text(line.value), Blank))
  {
    hide BitsOf, ContractHeader, TransferParams, PrunedLine;
    PrunedTransferScreen(c.data, Sends(cells), order.currency);
  }

  /** The flags in the hash say that all of the balance is moved. */
  ghost predicate MovesAll(data: seq<byte>, send: bool)
    requires |data| == PRUNED_BRANCH_DATA_SIZE
  {
    var flags := TransferFlags(BitsOf(data)[130..], send).value;
    flags == ALL_BALANCE_FLAG || flags == ALL_BALANCE_AND_DELETE_FLAG
  }

  /**
   A transfer with its gift pruned is accepted exactly if the type byte is below 64 and there is a line for
   the amount and the flags that the level byte and the hash happen to be read as; with the type byte 1
   exactly if these flags move all of the balance. It is signed alike, and shown without an address.
   */
  lemma GiftCanBePruned(sha: Sha256, cells: seq<CellView>, c: CellView, order: Order, slots: seq<Node>)
    ensures StandsFor(sha, cells, 1, c, order, slots) && Transfers(cells, order) ==>
              var line := PrunedLine(c.data, Sends(cells), order.currency);
              && (Signs(sha, cells[1 := c], order, slots) <==> c.data[0] < 0x40 && line.Success?)
              && (c.data[0] == 1 ==> (line.Success? <==> MovesAll(c.data, Sends(cells))))
              && (Signs(sha, cells[1 := c], order, slots) ==>
                    && SignedAlike(sha, cells, cells[1 := c], order, slots)
                    && Shown(cells[1 := c], order) == Success(Screen(Transfer, Garbled, Text(line.value), Blank)))
  {
    if StandsFor(sha, cells, 1, c, order, slots) && Transfers(cells, order) {
      StandInIsValid(c, 1, 1);
      hide Signs, SignedAlike, Message, ContractHeader, PrunedLine, BitsOf, CellView.Valid, NodeOf;
      CellCanBePruned(sha, cells, 1, c, order, slots, 1);
      PrunedGiftScreen(cells, c, order);
      if c.data[0] == 1 {
        PrunedMovesAll(c.data, Sends(cells), order.currency);
      }
    }
  }

  /** With some bytes that are not hashed the hash and depth of the gift make a transfer that can be shown. */
  ghost predicate ReadsAsTransfer(node: Node, send: bool, currency: Currency) {
    exists kind: byte, level: byte, high: byte ::
      kind < 0x40 && PrunedLine(StandIn(node, kind, level, high).data, send, currency).Success?
  }

  /**
   Nothing, pruned or not, can take the place of the gift of a plain transfer so that the message is signed
   alike and shown differently, exactly if the root refers to cell 1 and the hash of cell 1 does not
   happen to be read as a transfer.
   */
  lemma GiftCannotBeExchanged(sha: Sha256, cells: seq<CellView>, order: Order, slots: seq<Node>, count: nat)
    ensures AcceptedTransfer(sha, cells, order, slots, count) ==>
              var node := NodeOf(sha, cells, 1, order, slots);
              (Refers(cells, 0, 1) && !ReadsAsTransfer(node, Sends(cells), order.currency)
               <==> forall c: CellView | c.Valid(1, count) && SignedAlike(sha, cells, cells[1 := c], order, slots) ::
                      Shown(cells[1 := c], order) == Shown(cells, order))
  {
    if AcceptedTransfer(sha, cells, order, slots, count) {
      hide SignedAlike, Signs, Message, Refers, CellView.Valid, BitsOf, Reaches, Eval, ReadsAsTransfer, ShowsTransfer;
      TransferIsSigned(sha, cells, order, slots, count);
      if Refers(cells, 0, 1) && ReadsAsTransfer(NodeOf(sha, cells, 1, order, slots), Sends(cells), order.currency) {
        var c := FakeGift(sha, cells, order, slots, count);
        assert Shown(cells[1 := c], order) != Shown(cells, order);
      } else if Refers(cells, 0, 1) {
        forall c: CellView | c.Valid(1, count) && SignedAlike(sha, cells, cells[1 := c], order, slots)
          ensures Shown(cells[1 := c], order) == Shown(cells, order)
        {
          if c.Pruned() {
            NoFakeGift(sha, cells, c, order, slots, count);
          }
          assert OtherGift(c, count);
        }
      }
    }
  }

  /** Of an accepted plain transfer the address is shown. */
  lemma TransferNamesAddress(sha: Sha256, cells: seq<CellView>, order: Order, slots: seq<Node>)
    requires Signs(sha, cells, order, slots) && IsTransfer(cells, order)
    ensures Transfers(cells, order) && Shown(cells, order).Success? && Shown(cells, order).value.address.Text?
  {
    hide BitsOf, ContractHeader, MultisigParams, Num, AmountLine, AddressText, Pack;
    AcceptedIsShown(sha, cells, order, slots);
    TransferMessage(cells, order);
    PlainTransferScreen(BitsOf(cells[1].data), ContractHeader(BitsOf(cells[0].data)).value.value, order.wc,
                        order.address, order.currency);
  }

  lemma FakeGift(sha: Sha256, cells: seq<CellView>, order: Order, slots: seq<Node>, count: nat) returns (c: CellView)
    requires AcceptedTransfer(sha, cells, order, slots, count)
    requires ReadsAsTransfer(NodeOf(sha, cells, 1, order, slots), Sends(cells), order.currency)
    ensures c.Valid(1, count) && SignedAlike(sha, cells, cells[1 := c], order, slots)
    ensures Shown(cells[1 := c], order) != Shown(cells, order)
  {
    hide Signs, Message, SignedAlike, PrunedLine, ShowsTransfer, StandsFor, StandIn, NodeOf, CellView.Valid;
    var node := NodeOf(sha, cells, 1, order, slots);
    var kind: byte, level: byte, high: byte :|
      kind < 0x40 && PrunedLine(StandIn(node, kind, level, high).data, Sends(cells), order.currency).Success?;
    c := StandIn(node, kind, level, high);
    StandInStands(sha, cells, 1, kind, level, high, order, slots);
    TransferNamesAddress(sha, cells, order, slots);
    GiftCanBePruned(sha, cells, c, order, slots);
    CellCanBePruned(sha, cells, 1, c, order, slots, count);
  }

  /** A pruned cell with which a transfer is signed alike reads as a transfer. */
  lemma NoFakeGift(sha: Sha256, cells: seq<CellView>, c: CellView, order: Order, slots: seq<Node>, count: nat)
    requires AcceptedTransfer(sha, cells, order, slots, count) && Refers(cells, 0, 1)
    requires c.Valid(1, count) && c.Pruned() && SignedAlike(sha, cells, cells[1 := c], order, slots)
    ensures ReadsAsTransfer(NodeOf(sha, cells, 1, order, slots), Sends(cells), order.currency)
  {
    assert |c.data| == PRUNED_BRANCH_DATA_SIZE && c.Shaped();
    assert Signs(sha, cells[1 := c], order, slots);
    hide Signs, Message, PrunedLine, ShowsTransfer, NodeOf, CellView.Valid, SignedAlike, Refers, Reaches, TreeOf;
    WhatIsReached(sha, cells, order, slots);
    ReachedNode(sha, cells, 1, c, order, slots);
    PrunedNodeOf(sha, cells, 1, c, order, slots);
    TransferNamesAddress(sha, cells, order, slots);
    GiftCanBePruned(sha, cells, c, order, slots);
    AllStandIns(c.data);
  }

  lemma PrunedNodeOf(sha: Sha256, cells: seq<CellView>, n: nat, c: CellView, order: Order, slots: seq<Node>)
    requires 1 <= n < |cells| && Signs(sha, cells, order, slots) && Signs(sha, cells[n := c], order, slots)
    requires c.Pruned()
    ensures PrunedData(c.data) && NodeOf(sha, cells[n := c], n, order, slots) == PrunedNode(c.data)
  {
    hide Message, SignedCells;
    ReplacedTable(cells, n, c, order);
    StandInEvaluates(sha, Table(cells, order).value, slots, n, c);
  }

  /** A wallet v3 refuses a pruned gift with the type byte of a pruned cell. */
  lemma V3GiftCannotBePruned(sha: Sha256, cells: seq<CellView>, c: CellView, order: Order, slots: seq<Node>)
    ensures StandsFor(sha, cells, 1, c, order, slots) && order.walletType == WALLET_V3 && c.data[0] == 1 ==>
              !Signs(sha, cells[1 := c], order, slots)
  {
    if StandsFor(sha, cells, 1, c, order, slots) && order.walletType == WALLET_V3 && c.data[0] == 1 {
      hide SignedCells, RootHash, IntMessage, BitsOf, WalletV3, V3Body, NodeOf;
      var flags := WalletV3(BitsOf(cells[0].data));
      if flags.Success? {
        PrunedIsNoGift(c.data, flags.value, order.currency);
      }
    }
  }

  // The body.

  /**
   A call with its body pruned is shown as the bytes of the pruned cell say, and signed alike if that can
   be shown: with the type byte 1 always, as a transfer with the lines it has without a body.
   */
  lemma BodyCanBePruned(sha: Sha256, cells: seq<CellView>, c: CellView, order: Order, slots: seq<Node>)
    ensures StandsFor(sha, cells, 2, c, order, slots) && ShowsBody(cells, order) ==>
              var bare := Shown(cells[2 := NO_BODY], order);
              && bare.Success?
              && Shown(cells[2 := c], order) == BodyScreen(BitsOf(c.data), bare.value, order.currency)
              && (c.data[0] == 1 ==> Shown(cells[2 := c], order) == Success(bare.value.(flow := Transfer)))
              && (Shown(cells[2 := c], order).Success? ==> SignedAlike(sha, cells, cells[2 := c], order, slots))
  {
    if StandsFor(sha, cells, 2, c, order, slots) && ShowsBody(cells, order) {
      hide Signs, Message, ReadsBody, BodyScreen, SignedAlike, NodeOf, BitsOf;
      BodyDecides(cells, c, order);
      if c.data[0] == 1 {
        PrunedBodyScreen(c.data, Shown(cells[2 := NO_BODY], order).value, order.currency);
      }
      CellCanBePruned(sha, cells, 2, c, order, slots, 2);
    }
  }

  /** With all bytes that are not hashed the hash and depth of the body are shown, if at all, as the body is. */
  ghost predicate ShownAsBody(cells: seq<CellView>, node: Node, order: Order)
    requires |cells| >= 3
  {
    var bare := Shown(cells[2 := NO_BODY], order);
    bare.Success? &&
      forall kind: byte, level: byte, high: byte ::
        var screen := BodyScreen(BitsOf(StandIn(node, kind, level, high).data), bare.value, order.currency);
        screen.Success? ==> screen == Shown(cells, order)
  }

  /**
   Nothing, pruned or not, can take the place of the body of a call so that the message is signed alike
   and shown differently, exactly if the body is referred to, or no body makes a difference, and the
   hash of the body is shown as the body is.
   */
  lemma BodyCannotBeExchanged(sha: Sha256, cells: seq<CellView>, order: Order, slots: seq<Node>, count: nat)
    ensures AcceptedCall(sha, cells, order, slots) ==>
              var node := NodeOf(sha, cells, 2, order, slots);
              ((RefersToBody(cells) || !BodyMatters(cells, order)) && ShownAsBody(cells, node, order)
               <==> forall c: CellView | c.Valid(2, count) && SignedAlike(sha, cells, cells[2 := c], order, slots) ::
                      Shown(cells[2 := c], order) == Shown(cells, order))
  {
    if AcceptedCall(sha, cells, order, slots) {
      hide SignedAlike, Signs, Message, ReadsBody, RefersToBody, CellView.Valid, BodyMatters, ShownAsBody, NodeOf;
      BodyIsSigned(sha, cells, order, slots, count);
      if RefersToBody(cells) || !BodyMatters(cells, order) {
        if ShownAsBody(cells, NodeOf(sha, cells, 2, order, slots), order) {
          forall c: CellView | c.Valid(2, count) && SignedAlike(sha, cells, cells[2 := c], order, slots)
            ensures Shown(cells[2 := c], order) == Shown(cells, order)
          {
            if c.Pruned() {
              NoFakeBody(sha, cells, c, order, slots, count);
            }
            assert !c.Pruned() ==> OtherBody(c, count);
          }
        } else {
          var c := FakeBody(sha, cells, order, slots, count);
          assert Shown(cells[2 := c], order) != Shown(cells, order);
        }
      }
    }
  }

  lemma FakeBody(sha: Sha256, cells: seq<CellView>, order: Order, slots: seq<Node>, count: nat) returns (c: CellView)
    requires AcceptedCall(sha, cells, order, slots)
    requires !ShownAsBody(cells, NodeOf(sha, cells, 2, order, slots), order)
    ensures c.Valid(2, count) && SignedAlike(sha, cells, cells[2 := c], order, slots)
    ensures Shown(cells[2 := c], order) != Shown(cells, order)
  {
    hide Signs, Message, ReadsBody, SignedAlike, StandsFor, StandIn, NodeOf, CellView.Valid, BodyScreen, BitsOf;
    BodyDecides(cells, NO_BODY, order);
    var node, bare := NodeOf(sha, cells, 2, order, slots), Shown(cells[2 := NO_BODY], order);
    var kind: byte, level: byte, high: byte :|
      var screen := BodyScreen(BitsOf(StandIn(node, kind, level, high).data), bare.value, order.currency);
      screen.Success? && screen != Shown(cells, order);
    c := StandIn(node, kind, level, high);
    StandInStands(sha, cells, 2, kind, level, high, order, slots);
    BodyCanBePruned(sha, cells, c, order, slots);
    CellCanBePruned(sha, cells, 2, c, order, slots, count);
  }

  lemma NoFakeBody(sha: Sha256, cells: seq<CellView>, c: CellView, order: Order, slots: seq<Node>, count: nat)
    requires AcceptedCall(sha, cells, order, slots) && (RefersToBody(cells) || !BodyMatters(cells, order))
    requires ShownAsBody(cells, NodeOf(sha, cells, 2, order, slots), order)
    requires c.Valid(2, count) && c.Pruned() && SignedAlike(sha, cells, cells[2 := c], order, slots)
    ensures Shown(cells[2 := c], order) == Shown(cells, order)
  {
    assert |c.data| == PRUNED_BRANCH_DATA_SIZE && c.Shaped();
    BothAccepted(sha, cells, cells[2 := c], order, slots);
    AcceptedIsShown(sha, cells[2 := c], order, slots);
    hide Signs, Message, ReadsBody, NodeOf, CellView.Valid, SignedAlike, Reaches, TreeOf, BodyMatters, BodyScreen;
    WhatIsReached(sha, cells, order, slots);
    if Reaches(cells, 0, 2) {
      ReachedNode(sha, cells, 2, c, order, slots);
      PrunedNodeOf(sha, cells, 2, c, order, slots);
      AllStandIns(c.data);
      BodyDecides(cells, c, order);
    } else {
      NoBodyMatters(cells, c, order);
      assert cells[2 := cells[2]] == cells;
      NoBodyMatters(cells, cells[2], order);
    }
  }

  lemma PrunedBodyScreen(data: seq<byte>, screen: Screen, currency: Currency)
    requires |data| >= 4 && data[0] == 1
    ensures BodyScreen(BitsOf(data), screen, currency) == Success(screen.(flow := Transfer))
  {
    hide BitsOf, Num, TokenTransfer, TokenAmount;
    BitsOfByte(data, 0);
    FirstByteIsOne(BitsOf(data));
  }

  /** No function number starts with the type byte of a pruned cell. */
  lemma FirstByteIsOne(bits: seq<bool>)
    requires |bits| >= 32 && bits[0..8] == ToBits(1, 8)
    ensures Num(bits[..32]) < 0x200_0000
  {
    hide Num, ToBits, Pow2;
    var a, b := bits[0..8], bits[8..32];
    assert bits[..32] == a + b;
    NumAppend(a, b);
    Pow2Add(8, 16);
    Pow2Values();
    NumToBitsSmall(1, 8);
    NumBound(b);
  }

  // Confirmations.

  /** The call confirms a transaction, and reads its number in cell 1. */
  ghost predicate ConfirmsInGift(cells: seq<CellView>, order: Order) {
    && |cells| >= 2 && Prepends(order.walletType)
    && var header := ContractHeader(BitsOf(cells[0].data));
       header.Success? && header.value.value == MULTISIG_CONFIRM_TRANSACTION
  }

  /** With the number pruned a confirmation is signed alike, and shows the first bytes of the pruned cell. */
  lemma ConfirmationCanBePruned(sha: Sha256, cells: seq<CellView>, c: CellView, order: Order, slots: seq<Node>)
    ensures StandsFor(sha, cells, 1, c, order, slots) && ConfirmsInGift(cells, order) ==>
              && SignedAlike(sha, cells, cells[1 := c], order, slots)
              && Shown(cells[1 := c], order) == Success(Screen(Confirm, Blank, Blank, Text(Hex(c.data[..8]))))
  {
    if StandsFor(sha, cells, 1, c, order, slots) && ConfirmsInGift(cells, order) {
      StandInIsValid(c, 1, 1);
      hide Signs, Message, ContractHeader, SignedAlike, Hex, NodeOf, CellView.Valid;
      ConfirmationScreen(cells, c, order);
      CellCanBePruned(sha, cells, 1, c, order, slots, 1);
    }
  }

  lemma ConfirmationScreen(cells: seq<CellView>, c: CellView, order: Order)
    requires ConfirmsInGift(cells, order) && |c.data| >= 8 && c.refs == []
    ensures Shown(cells[1 := c], order) == Success(Screen(Confirm, Blank, Blank, Text(Hex(c.data[..8]))))
  {
    hide BitsOf, ContractHeader, Hex, Pack;
    BitsOfPrefix(c.data, 8, 64);
    assert BitsOf(c.data)[..64] == BitsOf(c.data[..8]);
    PackBitsOf(c.data[..8]);
  }

  // The root.

  /** The function number that the older wallets read in a pruned root: it is in the hash. */
  ghost function FunctionInHash(data: seq<byte>): nat
    requires |data| == PRUNED_BRANCH_DATA_SIZE
  {
    Num(BitsOf(data[2..34])[81..113])
  }

  lemma PrunedHeader(data: seq<byte>)
    requires |data| == PRUNED_BRANCH_DATA_SIZE
    ensures var header := ContractHeader(BitsOf(data));
            if data[0] < 0x80 then header == Success(Read(FunctionInHash(data), BitsOf(data)[129..]))
            else header.Failure?
  {
    hide BitsOf, Num;
    var bits := BitsOf(data);
    TypeByte(data);
    BitsOfSlice(data, 2, 34);
    HeaderSlices(bits, BitsOf(data[2..34]));
  }

  lemma HeaderSlices(bits: seq<bool>, hash: seq<bool>)
    requires |bits| == 288 && |hash| == 256 && bits[16..272] == hash
    ensures bits[97..][..32] == hash[81..113] && bits[97..][32..] == bits[129..]
  {
    SliceInside(bits, 16, 272, hash, 81, 113, 97, 129);
  }

  /**
   The screen of a plain transfer with its root pruned, if the function number in the hash is f: the number of
   a transaction that is also in the hash, or the gift read as a call to f.
   */
  ghost function PrunedRootScreen(cells: seq<CellView>, data: seq<byte>, order: Order): Result<Screen>
    requires |cells| >= 2 && |data| == PRUNED_BRANCH_DATA_SIZE
  {
    if FunctionInHash(data) == MULTISIG_CONFIRM_TRANSACTION then
      Success(Screen(Confirm, Blank, Blank, Text(Hex(Pack(BitsOf(data)[129..193])))))
    else MultisigParams(BitsOf(cells[1].data), FunctionInHash(data), order.wc, order.address, order.currency)
  }

  /**
   A plain transfer of the older wallets with its root pruned is accepted exactly if the type byte is below
   128 and the hash of the root happens to hold the number of a function to which the gift, or the rest
   of the hash, is a call; then it is signed alike.
   */
  lemma RootCanBePruned(sha: Sha256, cells: seq<CellView>, c: CellView, order: Order, slots: seq<Node>)
    ensures StandsFor(sha, cells, 0, c, order, slots) && IsTransfer(cells, order) ==>
              var screen := PrunedRootScreen(cells, c.data, order);
              && (Signs(sha, cells[0 := c], order, slots) <==> c.data[0] < 0x80 && screen.Success?)
              && (Signs(sha, cells[0 := c], order, slots) ==>
                    && SignedAlike(sha, cells, cells[0 := c], order, slots) && Shown(cells[0 := c], order) == screen
                    && KnownNumber(FunctionInHash(c.data)))
  {
    if StandsFor(sha, cells, 0, c, order, slots) && IsTransfer(cells, order) {
      StandInIsValid(c, 0, 0);
      hide Signs, SignedAlike, Message, ShowsTransfer, NodeOf, CellView.Valid, FunctionInHash, PrunedRootScreen;
      PrunedRootShown(cells, c, order);
      CellCanBePruned(sha, cells, 0, c, order, slots, 0);
    }
  }

  /** The numbers of the functions that are read. */
  predicate KnownNumber(functionId: nat) {
    || IsDeploy(functionId) || IsSubmit(functionId)
    || functionId == MULTISIG_SEND_TRANSACTION || functionId == MULTISIG_CONFIRM_TRANSACTION
  }

  lemma PrunedRootShown(cells: seq<CellView>, c: CellView, order: Order)
    requires IsTransfer(cells, order) && OlderMultisig(order.walletType)
    requires |c.data| == PRUNED_BRANCH_DATA_SIZE && c.refs == []
    ensures var screen := PrunedRootScreen(cells, c.data, order);
            && (c.data[0] < 0x80 ==> Shown(cells[0 := c], order) == screen)
            && (c.data[0] >= 0x80 ==> Shown(cells[0 := c], order).Failure?)
            && (screen.Success? ==> KnownNumber(FunctionInHash(c.data)))
  {
    hide BitsOf, ContractHeader, FunctionInHash, TransferParams, Hex, Pack, PlainTransfer;
    PrunedHeader(c.data);
    assert BitsOf(c.data)[129..][..64] == BitsOf(c.data)[129..193];
  }
}
