/** From a bag of cells to the screen and the bytes to sign (src/message.c, prepare_to_sign). */
module Signing {
  import opened Bits
  import opened Outcomes
  import opened Cells
  import opened CellHash
  import opened SliceWriter
  import opened Slices
  import opened Fields
  import opened ByteStreams
  import opened BocFormat
  import opened BocContexts
  import opened Prepending
  import opened Display
  import opened MessageFormat
  import opened Contexts
  import opened Messages
  import opened Contracts

  // What is signed.

  /** The cell fits the buffer with the address in front; a pruned one still has room for hash and depth then. */
  predicate CanPrepend(cell: CellView) {
    && Fits(cell)
    && (cell.Pruned() ==> DataSize(D2For(NewLength(cell))) >= PRUNED_BRANCH_DATA_SIZE)
  }

  /** The cells that are hashed: for some wallets with the address in front of the root. */
  ghost function SignedCells(cells: seq<CellView>, prepends: bool, wc: byte,
                             address: seq<byte>): (r: Result<seq<CellView>>)
    requires cells != [] && |address| == ADDRESS_LENGTH
    ensures r.Success? ==> |r.value| == |cells|
  {
    if !prepends then Success(cells)
    else if !CanPrepend(cells[0]) then Failure(Unmodelled)
    else Success(cells[0 := Prepended(cells[0], wc, address)])
  }

  /** The hash of the tree of these cells. */
  ghost function RootHash(sha: Sha256, cells: seq<CellView>, slots: seq<Node>): Result<Hash>
    requires cells != [] && |slots| == MAX_CONTRACT_CELLS_COUNT
  {
    if Forward(cells, MAX_CONTRACT_CELLS_COUNT) then Success(Eval(sha, Unfold(cells, slots, 0)).hash)
    else Failure(InvalidCell)
  }

  datatype Order = Order(walletType: byte, wc: byte, address: seq<byte>, prependAddress: seq<byte>,
                         currency: Currency) {
    predicate Valid() {
      |address| == |prependAddress| == ADDRESS_LENGTH
    }
  }

  datatype Signed = Signed(screen: Screen, hash: Hash)

  /** The screen and the hash for the cells of a message. */
  ghost function SignCells(sha: Sha256, cells: seq<CellView>, order: Order, slots: seq<Node>): Result<Signed>
    requires cells != [] && order.Valid() && |slots| == MAX_CONTRACT_CELLS_COUNT
  {
    var screen :- Message(order.walletType, cells, order.wc, order.address, order.currency);
    var signed :- SignedCells(cells, Prepends(order.walletType), order.wc, order.prependAddress);
    var hash :- RootHash(sha, signed, slots);
    Success(Signed(screen, hash))
  }

  /** The screen shown and the hash signed for a message. */
  ghost function Sign(sha: Sha256, boc: seq<byte>, order: Order, slots: seq<Node>): Result<Signed>
    requires order.Valid() && |slots| == MAX_CONTRACT_CELLS_COUNT
  {
    var cells :- ParseBoc(boc);
    if cells == [] then Failure(InvalidMessage) else SignCells(sha, cells, order, slots)
  }

  // Showing the message.

  /** The slice over a cell of the table. */
  method CellSlice(boc: BocContext, i: nat) returns (slice: SliceData)
    requires boc.Valid() && i < boc.cellsCount
    ensures fresh(slice) && FromCell(slice) && slice.Window() == BitsOf(boc.table[i].data)
  {
    slice := SliceFromCell(boc.cells[i]);
  }

  /** The references of a cell of the table. */
  method CellRefs(boc: BocContext, i: nat) returns (refs: seq<byte>)
    requires boc.Valid() && i < boc.cellsCount
    ensures refs == boc.table[i].refs
  {
    refs := View(boc.cells[i]).refs;
  }

  method ShowWalletV3(ctx: SignTransactionContext, boc: BocContext) returns (r: Result<Flow>)
    requires ctx.Valid() && ctx.Shown(EMPTY) && boc.Valid() && boc.cellsCount > 0
    modifies ctx`addressStr, ctx.amountStr
    ensures Showing(ctx, r, old(WalletV3Message(boc.table, ctx.Currency())))
  {
    hide BitsOf, WalletV3, IntMessage, V3Body, SliceData.Window, SignTransactionContext.Shown, PointsAt;
    var rootSlice := CellSlice(boc, 0);
    var flags :- DeserializeWalletV3(rootSlice);
    var _ :- Validate(boc.cellsCount > 1, InvalidCellIndex);
    var giftSlice := CellSlice(boc, 1);
    ghost var header := IntMessage(giftSlice.Window(), flags, ctx.Currency());
    var _ :- DeserializeIntMessageHeader(ctx, giftSlice, flags);
    HeaderIsTransfer(BitsOf(boc.table[1].data), flags, ctx.Currency());
    r := ShowV3Body(ctx, boc, giftSlice, header.value.value);
  }

  lemma HeaderIsTransfer(bits: seq<bool>, flags: nat, currency: Currency)
    requires IntMessage(bits, flags, currency).Success?
    ensures IntMessage(bits, flags, currency).value.value.flow == Transfer
  {
    hide Destination, VarAmount, AmountLine, NoFees;
  }

  method ShowV3Body(ctx: SignTransactionContext, boc: BocContext, slice: SliceData, ghost screen: Screen)
    returns (r: Result<Flow>)
    requires FromCell(slice) && ctx.Valid() && ctx.Shown(screen) && screen.flow == Transfer
    requires boc.Valid() && boc.cellsCount > 1
    modifies slice, ctx`addressStr, ctx.amountStr
    ensures Showing(ctx, r, old(V3Body(slice.Window(), boc.table, screen, ctx.Currency())))
  {
    hide BitsOf, TokenBody, SliceData.Window, SignTransactionContext.Shown, Num, PointsAt;
    ghost var bits := slice.Window();
    var stateInit :- TakeNumber(slice, 1);
    NumOfBit(bits[..1]);
    var _ :- Validate(stateInit == 0, InvalidMessage);
    var body :- TakeNumber(slice, 1);
    NumOfBit(bits[1..][..1]);
    assert bits[1..][1..] == bits[2..];
    var refs := CellRefs(boc, 1);
    if body == 0 && refs == [] {
      return Success(Transfer);
    }
    var _ :- Validate(boc.cellsCount > 2, InvalidCellIndex);
    var refSlice := CellSlice(boc, 2);
    r := DeserializeTokenBody(ctx, slice, refSlice, Source(bits[2..], refSlice.Window(), true, false), screen);
  }

  method ShowMultisig(ctx: SignTransactionContext, boc: BocContext, older: bool, wc: byte, address: seq<byte>)
    returns (r: Result<Flow>)
    requires ctx.Valid() && ctx.Shown(EMPTY) && boc.Valid() && boc.cellsCount > 0
    modifies ctx`addressStr, ctx`transactionIdStr, ctx.amountStr
    ensures Showing(ctx, r, old(MultisigMessage(boc.table, older, wc, address, ctx.Currency())))
  {
    hide BitsOf, ContractHeader, MultisigCall, SliceData.Window, SignTransactionContext.Shown, PointsAt;
    var rootSlice := CellSlice(boc, 0);
    var functionId :- DeserializeContractHeader(rootSlice);
    var inSameCell := older && functionId == MULTISIG_CONFIRM_TRANSACTION;
    var _ :- Validate(inSameCell || boc.cellsCount > 1, InvalidCellIndex);
    var giftSlice := rootSlice;
    if !inSameCell {
      giftSlice := CellSlice(boc, 1);
    }
    r := ShowCall(ctx, boc, giftSlice, if inSameCell then 0 else 1, functionId, wc, address);
  }

  method ShowCall(ctx: SignTransactionContext, boc: BocContext, slice: SliceData, gift: nat, functionId: nat, wc: byte,
                  address: seq<byte>) returns (r: Result<Flow>)
    requires ctx.Valid() && ctx.Shown(EMPTY) && boc.Valid() && gift < boc.cellsCount && FromCell(slice)
    modifies slice`windowStart, ctx`addressStr, ctx`transactionIdStr, ctx.amountStr
    ensures Showing(ctx, r, old(MultisigCall(boc.table, boc.table[gift], slice.Window(), functionId, wc, address,
                                             ctx.Currency())))
  {
    hide BitsOf, MultisigParams, GiftBody, SliceData.Window, SignTransactionContext.Shown, PointsAt;
    ghost var screen := MultisigParams(slice.Window(), functionId, wc, address, ctx.Currency());
    var flow :- DeserializeMultisigParams(ctx, slice, functionId, wc, address);
    r := ShowGiftBody(ctx, boc, gift, flow, screen.value);
  }

  method ShowGiftBody(ctx: SignTransactionContext, boc: BocContext, gift: nat, flow: Flow, ghost screen: Screen)
    returns (r: Result<Flow>)
    requires ctx.Valid() && ctx.Shown(screen) && flow == screen.flow && boc.Valid() && gift < boc.cellsCount
    modifies ctx`addressStr, ctx.amountStr
    ensures Showing(ctx, r, old(GiftBody(boc.table, boc.table[gift], screen, ctx.Currency())))
  {
    hide BitsOf, TokenBody, SignTransactionContext.Shown, PointsAt;
    var refs := CellRefs(boc, gift);
    if refs == [] {
      return Success(flow);
    }
    var _ :- Validate(boc.cellsCount > 2, InvalidCellIndex);
    var bodySlice := CellSlice(boc, 2);
    if bodySlice.IsEmpty() {
      return Success(flow);
    }
    r := DeserializeTokenBody(ctx, bodySlice, null, Source(bodySlice.Window(), [], false, false), screen);
  }

  // Signing the root.

  /** The two contexts keep out of each other's buffers, and no cell points at the bytes to sign. */
  ghost predicate Apart(ctx: SignTransactionContext, boc: BocContext)
    reads boc, boc.cells
  {
    && ctx.toSign != boc.hashes && ctx.toSign != boc.cellDepth && ctx.toSign != boc.publicKeyCellData
    && ctx.data != boc.hashes && ctx.data != boc.cellDepth && ctx.data != boc.publicKeyCellData
    && ctx.toSign !in boc.Memory()
  }

  /** Replaces the root by the root with the address in front. */
  method PrependRoot(boc: BocContext, wc: byte, address: seq<byte>) returns (r: Result<()>)
    requires boc.Valid() && Parsed(boc.table) && boc.cellsCount > 0 && |address| == ADDRESS_LENGTH
    modifies boc.cells, boc`table
    ensures boc.Valid() && forall m | m in boc.Memory() :: m in old(boc.Memory()) || fresh(m)
    ensures var cells := SignedCells(old(boc.table), true, wc, address);
            SameOutcome(r, cells) && (r.Success? ==> boc.table == cells.value && Parsed(boc.table))
  {
    hide CanPrepend, Fits, Prepended, Parsed;
    ghost var table := boc.table;
    var root := View(boc.cells[0]);
    if !CanPrepend(root) {
      return Failure(Unmodelled);
    }
    PrependedParsed(table, wc, address);
    var buffer := new byte[CELL_BUFFER_SIZE];
    var made := PrependAddressToCell(buffer, boc.cells[0], wc, address);
    hide View, Loaded;
    ReplaceRoot(boc, made, Prepended(root, wc, address));
    r := Success(());
  }

  /** Points the root's slot at another cell. */
  method ReplaceRoot(boc: BocContext, made: Cell, ghost v: CellView)
    requires boc.Valid() && boc.cellsCount > 0 && PointsAt(made, v)
    requires made.mem != boc.hashes && made.mem != boc.cellDepth && made.mem != boc.publicKeyCellData
    modifies boc.cells, boc`table
    ensures boc.Valid() && boc.table == old(boc.table)[0 := v] && boc.Memory() <= old(boc.Memory()) + {made.mem}
  {
    hide PointsAt;
    boc.cells[0] := made;
    boc.table := boc.table[0 := v];
  }

  lemma PrependedParsed(table: seq<CellView>, wc: byte, address: seq<byte>)
    requires table != [] && Parsed(table) && |address| == ADDRESS_LENGTH && CanPrepend(table[0])
    ensures Fits(table[0]) && |table[0].refs| <= MAX_REFERENCES_COUNT
    ensures Parsed(table[0 := Prepended(table[0], wc, address)])
  {
    hide D2For, Pack, Raw, DataSize, RefsCount, NewLength;
    NewSizeFits(table[0]);
  }

  /** The bytes to sign are in place: four bytes of chain id, if it is asked for, and the 32 bytes of the hash. */
  ghost predicate HoldsToSign(ctx: SignTransactionContext, hash: Hash)
    reads ctx, ctx.toSign
  {
    if ctx.signWithChainId then
      ctx.toSign.Length >= 36 && ctx.toSign[..4] == ctx.chainId && ctx.toSign[4..36] == hash
    else ctx.toSign.Length >= 32 && ctx.toSign[..32] == hash
  }

  /** Hashes the table and puts the bytes to sign together. */
  method PreparePayload(ctx: SignTransactionContext, boc: BocContext) returns (r: Result<()>)
    requires ctx.Valid() && boc.Valid() && Parsed(boc.table) && boc.publicKeyCellIndex == 0 && boc.cellsCount > 0
    requires Apart(ctx, boc)
    modifies boc.hashes, boc.cellDepth, ctx.toSign
    ensures boc.Valid()
    ensures var hash := RootHash(boc.sha, boc.table, old(boc.Nodes()));
            && SameOutcome(r, hash)
            && (r.Success? ==> HoldsToSign(ctx, hash.value))
  {
    hide PointsAt, Forward, Eval;
    assert boc.Table()[..boc.cellsCount] == boc.table;
    var _ :- boc.PreparePayloadHash();
    var hash := boc.HashAt(0, boc.cellDepth[..]);
    if !ctx.signWithChainId {
      Copy(ctx.toSign, 0, hash);
    } else {
      Copy(ctx.toSign, 0, ctx.chainId);
      Copy(ctx.toSign, CHAIN_ID_LENGTH, hash);
    }
    r := Success(());
  }

  /** The outcome: the flow, the texts and the bytes to sign are as they should be. */
  ghost predicate Prepared(ctx: SignTransactionContext, r: Result<Flow>, signed: Result<Signed>)
    reads ctx, ctx.amountStr, ctx.toSign
  {
    && ctx.Valid() && SameOutcome(r, signed)
    && (r.Success? ==> r.value == signed.value.screen.flow && ctx.Shown(signed.value.screen)
                       && HoldsToSign(ctx, signed.value.hash))
  }

  function OrderOf(ctx: SignTransactionContext, wc: byte, address: seq<byte>, prependAddress: seq<byte>): Order
    reads ctx
  {
    Order(ctx.currentWalletType, wc, address, prependAddress, ctx.Currency())
  }

  /** Parses a message, sets the texts and the bytes to sign. */
  method PrepareToSign(ctx: SignTransactionContext, boc: BocContext, src: ByteStream, wc: byte, address: seq<byte>,
                       prependAddress: seq<byte>) returns (r: Result<Flow>)
    requires ctx.Valid() && ctx.Shown(EMPTY) && boc.Valid() && boc.publicKeyCellIndex == 0 && boc.Reads(src)
    requires Apart(ctx, boc) && src.data != ctx.toSign && |address| == |prependAddress| == ADDRESS_LENGTH
    modifies boc, boc.cells, boc.hashes, boc.cellDepth, boc.publicKeyCellData, src
    modifies ctx`addressStr, ctx`transactionIdStr, ctx.amountStr, ctx.toSign
    ensures boc.Valid()
    ensures Prepared(ctx, r, old(Sign(boc.sha, src.Rest(), OrderOf(ctx, wc, address, prependAddress), boc.Nodes())))
  {
    hide ParseBoc, PointsAt, SignCells, SignTransactionContext.Shown, HoldsToSign, Parsed;
    ghost var bytes := src.Rest();
    var filled := boc.DeserializeCellsTree(src);
    if filled.Failure? {
      return Failure(filled.error);
    }
    if boc.cellsCount == 0 {
      return Failure(InvalidMessage);
    }
    ParsedTable(bytes);
    r := SignMessage(ctx, boc, wc, address, prependAddress);
  }

  /** The wallet types. */
  method SignMessage(ctx: SignTransactionContext, boc: BocContext, wc: byte, address: seq<byte>,
                     prependAddress: seq<byte>)
    returns (r: Result<Flow>)
    requires ctx.Valid() && ctx.Shown(EMPTY) && boc.Valid() && Parsed(boc.table)
    requires boc.publicKeyCellIndex == 0 && boc.cellsCount > 0
    requires Apart(ctx, boc) && |address| == |prependAddress| == ADDRESS_LENGTH
    modifies boc, boc.cells, boc.hashes, boc.cellDepth, boc.publicKeyCellData
    modifies ctx`addressStr, ctx`transactionIdStr, ctx.amountStr, ctx.toSign
    ensures boc.Valid()
    ensures Prepared(ctx, r, old(SignCells(boc.sha, boc.table, OrderOf(ctx, wc, address, prependAddress), boc.Nodes())))
  {
    hide PointsAt, Parsed, WalletV3Message, MultisigMessage, RootHash, HoldsToSign, CanPrepend, Prepended,
         SignTransactionContext.Shown;
    if ctx.currentWalletType == WALLET_V3 {
      var flow :- ShowWalletV3(ctx, boc);
      var _ :- PreparePayload(ctx, boc);
      return Success(flow);
    }
    if OlderMultisig(ctx.currentWalletType) {
      var flow :- ShowMultisig(ctx, boc, true, wc, address);
      var _ :- PreparePayload(ctx, boc);
      return Success(flow);
    }
    if Prepends(ctx.currentWalletType) {
      var flow :- ShowMultisig(ctx, boc, false, wc, address);
      var _ :- SignPrepended(ctx, boc, wc, prependAddress);
      return Success(flow);
    }
    r := Failure(InvalidWalletType);
  }

  /** Signs the root with the address in front, and clears the table, which points at the new root. */
  method SignPrepended(ctx: SignTransactionContext, boc: BocContext, wc: byte, prependAddress: seq<byte>)
    returns (r: Result<()>)
    requires ctx.Valid() && boc.Valid() && Parsed(boc.table) && boc.publicKeyCellIndex == 0 && boc.cellsCount > 0
    requires Apart(ctx, boc) && |prependAddress| == ADDRESS_LENGTH
    modifies boc, boc.cells, boc.hashes, boc.cellDepth, boc.publicKeyCellData, ctx.toSign
    ensures boc.Valid() && (r.Success? ==> boc.IsClear())
    ensures var cells := SignedCells(old(boc.table), true, wc, prependAddress);
            if cells.Failure? then r == Failure(cells.error)
            else var hash := RootHash(boc.sha, cells.value, old(boc.Nodes()));
                 SameOutcome(r, hash) && (r.Success? ==> HoldsToSign(ctx, hash.value))
  {
    hide PointsAt, Parsed, RootHash, HoldsToSign, SignedCells, CanPrepend;
    var _ :- PrependRoot(boc, wc, prependAddress);
    var _ :- PreparePayload(ctx, boc);
    boc.Clear();
    r := Success(());
  }

  // The theorems about what is signed.

  /** The tree of which the hash is signed. */
  ghost function SignedTree(sha: Sha256, boc: seq<byte>, order: Order): (t: Tree)
    requires order.Valid() && Sign(sha, boc, order, ClearSlots()).Success?
    ensures WellFormed(t) && Sign(sha, boc, order, ClearSlots()).value.hash == Eval(sha, t).hash
  {
    var cells := ParseBoc(boc).value;
    Unfold(SignedCells(cells, Prepends(order.walletType), order.wc, order.prependAddress).value, ClearSlots(), 0)
  }

  /**
   What is signed is the hash that the TVM whitepaper defines for the tree of the message's cells, if
   the depths of the root's children fit a byte, and only then unless SHA-256 clashes: the program
   writes one byte of the depth of a pruned cell.
   */
  lemma SignedHashIsTvmHash(sha: Sha256, boc: seq<byte>, order: Order)
    requires order.Valid()
    ensures Sign(sha, boc, order, ClearSlots()).Success? ==>
              var hash, t := Sign(sha, boc, order, ClearSlots()).value.hash, SignedTree(sha, boc, order);
              && (KidsFit(t) ==> hash == TvmHash(sha, t))
              && (NoClash(sha, t) && TvmDepth(t) < 0x1_0000 ==> (hash == TvmHash(sha, t) <==> KidsFit(t)))
  {
    hide ParseBoc, Message, SignedCells, Eval, TvmHash, TvmDepth, NoClash, Forward;
    if Sign(sha, boc, order, ClearSlots()).Success? {
      var cells := ParseBoc(boc).value;
      var signed := SignedCells(cells, Prepends(order.walletType), order.wc, order.prependAddress).value;
      TreeIsSettled(signed);
      EvalIsTvm(sha, SignedTree(sha, boc, order));
    }
  }

  /** The root of an accepted call can be rewritten exactly if it fits the buffer, pruned or not. */
  lemma AcceptedRootFits(cells: seq<CellView>, older: bool, wc: byte, address: seq<byte>, currency: Currency)
    requires cells != [] && cells[0].Shaped() && MultisigMessage(cells, older, wc, address, currency).Success?
    ensures var root := cells[0];
            CanPrepend(root) <==>
              |root.data| <= 94 && 2 + DataSize(D2For(NewLength(root))) + |root.refs| <= CELL_BUFFER_SIZE
  {
    hide BitsOf, ContractHeader, MultisigParams, GiftBody, D2For, DataSize, RefsCount, Payload;
    var root := cells[0];
    var bits := BitsOf(root.data);
    KnownFunction(if older && ContractHeader(bits).value.value == MULTISIG_CONFIRM_TRANSACTION
                  then ContractHeader(bits).value.rest else BitsOf(cells[1].data),
                  ContractHeader(bits).value.value, wc, address, currency);
    var i := HeaderBit(bits);
    PayloadReaches(root.d2, root.data, i);
    if |root.data| <= 94 {
      NewSizeFits(root);
    }
  }

  lemma KnownFunction(bits: seq<bool>, functionId: nat, wc: byte, address: seq<byte>, currency: Currency)
    requires MultisigParams(bits, functionId, wc, address, currency).Success?
    ensures functionId != 0
  {}

  /** A function number that is not zero has a one. */
  lemma HeaderBit(bits: seq<bool>) returns (i: nat)
    requires ContractHeader(bits).Success? && ContractHeader(bits).value.value != 0
    ensures 97 <= i < |bits| && bits[i]
  {
    hide Num;
    var n := 97 + if bits[0] then 256 else 0;
    var id := bits[n..][..32];
    NumZeros(32);
    assert id != Zeros(32);
    var k :| 0 <= k < 32 && id[k] != Zeros(32)[k];
    i := n + k;
  }

  /** The data bits reach up to every one. */
  lemma PayloadReaches(d2: byte, data: seq<byte>, i: nat)
    requires i < 8 * |data| && BitsOf(data)[i]
    ensures |Payload(d2, data)| >= i
  {
    hide BitsOf, Untagged;
    var bits := BitsOf(data);
    TagSplits(bits);
  }

  /** Two messages of which one is the other with subtrees pruned are signed alike. */
  lemma PrunedMessageSignsAlike(sha: Sha256, full: seq<byte>, cut: seq<byte>, order: Order)
    requires order.Valid()
    ensures var signed, signed' := Sign(sha, full, order, ClearSlots()), Sign(sha, cut, order, ClearSlots());
            && signed.Success? && signed'.Success?
            && Prunes(sha, SignedTree(sha, full, order), SignedTree(sha, cut, order)) ==>
              signed.value.hash == signed'.value.hash
  {
    hide Sign, SignedTree, Prunes, Eval;
    if && Sign(sha, full, order, ClearSlots()).Success? && Sign(sha, cut, order, ClearSlots()).Success?
       && Prunes(sha, SignedTree(sha, full, order), SignedTree(sha, cut, order)) {
      PruningPreservesHash(sha, SignedTree(sha, full, order), SignedTree(sha, cut, order));
    }
  }

  lemma TreeIsSettled(cells: seq<CellView>)
    requires cells != [] && Forward(cells, MAX_CONTRACT_CELLS_COUNT)
    ensures Settled(Unfold(cells, ClearSlots(), 0))
  {
    ClearedIsSettled(cells, ClearSlots(), 0);
  }

  /** A tagged root is signed with exactly the address in front of its bits. */
  lemma SignedRootDenotes(cells: seq<CellView>, order: Order)
    requires order.Valid() && cells != [] && Prepends(order.walletType) && Tagged(cells[0])
    requires SignedCells(cells, true, order.wc, order.prependAddress).Success?
    ensures var root := SignedCells(cells, true, order.wc, order.prependAddress).value[0];
            && Payload(root.d2, root.data)
               == AddressPrefix(order.wc, order.prependAddress) + Payload(cells[0].d2, cells[0].data)
            && root.d1 == cells[0].d1 && root.refs == cells[0].refs
  {
    hide Prepended, WithBits, BitsOf, D2For;
    PrependIsExact(cells[0], order.wc, order.prependAddress);
    WithBitsKeeps(cells[0], AddressPrefix(order.wc, order.prependAddress) + Payload(cells[0].d2, cells[0].data));
    NewSizeFits(cells[0]);
    WithBitsDenotes(cells[0], AddressPrefix(order.wc, order.prependAddress) + Payload(cells[0].d2, cells[0].data));
  }

  lemma WithBitsKeeps(cell: CellView, bits: seq<bool>)
    ensures WithBits(cell, bits).d1 == cell.d1 && WithBits(cell, bits).refs == cell.refs
  {}
}
