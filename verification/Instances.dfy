/** Inputs for which simpler claims than the ones proved are false. */
module Instances {
  import opened Bits
  import opened Outcomes
  import opened SliceReader
  import opened Slices
  import opened Cells
  import opened CellHash
  import opened BocFormat
  import opened BocContexts
  import opened Fields
  import opened Prepending
  import opened HashmapLabels
  import opened Contracts
  import opened Decimals
  import opened Amounts
  import opened Display
  import opened MessageFormat
  import opened Signing
  import opened Places
  import opened WhatIsSigned
  import opened Pruning

  // A read that leaks.

  /** Two bits read across the bytes of FF FF come with the six ones in front of them. */
  lemma LeakingRead()
    ensures ReadBits([0xFF, 0xFF], 7, 2) == 0xFF && Num(BitsOf([0xFF, 0xFF])[7..9]) == 3
  {
    hide ToBits, BitsOf, ReadBits;
    var s, r := BitsOf([0xFF, 0xFF]), ReadBits([0xFF, 0xFF], 7, 2);
    BitsOfTwo(0xFF, 0xFF);
    SameBits();
    ReadBitsExact([0xFF, 0xFF], 7, 2);
    assert s[1..9] == Repeat(true, 8);
    Pow2Values();
    ToBitsInjective(8, r, 0xFF);
    assert s[7..9] == [true, true] && [true, true][..1] == [true];
    NumOfBit([true]);
  }

  // A key cell with more than the key in it.

  /** A cell with a label of eight bits, a key and one more bit. */
  const LONG_KEY_CELL: seq<byte> := [0xD0] + seq(32, _ => 0) + [0xC0]

  /** The bit behind the key stays; in the same cell without it, nothing is left over. */
  lemma KeyNotPlanted(key: PublicKey)
    ensures Payload(67, PlantedKey(LONG_KEY_CELL, 8, key)) != BitsOf(LONG_KEY_CELL)[..8] + BitsOf(key)
    ensures Payload(66, PlantedKey(LONG_KEY_CELL[..33], 8, key)) == BitsOf(LONG_KEY_CELL[..33])[..8] + BitsOf(key)
  {
    hide Payload, PlantedKey, BitsOf;
    KeyPlanted(67, LONG_KEY_CELL, 8, key);
    KeyPlanted(66, LONG_KEY_CELL[..33], 8, key);
  }

  // Messages.

  /** No index and no checksum, one-byte references, one root. */
  function HeaderFor(count: byte): seq<byte> {
    [1, 1, count, 1, 0, 0, 0]
  }

  /** The bag of these cells. */
  function Bag(cells: seq<CellView>): (bag: seq<byte>)
    requires |cells| < 0x100
    ensures bag != []
  {
    HeaderFor(|cells|) + EncodeAll(cells)
  }

  lemma BagParses(cells: seq<CellView>)
    requires 0 < |cells| <= MAX_CONTRACT_CELLS_COUNT && ValidCells(cells, 0, |cells|)
    ensures ParseBoc(Bag(cells)) == Success(cells)
  {
    hide EncodeAll, ParseBoc, ValidCells;
    BocRoundTrip(HeaderFor(|cells|), cells);
  }

  lemma ValidTable(cells: seq<CellView>)
    requires 0 < |cells| < MAX_CONTRACT_CELLS_COUNT && forall k | 0 <= k < |cells| :: cells[k].Valid(k, |cells|)
    ensures ValidCells(cells, 0, |cells|) && Forward(cells, MAX_CONTRACT_CELLS_COUNT)
  {
    hide DataSize, RefsCount, Exotic, WithHashes;
  }

  /** No public key, time stamps of zero, the number of the submit function, and seven bits to fill a byte. */
  function CallBits(): (bits: seq<bool>)
    ensures |bits| == 136
  {
    Zeros(97) + ToBits(MULTISIG_SUBMIT_TRANSACTION, 32) + Zeros(7)
  }

  /** To address zero in workchain 0 or -128, an amount of zero. */
  function GiftBits(far: bool): (bits: seq<bool>)
    ensures |bits| == 400
  {
    [true, false, false, far] + Zeros(396)
  }

  function Call(refs: seq<byte>): (c: CellView)
    requires |refs| <= MAX_REFERENCES_COUNT
    ensures c.d1 == |refs| && c.d2 == 34 && |c.data| == 17 && c.refs == refs
  {
    CellView(|refs|, 34, Pack(CallBits()), refs)
  }

  function Gift(far: bool, refs: seq<byte>): (c: CellView)
    requires |refs| <= MAX_REFERENCES_COUNT
    ensures c.d1 == |refs| && c.d2 == 100 && |c.data| == 50 && c.refs == refs
  {
    CellView(|refs|, 100, Pack(GiftBits(far)), refs)
  }

  function OrderFor(walletType: byte): Order {
    Order(walletType, 0, seq(32, _ => 0), seq(32, _ => 0), Currency.Currency(9, "EVER"))
  }

  lemma CallFunction(refs: seq<byte>)
    requires |refs| <= MAX_REFERENCES_COUNT
    ensures var header := ContractHeader(BitsOf(Call(refs).data));
            header.Success? && header.value.value == MULTISIG_SUBMIT_TRANSACTION
  {
    hide Num, ToBits, Pow2, Pack, BitsOf;
    BitsOfPack(CallBits());
    Pow2Add(16, 16);
    Pow2Values();
    NumToBitsSmall(MULTISIG_SUBMIT_TRANSACTION, 32);
    var bits := CallBits();
    assert bits[97..][..32] == ToBits(MULTISIG_SUBMIT_TRANSACTION, 32);
  }

  /** The gift is a plain transfer that can be shown. */
  lemma GiftIsShown(far: bool, refs: seq<byte>, order: Order)
    requires |refs| <= MAX_REFERENCES_COUNT && order.currency == Currency.Currency(9, "EVER")
    ensures var bits := BitsOf(Gift(far, refs).data);
            && PlainTransfer(bits, MULTISIG_SUBMIT_TRANSACTION) && bits[3] == far
            && MultisigParams(bits, MULTISIG_SUBMIT_TRANSACTION, order.wc, order.address, order.currency).Success?
  {
    hide BitsOf, Pack, Num, MultisigParams, AmountText, Pow10;
    BitsOfPack(GiftBits(far));
    var bits := GiftBits(far);
    assert bits[..2] == [true, false] && !bits[396];
    PlainTransferScreen(bits, MULTISIG_SUBMIT_TRANSACTION, order.wc, order.address, order.currency);
    assert bits[267..395] == Zeros(128);
    NumZeros(128);
    assert AmountLine(0, NORMAL_FLAG, order.currency).Success? by { EverIsShown(); }
  }

  lemma EverIsShown()
    ensures AmountLine(0, NORMAL_FLAG, Currency.Currency(9, "EVER")).Success?
  {
    hide AmountText;
    ZeroText(9);
  }

  /** A call with a gift that has no references is a plain transfer. */
  lemma CallIsShown(cells: seq<CellView>, refs: seq<byte>, far: bool, walletType: byte)
    requires |cells| >= 2 && |refs| <= MAX_REFERENCES_COUNT && cells[0] == Call(refs) && cells[1] == Gift(far, [])
    requires IsMultisig(walletType)
    ensures IsTransfer(cells, OrderFor(walletType)) && Shown(cells, OrderFor(walletType)).Success?
    ensures BitsOf(cells[1].data)[3] == far
  {
    hide BitsOf, Message, Call, Gift, ContractHeader, MultisigParams, PlainTransfer;
    var order := OrderFor(walletType);
    CallFunction(refs);
    GiftIsShown(far, [], order);
    TransferMessage(cells, order);
  }

  /** A message of the older wallets that can be shown and hashed. */
  ghost predicate Fine(cells: seq<CellView>) {
    && 0 < |cells| <= MAX_CONTRACT_CELLS_COUNT && ValidCells(cells, 0, |cells|)
    && Forward(cells, MAX_CONTRACT_CELLS_COUNT) && Shown(cells, OrderFor(SAFE_MULTISIG_WALLET)).Success?
  }

  /** What is shown and signed of it, from a cleared context. */
  ghost function SignBag(sha: Sha256, cells: seq<CellView>): Result<Signed>
    requires |cells| < 0x100
  {
    Sign(sha, Bag(cells), OrderFor(SAFE_MULTISIG_WALLET), ClearSlots())
  }

  /** Two outcomes with the same hash and different screens. */
  ghost predicate SameHashOtherScreen(r: Result<Signed>, r': Result<Signed>) {
    r.Success? && r'.Success? && r.value.hash == r'.value.hash && r.value.screen != r'.value.screen
  }

  lemma FineIsSigned(sha: Sha256, cells: seq<CellView>)
    requires Fine(cells)
    ensures SignBag(sha, cells) == Success(Signed(Shown(cells, OrderFor(SAFE_MULTISIG_WALLET)).value,
                                                  Eval(sha, Unfold(cells, ClearSlots(), 0)).hash))
  {
    hide ParseBoc, Message, Eval, Unfold, Forward, Bag, ValidCells;
    BagParses(cells);
  }

  /** Two of them that have the same tree and are shown differently. */
  lemma SameTreeOtherScreen(sha: Sha256, cells: seq<CellView>, cells': seq<CellView>)
    requires Fine(cells) && Fine(cells') && Unfold(cells, ClearSlots(), 0) == Unfold(cells', ClearSlots(), 0)
    requires Shown(cells, OrderFor(SAFE_MULTISIG_WALLET)) != Shown(cells', OrderFor(SAFE_MULTISIG_WALLET))
    ensures SameHashOtherScreen(SignBag(sha, cells), SignBag(sha, cells'))
  {
    hide Forward, ValidCells, Message, Eval, Unfold, SignBag;
    FineIsSigned(sha, cells);
    FineIsSigned(sha, cells');
  }

  /** Two of them that differ in a cell that is not reached, and are shown differently. */
  lemma UnreachedOtherScreen(sha: Sha256, cells: seq<CellView>, n: nat, c: CellView)
    requires n < |cells| && Fine(cells) && Fine(cells[n := c]) && !Reaches(cells, 0, n)
    requires Shown(cells, OrderFor(SAFE_MULTISIG_WALLET)) != Shown(cells[n := c], OrderFor(SAFE_MULTISIG_WALLET))
    ensures SameHashOtherScreen(SignBag(sha, cells), SignBag(sha, cells[n := c]))
  {
    hide Forward, ValidCells, Message, Eval, Unfold, Reaches, SignBag;
    UnreachedCell(cells, ClearSlots(), n, c, 0);
    SameTreeOtherScreen(sha, cells, cells[n := c]);
  }

  // A pruned cell that is too deep.

  /** A pruned cell with this depth. */
  function PrunedWith(hi: byte, lo: byte): (c: CellView)
    ensures c.d1 == PRUNED_BRANCH_D1 && c.d2 == 72 && |c.data| == PRUNED_BRANCH_DATA_SIZE && c.refs == []
  {
    CellView(PRUNED_BRANCH_D1, 72, [1, 1] + seq(HASH_SIZE, _ => 0) + [hi, lo], [])
  }

  /** A transfer next to a pruned cell of depth 256. */
  function DeepCells(): seq<CellView> {
    [Call([1, 2]), Gift(false, []), PrunedWith(1, 0)]
  }

  lemma DeepCellsAreValid()
    ensures ValidCells(DeepCells(), 0, 3) && Forward(DeepCells(), MAX_CONTRACT_CELLS_COUNT)
  {
    hide Call, Gift, PrunedWith, CellView.Valid;
    OrdinaryIsValid(Call([1, 2]), 0, 3);
    OrdinaryIsValid(Gift(false, []), 1, 3);
    StandInIsValid(PrunedWith(1, 0), 2, 3);
    ValidTable(DeepCells());
  }

  /** A cell without data above one other. */
  ghost function Above(kid: Tree): Tree {
    Branch(1, 0, [], 0, [kid])
  }

  ghost function PrunedTree(hi: byte, lo: byte): (t: Tree)
    ensures WellFormed(t) && TvmDepth(t) == 0x100 * hi + lo
  {
    Branch(PRUNED_BRANCH_D1, 72, PrunedWith(hi, lo).data, 0, [])
  }

  /** The depth of a cell is one more than that of its only child. */
  lemma DepthAbove(kid: Tree)
    requires WellFormed(kid)
    ensures WellFormed(Above(kid)) && TvmDepth(Above(kid)) == TvmDepth(kid) + 1
  {
    assert MaxDepth([kid], 0) == 0;
  }

  /** Its tree. */
  ghost function DeepTree(): (t: Tree)
    ensures WellFormed(t)
  {
    DeepCellsAreValid();
    Unfold(DeepCells(), ClearSlots(), 0)
  }

  lemma DeepDepths()
    ensures var t := DeepTree();
            && t.Branch? && t.d1 == 2 && |t.kids| == 2 && TvmDepth(t.kids[1]) == 0x100 && TvmDepth(t) == 0x101
  {
    DeepCellsAreValid();
    hide Forward, Call, Gift;
    var t := DeepTree();
    assert t.kids[1] == Unfold(DeepCells(), ClearSlots(), 2) && TvmDepth(t.kids[1]) == 0x100;
    assert t.kids[0] == Unfold(DeepCells(), ClearSlots(), 1) && t.kids[0].kids == [] && TvmDepth(t.kids[0]) == 0;
    assert MaxDepth(t.kids, 0) == 0 && MaxDepth(t.kids, 1) == 1;
  }

  /**
   An accepted message of which the program hashes another buffer than the whitepaper, so that it signs
   another hash, unless SHA-256 clashes.
   */
  lemma DeepPrunedCell(sha: Sha256)
    ensures ParseBoc(Bag(DeepCells())) == Success(DeepCells())
    ensures DeepTree().Branch? && BufferOf(sha, DeepTree()) != TvmPreimage(sha, DeepTree())
    ensures var signed := SignBag(sha, DeepCells());
            && signed.Success? && signed.value.hash == Eval(sha, DeepTree()).hash
            && (NoClash(sha, DeepTree()) ==> signed.value.hash != TvmHash(sha, DeepTree()))
  {
    hide Forward, NoClash, Eval, TvmHash, TvmDepth, ParseBoc, Bag, Message, SignBag, Call, Gift, Preimage, TvmPreimage;
    DeepCellsAreValid();
    DeepDepths();
    BagParses(DeepCells());
    CallIsShown(DeepCells(), [1, 2], false, SAFE_MULTISIG_WALLET);
    FineIsSigned(sha, DeepCells());
    EvalIsTvm(sha, DeepTree());
    if BufferOf(sha, DeepTree()) == TvmPreimage(sha, DeepTree()) {
      SameBufferFits(sha, DeepTree());
    }
  }

  ghost function BufferOf(sha: Sha256, t: Tree): seq<byte>
    requires WellFormed(t) && t.Branch?
  {
    Preimage(t.d1, t.d2, t.data, EvalAll(sha, t.kids))
  }

  /** A pruned cell of depth 255 gives the root a wrong depth, but the right hash. */
  lemma WrongDepthRightHash(sha: Sha256)
    ensures var t := Above(PrunedTree(0, 0xff));
            WellFormed(t) && !DepthsRight(sha, t) && Eval(sha, t).hash == TvmHash(sha, t)
  {
    hide Eval, TvmHash, TvmDepth, PrunedTree, DepthsRight;
    DepthAbove(PrunedTree(0, 0xff));
    assert Settled(PrunedTree(0, 0xff)) by { PrunedSettled(0, 0xff); }
    DepthsAreTvm(sha, Above(PrunedTree(0, 0xff)));
    EvalIsTvm(sha, Above(PrunedTree(0, 0xff)));
  }

  lemma PrunedSettled(hi: byte, lo: byte)
    ensures Settled(PrunedTree(hi, lo))
  {}

  // Depths left behind.

  /** The root, the data with the dictionary, the public key cell, and the code. */
  function WalletCells(): seq<CellView> {
    [CellView(2, 2, [0x20], [3, 1]), CellView(1, 0, [], [2]), CellView(0, 67, [0xD0] + seq(32, _ => 0) + [0x20], []),
     CellView(0, 0, [], [])]
  }

  lemma WalletParses()
    ensures ParseBoc(Bag(WalletCells())) == Success(WalletCells())
  {
    hide ParseBoc, Bag, ValidCells, CellView.Valid;
    var cells := WalletCells();
    forall k | 0 <= k < 4
      ensures cells[k].Valid(k, 4)
    {
      OrdinaryIsValid(cells[k], k, 4);
    }
    ValidTable(cells);
    BagParses(cells);
  }

  /** Its public key cell is found: the label is that of 64 zeros. */
  lemma WalletKeyIsFound()
    ensures FindKeyCell(WalletCells()) == Success(Leaf.Leaf(2, 10))
  {
    hide ParseLabel, BitsOf;
    var cells, edge := WalletCells(), Label(false, KEY_BITS, 10);
    LabelOfKey(cells[2].data);
    assert WalkOn(cells, 2, KEY_BITS, edge) == Success(Leaf.Leaf(2, 10));
    assert Walk(cells, 2, KEY_BITS) == Success(Leaf.Leaf(2, 10));
  }

  lemma LabelOfKey(data: seq<byte>)
    requires |data| >= 2 && data[0] == 0xD0 && data[1] == 0
    ensures ParseLabel(BitsOf(data), KEY_BITS) == Success(Label(false, KEY_BITS, 10))
  {
    hide ToBits, BitsOf;
    var bits := BitsOf(data);
    BitsOfByte(data, 0);
    BitsOfByte(data, 1);
    assert bits[0..8] == ToBits(0xD0, 8) && bits[8..16] == ToBits(0, 8);
    BitsOfD0();
    assert bits[3..10] == bits[0..8][3..] + bits[8..16][..2];
    BitsOf64();
    assert bits[3..10] == ToBits(64, 7);
    LengthOf64();
  }

  lemma BitsOfD0()
    ensures ToBits(0xD0, 8) == [true, true, false, true, false, false, false, false]
    ensures ToBits(0, 8)[..2] == [false, false]
  {}

  lemma BitsOf64()
    ensures ToBits(64, 7) == [true, false, false, false, false, false, false]
  {}

  lemma LengthOf64()
    ensures Num(ToBits(64, 7)) == 64 && BitLength(64) == 7
  {
    hide ToBits, Num;
    assert Pow2(7) == 128;
    NumToBitsSmall(64, 7);
  }

  /** The cells of the wallet with a key planted. */
  ghost function WithKey(key: PublicKey): seq<CellView>
  {
    Prefix(WalletCells(), Leaf.Leaf(2, 10), key) + WalletCells()[3..]
  }

  ghost function WalletTree(key: PublicKey, slots: seq<Node>): (t: Tree)
    requires |slots| == MAX_CONTRACT_CELLS_COUNT
    ensures WellFormed(t)
  {
    hide PlantedKey;
    WalletIsForward(key);
    Unfold(WithKey(key), slots, 0)
  }

  lemma WalletIsForward(key: PublicKey)
    ensures Forward(WithKey(key), MAX_CONTRACT_CELLS_COUNT) && |WithKey(key)| == 4
    ensures Truncates(WithKey(key), Prefix(WalletCells(), Leaf.Leaf(2, 10), key))
  {
    hide PlantedKey;
  }

  lemma Unsettled(t: Tree)
    requires WellFormed(t) && t.Branch? && t.d1 != PRUNED_BRANCH_D1 && t.stored > TvmDepth(t)
    ensures !Settled(t)
  {}

  lemma WalletIsUnsettled(key: PublicKey, slots: seq<Node>)
    requires |slots| == MAX_CONTRACT_CELLS_COUNT && slots[2].depth > 0
    ensures !KidsSettled(WalletTree(key, slots)) && TvmDepth(WalletTree(key, slots)) < 0x1_0000
  {
    hide PlantedKey, Forward;
    WalletIsForward(key);
    var cells := WithKey(key);
    var t, data, leaf := WalletTree(key, slots), Unfold(cells, slots, 1), Unfold(cells, slots, 2);
    assert t.kids[1] == data && data.kids == [leaf] && leaf.kids == [];
    assert t.d1 == 2 && data.d1 == 1 && leaf.d1 == 0 && TvmDepth(leaf) == 0;
    Unsettled(leaf);
    assert t.kids[0].kids == [] && TvmDepth(t.kids[0]) == 0;
    assert MaxDepth(data.kids, 0) == 0 && TvmDepth(data) == 1;
    assert MaxDepth(t.kids, 0) == 0 && MaxDepth(t.kids, 1) == 1;
  }

  /**
   A wallet of which the address is not the hash of its initial state, unless SHA-256 clashes: the slot
   of the public key cell still holds the depth of a cell that was there before.
   */
  lemma LeftoverDepth(sha: Sha256, key: PublicKey, slots: seq<Node>)
    requires |slots| == MAX_CONTRACT_CELLS_COUNT && slots[2].depth > 0 && slots[3].depth == 0
    ensures var t, code := WalletTree(key, slots), sha([0, 0]);
            var address := AddressOf(sha, StateOf(Bag(WalletCells()), Success(key), Node(code, 0), slots));
            && address.Success? && (NoClash(sha, t) ==> address.value != TvmHash(sha, t))
  {
    hide PlantedKey, Forward, NoClash, KidsSettled, ParseBoc, Bag, Unfold, Prefix, TvmHash, Eval;
    var cells, leaf, code := WalletCells(), Leaf.Leaf(2, 10), Node(sha([0, 0]), 0);
    WalletParses();
    WalletKeyIsFound();
    WalletIsForward(key);
    WalletIsUnsettled(key, slots);
    CodeHash(sha, WithKey(key), slots);
    AddressIsStateHash(sha, cells, leaf, key, code, slots, WithKey(key), slots);
  }

  /** The hash of a cell without data and references. */
  lemma CodeHash(sha: Sha256, cells: seq<CellView>, slots: seq<Node>)
    requires Forward(cells, |slots|) && |cells| == 4 < |slots| && cells[3] == CellView(0, 0, [], [])
    ensures var t := Unfold(cells, slots, 3); TvmHash(sha, t) == sha([0, 0]) && TvmDepth(t) == 0
  {
    hide Forward, TvmHash;
    assert Unfold(cells, slots, 3) == Branch(0, 0, [], slots[3].depth, []);
    EmptyHash(sha, slots[3].depth);
  }

  lemma EmptyHash(sha: Sha256, stored: byte)
    ensures TvmHash(sha, Branch(0, 0, [], stored, [])) == sha([0, 0])
  {
    var kids: seq<Tree> := [];
    assert [0, 0] + [] + TwoByteDepths(kids, 0) + TvmHashes(sha, kids, 0) == [0, 0];
  }

  // Messages that are signed alike and shown differently.

  /** A root that refers to nothing, and a gift. */
  function TwoCells(far: bool): seq<CellView> {
    [Call([]), Gift(far, [])]
  }

  lemma TwoCellsAreValid(far: bool)
    ensures ValidCells(TwoCells(far), 0, 2) && Forward(TwoCells(far), MAX_CONTRACT_CELLS_COUNT)
  {
    hide Call, Gift, CellView.Valid;
    OrdinaryIsValid(Call([]), 0, 2);
    OrdinaryIsValid(Gift(far, []), 1, 2);
    ValidTable(TwoCells(far));
  }

  /**
   Two messages that are accepted, signed alike and shown differently: the root does not refer to the
   cell that is shown.
   */
  lemma UnsignedGift(sha: Sha256)
    ensures SameHashOtherScreen(SignBag(sha, TwoCells(false)), SignBag(sha, TwoCells(true)))
  {
    var near, far := TwoCells(false), TwoCells(true);
    var order := OrderFor(SAFE_MULTISIG_WALLET);
    TwoCellsAreValid(false);
    TwoCellsAreValid(true);
    hide Call, Gift, Forward, ValidCells, Message, SignBag, Eval, Unfold, BitsOf, ShowsTransfer;
    CallIsShown(near, [], false, SAFE_MULTISIG_WALLET);
    CallIsShown(far, [], true, SAFE_MULTISIG_WALLET);
    NothingReached(near);
    assert near[1 := far[1]] == far;
    ShownDifferently(near, far, order);
    UnreachedOtherScreen(sha, near, 1, far[1]);
  }

  lemma NothingReached(cells: seq<CellView>)
    requires cells != [] && cells[0].refs == [] && Forward(cells, MAX_CONTRACT_CELLS_COUNT)
    ensures !Reaches(cells, 0, 1)
  {
    GiftReached(cells, MAX_CONTRACT_CELLS_COUNT);
  }

  /** Gifts to different workchains are shown differently. */
  lemma ShownDifferently(near: seq<CellView>, far: seq<CellView>, order: Order)
    requires IsTransfer(near, order) && IsTransfer(far, order) && Shown(near, order).Success?
    requires |near[1].data| == |far[1].data| == 50 && BitsOf(near[1].data)[3] != BitsOf(far[1].data)[3]
    ensures Shown(near, order) != Shown(far, order)
  {
    hide ShowsTransfer, Message, BitsOf;
    TransfersShownAlike(near, far, order);
    assert BitsOf(near[1].data)[3..395][0] != BitsOf(far[1].data)[3..395][0];
  }

  /** A root that refers to two gifts, the near one first, whichever of them is cell 1. */
  function TwoGifts(far: bool): seq<CellView> {
    [Call(if far then [2, 1] else [1, 2]), Gift(far, []), Gift(!far, [])]
  }

  lemma TwoGiftsAreValid(far: bool)
    ensures ValidCells(TwoGifts(far), 0, 3) && Forward(TwoGifts(far), MAX_CONTRACT_CELLS_COUNT)
  {
    hide Call, Gift, CellView.Valid;
    OrdinaryIsValid(Call(if far then [2, 1] else [1, 2]), 0, 3);
    OrdinaryIsValid(Gift(far, []), 1, 3);
    OrdinaryIsValid(Gift(!far, []), 2, 3);
    ValidTable(TwoGifts(far));
  }

  /** A cell without references is a leaf, wherever it is in the table. */
  lemma SameLeaf(cells: seq<CellView>, i: nat, cells': seq<CellView>, i': nat, slots: seq<Node>)
    requires Forward(cells, |slots|) && Forward(cells', |slots|) && i < |cells| && i' < |cells'|
    requires cells[i] == cells'[i'] && cells[i].refs == [] && slots[i].depth == slots[i'].depth
    ensures Unfold(cells, slots, i) == Unfold(cells', slots, i')
  {
    assert Unfold(cells, slots, i).kids == [] == Unfold(cells', slots, i').kids;
  }

  lemma SameTwoGifts()
    requires forall far :: Forward(TwoGifts(far), MAX_CONTRACT_CELLS_COUNT)
    ensures Unfold(TwoGifts(false), ClearSlots(), 0) == Unfold(TwoGifts(true), ClearSlots(), 0)
  {
    var near, far, slots := TwoGifts(false), TwoGifts(true), ClearSlots();
    assert near[0].refs == [1, 2] && far[0].refs == [2, 1];
    SameLeaf(near, 1, far, 2, slots);
    SameLeaf(near, 2, far, 1, slots);
    hide Forward, Gift, Call, Bag;
    var kids, kids' := Unfold(near, slots, 0).kids, Unfold(far, slots, 0).kids;
    assert |kids| == |kids'| == 2 && kids[0] == kids'[0] && kids[1] == kids'[1];
  }

  /**
   Two messages that are accepted, signed alike and shown differently, although both roots refer to
   cell 1: it is not at the same place.
   */
  lemma SwappedGift(sha: Sha256)
    ensures Refers(TwoGifts(false), 0, 1) && Refers(TwoGifts(true), 0, 1)
    ensures SameHashOtherScreen(SignBag(sha, TwoGifts(false)), SignBag(sha, TwoGifts(true)))
  {
    var near, far := TwoGifts(false), TwoGifts(true);
    var order := OrderFor(SAFE_MULTISIG_WALLET);
    TwoGiftsAreValid(false);
    TwoGiftsAreValid(true);
    assert near[0].refs[0] == 1 && far[0].refs[1] == 1;
    hide Call, Gift, Forward, ValidCells, Message, SignBag, Eval, Unfold, BitsOf, ShowsTransfer;
    CallIsShown(near, [1, 2], false, SAFE_MULTISIG_WALLET);
    CallIsShown(far, [2, 1], true, SAFE_MULTISIG_WALLET);
    SameTwoGifts();
    ShownDifferently(near, far, order);
    SameTreeOtherScreen(sha, near, far);
  }

  /** A gift that refers to the last of four cells, and not to the body in front of it. */
  function FourCells(body: CellView): (cells: seq<CellView>)
    ensures |cells| == 4
  {
    [Call([1]), Gift(false, [3]), body, NO_BODY]
  }

  lemma FourCellsAreValid(body: CellView)
    requires body.d1 == 0 && body.Shaped() && body.refs == []
    ensures ValidCells(FourCells(body), 0, 4) && Forward(FourCells(body), MAX_CONTRACT_CELLS_COUNT)
  {
    hide Call, Gift, CellView.Valid, ValidCells, Forward;
    var cells := FourCells(body);
    forall k | 0 <= k < 4
      ensures cells[k].Valid(k, 4)
    {
      OrdinaryIsValid(cells[k], k, 4);
    }
    ValidTable(cells);
  }

  lemma BodyReplaced(body: CellView, other: CellView)
    ensures FourCells(body)[2 := other] == FourCells(other)
  {
    hide Call, Gift;
  }

  lemma NoBodyIsShown()
    ensures var cells, order := FourCells(NO_BODY), OrderFor(SAFE_MULTISIG_WALLET);
            ShowsBody(cells, order) && Shown(cells, order).value.flow == Transfer
  {
    hide BitsOf, Call, Gift, ContractHeader, MultisigParams, PlainTransfer, BodyScreen;
    var order := OrderFor(SAFE_MULTISIG_WALLET);
    CallFunction([1]);
    GiftIsShown(false, [3], order);
    BareCall(FourCells(NO_BODY), MULTISIG_SUBMIT_TRANSACTION, order);
    TransferFlow(BitsOf(Gift(false, [3]).data), order);
  }

  lemma TransferFlow(bits: seq<bool>, order: Order)
    requires PlainTransfer(bits, MULTISIG_SUBMIT_TRANSACTION)
    ensures var screen := MultisigParams(bits, MULTISIG_SUBMIT_TRANSACTION, order.wc, order.address, order.currency);
            screen.Success? ==> screen.value.flow == Transfer
  {
    hide PlainTransfer, MultisigParams, Destination, AmountLine, Num;
    PlainTransferScreen(bits, MULTISIG_SUBMIT_TRANSACTION, order.wc, order.address, order.currency);
  }

  /** A call with an empty body. */
  lemma BareCall(cells: seq<CellView>, functionId: nat, order: Order)
    requires |cells| >= 3 && order.walletType == SAFE_MULTISIG_WALLET && cells[1].refs != [] && cells[2].data == []
    requires var header := ContractHeader(BitsOf(cells[0].data));
             header.Success? && header.value.value == functionId != MULTISIG_CONFIRM_TRANSACTION
    ensures ReadsBody(order.walletType, cells, order.currency)
    ensures Shown(cells, order)
         == MultisigParams(BitsOf(cells[1].data), functionId, order.wc, order.address, order.currency)
  {
    hide BitsOf, ContractHeader, MultisigParams, BodyScreen;
  }

  lemma BurnIsShown()
    ensures var order := OrderFor(SAFE_MULTISIG_WALLET);
            var burn := Shown(FourCells(BurnBody()), order);
            burn.Success? && burn.value.flow == Burn
  {
    hide BitsOf, Message, ReadsBody, BodyScreen, Call, Gift, BurnBody;
    var cells, order := FourCells(NO_BODY), OrderFor(SAFE_MULTISIG_WALLET);
    NoBodyIsShown();
    BurnIsBurn();
    EverIsShown();
    BodyDecides(cells, BurnBody(), order);
    BodyReplaced(NO_BODY, NO_BODY);
    BodyReplaced(NO_BODY, BurnBody());
    TokenBurnScreen(BitsOf(BurnBody().data), Shown(cells, order).value, order.currency);
  }

  lemma BodyNotReached(body: CellView)
    requires Forward(FourCells(body), MAX_CONTRACT_CELLS_COUNT)
    ensures Refers(FourCells(body), 0, 1) && !Reaches(FourCells(body), 0, 2)
  {
    hide Forward, Call, Gift, Reaches;
    var cells := FourCells(body);
    BodyReached(cells, MAX_CONTRACT_CELLS_COUNT);
    assert cells[0].refs[0] == 1 && !Refers(cells, 0, 2) && !Refers(cells, 1, 2);
  }

  /** Any two such messages that are shown differently have the same hash. */
  lemma AnyBody(sha: Sha256, body: CellView, other: CellView)
    requires body.d1 == 0 && body.Shaped() && body.refs == [] && other.d1 == 0 && other.Shaped() && other.refs == []
    requires Shown(FourCells(body), OrderFor(SAFE_MULTISIG_WALLET)).Success?
    requires Shown(FourCells(other), OrderFor(SAFE_MULTISIG_WALLET)).Success?
    requires Shown(FourCells(body), OrderFor(SAFE_MULTISIG_WALLET))
          != Shown(FourCells(other), OrderFor(SAFE_MULTISIG_WALLET))
    ensures Refers(FourCells(body), 0, 1)
    ensures SameHashOtherScreen(SignBag(sha, FourCells(body)), SignBag(sha, FourCells(other)))
  {
    hide Shown, SignBag, FourCells, Refers, Reaches, SameHashOtherScreen, Forward, ValidCells, OrderFor;
    FourCellsAreValid(body);
    FourCellsAreValid(other);
    BodyNotReached(body);
    BodyReplaced(body, other);
    UnreachedOtherScreen(sha, FourCells(body), 2, other);
  }

  lemma BodiesAreShown()
    ensures var order := OrderFor(SAFE_MULTISIG_WALLET);
            var none, burn := Shown(FourCells(NO_BODY), order), Shown(FourCells(BurnBody()), order);
            none.Success? && burn.Success? && none != burn
  {
    hide Message, ReadsBody, FourCells, BurnBody, OrderFor;
    NoBodyIsShown();
    BurnIsShown();
  }

  /** The same for the body, to which the gift does not refer: a transfer and a burn. */
  lemma UnsignedBurn(sha: Sha256)
    ensures Refers(FourCells(NO_BODY), 0, 1)
    ensures SameHashOtherScreen(SignBag(sha, FourCells(NO_BODY)), SignBag(sha, FourCells(BurnBody())))
  {
    hide Shown, SignBag, FourCells, BurnBody, Refers, SameHashOtherScreen, OrderFor;
    BodiesAreShown();
    AnyBody(sha, NO_BODY, BurnBody());
  }

  /** A root that refers to its gift. */
  function Referring(gift: CellView): seq<CellView> {
    [Call([1]), gift]
  }

  lemma ReferringIsFine(gift: CellView)
    requires gift.Valid(1, 2) && Shown(Referring(gift), OrderFor(SAFE_MULTISIG_WALLET)).Success?
    ensures Fine(Referring(gift)) && Refers(Referring(gift), 0, 1)
  {
    var cells := Referring(gift);
    assert cells[0].refs[0] == 1;
    hide Call, CellView.Valid, Message, OrderFor;
    OrdinaryIsValid(Call([1]), 0, 2);
    ValidTable(cells);
  }

  /** A gift, and a pruned cell in its place. */
  lemma PrunedReferring(sha: Sha256, gift: CellView) returns (c: CellView)
    requires gift == Gift(false, []) && forall x :: sha(x)[14] == 0xFF
    ensures c.Valid(1, 2) && c.Pruned() && Fine(Referring(gift)) && Refers(Referring(gift), 0, 1)
    ensures SameHashOtherScreen(SignBag(sha, Referring(gift)), SignBag(sha, Referring(c)))
  {
    var cells, order := Referring(gift), OrderFor(SAFE_MULTISIG_WALLET);
    CallIsShown(cells, [1], false, SAFE_MULTISIG_WALLET);
    OrdinaryIsValid(gift, 1, 2);
    ReferringIsFine(gift);
    hide Call, Gift, Message, BitsOf, ShowsTransfer, Refers, CellView.Valid, Fine, Sign, StandsFor;
    assert Signs(sha, cells, order, ClearSlots()) by { FineSigns(sha, cells); }
    TransferNamesAddress(sha, cells, order, ClearSlots());
    var node := NodeOf(sha, cells, 1, order, ClearSlots());
    assert node.hash[14] == 0xFF by { GiftHash(sha, cells, order, ClearSlots()); }
    c := StandIn(node, 1, 1, 0);
    StandInStands(sha, cells, 1, 1, 1, 0, order, ClearSlots());
    SetBitMovesAll(c.data, node, Sends(cells));
    GiftCanBePruned(sha, cells, c, order, ClearSlots());
    CellCanBePruned(sha, cells, 1, c, order, ClearSlots(), 2);
    assert cells[1 := c] == Referring(c);
    ReferringIsFine(c);
    PrunedOtherScreen(sha, cells, c);
  }

  lemma FineSigns(sha: Sha256, cells: seq<CellView>)
    requires Fine(cells)
    ensures Signs(sha, cells, OrderFor(SAFE_MULTISIG_WALLET), ClearSlots())
  {
    hide Message, Forward, ValidCells;
  }

  /** The hash of a gift that is not pruned is one that SHA-256 computes. */
  lemma GiftHash(sha: Sha256, cells: seq<CellView>, order: Order, slots: seq<Node>)
    requires Signs(sha, cells, order, slots) && |cells| >= 2 && !cells[1].Pruned() && !Prepends(order.walletType)
    ensures exists x :: NodeOf(sha, cells, 1, order, slots).hash == sha(x)
  {
    hide Message, Forward;
    var t := Unfold(cells, slots, 1);
    BranchEval(sha, t);
    assert NodeOf(sha, cells, 1, order, slots).hash == sha(Preimage(t.d1, t.d2, t.data, EvalAll(sha, t.kids)));
  }

  /** The bit that the program reads as that for all of the balance. */
  lemma SetBitMovesAll(data: seq<byte>, node: Node, send: bool)
    requires |data| == PRUNED_BRANCH_DATA_SIZE && PrunedNode(data) == node && node.hash[14] == 0xFF && !send
    ensures MovesAll(data, send)
  {
    hide BitsOf, ToBits;
    assert data[16] == 0xFF;
    BitsOfByte(data, 16);
    BitsOfFF();
    assert BitsOf(data)[131] == BitsOf(data)[128..136][3];
  }

  lemma BitsOfFF()
    ensures ToBits(0xFF, 8)[3]
  {}

  lemma PrunedOtherScreen(sha: Sha256, cells: seq<CellView>, c: CellView)
    requires |cells| >= 2 && Fine(cells) && Fine(cells[1 := c])
    requires SignedAlike(sha, cells, cells[1 := c], OrderFor(SAFE_MULTISIG_WALLET), ClearSlots())
    requires Shown(cells, OrderFor(SAFE_MULTISIG_WALLET)) != Shown(cells[1 := c], OrderFor(SAFE_MULTISIG_WALLET))
    ensures SameHashOtherScreen(SignBag(sha, cells), SignBag(sha, cells[1 := c]))
  {
    hide Message, Forward, ValidCells, Eval, Unfold, SignBag;
    FineIsSigned(sha, cells);
    FineIsSigned(sha, cells[1 := c]);
  }

  /** As if all hashes were ones. */
  const ONES: Sha256 := _ => seq(HASH_SIZE, _ => 0xFF)

  /**
   Two messages that are accepted, signed alike and shown differently, although the root refers to the
   gift in both and at the same place: in one the gift is pruned, and all of the balance is moved.
   */
  lemma PrunedGift() returns (c: CellView)
    ensures c.Valid(1, 2) && c.Pruned() && Refers(Referring(Gift(false, [])), 0, 1)
    ensures SameHashOtherScreen(SignBag(ONES, Referring(Gift(false, []))), SignBag(ONES, Referring(c)))
  {
    hide Gift, Referring, SignBag, CellView.Valid, Refers, Fine, SameHashOtherScreen;
    c := PrunedReferring(ONES, Gift(false, []));
  }

  // A root without a tag.

  /** A root of whole bytes is accepted by the wallets that prepend an address, and loses its last one for a tag. */
  lemma UntaggedRoot(sha: Sha256)
    ensures Sign(sha, Bag(TwoCells(false)), OrderFor(MULTISIG_2), ClearSlots()).Success?
    ensures var root, order := TwoCells(false)[0], OrderFor(MULTISIG_2);
            var signed := SignedCells(TwoCells(false), true, order.wc, order.prependAddress);
            signed.Success? && |Payload(signed.value[0].d2, signed.value[0].data)| != NewLength(root)
  {
    TwoCellsAreValid(false);
    var order, cells := OrderFor(MULTISIG_2), TwoCells(false);
    assert cells[0].d2 == 34;
    hide BitsOf, ParseBoc, Message, ShowsTransfer, Eval, Unfold, Forward, Bag, Call, Gift, D2For, Prepended;
    BagParses(cells);
    CallIsShown(cells, [], false, MULTISIG_2);
    NewSizeFits(cells[0]);
    PrependExactOnlyIfTagged(cells[0], order.wc, order.prependAddress);
    SignedForward(cells, order);
  }

  lemma SignedForward(cells: seq<CellView>, order: Order)
    requires order.Valid() && |cells| == 2 && ValidCells(cells, 0, 2) && CanPrepend(cells[0])
    requires cells[0].refs == cells[1].refs == []
    ensures Forward(cells[0 := Prepended(cells[0], order.wc, order.prependAddress)], MAX_CONTRACT_CELLS_COUNT)
  {
    hide ValidCells, Fits, Prepended, Parsed, Forward;
    var signed := cells[0 := Prepended(cells[0], order.wc, order.prependAddress)];
    ValidIsParsed(cells, 2);
    PrependedParsed(cells, order.wc, order.prependAddress);
    PrependKeepsRefs(cells[0], order.wc, order.prependAddress);
    ForwardWhen(signed, signed, 2);
    assert signed[..2] == signed;
  }
}
