/**
 What a message says (src/message.c), as functions of the bits of its cells: the screen the user is to
 see, or the error when the message is refused.
 */
module MessageFormat {
  import opened Bits
  import opened Seqs
  import opened Outcomes
  import opened Cells
  import opened Fields
  import opened Prepending
  import opened Display

  const WALLET_ID := 0x4BA92D8A

  const MULTISIG_DEPLOY_TRANSACTION := 1813932348
  const MULTISIG_SEND_TRANSACTION := 1290691692
  const MULTISIG_SUBMIT_TRANSACTION := 320701133
  const MULTISIG_CONFIRM_TRANSACTION := 447168749
  const MULTISIG2_DEPLOY_TRANSACTION := 733015951
  const MULTISIG2_SUBMIT_TRANSACTION := 1428000117

  const TOKEN_BURN := 1445284013
  const TOKEN_TRANSFER := 1944199491
  const TOKEN_TRANSFER_TO_WALLET := 1185535980

  const WALLET_V3 := 0
  const EVER_WALLET := 1
  const SAFE_MULTISIG_WALLET := 2
  const SURF_WALLET := 6
  const MULTISIG_2 := 7
  const MULTISIG_2_1 := 8

  const AMOUNT_LENGTH := 16
  const AMOUNT_BITS := 128

  datatype Flow = Transfer | Deploy | Confirm | Burn

  /** A line of the screen; it is garbled when a message names no address. */
  datatype Line = Blank | Garbled | Text(text: string)

  datatype Screen = Screen(flow: Flow, address: Line, amount: Line, id: Line)

  const EMPTY := Screen(Transfer, Blank, Blank, Blank)

  /** A value read, and the bits behind it. */
  datatype Read<T> = Read(value: T, rest: seq<bool>)

  /** The destination line of addr_none and addr_std. */
  ghost function Destination(bits: seq<bool>): Result<Read<Line>> {
    if StartsNone(bits) then Success(Read(Garbled, bits[2..]))
    else if StartsStd(bits) && |bits| >= ADDRESS_BITS then
      NumBound(bits[3..11]);
      assert Num(bits[3..11]) < 0x100 by { Pow2Values(); }
      Success(Read(Text(AddressText(Num(bits[3..11]), Pack(bits[11..ADDRESS_BITS]))), bits[ADDRESS_BITS..]))
    else Failure(AddressError(bits))
  }

  /** The number the first n bits denote. */
  ghost function Number(bits: seq<bool>, n: nat): Result<Read<nat>> {
    if |bits| < n then Failure(CellUnderflow) else Success(Read(Num(bits[..n]), bits[n..]))
  }

  /** The number n whole bytes denote. */
  ghost function Value(bits: seq<bool>, n: nat): Result<Read<nat>> {
    if |bits| < 8 * n then Failure(ValueError(|bits|, n)) else Success(Read(Num(bits[..8 * n]), bits[8 * n..]))
  }

  // The message of a wallet v3.

  /** Nothing but the wallet number, two more numbers and the flags. */
  ghost function WalletV3(bits: seq<bool>): Result<nat> {
    if |bits| < 32 then Failure(CellUnderflow)
    else if Num(bits[..32]) != WALLET_ID then Failure(InvalidMessage)
    else if |bits| < 104 then Failure(CellUnderflow)
    else if |bits| > 104 then Failure(InvalidMessage)
    else Success(Num(bits[96..]))
  }

  /** An amount of zero to fifteen bytes behind its length. */
  ghost function VarAmount(bits: seq<bool>): Result<Read<nat>> {
    if |bits| < 4 then Failure(CellUnderflow) else Value(bits[4..], Num(bits[..4]))
  }

  /** No extra currencies bit is checked, both fees are absent, and two time stamps follow. */
  ghost function NoFees(bits: seq<bool>): (r: Result<()>)
    ensures r.Success? <==> |bits| >= 105 && Num(bits[1..5]) == 0 && Num(bits[5..9]) == 0
  {
    if |bits| < 5 then Failure(CellUnderflow)
    else if Num(bits[1..5]) != 0 then Failure(InvalidMessage)
    else if |bits| < 9 then Failure(CellUnderflow)
    else if Num(bits[5..9]) != 0 then Failure(InvalidMessage)
    else Validate(|bits| >= 105, CellUnderflow)
  }

  /** The message is internal. */
  ghost function InternalFlags(bits: seq<bool>): (r: Result<()>)
    ensures r.Success? <==> |bits| >= 4 && !bits[0]
  {
    if bits != [] && bits[0] then Failure(InvalidMessage) else Validate(|bits| >= 4, CellUnderflow)
  }

  ghost function IntMessage(bits: seq<bool>, flags: nat, currency: Currency): Result<Read<Screen>> {
    var _ :- InternalFlags(bits);
    var source :- Destination(bits[4..]);
    var destination :- Destination(source.rest);
    var amount :- VarAmount(destination.rest);
    var line :- AmountLine(amount.value, flags, currency);
    var _ :- NoFees(amount.rest);
    Success(Read(Screen(Transfer, destination.value, Text(line), Blank), amount.rest[105..]))
  }

  /** Two slices to read from; once the second is used, the first is not used any more. */
  datatype Source = Source(main: seq<bool>, ref: seq<bool>, hasRef: bool, onRef: bool) {
    function Current(): seq<bool> {
      if onRef then ref else main
    }

    function Advance(n: nat): Source
      requires n <= |Current()|
    {
      if onRef then this.(ref := ref[n..]) else this.(main := main[n..])
    }

    /** Goes on with the second slice if the current one has less than n bits. */
    function Reload(n: nat): Result<Source> {
      if |Current()| >= n then Success(this)
      else if hasRef then Success(this.(onRef := true))
      else Failure(SliceIsEmpty)
    }
  }

  /** The amount line of a token message. */
  ghost function TokenAmount(src: Source, currency: Currency): Result<(Source, string)> {
    var s :- src.Reload(AMOUNT_BITS);
    var amount :- Value(s.Current(), AMOUNT_LENGTH);
    var line :- AmountLine(amount.value, NORMAL_FLAG, currency);
    Success((s.Advance(AMOUNT_BITS), line))
  }

  /** The destination and amount lines of a token transfer. */
  ghost function TokenTransfer(src: Source, currency: Currency): Result<(Line, string)> {
    var amount :- TokenAmount(src, currency);
    var s :- amount.0.Reload(256);
    var destination :- Destination(s.Current());
    Success((destination.value, amount.1))
  }

  /** A token message body in one or two slices; what it says replaces what the screen says. */
  ghost function TokenBody(src: Source, screen: Screen, currency: Currency): Result<Screen>
    requires !src.onRef
  {
    if |src.main| < 32 && (!src.hasRef || |src.ref| < 32) then Success(screen.(flow := Transfer))
    else
      var s := src.(onRef := |src.main| < 32);
      var functionId := Num(s.Current()[..32]);
      if functionId == TOKEN_TRANSFER || functionId == TOKEN_TRANSFER_TO_WALLET then
        var transfer :- TokenTransfer(s.Advance(32), currency);
        Success(Screen(Transfer, transfer.0, Text(transfer.1), screen.id))
      else if functionId == TOKEN_BURN then
        var amount :- TokenAmount(s.Advance(32), currency);
        Success(screen.(flow := Burn, amount := Text(amount.1)))
      else Success(screen.(flow := Transfer))
  }

  /** The lines of a body in one slice. */
  ghost function BodyScreen(bits: seq<bool>, screen: Screen, currency: Currency): Result<Screen> {
    TokenBody(Source(bits, [], false, false), screen, currency)
  }

  ghost function WalletV3Message(cells: seq<CellView>, currency: Currency): Result<Screen>
    requires cells != []
  {
    var flags :- WalletV3(BitsOf(cells[0].data));
    if |cells| < 2 then Failure(InvalidCellIndex)
    else
      var header :- IntMessage(BitsOf(cells[1].data), flags, currency);
      V3Body(header.rest, cells, header.value, currency)
  }

  /** No state init; a body bit or a reference means a body here and in cell 2. */
  ghost function V3Body(bits: seq<bool>, cells: seq<CellView>, screen: Screen, currency: Currency): Result<Screen>
    requires |cells| >= 2
  {
    if bits != [] && bits[0] then Failure(InvalidMessage)
    else if |bits| < 2 then Failure(CellUnderflow)
    else if !bits[1] && cells[1].refs == [] then Success(screen)
    else if |cells| < 3 then Failure(InvalidCellIndex)
    else TokenBody(Source(bits[2..], BitsOf(cells[2].data), true, false), screen, currency)
  }

  // The messages of multisig wallets.

  /** Skips the signature's public key, if there is one, and two time stamps, and reads the function number. */
  ghost function ContractHeader(bits: seq<bool>): Result<Read<nat>> {
    if bits == [] then Failure(CellUnderflow)
    else
      var n := 97 + if bits[0] then 256 else 0;
      if |bits| < n then Failure(CellUnderflow) else Number(bits[n..], 32)
  }

  /** The flags behind an amount: in eight bits behind the bounce bit, or chosen by the bit behind it. */
  ghost function TransferFlags(bits: seq<bool>, send: bool): Result<nat> {
    if |bits| < (if send then 9 else 2) then Failure(CellUnderflow)
    else Success(if send then Num(bits[1..9]) else if bits[1] then ALL_BALANCE_FLAG else NORMAL_FLAG)
  }

  ghost function TransferParams(bits: seq<bool>, send: bool, currency: Currency): Result<Screen> {
    var destination :- Destination(bits);
    var amount :- Value(destination.rest, AMOUNT_LENGTH);
    var flags :- TransferFlags(amount.rest, send);
    var line :- AmountLine(amount.value, flags, currency);
    Success(Screen(Transfer, destination.value, Text(line), Blank))
  }

  predicate IsSubmit(functionId: nat) {
    functionId == MULTISIG_SUBMIT_TRANSACTION || functionId == MULTISIG2_SUBMIT_TRANSACTION
  }

  predicate IsDeploy(functionId: nat) {
    functionId == MULTISIG_DEPLOY_TRANSACTION || functionId == MULTISIG2_DEPLOY_TRANSACTION
  }

  ghost function MultisigParams(bits: seq<bool>, functionId: nat, wc: byte, address: seq<byte>,
                                currency: Currency): Result<Screen> {
    if IsDeploy(functionId) then Success(Screen(Deploy, Text(AddressText(wc, address)), Blank, Blank))
    else if functionId == MULTISIG_SEND_TRANSACTION || IsSubmit(functionId) then
      TransferParams(bits, functionId == MULTISIG_SEND_TRANSACTION, currency)
    else if functionId == MULTISIG_CONFIRM_TRANSACTION then
      if |bits| < 64 then Failure(ValueError(|bits|, 8))
      else Success(Screen(Confirm, Blank, Blank, Text(Hex(Pack(bits[..64])))))
    else Failure(InvalidFunctionId)
  }

  /** The gift is in cell 1; the older wallets have the parameters of a confirmation in the root. */
  ghost function MultisigMessage(cells: seq<CellView>, older: bool, wc: byte, address: seq<byte>, currency: Currency)
    : Result<Screen>
    requires cells != []
  {
    var header :- ContractHeader(BitsOf(cells[0].data));
    var inRoot := older && header.value == MULTISIG_CONFIRM_TRANSACTION;
    if !inRoot && |cells| < 2 then Failure(InvalidCellIndex)
    else
      var gift := if inRoot then cells[0] else cells[1];
      var bits := if inRoot then header.rest else BitsOf(gift.data);
      MultisigCall(cells, gift, bits, header.value, wc, address, currency)
  }

  /** The parameters of a call, and the body of the gift. */
  ghost function MultisigCall(cells: seq<CellView>, gift: CellView, bits: seq<bool>, functionId: nat, wc: byte,
                              address: seq<byte>, currency: Currency): Result<Screen>
  {
    var screen :- MultisigParams(bits, functionId, wc, address, currency);
    GiftBody(cells, gift, screen, currency)
  }

  /** A gift with references has a body in cell 2. */
  ghost function GiftBody(cells: seq<CellView>, gift: CellView, screen: Screen, currency: Currency): Result<Screen> {
    if gift.refs == [] then Success(screen)
    else if |cells| < 3 then Failure(InvalidCellIndex)
    else if cells[2].data == [] then Success(screen)
    else BodyScreen(BitsOf(cells[2].data), screen, currency)
  }

  predicate OlderMultisig(walletType: byte) {
    SAFE_MULTISIG_WALLET <= walletType <= SURF_WALLET
  }

  /** These wallets sign the root with the address in front. */
  predicate Prepends(walletType: byte) {
    walletType == EVER_WALLET || walletType == MULTISIG_2 || walletType == MULTISIG_2_1
  }

  /** The screen for a message. */
  ghost function Message(walletType: byte, cells: seq<CellView>, wc: byte, address: seq<byte>, currency: Currency)
    : Result<Screen>
    requires cells != []
  {
    if walletType == WALLET_V3 then WalletV3Message(cells, currency)
    else if OlderMultisig(walletType) || Prepends(walletType) then
      MultisigMessage(cells, OlderMultisig(walletType), wc, address, currency)
    else Failure(InvalidWalletType)
  }

  // What a message is read from.

  /** A confirmation of the older wallets is read from the root. */
  ghost predicate InRoot(walletType: byte, root: CellView) {
    var header := ContractHeader(BitsOf(root.data));
    OlderMultisig(walletType) && header.Success? && header.value.value == MULTISIG_CONFIRM_TRANSACTION
  }

  /** Cell 1 is read. */
  ghost predicate ReadsGift(walletType: byte, cells: seq<CellView>)
    requires cells != []
  {
    |cells| >= 2 && !InRoot(walletType, cells[0])
  }

  /** Cell 2 is read. */
  ghost predicate ReadsBody(walletType: byte, cells: seq<CellView>, currency: Currency)
    requires cells != []
  {
    && |cells| >= 3
    && if InRoot(walletType, cells[0]) then cells[0].refs != []
       else cells[1].refs != [] || (walletType == WALLET_V3 && BodyBit(cells[0].data, cells[1].data, currency))
  }

  /** The body bit of a wallet v3 gift. */
  ghost predicate BodyBit(root: seq<byte>, gift: seq<byte>, currency: Currency) {
    var flags := WalletV3(BitsOf(root));
    flags.Success? &&
      var header := IntMessage(BitsOf(gift), flags.value, currency);
      header.Success? && |header.value.rest| >= 2 && header.value.rest[1]
  }

  /** The roots are read alike: of a root that is rewritten before it is signed, only the function number is read. */
  ghost predicate ReadAlike(walletType: byte, root: CellView, root': CellView) {
    && (root.refs == [] <==> root'.refs == [])
    && if Prepends(walletType) then
         var header, header' := ContractHeader(BitsOf(root.data)), ContractHeader(BitsOf(root'.data));
         header.Success? && header'.Success? && header.value.value == header'.value.value
       else root.data == root'.data
  }

  /** Data and absence of references are what is read of a gift or body. */
  ghost predicate SaysTheSame(c: CellView, c': CellView) {
    c.data == c'.data && (c.refs == [] <==> c'.refs == [])
  }

  /** A message that can be read is shown like three cells of which the ones it reads are the same. */
  lemma SameReading(walletType: byte, cells: seq<CellView>, three: seq<CellView>, wc: byte, address: seq<byte>,
                    currency: Currency)
    requires cells != [] && |three| == 3 && Message(walletType, cells, wc, address, currency).Success?
    requires ReadAlike(walletType, cells[0], three[0])
    requires ReadsGift(walletType, cells) ==> SaysTheSame(cells[1], three[1])
    requires ReadsBody(walletType, cells, currency) ==> SaysTheSame(cells[2], three[2])
    ensures Message(walletType, three, wc, address, currency) == Message(walletType, cells, wc, address, currency)
  {
    hide BitsOf, ContractHeader, MultisigParams, TokenBody, WalletV3, IntMessage;
  }

  /** Accepted messages that agree in the cells that are read read the same cells. */
  lemma ReadsTheSame(walletType: byte, cells: seq<CellView>, cells': seq<CellView>, wc: byte, address: seq<byte>,
                     currency: Currency)
    requires cells != [] && cells' != []
    requires Message(walletType, cells, wc, address, currency).Success?
    requires Message(walletType, cells', wc, address, currency).Success?
    requires ReadAlike(walletType, cells[0], cells'[0])
    requires ReadsGift(walletType, cells) ==> |cells'| >= 2 && SaysTheSame(cells[1], cells'[1])
    ensures ReadsGift(walletType, cells) <==> ReadsGift(walletType, cells')
    ensures ReadsBody(walletType, cells, currency) <==> ReadsBody(walletType, cells', currency)
  {
    hide BitsOf, ContractHeader, MultisigParams, TokenBody, WalletV3, IntMessage;
  }

  // What the screen says is what the gift says.

  /** A transfer with the normal flag to a standard address. */
  ghost predicate PlainTransfer(bits: seq<bool>, functionId: nat) {
    && StartsStd(bits) && |bits| >= 397
    && if functionId == MULTISIG_SEND_TRANSACTION then |bits| >= 404 && Num(bits[396..404]) == NORMAL_FLAG
       else IsSubmit(functionId) && !bits[396]
  }

  /** The lines of a plain transfer are the destination and the amount at their bit positions in the gift. */
  lemma PlainTransferScreen(bits: seq<bool>, functionId: nat, wc: byte, address: seq<byte>, currency: Currency)
    requires PlainTransfer(bits, functionId)
    ensures var line := AmountLine(Num(bits[267..395]), NORMAL_FLAG, currency);
            MultisigParams(bits, functionId, wc, address, currency)
            == if line.Failure? then Failure(line.error)
               else Success(Screen(Transfer, Destination(bits).value.value, Text(line.value), Blank))
  {
    hide Num, AmountLine, AddressText, Pack;
    var rest := bits[267..];
    assert rest[..128] == bits[267..395];
    assert rest[128..][1] == bits[396];
    assert |bits| >= 404 ==> rest[128..][1..9] == bits[396..404];
  }

  /**
   The screen of a plain transfer gives the destination and the amount away: two gifts are shown
   alike if and only if they agree in the workchain, the address and the amount.
   */
  lemma ScreenDeterminesTransfer(bits: seq<bool>, functionId: nat, bits': seq<bool>, functionId': nat,
                                 wc: byte, address: seq<byte>, currency: Currency)
    requires PlainTransfer(bits, functionId) && PlainTransfer(bits', functionId')
    ensures var screen, screen' := MultisigParams(bits, functionId, wc, address, currency),
                                   MultisigParams(bits', functionId', wc, address, currency);
            screen.Success? ==> (screen == screen' <==> bits[3..395] == bits'[3..395])
  {
    hide Num, AmountLine, Destination, MultisigParams, StartsStd;
    PlainTransferScreen(bits, functionId, wc, address, currency);
    PlainTransferScreen(bits', functionId', wc, address, currency);
    SameDestination(bits, bits');
    if AmountLine(Num(bits[267..395]), NORMAL_FLAG, currency).Success? {
      AmountLineInjective(Num(bits[267..395]), Num(bits'[267..395]), currency);
    }
    NumInjective(bits[267..395], bits'[267..395]);
    assert bits[3..395] == bits[3..267] + bits[267..395];
    assert bits'[3..395] == bits'[3..267] + bits'[267..395];
    BothParts(bits[3..267], bits[267..395], bits'[3..267], bits'[267..395]);
  }

  // A pruned cell in the place of the gift.

  /** The amount line of a pruned cell's bytes, read as a transfer that names no address. */
  ghost function PrunedLine(data: seq<byte>, send: bool, currency: Currency): Result<string>
    requires |data| == PRUNED_BRANCH_DATA_SIZE
  {
    var bits := BitsOf(data);
    AmountLine(Num(bits[2..130]), TransferFlags(bits[130..], send).value, currency)
  }

  /** The bytes of a pruned cell are a transfer if the type byte names no address and there is a line for the amount. */
  lemma PrunedTransferScreen(data: seq<byte>, send: bool, currency: Currency)
    requires |data| == PRUNED_BRANCH_DATA_SIZE
    ensures var screen, line := TransferParams(BitsOf(data), send, currency), PrunedLine(data, send, currency);
            if data[0] >= 0x40 then screen.Failure?
            else if line.Failure? then screen == Failure(line.error)
            else screen == Success(Screen(Transfer, Garbled, Text(line.value), Blank))
  {
    hide BitsOf, Num, AmountLine, AddressText, Pack, ToBits;
    var bits := BitsOf(data);
    TypeByte(data);
    if data[0] < 0x40 {
      assert bits[..2] == [false, false];
      assert bits[2..][..128] == bits[2..130] && bits[2..][128..] == bits[130..];
    } else {
      assert bits[..2] != [false, false];
    }
  }

  lemma TypeByte(data: seq<byte>)
    requires data != []
    ensures data[0] < 0x80 <==> !BitsOf(data)[0]
    ensures data[0] < 0x40 <==> !BitsOf(data)[0] && !BitsOf(data)[1]
  {
    hide BitsOf, ToBits, Pow2;
    BitsOfByte(data, 0);
    var a := BitsOf(data)[0..8];
    Pow2Values();
    NumToBitsSmall(data[0], 8);
    TopBits(a);
  }

  lemma TopBits(a: seq<bool>)
    requires |a| == 8
    ensures Num(a) < 0x80 <==> !a[0]
    ensures Num(a) < 0x40 <==> !a[0] && !a[1]
  {
    hide Pow2;
    Pow2Values();
    assert a == a[..1] + a[1..] && a == a[..2] + a[2..];
    NumAppend(a[..1], a[1..]);
    NumAppend(a[..2], a[2..]);
    NumBound(a[1..]);
    NumBound(a[2..]);
    NumOfBit(a[..1]);
    assert a[..2][..1] == a[..1] && a[..2][1] == a[1];
    assert Num(a[..2]) == 2 * Num(a[..1]) + if a[1] then 1 else 0;
  }

  /** The type byte of a pruned cell is 1: read as a transfer, it moves all of the balance or is refused. */
  lemma PrunedMovesAll(data: seq<byte>, send: bool, currency: Currency)
    requires |data| == PRUNED_BRANCH_DATA_SIZE && data[0] == 1
    ensures var flags := TransferFlags(BitsOf(data)[130..], send).value;
            PrunedLine(data, send, currency).Success?
            <==> flags == ALL_BALANCE_FLAG || flags == ALL_BALANCE_AND_DELETE_FLAG
  {
    hide BitsOf, Num, Pow2, ToBits, AmountLine;
    var bits := BitsOf(data);
    BitsOfByte(data, 0);
    LastBitOfOne();
    assert bits[7] == bits[0..8][7];
    var a, b := bits[2..8], bits[8..130];
    assert bits[2..130] == a + b;
    NumAppend(a, b);
    assert Num(a) >= 1 by { OddIsPositive(a); }
    MulMonotone(1, Num(a), Pow2(122));
    HugeAmount(Num(bits[2..130]), currency);
    var flags := TransferFlags(bits[130..], send).value;
    if flags != NORMAL_FLAG {
      OtherLines(Num(bits[2..130]), flags, currency);
    }
  }

  lemma LastBitOfOne()
    ensures ToBits(1, 8)[7]
  {}

  lemma OddIsPositive(a: seq<bool>)
    requires a != [] && a[|a| - 1]
    ensures Num(a) >= 1
  {}

  /** A wallet v3 refuses a gift that starts with the type byte of a pruned cell: there is no such address. */
  lemma PrunedIsNoGift(data: seq<byte>, flags: nat, currency: Currency)
    requires |data| >= 2 && data[0] == 1
    ensures IntMessage(BitsOf(data), flags, currency).Failure?
  {
    hide BitsOf, Num, AmountLine, AddressText, Pack, VarAmount, NoFees, ToBits;
    var bits := BitsOf(data);
    BitsOfByte(data, 0);
    BitsOfTypeOne();
    assert bits[4] == bits[0..8][4] && bits[5] == bits[0..8][5] && bits[6] == bits[0..8][6] && bits[7] == bits[0..8][7];
    assert bits[4..][..2] == [false, false] && bits[4..][2..][..2] == [false, true];
  }

  lemma BitsOfTypeOne()
    ensures var a := ToBits(1, 8); !a[4] && !a[5] && !a[6] && a[7]
  {}

  /** A token transfer in one cell, to a standard address. */
  ghost predicate PlainTokenTransfer(bits: seq<bool>) {
    && |bits| >= 427 && StartsStd(bits[160..])
    && (Num(bits[..32]) == TOKEN_TRANSFER || Num(bits[..32]) == TOKEN_TRANSFER_TO_WALLET)
  }

  lemma TokenAmountLine(bits: seq<bool>, currency: Currency)
    requires |bits| >= 160
    ensures var src := Source(bits, [], false, false).Advance(32);
            TokenAmount(src, currency)
            == var line := AmountLine(Num(bits[32..160]), NORMAL_FLAG, currency);
               if line.Failure? then Failure(line.error)
               else Success((Source(bits[160..], [], false, false), line.value))
  {
    hide Num, AmountLine;
    assert bits[32..][..128] == bits[32..160] && bits[32..][128..] == bits[160..];
  }

  lemma TokenTransferScreen(bits: seq<bool>, screen: Screen, currency: Currency)
    requires PlainTokenTransfer(bits)
    ensures var line := AmountLine(Num(bits[32..160]), NORMAL_FLAG, currency);
            BodyScreen(bits, screen, currency)
            == if line.Failure? then Failure(line.error)
               else Success(Screen(Transfer, Destination(bits[160..]).value.value, Text(line.value), screen.id))
  {
    hide Num, AmountLine, AddressText, Pack, TokenAmount;
    TokenAmountLine(bits, currency);
  }

  /** The screen of a token transfer gives the workchain, the address and the amount of tokens away. */
  lemma ScreenDeterminesTokenTransfer(bits: seq<bool>, screen: Screen, bits': seq<bool>, screen': Screen,
                                      currency: Currency)
    requires PlainTokenTransfer(bits) && PlainTokenTransfer(bits')
    ensures var shown, shown' := BodyScreen(bits, screen, currency), BodyScreen(bits', screen', currency);
            shown.Success? ==>
              (shown == shown' <==>
                bits[32..160] == bits'[32..160] && bits[163..427] == bits'[163..427] && screen.id == screen'.id)
  {
    hide Num, AmountLine, Destination, StartsStd, BodyScreen;
    TokenTransferScreen(bits, screen, currency);
    TokenTransferScreen(bits', screen', currency);
    SameDestination(bits[160..], bits'[160..]);
    assert bits[160..][3..267] == bits[163..427] && bits'[160..][3..267] == bits'[163..427];
    SameAmount(bits[32..160], bits'[32..160], currency);
  }

  lemma SameAmount(bits: seq<bool>, bits': seq<bool>, currency: Currency)
    requires |bits| == |bits'|
    ensures var line, line' := AmountLine(Num(bits), NORMAL_FLAG, currency),
                               AmountLine(Num(bits'), NORMAL_FLAG, currency);
            line.Success? ==> (line == line' <==> bits == bits')
  {
    hide Num, AmountLine;
    if AmountLine(Num(bits), NORMAL_FLAG, currency).Success? {
      AmountLineInjective(Num(bits), Num(bits'), currency);
    }
    if Num(bits) == Num(bits') {
      NumInjective(bits, bits');
    }
  }

  /** A token burn. */
  ghost predicate TokenBurn(bits: seq<bool>) {
    |bits| >= 160 && Num(bits[..32]) == TOKEN_BURN
  }

  lemma TokenBurnScreen(bits: seq<bool>, screen: Screen, currency: Currency)
    requires TokenBurn(bits)
    ensures var line := AmountLine(Num(bits[32..160]), NORMAL_FLAG, currency);
            BodyScreen(bits, screen, currency)
            == if line.Failure? then Failure(line.error)
               else Success(screen.(flow := Burn, amount := Text(line.value)))
  {
    hide Num, AmountLine, TokenAmount;
    TokenAmountLine(bits, currency);
  }

  /** The screen of a token burn gives the amount of tokens away, and the lines of the gift that it keeps. */
  lemma ScreenDeterminesBurn(bits: seq<bool>, screen: Screen, bits': seq<bool>, screen': Screen, currency: Currency)
    requires TokenBurn(bits) && TokenBurn(bits')
    ensures var shown, shown' := BodyScreen(bits, screen, currency), BodyScreen(bits', screen', currency);
            shown.Success? ==>
              (shown == shown' <==>
                bits[32..160] == bits'[32..160] && screen.address == screen'.address && screen.id == screen'.id)
  {
    hide Num, AmountLine, BodyScreen;
    TokenBurnScreen(bits, screen, currency);
    TokenBurnScreen(bits', screen', currency);
    SameAmount(bits[32..160], bits'[32..160], currency);
  }

  /** Other bodies, and any body if no amount of tokens can be shown, leave the lines as they are. */
  lemma OtherBodyScreen(bits: seq<bool>, screen: Screen, currency: Currency)
    requires BodyScreen(bits, screen, currency).Success?
    requires |bits| < 32 || AmountLine(0, NORMAL_FLAG, currency).Failure?
    ensures BodyScreen(bits, screen, currency) == Success(screen.(flow := Transfer))
  {
    hide Num, AmountLine, Destination;
    if |bits| >= 160 && AmountLine(Num(bits[32..160]), NORMAL_FLAG, currency).Success? {
      ZeroIsShown(Num(bits[32..160]), currency);
    }
    if |bits| >= 160 {
      TokenAmountLine(bits, currency);
    }
  }

  /** A wallet v3 gift without a source address, to a standard address. */
  ghost predicate PlainGift(bits: seq<bool>) {
    |bits| >= 277 && !bits[0] && StartsNone(bits[4..]) && StartsStd(bits[6..])
  }

  /** Its screen, too, gives the destination and the amount away. */
  lemma ScreenDeterminesGift(bits: seq<bool>, bits': seq<bool>, currency: Currency)
    requires PlainGift(bits) && PlainGift(bits')
    ensures var screen, screen' := IntMessage(bits, NORMAL_FLAG, currency), IntMessage(bits', NORMAL_FLAG, currency);
            var amount, amount' := VarAmount(bits[273..]), VarAmount(bits'[273..]);
            screen.Success? && screen'.Success? ==>
              && amount.Success? && amount'.Success?
              && (screen.value.value == screen'.value.value
                  <==> bits[9..273] == bits'[9..273] && amount.value.value == amount'.value.value)
  {
    hide AmountLine, VarAmount, NoFees, Num, Pack, AddressText;
    if IntMessage(bits, NORMAL_FLAG, currency).Success? && IntMessage(bits', NORMAL_FLAG, currency).Success? {
      GiftParts(bits);
      GiftParts(bits');
      SameDestination(bits[6..], bits'[6..]);
      assert bits[6..][3..267] == bits[9..273] && bits'[6..][3..267] == bits'[9..273];
      AmountLineInjective(VarAmount(bits[273..]).value.value, VarAmount(bits'[273..]).value.value, currency);
    }
  }

  lemma GiftParts(bits: seq<bool>)
    requires PlainGift(bits)
    ensures Destination(bits[4..]) == Success(Read(Garbled, bits[6..]))
    ensures Destination(bits[6..]).Success? && Destination(bits[6..]).value.rest == bits[273..]
  {
    assert bits[4..][2..] == bits[6..];
    assert bits[6..][267..] == bits[273..];
  }

  /** Destination lines are equal exactly for equal workchains and addresses. */
  lemma SameDestination(bits: seq<bool>, bits': seq<bool>)
    requires StartsStd(bits) && |bits| >= 267 && StartsStd(bits') && |bits'| >= 267
    ensures Destination(bits).value.value == Destination(bits').value.value <==> bits[3..267] == bits'[3..267]
  {
    hide Num, AddressText, Pack;
    var w, a, w', a' := bits[3..11], bits[11..267], bits'[3..11], bits'[11..267];
    NumBound(w);
    NumBound(w');
    Pow2Values();
    assert bits[3..267] == w + a && bits'[3..267] == w' + a';
    if Destination(bits).value.value == Destination(bits').value.value {
      AddressTextInjective(Num(w), Pack(a), Num(w'), Pack(a'));
      NumInjective(w, w');
      BitsOfPack(a);
      BitsOfPack(a');
    } else if bits[3..267] == bits'[3..267] {
      SameParts(w, a, w', a');
    }
  }
}
