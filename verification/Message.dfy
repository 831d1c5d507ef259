/** Reading a message and preparing what is signed (src/message.c). */
module Messages {
  import opened Bits
  import opened Outcomes
  import opened Slices
  import opened Fields
  import opened Display
  import opened MessageFormat
  import opened Contexts
  import opened Prepending

  const TRANSACTION_ID_LENGTH := 8

  /** A method that reads succeeds as it should, and leaves the rest of the bits. */
  ghost predicate Took<T>(slice: SliceData, r: Result<T>, read: Result<Read<T>>)
    reads slice, slice.data
  {
    && FromCell(slice) && SameOutcome(r, read)
    && (r.Success? ==> r.value == read.value.value && slice.Window() == read.value.rest)
  }

  /** Reads a number of up to 64 bits. */
  method TakeNumber(slice: SliceData, bits: nat) returns (r: Result<nat>)
    requires FromCell(slice) && bits <= 64
    modifies slice`windowStart
    ensures Took(slice, r, old(Number(slice.Window(), bits)))
  {
    hide Num;
    r := slice.GetNextInt(bits);
  }

  /** Skips bits. */
  method Skip(slice: SliceData, bits: nat) returns (r: Result<()>)
    requires FromCell(slice)
    modifies slice`windowStart
    ensures FromCell(slice) && r == Validate(bits <= |old(slice.Window())|, CellUnderflow)
    ensures r.Success? ==> slice.Window() == old(slice.Window())[bits..]
  {
    r := slice.MoveBy(bits);
  }

  /** Reads whole bytes into a buffer of their number. */
  method TakeBytes(slice: SliceData, n: nat) returns (r: Result<seq<byte>>)
    requires FromCell(slice)
    modifies slice`windowStart
    ensures var left := |old(slice.Window())|;
            FromCell(slice) && SameOutcome(r, Validate(8 * n <= left, ValueError(left, n)))
    ensures r.Success? ==>
              BitsOf(r.value) == old(slice.Window())[..8 * n] && slice.Window() == old(slice.Window())[8 * n..]
  {
    hide BitsOf;
    var value := new byte[n];
    var _ :- DeserializeValue(slice, value, n);
    assert value[..n] == value[..];
    r := Success(value[..]);
  }

  // Destinations.

  /** Reads an address and sets the destination text; without an address the text is arbitrary. */
  method TakeDestination(ctx: SignTransactionContext, slice: SliceData) returns (r: Result<()>)
    requires FromCell(slice)
    modifies slice`windowStart, ctx`addressStr
    ensures var d := old(Destination(slice.Window()));
            && FromCell(slice) && SameOutcome(r, d)
            && (r.Success? ==> slice.Window() == d.value.rest && Says(d.value.value, ctx.addressStr))
  {
    hide BitsOf, AddressText, SliceData.Window;
    ghost var bits, start := slice.Window(), slice.windowStart;
    var address := new byte[ADDRESS_LENGTH];
    ghost var before := address[..];
    var wc :- DeserializeAddress(slice, address);
    DestinationRead(bits, wc, before, address[..], slice.windowStart - start);
    ctx.addressStr := AddressText(ToByte(wc), address[..]);
    r := Success(());
  }

  lemma DestinationRead(bits: seq<bool>, wc: nat, before: seq<byte>, after: seq<byte>, moved: int)
    requires AddressRead(bits, Success(wc), before, after, moved)
    ensures Destination(bits).Success? && moved <= |bits| && Destination(bits).value.rest == bits[moved..]
    ensures Says(Destination(bits).value.value, AddressText(ToByte(wc), after))
  {
    hide BitsOf, AddressText, Num, Pack;
    if StartsStd(bits) {
      PackBitsOf(after);
      NumBound(bits[3..11]);
      Pow2Values();
    }
  }

  // The parameters of a multisig call.

  /** What a method that sets texts promises: it succeeds as it should, and the texts say what they should. */
  ghost predicate Showing(ctx: SignTransactionContext, r: Result<Flow>, screen: Result<Screen>)
    reads ctx, ctx.amountStr
  {
    && ctx.Valid() && SameOutcome(r, screen)
    && (r.Success? ==> r.value == screen.value.flow && ctx.Shown(screen.value))
  }

  method DeserializeMultisigParams(ctx: SignTransactionContext, slice: SliceData, functionId: nat, wc: byte,
                                   address: seq<byte>)
    returns (r: Result<Flow>)
    requires FromCell(slice) && ctx.Valid() && ctx.Shown(EMPTY)
    modifies slice`windowStart, ctx`addressStr, ctx`transactionIdStr, ctx.amountStr
    ensures Showing(ctx, r, old(MultisigParams(slice.Window(), functionId, wc, address, ctx.Currency())))
  {
    hide TransferParams, AddressText, BitsOf, Hex, Pack, SliceData.Window;
    if IsDeploy(functionId) {
      ctx.addressStr := AddressText(wc, address);
      return Success(Deploy);
    }
    if functionId == MULTISIG_SEND_TRANSACTION || IsSubmit(functionId) {
      r := DeserializeTransfer(ctx, slice, functionId == MULTISIG_SEND_TRANSACTION);
      return;
    }
    if functionId == MULTISIG_CONFIRM_TRANSACTION {
      r := DeserializeConfirm(ctx, slice);
      return;
    }
    r := Failure(InvalidFunctionId);
  }

  method DeserializeConfirm(ctx: SignTransactionContext, slice: SliceData) returns (r: Result<Flow>)
    requires FromCell(slice) && ctx.Valid() && ctx.Shown(EMPTY)
    modifies slice`windowStart, ctx`transactionIdStr
    ensures var left := |old(slice.Window())|;
            ctx.Valid() && SameOutcome(r, Validate(left >= 64, ValueError(left, 8)))
    ensures r.Success? ==>
              r.value == Confirm && ctx.Shown(Screen(Confirm, Blank, Blank, Text(Hex(Pack(old(slice.Window())[..64])))))
  {
    hide BitsOf, Hex, Pack;
    var id :- TakeBytes(slice, TRANSACTION_ID_LENGTH);
    PackBitsOf(id);
    ctx.transactionIdStr := Hex(id);
    r := Success(Confirm);
  }

  /** Destination, amount, bounce bit and flags. */
  method DeserializeTransfer(ctx: SignTransactionContext, slice: SliceData, send: bool) returns (r: Result<Flow>)
    requires FromCell(slice) && ctx.Valid() && ctx.Shown(EMPTY)
    modifies slice`windowStart, ctx`addressStr, ctx.amountStr
    ensures Showing(ctx, r, old(TransferParams(slice.Window(), send, ctx.Currency())))
  {
    hide Destination, AmountLine, TransferFlags, BitsOf, Num, SliceData.Window;
    var _ :- TakeDestination(ctx, slice);
    ghost var rest := slice.Window();
    var amount :- TakeBytes(slice, AMOUNT_LENGTH);
    var flags :- TakeFlags(slice, send);
    var _ :- SetAmount(ctx.amountStr, amount, flags, ctx.Currency());
    r := Success(Transfer);
  }

  method TakeFlags(slice: SliceData, send: bool) returns (r: Result<nat>)
    requires FromCell(slice)
    modifies slice`windowStart
    ensures r == old(TransferFlags(slice.Window(), send))
  {
    hide Num, SliceData.Window;
    ghost var bits := slice.Window();
    var _ :- TakeNumber(slice, 1);
    if send {
      var flags :- TakeNumber(slice, 8);
      assert bits[1..][..8] == bits[1..9];
      return Success(flags);
    }
    var allBalance :- TakeNumber(slice, 1);
    NumOfBit(bits[1..][..1]);
    r := Success(if allBalance == 0 then NORMAL_FLAG else ALL_BALANCE_FLAG);
  }

  // The headers of the root cell.

  method DeserializeContractHeader(slice: SliceData) returns (r: Result<nat>)
    requires FromCell(slice)
    modifies slice`windowStart
    ensures Took(slice, r, old(ContractHeader(slice.Window())))
  {
    hide Num, SliceData.Window;
    ghost var bits := slice.Window();
    var isPubkeyPresent :- TakeNumber(slice, 1);
    NumOfBit(bits[..1]);
    ghost var n := 1;
    if isPubkeyPresent != 0 {
      var _ :- Skip(slice, 256);
      n := 257;
    }
    assert slice.Window() == bits[n..];
    var _ :- TakeNumber(slice, 64);
    var _ :- TakeNumber(slice, 32);
    assert slice.Window() == bits[n + 96..];
    r := TakeNumber(slice, 32);
  }

  method DeserializeWalletV3(slice: SliceData) returns (r: Result<nat>)
    requires FromCell(slice)
    modifies slice`windowStart
    ensures r == old(WalletV3(slice.Window()))
  {
    hide Num, SliceData.Window;
    ghost var bits := slice.Window();
    var id :- TakeNumber(slice, 32);
    var _ :- Validate(id == WALLET_ID, InvalidMessage);
    var _ :- TakeNumber(slice, 32);
    var _ :- TakeNumber(slice, 32);
    assert slice.Window() == bits[96..];
    var flags :- TakeNumber(slice, 8);
    var _ :- Validate(slice.RemainingBits() == 0, InvalidMessage);
    assert bits[96..][..8] == bits[96..];
    r := Success(flags);
  }

  // The gift of a wallet v3.

  /** Reads an amount of variable length; four bits keep the length below the size of the amount buffer. */
  method TakeVarAmount(slice: SliceData) returns (r: Result<seq<byte>>)
    requires FromCell(slice)
    modifies slice`windowStart
    ensures var amount := old(VarAmount(slice.Window()));
            && FromCell(slice) && SameOutcome(r, amount)
            && (r.Success? ==> Num(BitsOf(r.value)) == amount.value.value && slice.Window() == amount.value.rest)
  {
    hide Num, BitsOf, SliceData.Window;
    var amountLength :- TakeNumber(slice, 4);
    assert amountLength <= AMOUNT_LENGTH by {
      NumBound(old(slice.Window())[..4]);
      Pow2Values();
    }
    r := TakeBytes(slice, amountLength);
  }

  method TakeMessageFlags(slice: SliceData) returns (r: Result<()>)
    requires FromCell(slice)
    modifies slice`windowStart
    ensures var bits := old(slice.Window());
            && FromCell(slice) && r == InternalFlags(bits)
            && (r.Success? ==> slice.Window() == bits[4..])
  {
    hide Num, SliceData.Window;
    ghost var bits := slice.Window();
    var intMsg :- TakeNumber(slice, 1);
    NumOfBit(bits[..1]);
    var _ :- Validate(intMsg == 0, InvalidMessage);
    var _ :- TakeNumber(slice, 1);
    var _ :- TakeNumber(slice, 1);
    assert slice.Window() == bits[3..];
    var _ :- TakeNumber(slice, 1);
    r := Success(());
  }

  /** Skips the source address. */
  method TakeSource(slice: SliceData) returns (r: Result<()>)
    requires FromCell(slice)
    modifies slice`windowStart
    ensures var d := old(Destination(slice.Window()));
            FromCell(slice) && SameOutcome(r, d) && (r.Success? ==> slice.Window() == d.value.rest)
  {
    hide BitsOf, AddressText, Num, Pack, SliceData.Window;
    ghost var bits, start := slice.Window(), slice.windowStart;
    var address := new byte[ADDRESS_LENGTH];
    ghost var before := address[..];
    var wc :- DeserializeAddress(slice, address);
    DestinationRead(bits, wc, before, address[..], slice.windowStart - start);
    r := Success(());
  }

  method TakeFees(slice: SliceData) returns (r: Result<()>)
    requires FromCell(slice)
    modifies slice`windowStart
    ensures FromCell(slice) && r == NoFees(old(slice.Window()))
    ensures r.Success? ==> slice.Window() == old(slice.Window())[105..]
  {
    hide Num, SliceData.Window;
    ghost var bits := slice.Window();
    var _ :- TakeNumber(slice, 1);
    var ihrFee :- TakeNumber(slice, 4);
    assert bits[1..][..4] == bits[1..5] && bits[1..][4..] == bits[5..];
    var _ :- Validate(ihrFee == 0, InvalidMessage);
    var fwdFee :- TakeNumber(slice, 4);
    assert bits[5..][..4] == bits[5..9];
    var _ :- Validate(fwdFee == 0, InvalidMessage);
    assert slice.Window() == bits[9..];
    r := TakeTimes(slice, bits);
  }

  method TakeTimes(slice: SliceData, ghost bits: seq<bool>) returns (r: Result<()>)
    requires FromCell(slice) && |bits| >= 9 && slice.Window() == bits[9..]
    modifies slice`windowStart
    ensures FromCell(slice) && r == Validate(|bits| >= 105, CellUnderflow)
    ensures r.Success? ==> slice.Window() == bits[105..]
  {
    hide Num, SliceData.Window;
    var _ :- TakeNumber(slice, 64);
    assert slice.Window() == bits[73..];
    var _ :- TakeNumber(slice, 32);
    r := Success(());
  }

  method DeserializeIntMessageHeader(ctx: SignTransactionContext, slice: SliceData, flags: nat) returns (r: Result<()>)
    requires FromCell(slice) && ctx.Valid() && ctx.Shown(EMPTY)
    modifies slice`windowStart, ctx`addressStr, ctx.amountStr
    ensures var message := old(IntMessage(slice.Window(), flags, ctx.Currency()));
            && ctx.Valid() && FromCell(slice) && SameOutcome(r, message)
            && (r.Success? ==> ctx.Shown(message.value.value) && slice.Window() == message.value.rest)
  {
    hide Num, BitsOf, AmountLine, NoFees, VarAmount, Destination, SliceData.Window, FromCell;
    var _ :- TakeMessageFlags(slice);
    var _ :- TakeSource(slice);
    var _ :- TakeDestination(ctx, slice);
    var amount :- TakeVarAmount(slice);
    var _ :- SetAmount(ctx.amountStr, amount, flags, ctx.Currency());
    var _ :- TakeFees(slice);
    r := Success(());
  }

  // Token messages.

  /** The slices a source stands for, and the one read at present. */
  ghost predicate At(src: Source, main: SliceData, ref: SliceData?, slice: SliceData)
    reads main, main.data, ref, if ref != null then {ref.data} else {}
  {
    && FromCell(main) && src.main == main.Window() && (src.hasRef <==> ref != null)
    && (ref != null ==> main != ref && FromCell(ref) && src.ref == ref.Window())
    && (src.onRef ==> src.hasRef)
    && slice == (if src.onRef then ref else main)
  }

  method ReloadSlice(slice: SliceData, ref: SliceData?, bits: nat, ghost main: SliceData, ghost src: Source)
    returns (r: Result<SliceData>)
    requires At(src, main, ref, slice)
    ensures SameOutcome(r, src.Reload(bits))
    ensures r.Success? ==> At(src.Reload(bits).value, main, ref, r.value)
  {
    hide SliceData.Window;
    if slice.RemainingBits() < bits {
      if ref == null {
        return Failure(SliceIsEmpty);
      }
      return Success(ref);
    }
    r := Success(slice);
  }

  /** Reads the amount of a token message and shows it. */
  method TakeTokenAmount(ctx: SignTransactionContext, slice: SliceData, main: SliceData, ref: SliceData?,
                         ghost src: Source)
    returns (r: Result<SliceData>)
    requires At(src, main, ref, slice) && ctx.Valid()
    modifies main, ref, ctx.amountStr
    ensures var amount := TokenAmount(src, ctx.Currency());
            && SameOutcome(r, amount)
            && (r.Success? ==> At(amount.value.0, main, ref, r.value)
                               && Shows(ctx.amountStr[..], amount.value.1))
  {
    hide Num, BitsOf, AmountLine, SliceData.Window, Shows;
    var s :- ReloadSlice(slice, ref, 8 * AMOUNT_LENGTH, main, src);
    var amount :- TakeBytes(s, AMOUNT_LENGTH);
    var _ :- SetAmount(ctx.amountStr, amount, NORMAL_FLAG, ctx.Currency());
    r := Success(s);
  }

  /** Reads the amount and the destination of a token transfer and shows them. */
  method TakeTokenTransfer(ctx: SignTransactionContext, slice: SliceData, main: SliceData, ref: SliceData?,
                           ghost src: Source)
    returns (r: Result<()>)
    requires At(src, main, ref, slice) && ctx.Valid()
    modifies main, ref, ctx.amountStr, ctx`addressStr
    ensures var transfer := TokenTransfer(src, ctx.Currency());
            && SameOutcome(r, transfer)
            && (r.Success? ==> Says(transfer.value.0, ctx.addressStr) && Shows(ctx.amountStr[..], transfer.value.1))
  {
    hide TokenAmount, Destination, SliceData.Window, Shows;
    var s :- TakeTokenAmount(ctx, slice, main, ref, src);
    ghost var after := TokenAmount(src, ctx.Currency()).value.0;
    var t :- ReloadSlice(s, ref, 256, main, after);
    var _ :- TakeDestination(ctx, t);
    r := Success(());
  }

  /** Reads a token message; when the first slice runs out, the second is read instead. */
  method DeserializeTokenBody(ctx: SignTransactionContext, main: SliceData, ref: SliceData?, ghost src: Source,
                              ghost screen: Screen)
    returns (r: Result<Flow>)
    requires At(src, main, ref, main) && !src.onRef && ctx.Valid() && ctx.Shown(screen)
    modifies main, ref, ctx.amountStr, ctx`addressStr
    ensures Showing(ctx, r, TokenBody(src, screen, old(ctx.Currency())))
  {
    hide TokenAmount, TokenTransfer, SliceData.Window, Shows, Num;
    var slice := main;
    if main.RemainingBits() < 32 {
      if ref == null || ref.RemainingBits() < 32 {
        return Success(Transfer);
      }
      slice := ref;
    }
    ghost var s := src.(onRef := |src.main| < 32);
    var read := TakeNumber(slice, 32);
    var functionId := read.value;
    if functionId == TOKEN_TRANSFER || functionId == TOKEN_TRANSFER_TO_WALLET {
      var _ :- TakeTokenTransfer(ctx, slice, main, ref, s.Advance(32));
      return Success(Transfer);
    }
    if functionId == TOKEN_BURN {
      var _ :- TakeTokenAmount(ctx, slice, main, ref, s.Advance(32));
      return Success(Burn);
    }
    r := Success(Transfer);
  }
}
