/**
 What messages look like, as the concatenation of their fields, and what is then read and shown. The numbers
 are those of src/contract.h and src/globals.h.
 */
module Layouts {
  import opened Bits
  import opened Outcomes
  import opened Cells
  import opened Fields
  import opened Prepending
  import opened Amounts
  import opened Display
  import opened MessageFormat

  // Addresses.

  /** An address in a workchain; one bit of it is not read. */
  ghost function StdBits(anycast: bool, wc: byte, address: seq<byte>): (bits: seq<bool>)
    requires |address| == 32
    ensures |bits| == 267
  {
    [true, false, anycast] + ToBits(wc, 8) + BitsOf(address)
  }

  lemma StdIsRead(anycast: bool, wc: byte, address: seq<byte>, rest: seq<bool>)
    requires |address| == 32
    ensures Destination(StdBits(anycast, wc, address) + rest) == Success(Read(Text(AddressText(wc, address)), rest))
  {
    hide BitsOf, ToBits, AddressText, Pack, Num, Pow2;
    var bits := StdBits(anycast, wc, address) + rest;
    assert bits[..2] == [true, false] && bits[3..11] == ToBits(wc, 8) && bits[11..267] == BitsOf(address);
    assert bits[267..] == rest;
    Pow2Values();
    NumToBitsSmall(wc, 8);
    PackBitsOf(address);
  }

  lemma NoneIsRead(rest: seq<bool>)
    ensures Destination([false, false] + rest) == Success(Read(Garbled, rest))
  {
    hide AddressText, Pack, Num;
    var bits := [false, false] + rest;
    assert bits[..2] == [false, false] && bits[2..] == rest;
  }

  /** Other kinds of addresses are refused. */
  lemma OtherAddresses(first: bool, rest: seq<bool>)
    ensures Destination([first, true] + rest) == Failure(InvalidMessage)
  {
    hide AddressText, Pack, Num;
    var bits := [first, true] + rest;
    assert bits[..2] == [first, true] && bits[..2][1] && bits[1];
  }

  // Bytes in front of other bits.

  lemma ValueIsRead(bytes: seq<byte>, rest: seq<bool>)
    ensures Value(BitsOf(bytes) + rest, |bytes|) == Success(Read(Num(BitsOf(bytes)), rest))
  {
    hide BitsOf, Num;
    var bits, n := BitsOf(bytes) + rest, 8 * |bytes|;
    assert bits[..n] == BitsOf(bytes) && bits[n..] == rest;
  }

  // The root of a multisig call.

  /** The function number is at bits 97 to 128, or, behind a public key, at bits 353 to 384. */
  lemma HeaderBits(bits: seq<bool>)
    ensures var n := if bits != [] && bits[0] then 353 else 97;
            ContractHeader(bits) == if |bits| < n + 32 then Failure(CellUnderflow)
                                    else Success(Read(Num(bits[n..n + 32]), bits[n + 32..]))
  {
    hide Num;
    var n := if bits != [] && bits[0] then 353 else 97;
    if |bits| >= n + 32 {
      assert bits[n..][..32] == bits[n..n + 32] && bits[n..][32..] == bits[n + 32..];
    }
  }

  /** A key or none, 64 and 32 bits of time stamps, and the function number. */
  ghost function HeaderOf(key: seq<byte>, times: seq<bool>, functionId: nat): (bits: seq<bool>)
    ensures |bits| == 1 + 8 * |key| + |times| + 32
  {
    [key != []] + BitsOf(key) + times + ToBits(functionId, 32)
  }

  lemma HeaderIsRead(key: seq<byte>, times: seq<bool>, functionId: nat, rest: seq<bool>)
    requires (key == [] || |key| == 32) && |times| == 96 && functionId < 0x1_0000_0000
    ensures ContractHeader(HeaderOf(key, times, functionId) + rest) == Success(Read(functionId, rest))
  {
    hide BitsOf, ToBits, Num, ContractHeader, Pow2;
    var bits, n := HeaderOf(key, times, functionId) + rest, 97 + 8 * |key|;
    assert bits[0] == (key != []);
    assert bits[n..n + 32] == ToBits(functionId, 32) && bits[n + 32..] == rest;
    HeaderBits(bits);
    Word32(functionId);
  }

  lemma Word32(x: nat)
    requires x < 0x1_0000_0000
    ensures x < Pow2(32) && Num(ToBits(x, 32)) == x
  {
    hide Num, ToBits, Pow2;
    Pow2Add(16, 16);
    Pow2Values();
    NumToBitsSmall(x, 32);
  }

  // The parameters of a multisig call.

  /** A transfer to this address, or the error for the amount or its flags. */
  ghost function TransferTo(wc: byte, address: seq<byte>, line: Result<string>): Result<Screen> {
    if line.Failure? then Failure(line.error)
    else Success(Screen(Transfer, Text(AddressText(wc, address)), Text(line.value), Blank))
  }

  /** The line for an amount with flags that are read, or the error for the flags. */
  ghost function LineFor(amount: seq<byte>, flags: Result<nat>, currency: Currency): Result<string> {
    if flags.Failure? then Failure(flags.error) else AmountLine(Num(BitsOf(amount)), flags.value, currency)
  }

  lemma ParamsAreRead(anycast: bool, wc: byte, address: seq<byte>, amount: seq<byte>, flagBits: seq<bool>, send: bool,
                      currency: Currency)
    requires |address| == 32 && |amount| == 16
    ensures var bits := StdBits(anycast, wc, address) + (BitsOf(amount) + flagBits);
            TransferParams(bits, send, currency)
            == TransferTo(wc, address, LineFor(amount, TransferFlags(flagBits, send), currency))
  {
    hide BitsOf, Num, AmountLine, AddressText, Destination, Value, TransferFlags, StdBits;
    StdIsRead(anycast, wc, address, BitsOf(amount) + flagBits);
    ValueIsRead(amount, flagBits);
  }

  /** A submitted transfer: destination, amount, a bounce bit and the bit for all of the balance. */
  lemma SubmitIsRead(functionId: nat, anycast: bool, wc: byte, address: seq<byte>, amount: seq<byte>, bounce: bool,
                     all: bool, rest: seq<bool>, order: byte, own: seq<byte>, currency: Currency)
    requires functionId == 320701133 || functionId == 1428000117
    requires |address| == 32 && |amount| == 16
    ensures var bits := StdBits(anycast, wc, address) + (BitsOf(amount) + ([bounce, all] + rest));
            MultisigParams(bits, functionId, order, own, currency)
            == TransferTo(wc, address, AmountLine(Num(BitsOf(amount)), if all then 128 else 3, currency))
  {
    hide BitsOf, Num, AmountLine, AddressText, TransferParams, StdBits;
    ParamsAreRead(anycast, wc, address, amount, [bounce, all] + rest, false, currency);
  }

  /** A sent transfer: destination, amount, a bounce bit, and eight bits of flags. */
  lemma SendIsRead(anycast: bool, wc: byte, address: seq<byte>, amount: seq<byte>, bounce: bool, flags: byte,
                   rest: seq<bool>, order: byte, own: seq<byte>, currency: Currency)
    requires |address| == 32 && |amount| == 16
    ensures var bits := StdBits(anycast, wc, address) + (BitsOf(amount) + ([bounce] + ToBits(flags, 8) + rest));
            MultisigParams(bits, 1290691692, order, own, currency)
            == TransferTo(wc, address, AmountLine(Num(BitsOf(amount)), flags, currency))
  {
    hide BitsOf, Num, AmountLine, AddressText, TransferParams, StdBits, ToBits, Pow2;
    var flagBits := [bounce] + ToBits(flags, 8) + rest;
    ParamsAreRead(anycast, wc, address, amount, flagBits, true, currency);
    assert flagBits[1..9] == ToBits(flags, 8);
    Pow2Values();
    NumToBitsSmall(flags, 8);
  }

  /** The text displays the amount at bits 267 to 394, and the screen shows it and the address at bits 3 to 266. */
  ghost predicate SaysTransfer(bits: seq<bool>, text: string, currency: Currency, screen: Screen) {
    hide Num, AddressText, Pack, Displays;
    && |bits| >= 395 && Num(bits[3..11]) < 0x100 && Displays(text, Num(bits[267..395]), currency.decimals)
    && screen == Screen(Transfer, Text(AddressText(Num(bits[3..11]), Pack(bits[11..267]))),
                        Text(text + " " + currency.ticker), Blank)
  }

  /** What an accepted plain transfer shows. */
  lemma PlainTransferSays(bits: seq<bool>, functionId: nat, wc: byte, own: seq<byte>, currency: Currency)
    returns (text: string)
    requires PlainTransfer(bits, functionId) && MultisigParams(bits, functionId, wc, own, currency).Success?
    ensures SaysTransfer(bits, text, currency, MultisigParams(bits, functionId, wc, own, currency).value)
  {
    hide Num, AmountLine, AddressText, Pack, Displays, MultisigParams, Pow2;
    PlainTransferScreen(bits, functionId, wc, own, currency);
    text := NormalLineShows(Num(bits[267..395]), currency);
    NumBound(bits[3..11]);
    Pow2Values();
  }

  /** Transfers that end before their flags are refused. */
  lemma FlagsAreNeeded(anycast: bool, wc: byte, address: seq<byte>, amount: seq<byte>, flagBits: seq<bool>, send: bool,
                       currency: Currency)
    requires |address| == 32 && |amount| == 16 && |flagBits| < if send then 9 else 2
    ensures TransferParams(StdBits(anycast, wc, address) + (BitsOf(amount) + flagBits), send, currency)
         == Failure(CellUnderflow)
  {
    hide BitsOf, Num, AmountLine, AddressText, TransferParams, StdBits;
    ParamsAreRead(anycast, wc, address, amount, flagBits, send, currency);
  }

  /** A deployment shows the wallet's own address. */
  lemma DeployIsRead(functionId: nat, bits: seq<bool>, wc: byte, own: seq<byte>, currency: Currency)
    requires functionId == 1813932348 || functionId == 733015951
    ensures MultisigParams(bits, functionId, wc, own, currency)
         == Success(Screen(Deploy, Text(AddressText(wc, own)), Blank, Blank))
  {
    hide AddressText, TransferParams;
  }

  /** A confirmation shows eight bytes. */
  lemma ConfirmIsRead(id: seq<byte>, rest: seq<bool>, wc: byte, own: seq<byte>, currency: Currency)
    requires |id| == 8
    ensures MultisigParams(BitsOf(id) + rest, 447168749, wc, own, currency)
         == Success(Screen(Confirm, Blank, Blank, Text(Hex(id))))
  {
    hide BitsOf, Hex, Pack;
    assert (BitsOf(id) + rest)[..64] == BitsOf(id);
    PackBitsOf(id);
  }

  /** These are all functions. */
  lemma OtherFunctions(functionId: nat, bits: seq<bool>, wc: byte, own: seq<byte>, currency: Currency)
    requires functionId != 320701133 && functionId != 1428000117 && functionId != 1290691692
    requires functionId != 1813932348 && functionId != 733015951 && functionId != 447168749
    ensures MultisigParams(bits, functionId, wc, own, currency) == Failure(InvalidFunctionId)
  {}

  /** Behind the parameters: without references there is no body; else it is cell 2, if that has data. */
  ghost function WithBody(cells: seq<CellView>, gift: CellView, shown: Result<Screen>, currency: Currency)
    : Result<Screen>
  {
    if shown.Failure? || gift.refs == [] then shown
    else if |cells| < 3 then Failure(InvalidCellIndex)
    else if cells[2].data == [] then shown
    else TokenBody(Source(BitsOf(cells[2].data), [], false, false), shown.value, currency)
  }

  /** A call is read from the root and cell 1; a confirmation of the wallet types 2 to 6 from the root alone. */
  lemma CallIsRead(walletType: byte, cells: seq<CellView>, key: seq<byte>, times: seq<bool>, functionId: nat,
                   rest: seq<bool>, wc: byte, own: seq<byte>, currency: Currency)
    requires 1 <= walletType <= 8 && cells != []
    requires (key == [] || |key| == 32) && |times| == 96 && functionId < 0x1_0000_0000
    requires BitsOf(cells[0].data) == HeaderOf(key, times, functionId) + rest
    ensures Message(walletType, cells, wc, own, currency)
         == if 2 <= walletType <= 6 && functionId == 447168749 then
              WithBody(cells, cells[0], MultisigParams(rest, functionId, wc, own, currency), currency)
            else if |cells| < 2 then Failure(InvalidCellIndex)
            else WithBody(cells, cells[1], MultisigParams(BitsOf(cells[1].data), functionId, wc, own, currency),
                          currency)
  {
    hide BitsOf, ContractHeader, MultisigParams, HeaderOf, TokenBody;
    HeaderIsRead(key, times, functionId, rest);
  }

  // A wallet v3.

  /** The wallet number, two more numbers, and the flags; nothing else. */
  lemma V3RootIsRead(numbers: seq<bool>, flags: byte)
    requires |numbers| == 64
    ensures WalletV3(ToBits(0x4BA92D8A, 32) + numbers + ToBits(flags, 8)) == Success(flags)
  {
    hide Num, ToBits, Pow2;
    var bits := ToBits(0x4BA92D8A, 32) + numbers + ToBits(flags, 8);
    assert bits[..32] == ToBits(0x4BA92D8A, 32) && bits[96..] == ToBits(flags, 8);
    Word32(0x4BA92D8A);
    Pow2Values();
    NumToBitsSmall(flags, 8);
  }

  /** No other root is accepted. */
  lemma V3RootIsLaidOut(bits: seq<bool>)
    ensures WalletV3(bits).Success? ==>
              |bits| == 104 && bits[..32] == ToBits(0x4BA92D8A, 32) && WalletV3(bits).value == Num(bits[96..])
    ensures |bits| >= 32 && bits[..32] != ToBits(0x4BA92D8A, 32) ==> WalletV3(bits) == Failure(InvalidMessage)
    ensures |bits| > 104 ==> WalletV3(bits) == Failure(InvalidMessage)
    ensures |bits| < 32 || (|bits| < 104 && bits[..32] == ToBits(0x4BA92D8A, 32)) ==>
              WalletV3(bits) == Failure(CellUnderflow)
  {
    hide Num, ToBits;
    Word32(0x4BA92D8A);
    if |bits| >= 32 {
      ToBitsNum(bits[..32]);
    }
  }

  /** No source, or one in a workchain. */
  ghost predicate IsSource(source: seq<bool>) {
    || source == [false, false]
    || exists anycast: bool, wc: byte, address: seq<byte> | |address| == 32 :: source == StdBits(anycast, wc, address)
  }

  lemma SourceIsRead(source: seq<bool>, rest: seq<bool>)
    requires IsSource(source)
    ensures Destination(source + rest).Success? && Destination(source + rest).value.rest == rest
  {
    hide StdBits, Destination;
    if source == [false, false] {
      NoneIsRead(rest);
    } else {
      var anycast: bool, wc: byte, address: seq<byte> :| |address| == 32 && source == StdBits(anycast, wc, address);
      StdIsRead(anycast, wc, address, rest);
    }
  }

  /**
   The gift: an internal message with three bits of flags, its source and destination, an amount of up to 15 bytes
   behind its length, a bit for other currencies, no fees, and 96 bits of time stamps. With another first bit, or
   with fees, it is refused.
   */
  lemma V3GiftIsRead(ext: bool, flagBits: seq<bool>, source: seq<bool>, anycast: bool, wc: byte, address: seq<byte>,
                     amount: seq<byte>, other: bool, ihrFee: seq<bool>, fwdFee: seq<bool>, times: seq<bool>,
                     rest: seq<bool>, flags: nat, currency: Currency)
    requires |flagBits| == 3 && IsSource(source) && |address| == 32 && |amount| <= 15
    requires |ihrFee| == |fwdFee| == 4 && |times| == 96
    ensures var tail := [other] + ihrFee + fwdFee + times + rest;
            var bits := [ext] + flagBits
                        + (source + (StdBits(anycast, wc, address) + (ToBits(|amount|, 4) + (BitsOf(amount) + tail))));
            var line := AmountLine(Num(BitsOf(amount)), flags, currency);
            IntMessage(bits, flags, currency)
            == if ext then Failure(InvalidMessage)
               else if line.Failure? then Failure(line.error)
               else if ihrFee != Zeros(4) || fwdFee != Zeros(4) then Failure(InvalidMessage)
               else Success(Read(Screen(Transfer, Text(AddressText(wc, address)), Text(line.value), Blank), rest))
  {
    hide BitsOf, Num, ToBits, AmountLine, AddressText, Destination, StdBits, VarAmount, NoFees, IsSource;
    var tail := [other] + ihrFee + fwdFee + times + rest;
    var sized := ToBits(|amount|, 4) + (BitsOf(amount) + tail);
    var bits := [ext] + flagBits + (source + (StdBits(anycast, wc, address) + sized));
    assert bits[4..] == source + (StdBits(anycast, wc, address) + sized) && bits[0] == ext;
    SourceIsRead(source, StdBits(anycast, wc, address) + sized);
    StdIsRead(anycast, wc, address, sized);
    AmountIsRead(amount, tail);
    FeesAreRead(other, ihrFee, fwdFee, times, rest);
    assert tail[105..] == rest;
  }

  lemma AmountIsRead(amount: seq<byte>, tail: seq<bool>)
    requires |amount| <= 15
    ensures VarAmount(ToBits(|amount|, 4) + (BitsOf(amount) + tail)) == Success(Read(Num(BitsOf(amount)), tail))
  {
    hide BitsOf, Num, ToBits, Pow2, Value;
    Pow2Values();
    NumToBitsSmall(|amount|, 4);
    var bits := ToBits(|amount|, 4) + (BitsOf(amount) + tail);
    assert bits[..4] == ToBits(|amount|, 4) && bits[4..] == BitsOf(amount) + tail;
    ValueIsRead(amount, tail);
  }

  lemma FeesAreRead(other: bool, ihrFee: seq<bool>, fwdFee: seq<bool>, times: seq<bool>, rest: seq<bool>)
    requires |ihrFee| == |fwdFee| == 4 && |times| == 96
    ensures NoFees([other] + ihrFee + fwdFee + times + rest)
         == if ihrFee != Zeros(4) || fwdFee != Zeros(4) then Failure(InvalidMessage) else Success(())
  {
    hide Num;
    var tail := [other] + ihrFee + fwdFee + times + rest;
    assert tail[1..5] == ihrFee && tail[5..9] == fwdFee;
    NumZeros(4);
    NumInjective(ihrFee, Zeros(4));
    NumInjective(fwdFee, Zeros(4));
  }

  /** Behind it: no state init, and a body if the bit or a reference says so, here and in cell 2. */
  lemma V3BodyIsRead(init: bool, body: bool, rest: seq<bool>, cells: seq<CellView>, screen: Screen, currency: Currency)
    requires |cells| >= 2
    ensures V3Body([init, body] + rest, cells, screen, currency)
         == if init then Failure(InvalidMessage)
            else if !body && cells[1].refs == [] then Success(screen)
            else if |cells| == 2 then Failure(InvalidCellIndex)
            else TokenBody(Source(rest, BitsOf(cells[2].data), true, false), screen, currency)
  {
    hide TokenBody, BitsOf;
    assert ([init, body] + rest)[2..] == rest;
  }

  // Token messages.

  /** A token transfer shows its destination and its amount. */
  ghost function TokensTo(wc: byte, address: seq<byte>, line: Result<string>, screen: Screen): Result<Screen> {
    if line.Failure? then Failure(line.error)
    else Success(Screen(Transfer, Text(AddressText(wc, address)), Text(line.value), screen.id))
  }

  lemma FunctionFits(functionId: nat, rest: seq<bool>)
    requires functionId < 0x1_0000_0000
    ensures var bits := ToBits(functionId, 32) + rest; Num(bits[..32]) == functionId && bits[32..] == rest
  {
    hide Num, ToBits;
    Word32(functionId);
    var bits := ToBits(functionId, 32) + rest;
    assert bits[..32] == ToBits(functionId, 32) && bits[32..] == rest;
  }

  /** In one slice: the function number, the amount and the destination. */
  lemma TokenTransferIsRead(functionId: nat, amount: seq<byte>, anycast: bool, wc: byte, address: seq<byte>,
                            rest: seq<bool>, ref: seq<bool>, hasRef: bool, screen: Screen, currency: Currency)
    requires functionId == 1944199491 || functionId == 1185535980
    requires |amount| == 16 && |address| == 32
    ensures var bits := ToBits(functionId, 32) + (BitsOf(amount) + (StdBits(anycast, wc, address) + rest));
            TokenBody(Source(bits, ref, hasRef, false), screen, currency)
            == TokensTo(wc, address, AmountLine(Num(BitsOf(amount)), 3, currency), screen)
  {
    hide BitsOf, Num, ToBits, AmountLine, AddressText, Destination, StdBits, Value;
    var behind := BitsOf(amount) + (StdBits(anycast, wc, address) + rest);
    FunctionFits(functionId, behind);
    ValueIsRead(amount, StdBits(anycast, wc, address) + rest);
    assert behind[128..] == StdBits(anycast, wc, address) + rest;
    StdIsRead(anycast, wc, address, rest);
  }

  /** All of it in the second slice, if the first is too short for a function number. */
  lemma TokenTransferInSecond(main: seq<bool>, functionId: nat, amount: seq<byte>, anycast: bool, wc: byte,
                              address: seq<byte>, rest: seq<bool>, screen: Screen, currency: Currency)
    requires functionId == 1944199491 || functionId == 1185535980
    requires |main| < 32 && |amount| == 16 && |address| == 32
    ensures var ref := ToBits(functionId, 32) + (BitsOf(amount) + (StdBits(anycast, wc, address) + rest));
            TokenBody(Source(main, ref, true, false), screen, currency)
            == TokensTo(wc, address, AmountLine(Num(BitsOf(amount)), 3, currency), screen)
  {
    hide BitsOf, Num, ToBits, AmountLine, AddressText, Destination, StdBits, Value;
    var behind := BitsOf(amount) + (StdBits(anycast, wc, address) + rest);
    FunctionFits(functionId, behind);
    ValueIsRead(amount, StdBits(anycast, wc, address) + rest);
    assert behind[128..] == StdBits(anycast, wc, address) + rest;
    StdIsRead(anycast, wc, address, rest);
  }

  /** Amount and destination in the second slice, if the first is too short for the amount. */
  lemma TokenAmountInSecond(functionId: nat, junk: seq<bool>, amount: seq<byte>, anycast: bool, wc: byte,
                            address: seq<byte>, rest: seq<bool>, screen: Screen, currency: Currency)
    requires functionId == 1944199491 || functionId == 1185535980
    requires |junk| < 128 && |amount| == 16 && |address| == 32
    ensures var main, ref := ToBits(functionId, 32) + junk, BitsOf(amount) + (StdBits(anycast, wc, address) + rest);
            TokenBody(Source(main, ref, true, false), screen, currency)
            == TokensTo(wc, address, AmountLine(Num(BitsOf(amount)), 3, currency), screen)
  {
    hide BitsOf, Num, ToBits, AmountLine, AddressText, Destination, StdBits, Value;
    var ref := BitsOf(amount) + (StdBits(anycast, wc, address) + rest);
    FunctionFits(functionId, junk);
    ValueIsRead(amount, StdBits(anycast, wc, address) + rest);
    assert ref[128..] == StdBits(anycast, wc, address) + rest;
    StdIsRead(anycast, wc, address, rest);
  }

  /** The destination in the second slice, if the first has less than 256 bits left for it. */
  lemma TokenAddressInSecond(functionId: nat, amount: seq<byte>, junk: seq<bool>, anycast: bool, wc: byte,
                             address: seq<byte>, rest: seq<bool>, screen: Screen, currency: Currency)
    requires functionId == 1944199491 || functionId == 1185535980
    requires |junk| < 256 && |amount| == 16 && |address| == 32
    ensures var main, ref := ToBits(functionId, 32) + (BitsOf(amount) + junk), StdBits(anycast, wc, address) + rest;
            TokenBody(Source(main, ref, true, false), screen, currency)
            == TokensTo(wc, address, AmountLine(Num(BitsOf(amount)), 3, currency), screen)
  {
    hide BitsOf, Num, ToBits, AmountLine, AddressText, Destination, StdBits, Value;
    FunctionFits(functionId, BitsOf(amount) + junk);
    ValueIsRead(amount, junk);
    assert (BitsOf(amount) + junk)[128..] == junk;
    StdIsRead(anycast, wc, address, rest);
  }

  /** A burn shows its amount, and keeps the destination of the gift. */
  ghost function TokensBurned(line: Result<string>, screen: Screen): Result<Screen> {
    if line.Failure? then Failure(line.error)
    else Success(Screen(Burn, screen.address, Text(line.value), screen.id))
  }

  lemma BurnIsRead(amount: seq<byte>, rest: seq<bool>, ref: seq<bool>, hasRef: bool, screen: Screen, currency: Currency)
    requires |amount| == 16
    ensures TokenBody(Source(ToBits(1445284013, 32) + (BitsOf(amount) + rest), ref, hasRef, false), screen, currency)
         == TokensBurned(AmountLine(Num(BitsOf(amount)), 3, currency), screen)
  {
    hide BitsOf, Num, ToBits, AmountLine, Value;
    FunctionFits(1445284013, BitsOf(amount) + rest);
    ValueIsRead(amount, rest);
  }

  /** The function number in the first slice or in the second, and the amount in the second. */
  lemma BurnInSecond(main: seq<bool>, junk: seq<bool>, amount: seq<byte>, rest: seq<bool>, screen: Screen,
                     currency: Currency)
    requires |main| < 32 && |junk| < 128 && |amount| == 16
    ensures var bits := BitsOf(amount) + rest;
            && TokenBody(Source(main, ToBits(1445284013, 32) + bits, true, false), screen, currency)
               == TokensBurned(AmountLine(Num(BitsOf(amount)), 3, currency), screen)
            && TokenBody(Source(ToBits(1445284013, 32) + junk, bits, true, false), screen, currency)
               == TokensBurned(AmountLine(Num(BitsOf(amount)), 3, currency), screen)
  {
    hide BitsOf, Num, ToBits, AmountLine, Value;
    FunctionFits(1445284013, BitsOf(amount) + rest);
    FunctionFits(1445284013, junk);
    ValueIsRead(amount, rest);
  }

  /** Without a second slice a body that is too short for its amount, or a transfer for its destination, is refused. */
  lemma TokensAreMissing(functionId: nat, junk: seq<bool>, amount: seq<byte>, screen: Screen, currency: Currency)
    requires functionId == 1944199491 || functionId == 1185535980 || functionId == 1445284013
    requires |junk| < 128 && |amount| == 16
    ensures TokenBody(Source(ToBits(functionId, 32) + junk, [], false, false), screen, currency)
         == Failure(SliceIsEmpty)
    ensures functionId != 1445284013 ==>
              var line := AmountLine(Num(BitsOf(amount)), 3, currency);
              TokenBody(Source(ToBits(functionId, 32) + (BitsOf(amount) + junk), [], false, false), screen, currency)
              == if line.Failure? then Failure(line.error) else Failure(SliceIsEmpty)
  {
    hide BitsOf, Num, ToBits, AmountLine, Value, Destination;
    FunctionFits(functionId, junk);
    FunctionFits(functionId, BitsOf(amount) + junk);
    ValueIsRead(amount, junk);
    assert (BitsOf(amount) + junk)[128..] == junk;
  }

  /** Any other body, and none, is shown as a transfer with the lines of the gift. */
  lemma OtherBodyIsRead(main: seq<bool>, ref: seq<bool>, hasRef: bool, screen: Screen, currency: Currency)
    requires var bits := if |main| < 32 && hasRef then ref else main;
             |bits| < 32 || (Num(bits[..32]) != 1944199491 && Num(bits[..32]) != 1185535980
                             && Num(bits[..32]) != 1445284013)
    ensures TokenBody(Source(main, ref, hasRef, false), screen, currency)
         == Success(Screen(Transfer, screen.address, screen.amount, screen.id))
  {
    hide Num;
  }
}
