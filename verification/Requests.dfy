/**
 What a transaction looks like on the wire, as the concatenation of the fields of its header and its
 message, and what a run that ends well has then shown and put in place to be signed.
 */
module Requests {
  import opened Bits
  import opened Outcomes
  import opened Cells
  import opened CellHash
  import opened BocFormat
  import opened BocContexts
  import opened Prepending
  import opened Display
  import opened MessageFormat
  import opened Contexts
  import opened Signing
  import opened SignTransactions

  /** The number of four bytes, most significant first. */
  lemma AccountIs(b: seq<byte>)
    requires |b| >= 4
    ensures U32(b) == Num(BitsOf(b[..4]))
  {
    hide Num, BitsOf, ToBits, Pow2;
    var s := b[..4];
    Pow2Values();
    NumOfBytes(s, 4);
    NumOfBytes(s, 3);
    NumOfBytes(s, 2);
    NumOfBytes(s, 1);
    assert BitsOf(s[..0]) == [] && s[..4] == s;
    assert Num([]) == 0 by { NumZeros(0); assert Zeros(0) == []; }
  }

  lemma NumOfBytes(s: seq<byte>, n: nat)
    requires 0 < n <= |s|
    ensures Num(BitsOf(s[..n])) == 0x100 * Num(BitsOf(s[..n - 1])) + s[n - 1]
  {
    hide Num, BitsOf, ToBits, Pow2;
    assert s[..n] == s[..n - 1] + [s[n - 1]];
    BitsOfAppend(s[..n - 1], [s[n - 1]]);
    BitsOfSingle(s[n - 1]);
    NumAppend(BitsOf(s[..n - 1]), ToBits(s[n - 1], 8));
    Pow2Values();
    NumToBitsSmall(s[n - 1], 8);
  }

  /** A text as it is written into a header: no character of it is zero. */
  ghost predicate IsTicker(ticker: string) {
    1 <= |ticker| <= 10 && forall i | 0 <= i < |ticker| :: 1 <= ticker[i] as int < 0x100
  }

  function Characters(ticker: string): (bytes: seq<byte>)
    requires forall i | 0 <= i < |ticker| :: ticker[i] as int < 0x100
    ensures |bytes| == |ticker| && forall i | 0 <= i < |ticker| :: bytes[i] == ticker[i] as int
  {
    seq(|ticker|, i requires 0 <= i < |ticker| => ticker[i] as int)
  }

  lemma {:induction false} TickerIsRead(ticker: string)
    requires forall i | 0 <= i < |ticker| :: 1 <= ticker[i] as int < 0x100
    ensures CString(Characters(ticker)) == ticker
  {
    if ticker != [] {
      var bytes := Characters(ticker);
      assert bytes[1..] == Characters(ticker[1..]);
      TickerIsRead(ticker[1..]);
      assert bytes[0] as char == ticker[0];
      assert ticker == [ticker[0]] + ticker[1..];
    }
  }

  /** The fields of a header that may be absent: each is empty or of its size. */
  datatype Optional = Optional(walletType: seq<byte>, wc: seq<byte>, address: seq<byte>, chainId: seq<byte>) {
    ghost predicate Valid() {
      && |walletType| <= 1 && |wc| <= 1 && (address == [] || |address| == 32) && (chainId == [] || |chainId| == 4)
    }

    /** Bit 0 of the metadata announces the wallet type, bit 1 the workchain, bit 2 the address, bit 3 the chain id. */
    ghost predicate Announced(metadata: byte) {
      exists high | 0 <= high < 16 ::
        metadata == 16 * high + (if chainId != [] then 8 else 0) + (if address != [] then 4 else 0)
                    + (if wc != [] then 2 else 0) + (if walletType != [] then 1 else 0)
    }
  }

  /** Account, wallet type, decimals, the ticker behind its length, the metadata, and what these announce. */
  ghost function HeaderBytes(account: seq<byte>, walletType: byte, decimals: byte, ticker: string, metadata: byte,
                             optional: Optional): seq<byte>
    requires IsTicker(ticker)
  {
    account + [walletType, decimals, |ticker|] + Characters(ticker) + [metadata]
    + optional.walletType + optional.wc + optional.address + optional.chainId
  }

  lemma Announcements(optional: Optional, metadata: byte)
    requires optional.Announced(metadata)
    ensures WithWalletId(metadata) <==> optional.walletType != []
    ensures WithWorkchain(metadata) <==> optional.wc != []
    ensures WithAddress(metadata) <==> optional.address != []
    ensures WithChainId(metadata) <==> optional.chainId != []
  {
    var a := if optional.walletType != [] then 1 else 0;
    var b := if optional.wc != [] then 1 else 0;
    var c := if optional.address != [] then 1 else 0;
    var d := if optional.chainId != [] then 1 else 0;
    var high :| 0 <= high < 16 && metadata == 16 * high + (if optional.chainId != [] then 8 else 0)
                                              + (if optional.address != [] then 4 else 0)
                                              + (if optional.wc != [] then 2 else 0)
                                              + (if optional.walletType != [] then 1 else 0);
    FourBits(metadata, high, a, b, c, d);
  }

  lemma FourBits(metadata: byte, high: nat, a: nat, b: nat, c: nat, d: nat)
    requires a <= 1 && b <= 1 && c <= 1 && d <= 1 && metadata == 16 * high + 8 * d + 4 * c + 2 * b + a
    ensures metadata % 2 == a && metadata / 2 % 2 == b && metadata / 4 % 2 == c && metadata / 8 % 2 == d
  {
    DivModUnique(metadata, 2, 8 * high + 4 * d + 2 * c + b, a);
    DivModUnique(metadata, 4, 4 * high + 2 * d + c, 2 * b + a);
    DivModUnique(metadata, 8, 2 * high + d, 4 * c + 2 * b + a);
    DivModUnique(metadata / 2, 2, 4 * high + 2 * d + c, b);
    DivModUnique(metadata / 4, 2, 2 * high + d, c);
    DivModUnique(metadata / 8, 2, high, d);
  }

  /** The fields in front of the metadata, and the wallet type behind it. */
  lemma FrontIsRead(account: seq<byte>, walletType: byte, decimals: byte, ticker: string, metadata: byte,
                    current: seq<byte>, rest: seq<byte>)
    requires |account| == 4 && IsTicker(ticker) && |current| <= 1 && (WithWalletId(metadata) <==> current != [])
    ensures var b := account + [walletType, decimals, |ticker|] + Characters(ticker) + [metadata] + current + rest;
            ParseFront(b) == Success(Opening(Num(BitsOf(account)), walletType, decimals, ticker, metadata,
                                             if current != [] then current[0] else walletType,
                                             8 + |ticker| + |current|))
  {
    hide U32, CString, WithWalletId, Num, BitsOf, Characters;
    var b := account + [walletType, decimals, |ticker|] + Characters(ticker) + [metadata] + current + rest;
    AccountIs(b);
    TickerIsRead(ticker);
    FrontParts(account, [walletType, decimals, |ticker|], Characters(ticker), [metadata], current, rest);
  }

  lemma FrontParts(account: seq<byte>, fixed: seq<byte>, ticker: seq<byte>, metadata: seq<byte>, current: seq<byte>,
                   rest: seq<byte>)
    requires |account| == 4 && |fixed| == 3 && |metadata| == 1
    ensures var b, at := account + fixed + ticker + metadata + current + rest, 7 + |ticker|;
            && |b| >= at + 1 + |current| && b[..4] == account
            && b[4] == fixed[0] && b[5] == fixed[1] && b[6] == fixed[2]
            && b[7..at] == ticker && b[at] == metadata[0] && (current != [] ==> b[at + 1] == current[0])
  {}

  /** The optional fields. */
  lemma TailIsRead(front: Opening, before: seq<byte>, optional: Optional, rest: seq<byte>, own: Hash)
    requires optional.Valid() && front.size == |before|
    requires WithWorkchain(front.metadata) <==> optional.wc != []
    requires WithAddress(front.metadata) <==> optional.address != []
    requires WithChainId(front.metadata) <==> optional.chainId != []
    ensures var tail := optional.wc + optional.address + optional.chainId;
            ParseTail(before + tail + rest, front, own)
            == Success(Start(Request(front.walletType, if optional.wc != [] then optional.wc[0] else 0, own,
                                     if optional.address != [] then optional.address else own,
                                     Currency.Currency(front.decimals, front.ticker), optional.chainId != [],
                                     if optional.chainId != [] then optional.chainId else [0, 0, 0, 0]),
                             |before| + |tail|))
  {
    hide WithWorkchain, WithAddress, WithChainId;
    var tail := optional.wc + optional.address + optional.chainId;
    var b, n := before + tail + rest, |before|;
    var m := n + |optional.wc|;
    var k := m + |optional.address|;
    assert b[m..k] == optional.address && b[k..k + |optional.chainId|] == optional.chainId;
    assert seq(CHAIN_ID_LENGTH, _ => 0 as byte) == [0, 0, 0, 0];
    assert optional.wc != [] ==> b[n] == optional.wc[0];
  }

  /** What a header says: nothing but its fields, whatever follows it. */
  lemma RequestIsRead(account: seq<byte>, walletType: byte, decimals: byte, ticker: string, metadata: byte,
                     optional: Optional, rest: seq<byte>, addresses: Addresses)
    requires |account| == 4 && IsTicker(ticker) && optional.Valid() && optional.Announced(metadata)
    ensures var header := HeaderBytes(account, walletType, decimals, ticker, metadata, optional);
            var own := addresses(Num(BitsOf(account)), walletType);
            ParseStart(header + rest, addresses)
            == if own.Failure? then Failure(own.error)
               else Success(Start(Request(if optional.walletType != [] then optional.walletType[0] else walletType,
                                          if optional.wc != [] then optional.wc[0] else 0, own.value,
                                          if optional.address != [] then optional.address else own.value,
                                          Currency.Currency(decimals, ticker), optional.chainId != [],
                                          if optional.chainId != [] then optional.chainId else [0, 0, 0, 0]),
                                  |header|))
  {
    hide ParseFront, ParseTail, Num, BitsOf, Characters;
    Announcements(optional, metadata);
    var fields := account + [walletType, decimals, |ticker|] + Characters(ticker) + [metadata];
    var before, tail := fields + optional.walletType, optional.wc + optional.address + optional.chainId;
    var b := HeaderBytes(account, walletType, decimals, ticker, metadata, optional) + rest;
    assert b == before + (tail + rest) && b == before + tail + rest;
    FrontIsRead(account, walletType, decimals, ticker, metadata, optional.walletType, tail + rest);
    var own := addresses(Num(BitsOf(account)), walletType);
    if own.Success? {
      TailIsRead(ParseFront(b).value, before, optional, rest, own.value);
    }
  }

  /** A ticker of no or of more than ten characters is refused. */
  lemma TickerLengthIsChecked(b: seq<byte>, addresses: Addresses)
    requires |b| >= 7 && (b[6] == 0 || b[6] > 10)
    ensures ParseStart(b, addresses) == Failure(TickerLength)
  {}

  /** A header that is cut short is refused. */
  lemma RequestIsNeeded(b: seq<byte>, addresses: Addresses)
    ensures |b| < 7 ==> ParseStart(b, addresses) == Failure(InvalidRequest)
    ensures |b| >= 7 && 1 <= b[6] <= 10 && |b| < 8 + b[6] ==> ParseStart(b, addresses) == Failure(InvalidRequest)
  {}

  /** A message is shorter than 1024 bytes. */
  lemma MessageSize(chunks: seq<seq<byte>>, addresses: Addresses)
    requires chunks != [] && ParseStart(chunks[0], addresses).Success?
    ensures var n, run := ParseStart(chunks[0], addresses).value.size, Run(chunks, |chunks|, addresses);
            n <= |Flatten(chunks)|
            && if |Flatten(chunks)| - n >= 1024 then run == Failure(InvalidData)
               else run == Success((ParseStart(chunks[0], addresses).value.request, Flatten(chunks)[n..]))
  {
    hide ParseStart;
    assert chunks[..|chunks|] == chunks;
    FlattenFirst(chunks, |chunks|);
    SameStart(chunks[0], Flatten(chunks), addresses);
  }

  /** A root with a tag is signed as type 10, no anycast, the workchain and the address, in front of its bits. */
  lemma RewrittenRoot(cell: CellView, wc: byte, address: seq<byte>)
    requires |address| == 32 && CanPrepend(cell) && Tagged(cell)
    ensures var made := Prepended(cell, wc, address);
            && made.d1 == cell.d1 && made.refs == cell.refs
            && Payload(made.d2, made.data)
               == [true, false, false] + ToBits(wc, 8) + BitsOf(address) + Payload(cell.d2, cell.data)
  {
    hide Prepended, WithBits, BitsOf, D2For, Untagged, ToBits;
    var bits := AddressPrefix(wc, address) + Payload(cell.d2, cell.data);
    PrependIsExact(cell, wc, address);
    WithBitsKeeps(cell, bits);
    NewSizeFits(cell);
    WithBitsDenotes(cell, bits);
  }

  // Runs.

  /** The wallet types 1, 7 and 8 sign the cells with the address in front of the root, the others as they are. */
  ghost function CellsToSign(cells: seq<CellView>, request: Request): Result<seq<CellView>>
    requires cells != [] && request.Valid()
  {
    if request.walletType == 1 || request.walletType == 7 || request.walletType == 8 then
      if CanPrepend(cells[0]) then Success(cells[0 := Prepended(cells[0], request.wc, request.prependAddress)])
      else Failure(Unmodelled)
    else Success(cells)
  }

  /** Wallet types above 8 are refused; for the others screen and hash are those of the cells of the message. */
  lemma WalletTypes(sha: Sha256, cells: seq<CellView>, request: Request)
    requires cells != [] && request.Valid()
    ensures var r := SignCells(sha, cells, request.AsOrder(), ClearSlots());
            && (request.walletType > 8 ==> r == Failure(InvalidWalletType))
            && (r.Success? ==>
                  var signed := CellsToSign(cells, request);
                  && request.walletType <= 8 && signed.Success? && Forward(signed.value, 16)
                  && r.value.hash == Eval(sha, Unfold(signed.value, ClearSlots(), 0)).hash
                  && Message(request.walletType, cells, request.wc, request.address, request.currency)
                     == Success(r.value.screen))
  {
    hide Forward, Eval, Unfold, Prepended, CanPrepend, WalletV3Message, MultisigMessage;
  }

  /** What the texts of a context say. */
  ghost predicate TextsSay(ctx: SignTransactionContext, screen: Screen)
    reads ctx, ctx.amountStr
  {
    && (screen.address.Blank? ==> ctx.addressStr == "")
    && (screen.address.Text? ==> ctx.addressStr == screen.address.text)
    && (screen.id.Blank? ==> ctx.transactionIdStr == "")
    && (screen.id.Text? ==> ctx.transactionIdStr == screen.id.text)
    && (screen.amount.Text? ==>
          var n := |screen.amount.text|;
          n <= ctx.amountStr.Length && ctx.amountStr[..n] == screen.amount.text
          && forall i | n <= i < ctx.amountStr.Length :: ctx.amountStr[i] == '\0')
  }

  lemma ShownTexts(ctx: SignTransactionContext, screen: Screen)
    requires ctx.Shown(screen)
    ensures TextsSay(ctx, screen)
  {
    if screen.amount.Text? {
      var n := |screen.amount.text|;
      assert ctx.amountStr[..][..n] == ctx.amountStr[..n];
      assert forall i | n <= i < ctx.amountStr.Length :: ctx.amountStr[..][i] == ctx.amountStr[i];
    }
  }

  /** What comes of a request and a message that is a bag of cells. */
  ghost predicate ComesOf(sha: Sha256, request: Request, message: seq<byte>, screen: Screen, hash: Hash)
    requires request.Valid()
  {
    var cells := ParseBoc(message);
    && cells.Success? && cells.value != []
    && Message(request.walletType, cells.value, request.wc, request.address, request.currency) == Success(screen)
    && var signed := CellsToSign(cells.value, request);
       signed.Success? && Forward(signed.value, 16) && hash == Eval(sha, Unfold(signed.value, ClearSlots(), 0)).hash
  }

  lemma OutcomeIsSigned(sha: Sha256, request: Request, message: seq<byte>)
    requires request.Valid() && Outcome(sha, request, message).Success?
    ensures var outcome := Outcome(sha, request, message).value;
            ComesOf(sha, request, message, outcome.screen, outcome.hash)
  {
    hide ParseBoc, SignCells, Message, CellsToSign, Forward, Eval, Unfold;
    WalletTypes(sha, ParseBoc(message).value, request);
  }

  /**
   A run that ends well: its bytes are a header and a message that is a bag of cells; the texts are what the message
   says for the wallet type, workchain, address and currency of the header; and the bytes to sign are the four
   bytes of the chain id, if the header has one, and the 32 bytes of the hash of the cells.
   */
  lemma RunSigns(ctx: SignTransactionContext, boc: BocContext, r: Result<Flow>, chunks: seq<seq<byte>>,
                 addresses: Addresses) returns (screen: Screen, hash: Hash)
    requires chunks != [] && RunFinished(ctx, boc, r, Run(chunks, |chunks|, addresses)) && r.Success?
    ensures var start := ParseStart(Flatten(chunks), addresses);
            && start.Success?
            && ComesOf(boc.sha, start.value.request, Flatten(chunks)[start.value.size..], screen, hash)
            && r.value == screen.flow && TextsSay(ctx, screen)
            && if start.value.request.withChainId then
                 |ctx.toSign[..]| == 36 && ctx.toSign[..4] == start.value.request.chainId && ctx.toSign[4..36] == hash
               else |ctx.toSign[..]| == 36 && ctx.toSign[..32] == hash
  {
    hide ParseStart, Outcome, Flatten, TextsSay, SignTransactionContext.Shown, ComesOf;
    assert chunks[..|chunks|] == chunks;
    var start := ParseStart(Flatten(chunks), addresses).value;
    var message := Flatten(chunks)[start.size..];
    var outcome := Outcome(boc.sha, start.request, message).value;
    screen, hash := outcome.screen, outcome.hash;
    OutcomeIsSigned(boc.sha, start.request, message);
    ShownTexts(ctx, screen);
  }
}
