/**
 The chunk protocol (src/handler/sign_transaction.c): a transaction arrives as a header and a message
 cut into any number of commands. src/apdu/dispatcher.c says which command is the first and which
 the last.
 */
module SignTransactions {
  import opened Bits
  import opened Outcomes
  import opened CellHash
  import opened SliceWriter
  import opened ByteStreams
  import opened BocContexts
  import opened Display
  import opened MessageFormat
  import opened Contexts
  import opened Signing

  const MAX_TICKER_LEN := 10

  /** The wallet's own address for an account number and a wallet type; a parameter here. */
  type Addresses = (nat, byte) -> Result<Hash>

  // The header.

  datatype Request = Request(walletType: byte, wc: byte, address: seq<byte>, prependAddress: seq<byte>,
                             currency: Currency, withChainId: bool, chainId: seq<byte>) {
    predicate Valid() {
      |address| == |prependAddress| == ADDRESS_LENGTH && |chainId| == CHAIN_ID_LENGTH
    }

    function AsOrder(): Order {
      Order(walletType, wc, address, prependAddress, currency)
    }
  }

  /** The fields in front of the address computation. */
  datatype Opening = Opening(account: nat, originWalletType: byte, decimals: byte, ticker: string, metadata: byte,
                         walletType: byte, size: nat)

  function U32(b: seq<byte>): nat
    requires |b| >= 4
  {
    0x100_0000 * (b[0] as int) + 0x1_0000 * (b[1] as int) + 0x100 * (b[2] as int) + b[3]
  }

  /** Characters up to a terminator. */
  function CString(bytes: seq<byte>): string {
    if bytes == [] || bytes[0] == 0 then "" else [bytes[0] as char] + CString(bytes[1..])
  }

  predicate WithWalletId(metadata: byte) { metadata % 2 == 1 }

  predicate WithWorkchain(metadata: byte) { metadata / 2 % 2 == 1 }

  predicate WithAddress(metadata: byte) { metadata / 4 % 2 == 1 }

  predicate WithChainId(metadata: byte) { metadata / 8 % 2 == 1 }

  /** Account, wallet type, decimals, the ticker behind its length, the metadata byte, and another wallet type. */
  function ParseFront(b: seq<byte>): (r: Result<Opening>)
    ensures r.Success? ==> r.value.size <= |b|
  {
    if |b| < 7 then Failure(InvalidRequest)
    else if b[6] == 0 || b[6] > MAX_TICKER_LEN then Failure(TickerLength)
    else
      var at := 7 + b[6];
      if |b| < at + 1 || (WithWalletId(b[at]) && |b| < at + 2) then Failure(InvalidRequest)
      else
        var ticker := CString(b[7..at]);
        if WithWalletId(b[at]) then Success(Opening(U32(b), b[4], b[5], ticker, b[at], b[at + 1], at + 2))
        else Success(Opening(U32(b), b[4], b[5], ticker, b[at], b[4], at + 1))
  }

  /** A header and its size. */
  datatype Start = Start(request: Request, size: nat)

  /** The workchain, another address to prepend, and the chain id, each if the metadata say so. */
  function ParseTail(b: seq<byte>, front: Opening, address: Hash): (r: Result<Start>)
    requires front.size <= |b|
    ensures r.Success? ==> front.size <= r.value.size <= |b| && r.value.request.Valid()
  {
    var wcAt := front.size;
    var addressAt := wcAt + if WithWorkchain(front.metadata) then 1 else 0;
    var chainAt := addressAt + if WithAddress(front.metadata) then ADDRESS_LENGTH else 0;
    var end := chainAt + if WithChainId(front.metadata) then CHAIN_ID_LENGTH else 0;
    if |b| < end then Failure(InvalidRequest)
    else
      var wc: byte := if WithWorkchain(front.metadata) then b[wcAt] else 0;
      var prepend := if WithAddress(front.metadata) then b[addressAt..chainAt] else address;
      var chainId := if WithChainId(front.metadata) then b[chainAt..end] else seq(CHAIN_ID_LENGTH, _ => 0);
      Success(Start(Request(front.walletType, wc, address, prepend, Currency.Currency(front.decimals, front.ticker),
                           WithChainId(front.metadata), chainId), end))
  }

  function ParseStart(b: seq<byte>, addresses: Addresses): (r: Result<Start>)
    ensures r.Success? ==> r.value.size <= |b| && r.value.request.Valid()
  {
    var front :- ParseFront(b);
    var address :- addresses(front.account, front.originWalletType);
    ParseTail(b, front, address)
  }

  /** A header is read off the first bytes, whatever follows. */
  lemma StartOfPrefix(b: seq<byte>, b': seq<byte>, addresses: Addresses)
    requires ParseStart(b, addresses).Success?
    requires var n := ParseStart(b, addresses).value.size; n <= |b'| && b'[..n] == b[..n]
    ensures ParseStart(b', addresses) == ParseStart(b, addresses)
  {
    hide ParseFront, ParseTail;
    var front := ParseFront(b).value;
    FrontOfPrefix(b, b', ParseStart(b, addresses).value.size);
    TailOfPrefix(b, b', front, addresses(front.account, front.originWalletType).value);
  }

  lemma FrontOfPrefix(b: seq<byte>, b': seq<byte>, n: nat)
    requires ParseFront(b).Success? && ParseFront(b).value.size <= n <= |b| && n <= |b'| && b'[..n] == b[..n]
    ensures ParseFront(b') == ParseFront(b)
  {
    hide CString, WithWalletId;
    SamePart(b, b', 0, 7, n);
    var at := 7 + b[6];
    SamePart(b, b', 7, at, n);
    SamePart(b, b', at, ParseFront(b).value.size, n);
  }

  lemma TailOfPrefix(b: seq<byte>, b': seq<byte>, front: Opening, address: Hash)
    requires front.size <= |b| && front.size <= |b'| && ParseTail(b, front, address).Success?
    requires var n := ParseTail(b, front, address).value.size; n <= |b'| && b'[..n] == b[..n]
    ensures ParseTail(b', front, address) == ParseTail(b, front, address)
  {
    hide WithWorkchain, WithAddress, WithChainId;
    var n := ParseTail(b, front, address).value.size;
    var addressAt := front.size + if WithWorkchain(front.metadata) then 1 else 0;
    var chainAt := addressAt + if WithAddress(front.metadata) then ADDRESS_LENGTH else 0;
    SamePart(b, b', front.size, addressAt, n);
    SamePart(b, b', addressAt, chainAt, n);
    SamePart(b, b', chainAt, n, n);
  }

  lemma SamePart(b: seq<byte>, b': seq<byte>, i: nat, j: nat, n: nat)
    requires i <= j <= n <= |b| && n <= |b'| && b'[..n] == b[..n]
    ensures b'[i..j] == b[i..j] && forall k | i <= k < j :: b'[k] == b[k]
  {
    assert b[..n][i..j] == b[i..j] && b'[..n][i..j] == b'[i..j];
    forall k | i <= k < j
      ensures b'[k] == b[k]
    {
      assert b[..n][k] == b'[..n][k];
    }
  }

  // Receiving.

  /** The fields of the context are those of the request. */
  ghost predicate Requested(ctx: SignTransactionContext, request: Request)
    reads ctx
  {
    && ctx.currentWalletType == request.walletType && ctx.wc == request.wc
    && ctx.address == request.address && ctx.prependAddress == request.prependAddress
    && ctx.Currency() == request.currency
    && ctx.signWithChainId == request.withChainId && ctx.chainId == request.chainId
  }

  /** A request and a part of its message have been received; nothing else has happened yet. */
  ghost predicate Receiving(ctx: SignTransactionContext, boc: BocContext, request: Request, received: seq<byte>)
    reads ctx, ctx.data, ctx.amountStr, boc, boc.cells, boc.hashes, boc.cellDepth, boc.Memory()
  {
    && ctx.Valid() && ctx.Shown(EMPTY) && Requested(ctx, request) && ctx.data[..ctx.dataOffset] == received
    && boc.Valid() && boc.IsClear() && Apart(ctx, boc)
  }

  /** Reads the fields in front of the address computation into the context. */
  method ReadFront(ctx: SignTransactionContext, chunk: seq<byte>) returns (r: Result<Opening>)
    requires ctx.Valid() && ctx.Cleared()
    modifies ctx`accountNumber, ctx`originWalletType, ctx`decimals, ctx`ticker, ctx`currentWalletType
    ensures ctx.Valid() && ctx.Cleared() && r == ParseFront(chunk)
    ensures r.Success? ==>
              && ctx.accountNumber == r.value.account && ctx.originWalletType == r.value.originWalletType
              && ctx.currentWalletType == r.value.walletType
              && ctx.decimals == r.value.decimals && ctx.ticker == r.value.ticker
  {
    hide CString, U32, WithWalletId;
    var _ :- Validate(|chunk| >= 4, InvalidRequest);
    ctx.accountNumber := U32(chunk);
    var _ :- Validate(|chunk| >= 5, InvalidRequest);
    ctx.originWalletType := chunk[4];
    var _ :- Validate(|chunk| >= 6, InvalidRequest);
    ctx.decimals := chunk[5];
    var _ :- Validate(|chunk| >= 7, InvalidRequest);
    var tickerLen := chunk[6];
    var _ :- Validate(tickerLen != 0 && tickerLen <= MAX_TICKER_LEN, TickerLength);
    var offset := 7 + tickerLen;
    var _ :- Validate(|chunk| >= offset, InvalidRequest);
    ctx.ticker := CString(chunk[7..offset]);
    var _ :- Validate(|chunk| >= offset + 1, InvalidRequest);
    var metadata := chunk[offset];
    offset := offset + 1;
    if WithWalletId(metadata) {
      var _ :- Validate(|chunk| >= offset + 1, InvalidRequest);
      ctx.currentWalletType := chunk[offset];
      offset := offset + 1;
    } else {
      ctx.currentWalletType := ctx.originWalletType;
    }
    r := Success(Opening(ctx.accountNumber, ctx.originWalletType, ctx.decimals, ctx.ticker, metadata,
                       ctx.currentWalletType, offset));
  }

  /** Reads the rest of the header into the context; gives its size. */
  method ReadTail(ctx: SignTransactionContext, chunk: seq<byte>, front: Opening, address: Hash) returns (r: Result<nat>)
    requires ctx.Valid() && ctx.Cleared() && front.size <= |chunk| && ctx.address == address
    requires ctx.currentWalletType == front.walletType && ctx.decimals == front.decimals && ctx.ticker == front.ticker
    requires ctx.chainId == seq(CHAIN_ID_LENGTH, _ => 0)
    modifies ctx`wc, ctx`prependAddress, ctx`signWithChainId, ctx`chainId
    ensures ctx.Valid() && ctx.Shown(EMPTY)
    ensures var start := ParseTail(chunk, front, address);
            if start.Failure? then r == Failure(start.error)
            else r == Success(start.value.size) && Requested(ctx, start.value.request)
  {
    hide WithWorkchain, WithAddress, WithChainId;
    var offset := front.size;
    ctx.wc := 0;
    if WithWorkchain(front.metadata) {
      var _ :- Validate(|chunk| >= offset + 1, InvalidRequest);
      ctx.wc := chunk[offset];
      offset := offset + 1;
    }
    if WithAddress(front.metadata) {
      var _ :- Validate(|chunk| >= offset + ADDRESS_LENGTH, InvalidRequest);
      ctx.prependAddress := chunk[offset..offset + ADDRESS_LENGTH];
      offset := offset + ADDRESS_LENGTH;
    } else {
      ctx.prependAddress := ctx.address;
    }
    r := ReadChainId(ctx, chunk, offset, WithChainId(front.metadata));
  }

  method ReadChainId(ctx: SignTransactionContext, chunk: seq<byte>, offset: nat, withChainId: bool)
    returns (r: Result<nat>)
    requires ctx.Valid() && ctx.Shown(EMPTY) && offset <= |chunk|
    modifies ctx`signWithChainId, ctx`chainId
    ensures ctx.Valid() && ctx.Shown(EMPTY) && ctx.signWithChainId == withChainId
    ensures var end := offset + if withChainId then CHAIN_ID_LENGTH else 0;
            if |chunk| < end then r == Failure(InvalidRequest)
            else r == Success(end) && ctx.chainId == if withChainId then chunk[offset..end] else old(ctx.chainId)
  {
    if withChainId {
      ctx.signWithChainId := true;
      var _ :- Validate(|chunk| >= offset + CHAIN_ID_LENGTH, InvalidRequest);
      ctx.chainId := chunk[offset..offset + CHAIN_ID_LENGTH];
      return Success(offset + CHAIN_ID_LENGTH);
    }
    ctx.signWithChainId := false;
    r := Success(offset);
  }

  /** Resets both contexts, reads the header and leaves the table clear. */
  method StartTransaction(ctx: SignTransactionContext, boc: BocContext, addresses: Addresses, chunk: seq<byte>)
    returns (r: Result<nat>)
    requires ctx.Valid() && boc.Valid() && Apart(ctx, boc)
    modifies ctx, ctx.toSign, ctx.amountStr, ctx.data
    modifies boc, boc.cells, boc.hashes, boc.cellDepth, boc.publicKeyCellData
    ensures var start := ParseStart(chunk, addresses);
            if start.Failure? then r == Failure(start.error)
            else r == Success(start.value.size) && Receiving(ctx, boc, start.value.request, [])
  {
    hide ParseFront, ParseTail, PointsAt;
    boc.Clear();
    ctx.Reset();
    var front :- ReadFront(ctx, chunk);
    ctx.address :- addresses(ctx.accountNumber, ctx.originWalletType);
    boc.Clear();
    r := ReadTail(ctx, chunk, front, ctx.address);
  }

  /** The message so far and one more piece, if there is room. */
  function Received(received: seq<byte>, bytes: seq<byte>): Result<seq<byte>> {
    if bytes != [] && |received| + |bytes| >= MAX_DATA_LEN then Failure(InvalidData) else Success(received + bytes)
  }

  /** Adds a piece to the message. */
  method AppendData(ctx: SignTransactionContext, boc: BocContext, bytes: seq<byte>, ghost request: Request,
                    ghost received: seq<byte>)
    returns (r: Result<()>)
    requires Receiving(ctx, boc, request, received)
    modifies ctx`dataOffset, ctx.data
    ensures var data := Received(received, bytes);
            if data.Failure? then r == Failure(data.error) else r.Success? && Receiving(ctx, boc, request, data.value)
  {
    hide PointsAt, NodesIn;
    assert |received| == ctx.dataOffset;
    if |bytes| > 0 {
      var _ :- Validate(ctx.dataOffset + |bytes| < MAX_DATA_LEN, InvalidData);
      ghost var before := ctx.data[..];
      Copy(ctx.data, ctx.dataOffset, bytes);
      assert ctx.data[..ctx.dataOffset + |bytes|] == ctx.data[..][..ctx.dataOffset + |bytes|]
              == before[..ctx.dataOffset] + bytes;
      ctx.dataOffset := ctx.dataOffset + |bytes|;
    } else {
      assert received + bytes == received;
    }
    r := Success(());
  }

  /** What comes of a request and its whole message. */
  ghost function Outcome(sha: Sha256, request: Request, message: seq<byte>): Result<Signed>
    requires request.Valid()
  {
    if message == [] then Failure(EndOfStream) else Sign(sha, message, request.AsOrder(), ClearSlots())
  }

  /** The flow, the texts and the bytes to sign are those of the outcome. */
  ghost predicate Finished(ctx: SignTransactionContext, r: Result<Flow>, request: Request, outcome: Result<Signed>)
    reads ctx, ctx.amountStr, ctx.toSign
  {
    && ctx.Valid() && SameOutcome(r, outcome)
    && (r.Success? ==>
          && r.value == outcome.value.screen.flow && ctx.Shown(outcome.value.screen)
          && if request.withChainId then ctx.toSign[..4] == request.chainId && ctx.toSign[4..36] == outcome.value.hash
             else ctx.toSign[..32] == outcome.value.hash)
  }

  /** Parses and prepares the message received. */
  method FinishTransaction(ctx: SignTransactionContext, boc: BocContext, ghost request: Request,
                           ghost received: seq<byte>)
    returns (r: Result<Flow>)
    requires Receiving(ctx, boc, request, received)
    modifies ctx`addressStr, ctx`transactionIdStr, ctx.amountStr, ctx.toSign
    modifies boc, boc.cells, boc.hashes, boc.cellDepth, boc.publicKeyCellData
    ensures boc.Valid() && request.Valid()
    ensures Finished(ctx, r, request, Outcome(boc.sha, request, received))
  {
    hide SignTransactionContext.Shown, PointsAt, Sign;
    if ctx.dataOffset == 0 {
      return Failure(EndOfStream);
    }
    var src := new ByteStream(ctx.data, ctx.dataOffset);
    assert src.Rest() == ctx.data[..ctx.dataOffset];
    r := PrepareToSign(ctx, boc, src, ctx.wc, ctx.address, ctx.prependAddress);
  }

  // The handler.

  datatype Reply = MoreExpected | Shown(flow: Flow)

  /** The request and the message received once a chunk is taken in. */
  function TakenIn(isFirst: bool, chunk: seq<byte>, addresses: Addresses, request: Request, received: seq<byte>)
    : (r: Result<(Request, seq<byte>)>)
    requires request.Valid()
    ensures r.Success? ==> r.value.0.Valid()
  {
    if isFirst then
      var start :- ParseStart(chunk, addresses);
      var data :- Received([], chunk[start.size..]);
      Success((start.request, data))
    else
      var data :- Received(received, chunk);
      Success((request, data))
  }

  /** After a chunk: still receiving, or finished with the outcome for the whole message. */
  ghost predicate Handled(ctx: SignTransactionContext, boc: BocContext, r: Result<Reply>,
                          taken: Result<(Request, seq<byte>)>, more: bool)
    requires taken.Success? ==> taken.value.0.Valid()
    reads ctx, ctx.data, ctx.amountStr, ctx.toSign, boc, boc.cells, boc.hashes, boc.cellDepth, boc.Memory()
  {
    if taken.Failure? then r == Failure(taken.error)
    else if more then r == Success(MoreExpected) && Receiving(ctx, boc, taken.value.0, taken.value.1)
    else
      && (r.Success? ==> r.value.Shown?)
      && var flow := if r.Failure? then Failure(r.error) else Success(r.value.flow);
         Finished(ctx, flow, taken.value.0, Outcome(boc.sha, taken.value.0, taken.value.1))
  }

  /** Handles one command of a run. */
  method HandleSignTransaction(ctx: SignTransactionContext, boc: BocContext, addresses: Addresses, chunk: seq<byte>,
                               isFirst: bool, more: bool, ghost request: Request, ghost received: seq<byte>)
    returns (r: Result<Reply>)
    requires ctx.Valid() && boc.Valid() && Apart(ctx, boc) && request.Valid()
    requires !isFirst ==> Receiving(ctx, boc, request, received)
    modifies ctx, ctx.toSign, ctx.amountStr, ctx.data
    modifies boc, boc.cells, boc.hashes, boc.cellDepth, boc.publicKeyCellData
    ensures Handled(ctx, boc, r, TakenIn(isFirst, chunk, addresses, request, received), more)
  {
    hide ParseStart, Received, Receiving, Outcome, Finished, PointsAt, BocContext.Valid, SignTransactionContext.Valid,
         Request.Valid;
    var offset := 0;
    ghost var req, data := request, received;
    if isFirst {
      offset :- StartTransaction(ctx, boc, addresses, chunk);
      req, data := ParseStart(chunk, addresses).value.request, [];
    }
    assert chunk[0..] == chunk;
    var _ :- AppendData(ctx, boc, chunk[offset..], req, data);
    if more {
      return Success(MoreExpected);
    }
    var flow :- FinishTransaction(ctx, boc, req, Received(data, chunk[offset..]).value);
    r := Success(Shown(flow));
  }

  // Whole runs.

  function Flatten(chunks: seq<seq<byte>>): seq<byte> {
    if chunks == [] then [] else Flatten(chunks[..|chunks| - 1]) + chunks[|chunks| - 1]
  }

  lemma {:induction false} FlattenFirst(chunks: seq<seq<byte>>, i: nat)
    requires 0 < i <= |chunks|
    ensures |chunks[0]| <= |Flatten(chunks[..i])| <= |Flatten(chunks)|
    ensures Flatten(chunks[..i])[..|chunks[0]|] == chunks[0] && Flatten(chunks)[..|chunks[0]|] == chunks[0]
    decreases |chunks|
  {
    var n := |chunks| - 1;
    if i <= n {
      FlattenFirst(chunks[..n], i);
      assert chunks[..n][..i] == chunks[..i];
    } else {
      assert chunks[..i] == chunks;
      if n > 0 {
        FlattenFirst(chunks[..n], n);
        assert chunks[..n][..n] == chunks[..n];
      } else {
        assert Flatten(chunks[..0]) == [];
      }
    }
  }

  /** The request and the message that bytes hold, if the message is short enough. */
  function Transaction(bytes: seq<byte>, addresses: Addresses): (r: Result<(Request, seq<byte>)>)
    ensures r.Success? ==> r.value.0.Valid() && |r.value.1| < MAX_DATA_LEN
  {
    var start :- ParseStart(bytes, addresses);
    if |bytes| - start.size >= MAX_DATA_LEN then Failure(InvalidData) else Success((start.request, bytes[start.size..]))
  }

  /** What the first i chunks hold; the header has to be in the first. */
  function Run(chunks: seq<seq<byte>>, i: nat, addresses: Addresses): (r: Result<(Request, seq<byte>)>)
    requires 0 < i <= |chunks|
    ensures r.Success? ==> r.value.0.Valid()
  {
    var _ :- ParseStart(chunks[0], addresses);
    Transaction(Flatten(chunks[..i]), addresses)
  }

  /** The next chunk. */
  lemma RunStep(chunks: seq<seq<byte>>, i: nat, addresses: Addresses, request: Request, received: seq<byte>)
    requires i < |chunks| && request.Valid()
    requires i > 0 ==> Run(chunks, i, addresses) == Success((request, received))
    ensures var taken, run := TakenIn(i == 0, chunks[i], addresses, request, received), Run(chunks, i + 1, addresses);
            taken == run
  {
    hide ParseStart;
    var bytes := Flatten(chunks[..i + 1]);
    assert chunks[..i + 1][..i] == chunks[..i];
    assert bytes == Flatten(chunks[..i]) + chunks[i];
    if i == 0 {
      assert Flatten(chunks[..0]) == [] && bytes == chunks[0];
      assert forall n | 0 <= n <= |bytes| :: [] + bytes[n..] == bytes[n..];
    } else {
      FlattenFirst(chunks, i);
      var start := ParseStart(chunks[0], addresses).value;
      SameStart(chunks[0], Flatten(chunks[..i]), addresses);
      SameStart(chunks[0], bytes, addresses);
      assert bytes[start.size..] == Flatten(chunks[..i])[start.size..] + chunks[i];
    }
  }

  lemma SameStart(first: seq<byte>, bytes: seq<byte>, addresses: Addresses)
    requires ParseStart(first, addresses).Success? && |first| <= |bytes| && bytes[..|first|] == first
    ensures ParseStart(bytes, addresses) == ParseStart(first, addresses)
  {
    var n := ParseStart(first, addresses).value.size;
    assert bytes[..n] == bytes[..|first|][..n];
    StartOfPrefix(first, bytes, addresses);
  }

  /** A run that has failed does not recover. */
  lemma FailedRun(chunks: seq<seq<byte>>, i: nat, addresses: Addresses)
    requires 0 < i <= |chunks| && Run(chunks, i, addresses).Failure?
    ensures Run(chunks, |chunks|, addresses) == Run(chunks, i, addresses)
  {
    hide ParseStart;
    if ParseStart(chunks[0], addresses).Success? {
      assert chunks[..|chunks|] == chunks;
      FlattenFirst(chunks, i);
      SameStart(chunks[0], Flatten(chunks[..i]), addresses);
      SameStart(chunks[0], Flatten(chunks), addresses);
    }
  }

  /** The state of a run after i chunks. */
  ghost predicate Running(ctx: SignTransactionContext, boc: BocContext, chunks: seq<seq<byte>>, i: nat,
                          addresses: Addresses)
    requires i <= |chunks|
    reads ctx, ctx.data, ctx.amountStr, boc, boc.cells, boc.hashes, boc.cellDepth, boc.Memory()
  {
    && ctx.Valid() && boc.Valid() && Apart(ctx, boc)
    && (i > 0 ==> var run := Run(chunks, i, addresses); run.Success? && Receiving(ctx, boc, run.value.0, run.value.1))
  }

  /** The outcome of a run: it depends on the bytes in the order they came, not on where they were cut. */
  ghost predicate RunFinished(ctx: SignTransactionContext, boc: BocContext, r: Result<Flow>,
                              run: Result<(Request, seq<byte>)>)
    requires run.Success? ==> run.value.0.Valid()
    reads ctx, ctx.amountStr, ctx.toSign, boc
  {
    if run.Failure? then r == Failure(run.error)
    else Finished(ctx, r, run.value.0, Outcome(boc.sha, run.value.0, run.value.1))
  }

  /** An uninterrupted run: the first chunk, any number of chunks, the last chunk. */
  method SignTransactionRun(ctx: SignTransactionContext, boc: BocContext, addresses: Addresses, chunks: seq<seq<byte>>)
    returns (r: Result<Flow>)
    requires ctx.Valid() && boc.Valid() && Apart(ctx, boc) && chunks != []
    modifies ctx, ctx.toSign, ctx.amountStr, ctx.data
    modifies boc, boc.cells, boc.hashes, boc.cellDepth, boc.publicKeyCellData
    ensures RunFinished(ctx, boc, r, Run(chunks, |chunks|, addresses))
  {
    var i := 0;
    assert Running(ctx, boc, chunks, i, addresses);
    hide *;
    while i + 1 < |chunks|
      invariant i < |chunks| && Running(ctx, boc, chunks, i, addresses)
    {
      var reply := NextChunk(ctx, boc, addresses, chunks, i);
      if reply.Failure? {
        r := Failure(reply.error);
        return;
      }
      i := i + 1;
    }
    r := LastChunk(ctx, boc, addresses, chunks, i);
  }

  method NextChunk(ctx: SignTransactionContext, boc: BocContext, addresses: Addresses, chunks: seq<seq<byte>>, i: nat)
    returns (reply: Result<Reply>)
    requires i < |chunks| && Running(ctx, boc, chunks, i, addresses)
    modifies ctx, ctx.toSign, ctx.amountStr, ctx.data
    modifies boc, boc.cells, boc.hashes, boc.cellDepth, boc.publicKeyCellData
    ensures if reply.Success? then Running(ctx, boc, chunks, i + 1, addresses)
            else RunFinished(ctx, boc, Failure(reply.error), Run(chunks, |chunks|, addresses))
  {
    ghost var request, received := SoFar(chunks, i, addresses);
    reply := HandleSignTransaction(ctx, boc, addresses, chunks[i], i == 0, true, request, received);
    RunStep(chunks, i, addresses, request, received);
    if reply.Failure? {
      FailedRun(chunks, i + 1, addresses);
    }
  }

  ghost method SoFar(chunks: seq<seq<byte>>, i: nat, addresses: Addresses)
    returns (request: Request, received: seq<byte>)
    requires i <= |chunks| && (i > 0 ==> Run(chunks, i, addresses).Success?)
    ensures request.Valid() && (i > 0 ==> Run(chunks, i, addresses) == Success((request, received)))
  {
    if i > 0 {
      request, received := Run(chunks, i, addresses).value.0, Run(chunks, i, addresses).value.1;
    } else {
      var zeros := seq(ADDRESS_LENGTH, _ => 0 as byte);
      request := Request(0, 0, zeros, zeros, Currency.Currency(0, ""), false, seq(CHAIN_ID_LENGTH, _ => 0));
      received := [];
    }
  }

  method LastChunk(ctx: SignTransactionContext, boc: BocContext, addresses: Addresses, chunks: seq<seq<byte>>, i: nat)
    returns (r: Result<Flow>)
    requires i + 1 == |chunks| && Running(ctx, boc, chunks, i, addresses)
    modifies ctx, ctx.toSign, ctx.amountStr, ctx.data
    modifies boc, boc.cells, boc.hashes, boc.cellDepth, boc.publicKeyCellData
    ensures RunFinished(ctx, boc, r, Run(chunks, |chunks|, addresses))
  {
    ghost var request, received := SoFar(chunks, i, addresses);
    var reply := HandleSignTransaction(ctx, boc, addresses, chunks[i], i == 0, false, request, received);
    RunStep(chunks, i, addresses, request, received);
    r := if reply.Failure? then Failure(reply.error) else Success(reply.value.flow);
  }

  /** However a transaction is cut behind its header, a run takes in the same. */
  lemma CutDoesNotMatter(chunks: seq<seq<byte>>, chunks': seq<seq<byte>>, addresses: Addresses)
    requires chunks != [] && chunks' != [] && Flatten(chunks) == Flatten(chunks')
    requires ParseStart(chunks[0], addresses).Success? && ParseStart(chunks'[0], addresses).Success?
    ensures Run(chunks, |chunks|, addresses) == Run(chunks', |chunks'|, addresses)
            == Transaction(Flatten(chunks), addresses)
  {
    hide Transaction, Flatten, ParseStart;
    assert chunks[..|chunks|] == chunks && chunks'[..|chunks'|] == chunks';
  }
}
