# The transaction path of the Everscale Ledger app

A Dafny model of how the app turns the commands of one transaction into a screen and into the bytes it
signs, with proofs of what that path is for. It covers the bit slices, the bag-of-cells parser, the
hashing of the cell table, the rewriting of the root cell, the multisig wallet address, the message
parser, the decimal printer and the chunk protocol.

Machine integers are `int` with the width written out where it matters; `byte` and `uint16` are subset
types. A C buffer is an array, a pointer into it is an array and an offset, and a thrown error is a
`Failure`. SHA-256, the wallet's own public key and the address lookup are parameters: any functions of
the right type. The buffers of the original that methods change in place are arrays or fields of the
classes `SliceData`, `ByteStream`, `BocContext` and `SignTransactionContext`; each method is proved
against a function of bits, bytes or cells, and the lemmas say what these functions amount to.

`dafny verify dfyconfig.toml` checks everything.

| file | contents |
|---|---|
| Bits, Seqs, Outcomes | numbers and bit strings, slices, results |
| SliceReader, SliceWriter, SliceData, Fields | reading and writing bits at any position |
| ByteStream, Cells, BocFormat, BocContext | parsing cells and filling the table |
| CellHash | hashes and depths of trees: the program's, the whitepaper's, pruning, truncation |
| Prepend | the root cell with an address in front |
| HashmapLabel, Contract | the dictionary walk, planting the public key, the wallet address |
| Decimals, Amounts, Display | decimal text, amounts, the lines of the screen |
| MessageFormat, Context, Message, Signing | what a message says, reading it, preparing the signature |
| Binding, Places | what the hash of a tree binds; places in a table of cells |
| WhatIsSigned | when what is shown is what is signed |
| Pruning | what is shown when a cell that is read is pruned |
| Layouts, Requests | messages, headers and whole runs, from the layout of their fields to the lines and the bytes to sign |
| TestVectors | two transactions of the repository's tests, and one of its wallets |
| Instances | inputs for which simpler claims are false |
| SignTransaction | the chunk protocol and whole runs |

What is proved, in short:

- Reading up to 64 bits at any alignment gives the number these bits denote, although the reads it is
  made of leak bits of the buffer; writing bytes at any bit position keeps the bits in front, and fills
  the rest of the last byte with zeros or a completion tag.
- A parsed bag of cells is tiled by its cells, references point forward, and encoding and parsing are
  inverse. The backward loop over the table computes, for every slot, the hash and depth of the tree it
  is the root of. All depths are those of the TVM whitepaper if and only if no slot held too great a
  depth beforehand and the depth of the tree fits a byte; the hash is the whitepaper's if and only if
  that is so for the children of the root, unless SHA-256 clashes (the "only if" for depths that fit the
  whitepaper's two bytes). Pruning subtrees, or cutting the table off behind the public key cell and
  planting the code's hash, leaves the hash of the root unchanged.
- Putting an address in front of a cell makes it exactly 267 bits longer if and only if the cell has a
  completion tag; then the new cell denotes the address followed by the old bits, and reading the
  address back undoes it.
- The amount printer fails if and only if the amount is 10 to the 36 or more; otherwise its text is the
  only canonical text that parses back to the amount.
- A run of commands shows and signs what the header and the concatenated message determine, wherever
  the message is cut, or ends with the error they determine. The screen of a plain transfer determines
  its destination and amount.
- Cells, bags, headers and messages are also given as the concatenation of their fields, with the numbers
  of the source, and what is read and shown of them is stated for all values of these fields: each kind
  of call, gift and token body, in one slice or two, with a public key or without, and each choice of the
  optional fields of a header. A run that ends well leaves the chain id, if there is one, and the hash
  of the cells in place to be signed.
- Cells 1 and 2, the gift and the body, are shown wherever they are in the tree, and even if they are not
  in it. Unless SHA-256 collides, the hash to sign binds the hash and depth of every cell that the root
  reaches, at its place in the tree: another cell can take a cell's place without changing the hash
  exactly if the root does not reach it, or the other cell has the same hash and depth. So it binds the
  data of a cell that is reached, except against a pruned cell.
- For a plain transfer of a multisig wallet no cell that is not pruned can take the place of the gift
  under the same hash and be shown differently if and only if the root refers to cell 1, and for a call
  with a body none can take the place of the body if and only if the root refers to cell 2 or to a gift
  that does, or no body makes a difference. No cell at all can if and only if, besides, the hash of the
  gift, behind bytes that are neither checked nor hashed, does not happen to be read as a transfer, and
  the hash of the body is shown as the body is.
- Of any two accepted messages with equal hashes to sign, of any kind of wallet, the second is shown as
  the first would be with its cells at the second's places of gift and body, unless SHA-256 collides;
  the cells that are read and their counterparts must be reached and not pruned. Then they are shown
  alike if the places are the same, and two plain transfers are if and only if the first one's gift and
  its cell at the second one's place of the gift have the same workchain, address and amount.

Where a simpler claim is false, the condition under which it holds is proved, and an input is given for
which it fails:

- `SliceData_get_bits` alone is not exact: `SliceReader.ReadBitsValue`, `Instances.LeakingRead`.
- `prepend_address_to_cell` adds no completion tag: `Prepending.PrependExactOnlyIfTagged`,
  `Instances.UntaggedRoot`.
- A planted key is not always all that the cell denotes behind the label: `Contracts.KeyPlanted` says
  which cells, with and without a tag, it completes; `Instances.KeyNotPlanted`.
- `put_to_node` walks past labels that are not on the way to its key: `HashmapLabels.WalkSpellsZeros`,
  `HashmapLabels.WrongLabelIsSkipped`.
- Depths left in the table, and pruned depths of 256 and more, spoil depths and hashes:
  `CellHash.DepthsAreTvm`, `CellHash.EvalIsTvm`, `Instances.DeepPrunedCell`, `Instances.LeftoverDepth`,
  `Instances.WrongDepthRightHash`.
- The gift that is shown need not be signed, nor the body: `WhatIsSigned.TransferIsSigned`,
  `Instances.UnsignedGift`; `WhatIsSigned.BodyIsSigned`, `Instances.UnsignedBurn`.
- A gift the root refers to is signed, but not which of the cells the root refers to is the gift:
  `WhatIsSigned.TransferShownAs`, `Instances.SwappedGift`.
- A cell that is shown can be pruned, which leaves the hash unchanged and not the screen. The type byte,
  the level byte and the high byte of the depth of a pruned cell are neither checked nor hashed. A pruned
  gift is read as a transfer without an address, with the type byte 1 exactly if bits of its hash say
  that all of the balance is moved, and with a smaller one also if the amount in the hash can be shown:
  `Pruning.GiftCanBePruned`, `Pruning.GiftCannotBeExchanged`, `Instances.PrunedGift`. For the body, the
  number of a transaction to confirm and the root: `Pruning.BodyCanBePruned`,
  `Pruning.BodyCannotBeExchanged`, `Pruning.ConfirmationCanBePruned`, `Pruning.RootCanBePruned`.

The comment in src/apdu/dispatcher.c, lines 109 to 113, calls a command with both P2 bits an ordinary
request without chunks; the code takes that as a chunk that is neither first nor last, as doc/api.md
does. The model follows the code.

## Model

| member | source | states |
|---|---|---|
| SliceReader.ReadBitsExact | src/slice_data.c:46-71 | the low bits of a read are the window's; above them zeros, or, for a straddling read, the eight buffer bits that end where the window ends |
| SliceReader.ReadBitsValue | src/slice_data.c:46-71 | a read returns the window's number if and only if no one-bit leaks above it |
| SliceReader.HoldsByte | src/slice_data.c:95-101 | or-ing in the next whole byte extends the assembled prefix of the window by its eight bits |
| SliceReader.HoldsTail | src/slice_data.c:103-107 | or-ing in the last partial, possibly contaminated, read completes the window: leaked bits are already set or fall off |
| Slices.SliceData.GetInt | src/slice_data.c:89-110 | for every alignment and up to 64 bits the big-endian number of the next bits; underflow and range errors otherwise |
| Slices.SliceData.GetNextInt | src/slice_data.c:112-116 | the number of the next bits, and the window without them |
| Slices.SliceData.GetNextBit | src/slice_data.c:73-77 | the next bit, and the window without it |
| Slices.SliceData.GetNextByte | src/slice_data.c:83-87 | the next byte at any alignment, and the window without it |
| Slices.SliceData.GetNextSize | src/slice_data.c:118-125 | reads as many bits as the maximum has significant bits, none for a maximum of zero |
| Slices.LeadingZeros | src/utils.c:101-112 | 16 minus the number of significant bits |
| Slices.SliceData.MoveBy | src/slice_data.c:40-44 | succeeds exactly within the window, and drops that many bits |
| Slices.SliceData.Truncate | src/slice_data.c:26-30 | succeeds up to the current end, which it replaces |
| Slices.SliceData.Equal | src/slice_data.c:132-140 | windows of up to 64 bits compare equal if and only if they have the same bits; of longer ones of equal length the first bits, as many as the length modulo 256, or a range error |
| Slices.SliceData.Fill | src/slice_data.c:20-24 | exactly the first bytes of the slice are set, if there are as many |
| Slices.SliceData.Append | src/slice_data.c:157-200 | unaligned: bits before the cursor kept, then the input, then zeros or a tag; aligned or short writes copy bytes; the cursor moves past the input and the tag; when it fails |
| SliceWriter.WriteShifted | src/slice_data.c:164-196 | the shifted write succeeds exactly if there is room and writes the input at the bit position, completing the last byte |
| SliceWriter.TaggedBits | src/slice_data.c:181-193 | shifting down, setting the lowest bit and shifting up leaves the carried bits followed by a single 1 and zeros |
| Fields.DeserializeArray | src/message.c:12-33 | the output bytes are the source bits at any bit offset; fails exactly if the first byte of an output byte is missing |
| Fields.DeserializeValue | src/message.c:55-62 | succeeds if and only if that many bits are left, copies them and moves behind them; which of two errors is thrown otherwise |
| Fields.DeserializeAddress | src/message.c:35-53 | succeeds exactly for addr_none and complete addr_std; gives workchain and address bits; moves by 2 or 267 bits; all errors |
| Fields.SliceFromCell | src/slice_data.c:14-18 | a slice over all data bytes of a cell, completion tag included |
| ByteStreams.ByteStream.ReadData | src/byte_stream.c:16-22 | the next bytes if there are as many, end of stream otherwise |
| ByteStreams.ByteStream.ReadByte | src/byte_stream.c:24-30 | the next byte if there is one, end of stream otherwise |
| Cells.DeserializeCell | src/cell.c:65-95 | accepts exactly ordinary and pruned cells whose references point forward, at most one past the last; gives their size |
| Cells.ParsedCellEncodes | src/cell.c:65-95 | a parsed cell is valid and its encoding is what the stream starts with |
| Cells.EncodedCellParses | src/cell.c:65-95 | every valid cell parses back from its encoding, whatever follows |
| Cells.BitLen | src/cell.c:39-63 | the number of bits in front of the completion tag, or all bits if the descriptor announces none |
| Cells.LowestOne | src/cell.c:52-58 | the position of the lowest set bit of a byte |
| Cells.OrdinaryLayout | src/cell.c:65-94 | a cell of any level is 32 times the level plus the number of references, the second descriptor, the data and the references, and is read as these |
| Cells.PrunedLayout | src/cell.c:74-83 | a pruned cell is 28 in hexadecimal, a second descriptor for 36 bytes, and these |
| Cells.RefusedDescriptor | src/cell.c:77-80 | cells with hashes, other exotic cells and cells with more than four references are refused |
| Cells.RefusedReference | src/cell.c:87-92 | references that do not lead to later cells, or lead too far, are refused |
| Cells.RefusedPruned | src/cell.c:82-83 | a pruned cell of another size is refused |
| BocFormat.HeaderLayout | src/contract.c:101-130 | a header is flags, the size of offsets, the number of cells, one root, the absent count, the total size in that many bytes, and the root index; exactly the flags 1, 9, 17 and 25 and the sizes 1 to 8 are accepted |
| BocFormat.HeaderIsLaidOut | src/contract.c:101-130 | every header that is accepted is laid out like this |
| BocFormat.BagLayout | src/contract.c:101-154 | valid cells behind such a header, of any offset size and with as many cells declared or more, parse back |
| BocFormat.CellLimits | src/contract.c:136-137 | there is no seventeenth cell |
| BocFormat.ReadHeader | src/contract.c:102-130 | reads headers as in section 5.3.9 of the TON Blockchain paper with one-byte references, one root and neither index, checksum nor cache bits; the flags field, the absent count, the total size and the root index can have any value; which headers are refused, and how |
| BocFormat.ParsedCellsTile | src/contract.c:135-152 | the cells' encodings, put together, are exactly the bytes consumed |
| BocFormat.ParsedBoc | src/contract.c:101-153 | at most 16 cells, all references point forward, the encodings are the bytes behind the header; fewer cells than declared only at the end of the bytes |
| BocFormat.BocRoundTrip | src/contract.c:101-153 | any declared number of valid cells encoded behind a header parses back to them |
| BocContexts.BocContext.DeserializeCellsTree | src/contract.c:101-153 | the table is what the bytes parse to, and its cells point at their bytes; otherwise the parse error |
| BocContexts.BocContext.FillBuffer | src/cell.c:113-146 | the 266-byte buffer is never exceeded and holds masked descriptor, data, children's depths and hashes; the depth slot is raised above the children; fails exactly for references behind the slots |
| BocContexts.BocContext.CalcCellHash | src/cell.c:97-153 | one slot gets the hash and depth of its cell over its children's slots; no other slot changes |
| BocContexts.BocContext.HashFrom | src/contract.c:335-338 | the backward loop leaves in every slot the hash and depth of the whole tree below it, and fails exactly if a reference is behind the slots |
| BocContexts.BocContext.PreparePayloadHash | src/message.c:352-356 | the same for all cells of the table |
| CellHash.EvaluatedStep | src/cell.c:120-146 | one turn of the backward loop extends the slots that hold the hashes of their trees |
| CellHash.PruningPreservesHash | src/cell.c:101-116 | replacing any set of subtrees by pruned branch cells, with ancestors' level bits changed, leaves hash and depth of the root unchanged |
| CellHash.AnySubtreePrunes | src/cell.c:101-110 | every subtree has a pruned branch cell of any level that stands for it |
| CellHash.DepthsAreTvm | src/cell.c:97-153 | all depths are those of the TVM whitepaper if and only if no cell starts from too great a depth and the root's depth fits a byte |
| CellHash.EvalIsTvm | src/cell.c:97-153 | the hash is that of the TVM whitepaper if the children of the root start from no too great depths and their depths fit a byte, and only then unless SHA-256 clashes and for depths that fit two bytes |
| CellHash.EvalAgain | src/cell.c:120-146 | evaluating a table again over the depths left behind gives the same hashes and depths |
| CellHash.ClearedIsSettled | src/handler/sign_transaction.c:63 | in a cleared table no cell starts from too great a depth |
| CellHash.TruncationPreservesHash | src/contract.c:314-316 | a prefix of a table hashes like the whole if the slots behind it hold what the whole evaluates to there |
| Prepending.PrependAddressToCell | src/message.c:406-451 | the slot points at the new cell: first descriptor and references kept, second descriptor for 267 more bits, data that start with address and old data |
| Prepending.PrependIsExact | src/message.c:410-437 | for a cell with a completion tag the new data are the standard encoding of the address followed by the old bits, at all eight alignments |
| Prepending.PrependExactOnlyIfTagged | src/message.c:434-437 | the new cell denotes exactly 267 more bits if and only if the old one carries a tag |
| Prepending.WithBitsDenotes | src/cell.c:39-63 | the standard encoding of fewer than 1024 bits denotes these bits |
| Prepending.ReadBack | src/message.c:35-53 | reading the address of a rewritten cell gives the workchain and address put in front and stops where the old bits start |
| HashmapLabels.LabelIsRead | src/hashmap_label.c:7-24 | two ones, a bit, and a length in as many bits as the longest has are read as the label of that many of the bit |
| HashmapLabels.OtherLabels | src/hashmap_label.c:10-22 | labels that start otherwise are refused; none is longer than 64 bits |
| HashmapLabels.GetLabel | src/hashmap_label.c:7-24 | reads the label of one repeated bit; the bits consumed are its recorded size; the label slice holds its bits; all errors |
| HashmapLabels.CommonPrefix | src/hashmap_label.c:54-61 | the number of bits label and key have in common |
| HashmapLabels.PutToNode | src/hashmap_label.c:26-82 | terminates; keeps the rest of the key as long as the bits left; records the leaf the descent leads to and the size of its label, or fails as the descent does |
| HashmapLabels.WalkSpellsZeros | src/hashmap_label.c:44-81 | labels and branch bits down to the leaf spell the zero key if and only if every label on the way is zero |
| HashmapLabels.WrongLabelIsSkipped | src/hashmap_label.c:53-68 | a concrete dictionary in which the descent passes a wrong label and ends at a key of 65 bits |
| Contracts.RefusedWallets | src/contract.c:157-161 | a root without the flag for a data branch, or with no reference or more than two, is refused |
| Contracts.FindPublicKeyCell | src/contract.c:155-175 | the walk starts below the root's last reference; which roots are refused |
| Contracts.PlantKey | src/contract.c:325-333 | the planted data are the cell's data with the key behind the label |
| Contracts.KeyPlanted | src/contract.c:325-333 | for every label and cell: the planted cell denotes label and key if and only if they fill a cell without a tag, or the rest of a cell with a tag is the tag and zeros |
| Contracts.ComputeMultisigAddress | src/contract.c:297-341 | the address is the root hash of the wallet's cells up to the key cell with key and code planted; what the slots hold then; when it fails, and how |
| Contracts.AddressIsStateHash | src/contract.c:314-340 | with the whitepaper's hash and depth for the code, and over whatever depths the slots held, the address is the TVM hash of the full tree of the initial state if the root's children are settled, and only then unless SHA-256 clashes |
| Contracts.AddressAgain | src/contract.c:335-340 | computing the address of the same wallet again, over what the first time left behind, gives the same address |
| Amounts.DoubleDec | src/utils.c:136-149 | the corrected shift doubles the number the digits denote and adds the bit |
| Amounts.ShiftIn | src/utils.c:136-150 | one bit is shifted in; digits stay decimal and zero left of the top digit; fails exactly when the top digit would leave its 36 places |
| Amounts.ToDigits | src/utils.c:129-153 | the digits denote the big-endian amount; fails if and only if it is 10 to the 36 or more |
| Amounts.ConvertHexAmountToDisplayable | src/utils.c:115-186 | for up to 37 decimals at most 39 characters that parse back to the amount and are canonical; nothing else is written |
| Amounts.OnlyAmountText | src/utils.c:155-185 | one text, and no other, displays an amount with given decimals |
| Amounts.DisplayIsExact | src/utils.c:155-185 | texts with the same decimals are equal if and only if the amounts are |
| Decimals.RenderParses | src/utils.c:155-185 | the printed text is a decimal number without superfluous zeros or point and parses back to the digits' number |
| Decimals.CanonicalUnique | src/utils.c:155-185 | canonical texts of the same amount are equal |
| Display.AddressTextReads | src/message.c:64-77 | the address line is the workchain as a signed decimal number, a colon, and two hexadecimal digits for each byte, high half first |
| Display.NormalLine | src/message.c:90-99 | for the flags 3 the line is the text that displays the amount with the currency's decimals, a blank and the ticker, if these have at most 40 characters |
| Display.NormalLineShows | src/message.c:90-99 | every line for the flags 3 is of this kind |
| Display.OtherFlags | src/message.c:101-116 | the two other lines, other flags, and amounts of 10 to the 36 and more |
| Display.AddressTextInjective | src/message.c:64-77 | the address line determines workchain and address |
| Display.SetAmount | src/message.c:79-118 | the buffer shows the amount line for the flag and nothing else; fails for other flags, amounts too large, texts too long |
| Display.AmountLineInjective | src/message.c:90-99 | two normal amount lines are equal if and only if the amounts are |
| Messages.TakeDestination | src/message.c:149-154 | the destination text is that of the address read |
| Messages.DeserializeMultisigParams | src/message.c:259-350 | succeeds exactly for complete parameters of the known functions, and the texts are those of the parameters; all errors |
| Messages.DeserializeContractHeader | src/message.c:390-404 | the function number behind an optional public key and two time stamps |
| Messages.DeserializeWalletV3 | src/message.c:372-388 | accepts exactly 104 bits with the wallet number in front; gives the flags |
| Messages.DeserializeIntMessageHeader | src/message.c:129-180 | succeeds exactly for complete headers without fees; the texts are those of destination and amount; all errors |
| Messages.DeserializeTokenBody | src/message.c:182-257 | reads on in the second slice when the first runs out; token transfers and burns replace the texts, other bodies do not |
| MessageFormat.PlainTransferScreen | src/message.c:277-331 | destination and amount lines are those of bits 3 to 266 and 267 to 394 of the gift |
| MessageFormat.ScreenDeterminesTransfer | src/message.c:277-331 | plain transfers are shown alike if and only if they have the same workchain, address and amount bits |
| MessageFormat.ScreenDeterminesTokenTransfer | src/message.c:199-228 | token transfers are shown alike if and only if they have the same amount, workchain and address bits, next to the same transaction number |
| MessageFormat.ScreenDeterminesBurn | src/message.c:229-245 | burns are shown alike if and only if they have the same amount bits, next to the same address and transaction number |
| MessageFormat.SameReading | src/message.c:453-621 | a message is shown like any three cells that agree with it in what is read of root, gift and body |
| MessageFormat.ScreenDeterminesGift | src/message.c:129-180 | wallet v3 gifts are shown alike if and only if they have the same workchain, address and amount |
| Signing.ShowWalletV3 | src/message.c:474-508 | the screen is that of root, gift and body cells |
| Signing.ShowMultisig | src/message.c:520-557 | the screen is that of root, gift and body cells; a confirmation of the older wallets is read from the root |
| Signing.PrependRoot | src/message.c:600-606 | the root is the one with the address in front, the other cells stay, and the table can be hashed |
| Signing.PreparePayload | src/message.c:352-370 | the bytes to sign are the chain id, if asked for, and the hash of the table's tree |
| Signing.PrepareToSign | src/message.c:453-621 | for every wallet type: shows the screen of the message and leaves the bytes to sign, or fails with the error of the first thing that is wrong |
| Signing.SignPrepended | src/message.c:600-612 | the hash is that of the table with the address in front of the root, and the table is cleared |
| Signing.SignedHashIsTvmHash | src/message.c:352-370 | the hash signed is the TVM hash of the tree of the message's cells if the depths of the root's children fit a byte, and only then unless SHA-256 clashes |
| Signing.SignedRootDenotes | src/message.c:600-609 | a tagged root is signed with the address in front of exactly its bits and with its references |
| Signing.AcceptedRootFits | src/message.c:601-606 | the root of an accepted call, pruned or not, can be rewritten if and only if it fits the 130-byte buffer |
| Signing.PrunedMessageSignsAlike | src/cell.c:101-116 | two accepted messages of which one is the other with subtrees pruned have the same hash to sign |
| Binding.SameHashSameCell | src/cell.c:113-151 | cells of the same hash have the same data, descriptors up to the level, and children, unless SHA-256 collides on their two buffers |
| Binding.SameHashSameContents | src/cell.c:97-153 | trees of the same hash have the same data at the same places, down to pruned cells, unless SHA-256 collides |
| Places.SameContentsSameCell | src/cell.c:97-153 | trees of the same contents have the same data at the end of the same references, unless one is pruned |
| Places.UnreachedCell | src/cell.c:120-146 | a cell that is not reached can be replaced by any other without changing the tree |
| Places.GiftReached | src/message.c:478-479 | cell 1 is reached if and only if the root refers to it |
| Places.BodyReached | src/message.c:546-557 | cell 2 is reached if and only if the root refers to it, or to cell 1, which refers to it |
| Places.SameHashSameNode | src/cell.c:97-153 | trees of the same hash have cells of the same hash and depth at the same places below the root, pruned or not, unless SHA-256 collides |
| Places.SameNodeEvaluates | src/cell.c:101-146 | a cell of the same hash and depth in a cell's place, pruned or not, leaves the hash of the root unchanged |
| Places.PlaceInBoth | src/cell.c:120-146 | references that lead to an unpruned cell of one of two tables of the same contents do so in the other, unless they meet a cell that is pruned or not in the table |
| WhatIsSigned.CellIsSigned | src/message.c:352-370 | with another cell, pruned or not, in the place of any cell but the root an accepted message that is accepted again has the same hash to sign, SHA-256 not colliding, if and only if the root does not reach that place or the other cell has the same hash and depth |
| WhatIsSigned.ReachedIsSigned | src/message.c:352-370 | an unpruned cell that can take the place of an unpruned one the root reaches under the same hash has the same data and as many references, unless SHA-256 collides |
| WhatIsSigned.PrependKeepsFunction | src/message.c:410-437 | roots that are the same with the address in front have the same function number, tagged or not |
| WhatIsSigned.SignedAlikeShownAs | src/message.c:453-621 | of two accepted messages of any kind of wallet with equal hashes to sign the second is shown as the first would be with its cells at the second one's places of gift and body, if roots, gifts and bodies, as far as they are read, are reached and not pruned, unless SHA-256 collides |
| WhatIsSigned.SameHashSameScreen | src/message.c:453-621 | if gift and body, as far as they are read, are at the same places, both are shown alike |
| WhatIsSigned.PlaceExists | src/message.c:453-621 | the first of two such messages has a cell at a place of the second, unless the way there meets a cell that is pruned or not in the table |
| WhatIsSigned.TransferShownAs | src/message.c:277-331 | two plain transfers with equal hashes to sign are shown alike if and only if the first one's gift agrees in workchain, address and amount with its cell at the second one's place of the gift, unless SHA-256 collides |
| WhatIsSigned.TransferIsSigned | src/message.c:520-612 | every unpruned cell that can take the place of the gift of a plain transfer with the same hash to sign is shown alike, SHA-256 not colliding, if and only if the root refers to cell 1 |
| WhatIsSigned.BodyDecides | src/message.c:546-557 | the screen of a call with a body is that of the call without it, completed by what the body says |
| WhatIsSigned.BodyIsSigned | src/message.c:546-557 | every unpruned body that can take the place of cell 2 with the same hash to sign is shown alike, SHA-256 not colliding, if and only if the root refers to cell 2, or to a gift that does, or no body makes a difference |
| Pruning.StandInStands | src/cell.c:101-110 | there is a pruned cell with the hash and depth of any cell for every type byte, level byte and high byte of the depth |
| Pruning.CellCanBePruned | src/cell.c:76-110 | with a pruned cell of its hash and depth in the place of any cell that is hashed as it is, an accepted message is accepted exactly if it can be shown, and then has the same hash to sign |
| Pruning.GiftCanBePruned | src/message.c:297-331 | a transfer with its gift pruned is accepted if and only if the type byte is below 64 and the amount and flags that the pruned cell's bytes are read as can be shown, with the type byte 1 if and only if the flags move all of the balance; it has the same hash to sign and is shown without an address |
| Pruning.GiftCannotBeExchanged | src/message.c:297-331 | no valid cell at all can take the place of the gift of a plain transfer with the same hash to sign and be shown differently, SHA-256 not colliding, if and only if the root refers to cell 1 and no unhashed bytes make a transfer of the gift's hash |
| Pruning.V3GiftCannotBePruned | src/message.c:129-147 | a wallet v3 refuses a pruned gift with the type byte 1 |
| Pruning.BodyCanBePruned | src/message.c:546-557 | a call with its body pruned is shown as the pruned cell's bytes say, with the type byte 1 as a transfer with the lines it has without a body, and has the same hash to sign |
| Pruning.BodyCannotBeExchanged | src/message.c:546-557 | no valid cell at all can take the place of an unpruned body with the same hash to sign and be shown differently, SHA-256 not colliding, if and only if the body is referred to or none makes a difference, and the pruned cells with its hash are shown as it is |
| Pruning.ConfirmationCanBePruned | src/message.c:333-344 | every accepted confirmation read from cell 1 is accepted with that cell pruned, has the same hash to sign, and shows the first bytes of the pruned cell |
| Pruning.RootCanBePruned | src/message.c:390-404 | a plain transfer of the older wallets with its root pruned is accepted if and only if the type byte is below 128 and the number at bits 81 to 112 of the root's hash is that of a function to which the gift, or for a confirmation the rest of the hash, is a call; it has the same hash to sign and is shown as that call |
| Layouts.StdIsRead | src/message.c:35-77 | the bits 10, one more, the workchain and the address are shown as this address |
| Layouts.NoneIsRead | src/message.c:36-39 | the bits 00 are no address |
| Layouts.OtherAddresses | src/message.c:36-37 | other kinds of addresses are refused |
| Layouts.HeaderBits | src/message.c:390-404 | the function number is at bits 97 to 128, or behind a public key at bits 353 to 384; fails exactly if these are not all there |
| Layouts.HeaderIsRead | src/message.c:390-404 | a key or none, time stamps and a function number are read as this number, and leave what is behind |
| Layouts.SubmitIsRead | src/message.c:299-331 | a submitted transfer shows its destination and its amount, or that all of the balance is moved |
| Layouts.SendIsRead | src/message.c:277-298 | a sent transfer shows its destination and the line for its amount and flags |
| Layouts.FlagsAreNeeded | src/message.c:289-317 | transfers that end in front of their flags are refused |
| Layouts.PlainTransferSays | src/message.c:277-331 | an accepted plain transfer shows the address at bits 3 to 266, and a text that displays the amount at bits 267 to 394 with the currency's decimals, and the ticker |
| Layouts.DeployIsRead | src/message.c:267-276 | a deployment shows the wallet's own address |
| Layouts.ConfirmIsRead | src/message.c:333-344 | a confirmation shows eight bytes in hexadecimal |
| Layouts.OtherFunctions | src/message.c:345-346 | other function numbers are refused |
| Layouts.CallIsRead | src/message.c:515-598 | a call of the wallet types 1 to 8 is read from the root and cell 1, a confirmation of the types 2 to 6 from the root; references lead to a body in cell 2 |
| Layouts.V3RootIsRead | src/message.c:372-388 | the wallet number, two numbers and the flags are read as these flags |
| Layouts.V3RootIsLaidOut | src/message.c:372-388 | other roots are refused, and how |
| Layouts.V3GiftIsRead | src/message.c:129-180 | an internal message with a source or none, a destination, an amount of up to 15 bytes, and no fees shows destination and amount; external ones and fees are refused |
| Layouts.V3BodyIsRead | src/message.c:486-503 | a state init is refused; a body is read if its bit or a reference says so |
| Layouts.TokenTransferIsRead | src/message.c:182-228 | a token transfer in one slice shows its destination and amount |
| Layouts.TokenTransferInSecond | src/message.c:186-193 | all of it in the second slice, if the first has no function number |
| Layouts.TokenAmountInSecond | src/message.c:201-207 | amount and destination in the second slice, if the first is too short for the amount |
| Layouts.TokenAddressInSecond | src/message.c:213-222 | the destination in the second slice, if the first has less than 256 bits for it |
| Layouts.BurnIsRead | src/message.c:229-245 | a burn shows its amount and keeps the address of the gift |
| Layouts.BurnInSecond | src/message.c:229-245 | the same with function number or amount in the second slice |
| Layouts.TokensAreMissing | src/message.c:201-216 | without a second slice bodies that are too short are refused |
| Layouts.OtherBodyIsRead | src/message.c:186-255 | other bodies are shown as transfers with the lines of the gift |
| Requests.RequestIsRead | src/handler/sign_transaction.c:22-92 | a header with any choice of its optional fields is read as exactly its fields, whatever follows |
| Requests.TickerLengthIsChecked | src/handler/sign_transaction.c:39-41 | the ticker has 1 to 10 characters |
| Requests.RequestIsNeeded | src/handler/sign_transaction.c:22-48 | a header that ends in front of its metadata is refused |
| Requests.MessageSize | src/handler/sign_transaction.c:101-105 | a message has less than 1024 bytes, and is what is behind the header |
| Requests.RewrittenRoot | src/message.c:406-451 | a tagged root is signed as the bits 100, the workchain, the address and its own bits |
| Requests.WalletTypes | src/message.c:470-621 | the types 1, 7 and 8 sign the rewritten root, the types 0 and 2 to 6 the cells as they are, others are refused |
| Requests.RunSigns | src/message.c:352-370 | after a run that ends well the texts are those of the message for the header's wallet, workchain, address and currency, and the bytes to sign are the header's chain id, if it has one, and the hash of the cells |
| TestVectors.ConfirmVector | tests/test_sign_cmd.py:82-98 | the bytes of the test are a confirmation of 64941BCC43CCECFF, and its bytes to sign are the SHA-256 of 00 71 and the data |
| TestVectors.TransferVector | tests/test_sign_cmd.py:106-122 | the bytes of the test are shown as a transfer of 123456785.012345678 EVER to the address in workchain 0 |
| TestVectors.OneAndAHalf | src/utils.c:115-186 | 1500000000 with nine decimals is shown as 1.5 |
| TestVectors.SafeMultisigParses | src/contract.c:10-15 | the bytes of this wallet are six cells, of 73 that are declared |
| TestVectors.SafeMultisigKeyCell | src/contract.c:155-175 | the walk through its dictionary ends at cell 5, behind five bits of label |
| Instances.LeakingRead | src/slice_data.c:59-70 | two bits of FF FF read across the byte boundary come out as 255 |
| Instances.KeyNotPlanted | src/contract.c:329-333 | a cell with one more bit than label and key keeps it when the key is planted |
| Instances.DeepPrunedCell | src/cell.c:105-109 | an accepted message with a pruned cell of depth 256: the hashed buffer is not the whitepaper's, nor the hash to sign, unless SHA-256 clashes |
| Instances.LeftoverDepth | src/contract.c:335-340 | a wallet whose address is not the TVM hash of its initial state, unless SHA-256 clashes, because the slot of the public key cell holds a depth left behind |
| Instances.WrongDepthRightHash | src/cell.c:130-134 | above a pruned cell of depth 255 the depth is wrong and the hash is right |
| Instances.UnsignedGift | src/message.c:523-534 | two accepted messages with equal hashes to sign that are shown differently: the root does not refer to the gift |
| Instances.SwappedGift | src/message.c:523-534 | two more, whose roots both refer to cell 1, but at different places |
| Instances.UnsignedBurn | src/message.c:546-557 | two more, whose gifts do not refer to the body: a transfer and a burn |
| Instances.PrunedGift | src/message.c:297-331 | two more, the second with the gift pruned: it is shown to move all of the balance (with a hash function whose hashes are all ones) |
| Instances.UntaggedRoot | src/message.c:406-451 | an accepted message whose root of whole bytes is not 267 bits longer with the address in front |
| SignTransactions.StartTransaction | src/handler/sign_transaction.c:16-92 | both contexts are reset, the request is that of the header, and the table is clear; which headers are refused, and how |
| SignTransactions.AppendData | src/handler/sign_transaction.c:93-105 | the message grows by the chunk; fails exactly if it would reach 1024 bytes |
| SignTransactions.HandleSignTransaction | src/handler/sign_transaction.c:12-121 | after every command of a run either the request and all of the message so far are held, or the outcome for the whole message |
| SignTransactions.SignTransactionRun | src/apdu/dispatcher.c:101-123 | a run shows and signs what header and concatenated message determine, or ends with the error they determine |
| SignTransactions.RunStep | src/handler/sign_transaction.c:101-105 | taking in one more chunk is the same as having received it with the ones before |
| SignTransactions.CutDoesNotMatter | src/handler/sign_transaction.c:101-105 | runs with the same bytes take in the same request and message, however the message is cut |

## Left out

- Menus, confirmation screens, the APDU transport and parser, and commands other than signing a transaction.
- Key derivation, Ed25519 and SHA-256 itself, the failure results of these calls included; the public key and SHA-256 are parameters.
- `get_address`: a parameter of the chunk protocol; of its branches only the multisig address is modelled, over any table of wallet cells and any code hash and depth. The two addresses that are filled in from constants are not.
- `format_hex`, `snprintf` and C string termination: hexadecimal and signed decimal text are functions, the ticker is the characters up to a zero byte, and the address and transaction id texts are values instead of buffers.
- `data_context` is a union in the original; the overlap of its members is not modelled.
- Null pointers, and `ByteStream_read_uint` with sizes other than the one byte the parser reads.
- Contracts.FindPublicKeyCell: as for the walk it starts, slots of the table behind the counted cells are empty here.
- HashmapLabels.PutToNode: slots of the table behind the counted cells are empty here; what an earlier command may have left in them is not modelled.
- A `Failure(Unmodelled)` marks where the original would leave its buffers; the members concerned follow.
- Display.SetAmount: more than 37 decimals, for which the original's digit count wraps around.
- Amounts.ConvertHexAmountToDisplayable: the same.
- Prepending.PrependAddressToCell: a cell that does not fit the 130-byte buffer with the address in front. A cell without data, of which the original copies the byte behind, is not modelled either; `Signing.AcceptedRootFits` shows that accepted messages have none.
- Contracts.ComputeMultisigAddress: a public key cell in the last slot, behind which there is none for the code.
- The text shown when a message names no address depends on an uninitialised buffer; here it is arbitrary, and two such texts count as alike.
- SignTransactions.HandleSignTransaction: a command that is not the first is described only within an uninterrupted run; errors end a run.
- SignTransactions.CutDoesNotMatter: the header has to be complete in the first chunk, as the original demands.
- WhatIsSigned.TransferIsSigned: gifts with a body, transfers that are not plain and wallet v3 messages; of these `WhatIsSigned.SignedAlikeShownAs` and `WhatIsSigned.CellIsSigned` are what is proved.
- WhatIsSigned.BodyIsSigned: wallet v3 messages, of which the body may begin in the gift; bodies that are pruned already.
