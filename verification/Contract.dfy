/**
 The address of a multisig wallet (src/contract.c): the hash of the wallet's initial state, computed
 from a table of its cells that stops at the public key cell.
 */
module Contracts {
  import opened Bits
  import opened Outcomes
  import opened Seqs
  import opened SliceWriter
  import opened Slices
  import opened Cells
  import opened CellHash
  import opened ByteStreams
  import opened BocFormat
  import opened BocContexts
  import opened Prepending
  import opened HashmapLabels

  const PUBLIC_KEY_LENGTH := 32

  type PublicKey = k: seq<byte> | |k| == PUBLIC_KEY_LENGTH witness seq(PUBLIC_KEY_LENGTH, _ => 0)

  // Finding the public key cell.

  /** The state init has a data branch. */
  predicate HasData(b: byte) {
    b / 0x20 % 2 == 1
  }

  /**
   The leaf of the dictionary that the last reference of the root leads to. The flag is read off the
   byte behind the descriptors, the first of the data or, without data, of the references.
   */
  function FindKeyCell(cells: seq<CellView>): Result<Leaf>
    requires cells != []
  {
    var root := cells[0];
    if root.refs == [] || |root.refs| > 2 then Failure(InvalidContract)
    else if !HasData((root.data + root.refs)[0]) then Failure(InvalidContract)
    else
      var dataRoot := root.refs[|root.refs| - 1];
      if dataRoot == 0 || dataRoot > MAX_CONTRACT_CELLS_COUNT then Failure(InvalidContract)
      else if dataRoot >= |cells| then Failure(CellIsEmpty)
      else if cells[dataRoot].refs == [] || |cells[dataRoot].refs| > MAX_REFERENCES_COUNT then Failure(InvalidContract)
      else Walk(cells, cells[dataRoot].refs[0], KEY_BITS)
  }

  /** A wallet's root has the flag for a data branch in bit 5 of its first byte, and one or two references. */
  lemma RefusedWallets(cells: seq<CellView>)
    requires cells != [] && cells[0].data != []
    requires cells[0].data[0] % 64 < 32 || cells[0].refs == [] || |cells[0].refs| > 2
    ensures FindKeyCell(cells) == Failure(InvalidContract)
  {
    hide Walk;
    var b := cells[0].data[0];
    assert (cells[0].data + cells[0].refs)[0] == b;
    if b % 64 < 32 {
      DivModUnique(b, 0x20, 2 * (b / 64), b % 64);
    }
  }

  method FindPublicKeyCell(boc: BocContext) returns (r: Result<()>)
    requires boc.Valid() && boc.cellsCount > 0
    modifies boc`publicKeyCellIndex, boc`publicKeyLabelSizeBits
    ensures boc.Valid() && Descended(boc, r, FindKeyCell(boc.table))
  {
    hide HasData, Walk;
    assert boc.cellsCount == |boc.table|;
    var root := View(boc.cells[0]);
    if root.refs == [] || |root.refs| > 2 || !HasData((root.data + root.refs)[0]) {
      return Failure(InvalidContract);
    }
    var dataRoot := root.refs[|root.refs| - 1];
    if dataRoot == 0 || dataRoot > MAX_CONTRACT_CELLS_COUNT {
      return Failure(InvalidContract);
    }
    if dataRoot >= boc.cellsCount {
      return Failure(CellIsEmpty);
    }
    var refs := View(boc.cells[dataRoot]).refs;
    if refs == [] || |refs| > MAX_REFERENCES_COUNT {
      return Failure(InvalidContract);
    }
    r := PutZeroKey(boc, refs[0]);
  }

  method PutZeroKey(boc: BocContext, index: nat) returns (r: Result<()>)
    requires boc.Valid()
    modifies boc`publicKeyCellIndex, boc`publicKeyLabelSizeBits
    ensures boc.Valid() && Descended(boc, r, Walk(boc.table, index, KEY_BITS))
  {
    hide PointsAt, Walk, Descended, ZeroKey;
    var key := NewZeroKey();
    r := PutToNode(boc, index, KEY_BITS, key);
  }

  method NewZeroKey() returns (key: SliceData)
    ensures fresh(key) && fresh(key.data) && ZeroKey(key, KEY_BITS) && key.RemainingBits() == KEY_BITS
  {
    var keyBuffer := new byte[8](_ => 0);
    key := new SliceData(keyBuffer, 0, 8);
  }

  // Planting the public key.

  /** The label, the key, and a completion tag unless the label ends on a byte boundary. */
  ghost function KeyBits(front: seq<bool>, key: PublicKey): (bits: seq<bool>)
    ensures |bits| % 8 == 0
  {
    front + BitsOf(key) + if |front| % 8 == 0 then [] else Filler(8 - |front| % 8, true)
  }

  /** The front of a bit string replaced. */
  ghost function Overwritten(bits: seq<bool>, front: seq<bool>): (o: seq<bool>)
    ensures |o| == |bits|
  {
    if |front| <= |bits| then front + bits[|front|..] else front[..|bits|]
  }

  /** The data of the public key cell with the key planted behind a label of size bits. */
  ghost function PlantedKey(data: seq<byte>, size: nat, key: PublicKey): (planted: seq<byte>)
    requires size <= 8 * |data|
    ensures |planted| == |data|
  {
    Pack(Overwritten(BitsOf(data), KeyBits(BitsOf(data)[..size], key)))
  }

  /** Only zero bytes follow. */
  ghost predicate ZeroBehind(data: seq<byte>, n: nat) {
    forall i | n < i < |data| :: data[i] == 0
  }

  /**
   Without a tag in the second descriptor, label and key fill the cell. With one, either the label
   does not end on a byte boundary, or the byte behind the key is a tag already; and only zero bytes
   follow.
   */
  ghost predicate Completes(d2: byte, data: seq<byte>, size: nat) {
    var end := size / 8 + PUBLIC_KEY_LENGTH;
    if d2 % 2 == 0 then size % 8 == 0 && |data| == end
    else |data| > end && (size % 8 == 0 ==> data[end] == 0x80) && ZeroBehind(data, end)
  }

  /** The planted cell denotes the label followed by the key exactly when the rest of the cell is as it has to be. */
  lemma KeyPlanted(d2: byte, data: seq<byte>, size: nat, key: PublicKey)
    requires size <= 8 * |data|
    ensures Payload(d2, PlantedKey(data, size, key)) == BitsOf(data)[..size] + BitsOf(key)
            <==> Completes(d2, data, size)
  {
    hide Pack, BitsOf, Untagged, KeyBits, Overwritten;
    var n, m := size / 8 + PUBLIC_KEY_LENGTH, size % 8;
    var bits := BitsOf(data);
    BitsOfPack(Overwritten(bits, KeyBits(bits[..size], key)));
    if d2 % 2 == 0 {
      KeyFills(bits, size, n, m, key);
    } else {
      KeyTagged(data, size, n, m, key);
    }
  }

  /** The same for a cell with a tag. */
  lemma KeyTagged(data: seq<byte>, size: nat, n: nat, m: nat, key: PublicKey)
    requires size <= 8 * |data| && n >= 32 && size == 8 * (n - 32) + m && m < 8
    ensures Untagged(Overwritten(BitsOf(data), KeyBits(BitsOf(data)[..size], key)))
            == BitsOf(data)[..size] + BitsOf(key)
            <==> n < |data| && (m == 0 ==> data[n] == 0x80) && ZeroBehind(data, n)
  {
    hide BitsOf, Untagged, KeyBits, Overwritten;
    var bits := BitsOf(data);
    if |data| <= n {
      KeyTooLong(Overwritten(bits, KeyBits(bits[..size], key)), bits[..size] + BitsOf(key));
    } else {
      KeyBitsParts(bits, size, n, m, key);
      var rest := if m != 0 then [true] + Zeros(7 - m) + bits[8 * n + 8..] else bits[8 * n..];
      UntaggedIs(bits[..size] + BitsOf(key), rest);
      RestOfCell(data, n, m, rest);
    }
  }

  /** Label and key are all of the cell's bits, or there are not as many. */
  lemma KeyFills(bits: seq<bool>, size: nat, n: nat, m: nat, key: PublicKey)
    requires size <= |bits| && |bits| % 8 == 0 && size == 8 * (n - 32) + m && m < 8 && n >= 32
    ensures Overwritten(bits, KeyBits(bits[..size], key)) == bits[..size] + BitsOf(key) <==> m == 0 && |bits| == 8 * n
  {
    hide BitsOf;
    var front := bits[..size];
    assert |front + BitsOf(key)| == 8 * n + m;
    if m == 0 && |bits| == 8 * n {
      assert KeyBits(front, key) == front + BitsOf(key);
    }
  }

  /** Bits that have to be cut off a longer string cannot be completed to it. */
  lemma KeyTooLong(bits: seq<bool>, all: seq<bool>)
    requires |bits| <= |all| && all != []
    ensures Untagged(bits) != all
  {
    hide Untagged;
    if HasTag(bits) {
      TagSplits(bits);
    } else {
      NoTagNoBits(bits);
    }
  }

  lemma KeyBitsParts(bits: seq<bool>, size: nat, n: nat, m: nat, key: PublicKey)
    requires size == 8 * (n - 32) + m && n >= 32 && m < 8 && |bits| >= 8 * n + 8
    ensures Overwritten(bits, KeyBits(bits[..size], key)) ==
              bits[..size] + BitsOf(key) + if m != 0 then [true] + Zeros(7 - m) + bits[8 * n + 8..] else bits[8 * n..]
  {
    hide BitsOf;
    var front := bits[..size];
    assert size % 8 == m;
    assert KeyBits(front, key) == front + BitsOf(key) + if m != 0 then Filler(8 - m, true) else [];
    if m != 0 {
      assert front + BitsOf(key) + Filler(8 - m, true) + bits[8 * n + 8..]
          == front + BitsOf(key) + ([true] + Zeros(7 - m) + bits[8 * n + 8..]);
    }
  }

  /** What completes a bit string is a single 1 and zeros. */
  lemma UntaggedIs(bits: seq<bool>, rest: seq<bool>)
    requires bits != []
    ensures Untagged(bits + rest) == bits <==> rest != [] && rest == [true] + Zeros(|rest| - 1)
  {
    hide Untagged;
    var s := bits + rest;
    if rest != [] && rest == [true] + Zeros(|rest| - 1) {
      assert s == bits + [true] + Zeros(|rest| - 1);
      UntaggedOf(bits, |rest| - 1);
    }
    if HasTag(s) {
      TagSplits(s);
      if Untagged(s) == bits {
        AppendAssoc(bits, [true], Zeros(|s| - |bits| - 1));
        SameParts(bits, rest, bits, [true] + Zeros(|s| - |bits| - 1));
      }
    } else {
      NoTagNoBits(s);
    }
  }

  /** The bits behind label and key complete them exactly when the bytes do. */
  lemma RestOfCell(data: seq<byte>, n: nat, m: nat, rest: seq<bool>)
    requires n < |data| && m < 8
    requires rest == if m != 0 then [true] + Zeros(7 - m) + BitsOf(data)[8 * n + 8..] else BitsOf(data)[8 * n..]
    ensures rest == [true] + Zeros(|rest| - 1)
            <==> (m == 0 ==> data[n] == 0x80) && ZeroBehind(data, n)
  {
    hide BitsOf, ToBits, ZeroBehind;
    var tail := BitsOf(data)[8 * n + 8..];
    ZeroBytes(data, n, tail);
    if m != 0 {
      TagAndTail(7 - m, rest, tail);
    } else {
      FirstByteAndTail(data, n, rest, tail);
    }
  }

  lemma TagAndTail(k: nat, rest: seq<bool>, tail: seq<bool>)
    requires rest == [true] + Zeros(k) + tail
    ensures rest == [true] + Zeros(|rest| - 1) <==> tail == Zeros(|tail|)
  {
    OneThenZeros([true] + Zeros(k), tail, k);
  }

  lemma FirstByteAndTail(data: seq<byte>, n: nat, rest: seq<bool>, tail: seq<bool>)
    requires n < |data| && rest == BitsOf(data)[8 * n..] && tail == BitsOf(data)[8 * n + 8..]
    ensures rest == [true] + Zeros(|rest| - 1) <==> data[n] == 0x80 && tail == Zeros(|tail|)
  {
    hide BitsOf, ToBits;
    BitsOfByte(data, n);
    TagByte(data[n]);
    hide Zeros;
    FrontAndTail(BitsOf(data), 8 * n, 8 * n + 8, ToBits(data[n], 8), rest, tail);
  }

  lemma FrontAndTail(bits: seq<bool>, i: nat, k: nat, front: seq<bool>, rest: seq<bool>, tail: seq<bool>)
    requires i + 8 == k <= |bits| && front == bits[i..k] && rest == bits[i..] && tail == bits[k..]
    ensures rest == [true] + Zeros(|rest| - 1) <==> front == [true] + Zeros(7) && tail == Zeros(|tail|)
  {
    assert rest == front + tail;
    OneThenZeros(front, tail, 7);
  }

  /** Only the byte 0x80 is a single 1 and zeros. */
  lemma TagByte(b: byte)
    ensures ToBits(b, 8) == [true] + Zeros(7) <==> b == 0x80
  {
    hide ToBits;
    BitsOf80();
    Pow2Values();
    if ToBits(b, 8) == ToBits(0x80, 8) {
      ToBitsInjective(8, b, 0x80);
    }
    assert ToBits(0x80, 8) == [true] + Zeros(7);
  }

  lemma OneThenZeros(a: seq<bool>, b: seq<bool>, k: nat)
    requires |a| == k + 1
    ensures a + b == [true] + Zeros(k + |b|) <==> a == [true] + Zeros(k) && b == Zeros(|b|)
  {
    assert [true] + Zeros(k + |b|) == [true] + Zeros(k) + Zeros(|b|);
    BothParts(a, b, [true] + Zeros(k), Zeros(|b|));
  }

  lemma ZeroBytes(data: seq<byte>, n: nat, tail: seq<bool>)
    requires n < |data| && tail == BitsOf(data)[8 * n + 8..]
    ensures tail == Zeros(|tail|) <==> ZeroBehind(data, n)
  {
    hide BitsOf, ZeroBehind;
    var behind := data[n + 1..];
    BitsBehind(data, n, behind, tail);
    ZeroBehindIs(data, n, behind);
    var zeros: seq<byte> := seq(|behind|, _ => 0);
    ZeroBits(zeros);
    hide Zeros;
    if tail == Zeros(|tail|) {
      BitsOfInjective(behind, zeros);
    }
  }

  lemma BitsBehind(data: seq<byte>, n: nat, behind: seq<byte>, tail: seq<bool>)
    requires n < |data| && behind == data[n + 1..] && tail == BitsOf(data)[8 * n + 8..]
    ensures tail == BitsOf(behind)
  {
    hide BitsOf;
    BitsOfSlice(data, n + 1, |data|);
    assert data[n + 1..|data|] == behind;
    assert BitsOf(data)[8 * n + 8..8 * |data|] == tail;
  }

  lemma ZeroBits(zeros: seq<byte>)
    requires zeros == seq(|zeros|, _ => 0)
    ensures BitsOf(zeros) == Zeros(8 * |zeros|)
  {
    hide BitsOf;
    FilledBits(zeros, false, |zeros|, 8 * |zeros|);
    assert BitsOf(zeros)[..8 * |zeros|] == BitsOf(zeros);
  }

  lemma ZeroBehindIs(data: seq<byte>, n: nat, behind: seq<byte>)
    requires n < |data| && behind == data[n + 1..]
    ensures ZeroBehind(data, n) <==> behind == seq(|behind|, _ => 0)
  {
    assert forall i | n < i < |data| :: data[i] == behind[i - n - 1];
  }

  /** Copies the cell's data and writes the key behind the label. */
  method PlantKey(buffer: array<byte>, data: seq<byte>, size: nat, key: PublicKey)
    requires buffer.Length == MAX_PUBLIC_KEY_CELL_DATA_SIZE && |data| <= MAX_PUBLIC_KEY_CELL_DATA_SIZE
    requires 0 < size <= 10 && size <= 8 * |data|
    modifies buffer
    ensures buffer[..|data|] == PlantedKey(data, size, key)
  {
    hide BitsOf, Copied, Written, PlantedKey, Bytes, Copies, ByteOf, Shifted, CursorAfter, SliceData.Window;
    ghost var before := buffer[..];
    Copy(buffer, 0, data);
    ghost var copied := buffer[..];
    var slice := new SliceData(buffer, 0, MAX_PUBLIC_KEY_CELL_DATA_SIZE);
    var _ := slice.MoveBy(size);
    WholeKey(size);
    assert key[..PUBLIC_KEY_LENGTH] == key;
    var _ := slice.Append(key, 8 * PUBLIC_KEY_LENGTH, true);
    KeyWritten(before, copied, buffer[..], data, size, key);
  }

  lemma WholeKey(size: nat)
    requires 0 < size <= 10
    ensures Bytes(256) == 32 && Copies(256) == 32 && ByteOf(size) == if size < 8 then 0 else 1
    ensures Shifted(size, 256) <==> size != 8
  {}

  lemma KeyWritten(before: seq<byte>, copied: seq<byte>, after: seq<byte>, data: seq<byte>, size: nat, key: PublicKey)
    requires 0 < size <= 10 && size <= 8 * |data| && |data| <= |before| == 36
    requires Copied(before, copied, 0, data)
    requires size != 8 ==> Written(copied, after, size, key, true)
    requires size == 8 ==> Copied(copied, after, 1, key)
    ensures |after| == 36 && after[..|data|] == PlantedKey(data, size, key)
  {
    hide BitsOf, Pack, KeyBits, Overwritten, Copied, Written;
    var front := KeyBits(BitsOf(data)[..size], key);
    var end := KeyInFront(before, copied, after, data, size, key, front);
    CopiedFront(before, copied, data);
    CutFront(copied, after, data, end, front);
    PackBitsOf(after[..|data|]);
  }

  lemma CopiedFront(before: seq<byte>, copied: seq<byte>, data: seq<byte>)
    requires Copied(before, copied, 0, data)
    ensures |copied| == |before| >= |data| && copied[..|data|] == data
  {}

  /** Where the label, the key and the tag end. */
  lemma KeyInFront(before: seq<byte>, copied: seq<byte>, after: seq<byte>, data: seq<byte>, size: nat, key: PublicKey,
                   front: seq<bool>) returns (end: nat)
    requires 0 < size <= 10 && size <= 8 * |data| && |data| <= |before| == 36
    requires Copied(before, copied, 0, data) && front == KeyBits(BitsOf(data)[..size], key)
    requires size != 8 ==> Written(copied, after, size, key, true)
    requires size == 8 ==> Copied(copied, after, 1, key)
    ensures |after| == |copied| && end <= |after| && BitsOf(after[..end]) == front && after[end..] == copied[end..]
  {
    hide BitsOf, Filler;
    CopiedFront(before, copied, data);
    BitsOfPrefix(copied, |data|, 8 * |data|);
    var bits := BitsOf(data)[..size];
    assert BitsOf(copied)[..size] == BitsOf(copied)[..8 * |data|][..size] == bits;
    end := ByteOf(size) + PUBLIC_KEY_LENGTH + if size == 8 then 0 else 1;
    if size == 8 {
      BitsOfPrefix(copied, 1, 8);
      BitsOfAppend(copied[..1], key);
      assert after[..33] == copied[..1] + key;
    } else {
      assert |bits| % 8 == Shift(size) && Shift(size) != 0;
    }
  }

  /** The first bytes of a buffer, of which the first bits have been replaced. */
  lemma CutFront(copied: seq<byte>, after: seq<byte>, data: seq<byte>, end: nat, front: seq<bool>)
    requires |after| == |copied| >= |data| && end <= |after| && copied[..|data|] == data
    requires BitsOf(after[..end]) == front && after[end..] == copied[end..]
    ensures BitsOf(after[..|data|]) == Overwritten(BitsOf(data), front)
  {
    hide BitsOf;
    var n := |data|;
    if end <= n {
      TailKept(copied, after, data, end, n);
      BitsOfAppend(after[..end], data[end..n]);
      BitsOfSlice(data, end, n);
    } else {
      assert after[..n] == after[..end][..n];
      BitsOfPrefix(after[..end], n, 8 * n);
    }
  }

  lemma TailKept(copied: seq<byte>, after: seq<byte>, data: seq<byte>, end: nat, n: nat)
    requires end <= n == |data| <= |after| == |copied| && copied[..n] == data && after[end..] == copied[end..]
    ensures after[..n] == after[..end] + data[end..n]
  {
    forall k | end <= k < n
      ensures after[k] == data[k]
    {
      assert after[k] == after[end..][k - end] == copied[end..][k - end] == copied[k] == copied[..n][k];
    }
  }

  // The address.

  /** The cells of a wallet up to the public key cell, with the key planted. */
  ghost function Prefix(cells: seq<CellView>, leaf: Leaf, key: PublicKey): (prefix: seq<CellView>)
    requires leaf.index < |cells| && leaf.labelSize <= 8 * |cells[leaf.index].data|
    ensures |prefix| == leaf.index + 1
  {
    Plant(cells, leaf.index, PlantedKey(cells[leaf.index].data, leaf.labelSize, key))[..leaf.index + 1]
  }

  /** The cells that are hashed, and what the slots hold beforehand. */
  datatype WalletState = WalletState(prefix: seq<CellView>, given: seq<Node>)

  /**
   The wallet's cells up to the public key cell; the slot behind them stands for the code, of which
   only hash and depth are known.
   */
  ghost function StateOf(wallet: seq<byte>, publicKey: Result<PublicKey>, code: Node, slots: seq<Node>)
    : (r: Result<WalletState>)
    requires |slots| == MAX_CONTRACT_CELLS_COUNT
    ensures r.Success? ==> r.value.prefix != [] && Forward(r.value.prefix, |r.value.given|)
  {
    if wallet == [] then Failure(EndOfStream)
    else
      var cells :- ParseBoc(wallet);
      if cells == [] then Failure(InvalidContract)
      else
        var leaf :- FindKeyCell(cells);
        FoundKeyCell(cells);
        Planted(cells, leaf, publicKey, code, slots)
  }

  ghost function Planted(cells: seq<CellView>, leaf: Leaf, publicKey: Result<PublicKey>, code: Node, slots: seq<Node>)
    : (r: Result<WalletState>)
    requires |slots| == MAX_CONTRACT_CELLS_COUNT && KeyCell(cells, leaf)
    ensures r.Success? ==> r.value.prefix != [] && Forward(r.value.prefix, |r.value.given|)
  {
    if leaf.index + 1 >= MAX_CONTRACT_CELLS_COUNT then Failure(Unmodelled)
    else if |cells[leaf.index].data| > MAX_PUBLIC_KEY_CELL_DATA_SIZE then Failure(InvalidContract)
    else if publicKey.Failure? then Failure(publicKey.error)
    else
      var prefix := Prefix(cells, leaf, publicKey.value);
      if !Forward(prefix, MAX_CONTRACT_CELLS_COUNT) then Failure(InvalidCell)
      else Success(WalletState(prefix, slots[leaf.index + 1 := code]))
  }

  /** The hash of the root of these cells. */
  ghost function AddressOf(sha: Sha256, state: Result<WalletState>): Result<Hash>
    requires state.Success? ==> state.value.prefix != [] && Forward(state.value.prefix, |state.value.given|)
  {
    if state.Failure? then Failure(state.error)
    else Success(Eval(sha, Unfold(state.value.prefix, state.value.given, 0)).hash)
  }

  /** What the slots hold once the address has been computed. */
  ghost predicate LeftBehind(sha: Sha256, state: Result<WalletState>, left: seq<Node>)
    requires state.Success? ==> state.value.prefix != [] && Forward(state.value.prefix, |state.value.given|)
  {
    state.Success? ==> Evaluated(sha, state.value.prefix, state.value.given, left, 0)
  }

  /** The leaf is a cell that starts with a label of this size. */
  ghost predicate KeyCell(cells: seq<CellView>, leaf: Leaf) {
    && 0 < leaf.index < |cells| && 0 < leaf.labelSize <= 10 && leaf.labelSize <= 8 * |cells[leaf.index].data|
  }

  lemma LabelSize(cells: seq<CellView>, index: nat, remaining: nat)
    requires Walk(cells, index, remaining).Success? && remaining <= KEY_BITS
    ensures 0 < index < |cells|
    ensures var edge := LabelAt(cells, index, remaining);
            0 < edge.size <= 10 && edge.size <= 8 * |cells[index].data|
            && Walk(cells, index, remaining) == WalkOn(cells, index, remaining, edge)
  {
    hide BitsOf, Num, WalkOn;
    SizeBits(remaining);
  }

  lemma FoundKeyCell(cells: seq<CellView>)
    requires cells != [] && FindKeyCell(cells).Success?
    ensures KeyCell(cells, FindKeyCell(cells).value)
  {
    WalkFindsKeyCell(cells, cells[cells[0].refs[|cells[0].refs| - 1]].refs[0], KEY_BITS);
  }

  lemma {:induction false} WalkFindsKeyCell(cells: seq<CellView>, index: nat, remaining: nat)
    requires Walk(cells, index, remaining).Success? && remaining <= KEY_BITS
    ensures KeyCell(cells, Walk(cells, index, remaining).value)
    decreases remaining
  {
    hide LabelAt, ParseLabel;
    var edge := LabelAt(cells, index, remaining);
    LabelSize(cells, index, remaining);
    if !Ends(edge, remaining) {
      WalkFindsKeyCell(cells, cells[index].refs[0], remaining - Common(edge, remaining) - 1);
    }
  }

  /** Of the cells of a full table, these are the first; all they refer to behind them is the next cell, the code. */
  ghost predicate Truncates(full: seq<CellView>, prefix: seq<CellView>) {
    && |prefix| < |full| && prefix == full[..|prefix|]
    && forall j, k | 0 <= j < |prefix| && 0 <= k < |full[j].refs| :: full[j].refs[k] <= |prefix|
  }

  /**
   With the whitepaper's hash and depth for the code, the address is the hash that the whitepaper
   defines for the full tree of the wallet's initial state, if the children of the root are settled
   over the depths the slots held before, and only then unless SHA-256 clashes.
   */
  lemma AddressIsStateHash(sha: Sha256, cells: seq<CellView>, leaf: Leaf, key: PublicKey, code: Node, slots: seq<Node>,
                           full: seq<CellView>, given: seq<Node>)
    requires |slots| == MAX_CONTRACT_CELLS_COUNT && KeyCell(cells, leaf) && leaf.index + 1 < MAX_CONTRACT_CELLS_COUNT
    requires |cells[leaf.index].data| <= MAX_PUBLIC_KEY_CELL_DATA_SIZE
    requires Truncates(full, Prefix(cells, leaf, key)) && Forward(full, |given|)
    requires forall j | 0 <= j < |full| :: given[j].depth == if j <= leaf.index then slots[j].depth else 0
    requires var t := Unfold(full, given, leaf.index + 1); code.hash == TvmHash(sha, t) && code.depth == TvmDepth(t)
    ensures var t, address := Unfold(full, given, 0), AddressOf(sha, Planted(cells, leaf, Success(key), code, slots));
            && address.Success?
            && (KidsSettled(t) ==> address.value == TvmHash(sha, t))
            && (NoClash(sha, t) && TvmDepth(t) < 0x1_0000 ==> (address.value == TvmHash(sha, t) <==> KidsSettled(t)))
  {
    hide Plant, PlantedKey, Eval, TvmHash, TvmDepth, Settled, DepthsRight, NoClash, KidsSettled;
    var n, prefix := leaf.index + 1, Prefix(cells, leaf, key);
    CodeIsRight(sha, full, given, n);
    assert Forward(prefix, MAX_CONTRACT_CELLS_COUNT) by { PrefixIsForward(full, given, prefix); }
    hide Forward;
    TruncationPreservesHash(sha, full, given, n, slots[n := code], 0);
    EvalIsTvm(sha, Unfold(full, given, 0));
  }

  lemma PrefixIsForward(full: seq<CellView>, given: seq<Node>, prefix: seq<CellView>)
    requires Truncates(full, prefix) && Forward(full, |given|) && |prefix| < MAX_CONTRACT_CELLS_COUNT
    ensures Forward(prefix, MAX_CONTRACT_CELLS_COUNT)
  {
    assert forall i | 0 <= i < |prefix| :: prefix[i] == full[i];
  }

  /** A cleared subtree of a depth that fits a byte evaluates to the whitepaper's hash and depth. */
  lemma CodeIsRight(sha: Sha256, full: seq<CellView>, given: seq<Node>, n: nat)
    requires Forward(full, |given|) && n < |full| && forall j | n <= j < |full| :: given[j].depth == 0
    requires TvmDepth(Unfold(full, given, n)) < 0x100
    ensures var t := Unfold(full, given, n); Eval(sha, t) == Node(TvmHash(sha, t), TvmDepth(t))
  {
    var t := Unfold(full, given, n);
    ClearedIsSettled(full, given, n);
    DepthsAreTvm(sha, t);
    SettledKids(t);
    EvalIsTvm(sha, t);
  }

  /** Computing the address of the same wallet again, over what was left behind, gives the same address. */
  lemma AddressAgain(sha: Sha256, wallet: seq<byte>, publicKey: Result<PublicKey>, code: Node, slots: seq<Node>,
                     left: seq<Node>)
    requires |slots| == |left| == MAX_CONTRACT_CELLS_COUNT
    ensures LeftBehind(sha, StateOf(wallet, publicKey, code, slots), left) ==>
              AddressOf(sha, StateOf(wallet, publicKey, code, left))
              == AddressOf(sha, StateOf(wallet, publicKey, code, slots))
  {
    hide ParseBoc, FindKeyCell, Prefix, Forward, Preimage, DepthOver;
    var first, again := StateOf(wallet, publicKey, code, slots), StateOf(wallet, publicKey, code, left);
    if first.Success? && LeftBehind(sha, first, left) {
      EvalAgain(sha, first.value.prefix, first.value.given, again.value.given, 0);
    }
  }

  /** Parses the wallet, finds the key cell, plants code and key, and hashes from the key cell up. */
  method ComputeMultisigAddress(boc: BocContext, publicKey: Result<PublicKey>, wallet: array<byte>, walletSize: nat,
                                codeHash: Hash, codeDepth: nat) returns (r: Result<Hash>)
    requires boc.Valid() && walletSize <= wallet.Length
    requires wallet != boc.hashes && wallet != boc.cellDepth && wallet != boc.publicKeyCellData
    modifies boc, boc.cells, boc.hashes, boc.cellDepth, boc.publicKeyCellData
    ensures boc.Valid()
    ensures var code := Node(codeHash, ToByte(codeDepth));
            var state := old(StateOf(wallet[..walletSize], publicKey, code, boc.Nodes()));
            r == AddressOf(boc.sha, state) && LeftBehind(boc.sha, state, boc.Nodes())
  {
    hide ParseBoc, PointsAt, FindKeyCell, Planted, KeyCell, Parsed, Eval, Unfold, Evaluated, Forward;
    if walletSize == 0 {
      return Failure(EndOfStream);
    }
    var src := new ByteStream(wallet, walletSize);
    assert src.Rest() == wallet[..walletSize];
    var filled := boc.DeserializeCellsTree(src);
    if filled.Failure? {
      return Failure(filled.error);
    }
    ParsedTable(wallet[..walletSize]);
    if boc.cellsCount == 0 {
      return Failure(InvalidContract);
    }
    ghost var cells := boc.table;
    var found := FindPublicKeyCell(boc);
    if found.Failure? {
      return Failure(found.error);
    }
    FoundKeyCell(cells);
    r := AddressFromTable(boc, publicKey, Node(codeHash, ToByte(codeDepth)), FindKeyCell(cells).value);
  }

  lemma ParsedTable(boc: seq<byte>)
    requires ParseBoc(boc).Success?
    ensures Parsed(ParseBoc(boc).value) && |ParseBoc(boc).value| <= MAX_CONTRACT_CELLS_COUNT
  {
    hide ParseCells, ParseHeader;
    ParsedBoc(boc);
    ValidIsParsed(ParseBoc(boc).value, ParseHeader(boc).value.cellsCount);
  }

  lemma ValidIsParsed(cells: seq<CellView>, count: nat)
    requires ValidCells(cells, 0, count)
    ensures Parsed(cells)
  {
    hide DataSize, RefsCount, WithHashes, Exotic;
    forall i | 0 <= i < |cells|
      ensures cells[i].Valid(i, count)
    {
      assert cells[i].Valid(0 + i, count);
    }
  }

  method AddressFromTable(boc: BocContext, publicKey: Result<PublicKey>, code: Node, ghost leaf: Leaf)
    returns (r: Result<Hash>)
    requires boc.Valid() && Parsed(boc.table) && KeyCell(boc.table, leaf)
    requires boc.publicKeyCellIndex == leaf.index && boc.publicKeyLabelSizeBits == leaf.labelSize
    modifies boc.hashes, boc.cellDepth, boc.publicKeyCellData
    ensures boc.Valid()
    ensures var state := Planted(boc.table, leaf, publicKey, code, old(boc.Nodes()));
            r == AddressOf(boc.sha, state) && LeftBehind(boc.sha, state, boc.Nodes())
  {
    var index := boc.publicKeyCellIndex;
    if index + 1 >= MAX_CONTRACT_CELLS_COUNT {
      return Failure(Unmodelled);
    }
    boc.WriteNode(index + 1, code);
    var data := View(boc.cells[index]).data;
    if data == [] || |data| > MAX_PUBLIC_KEY_CELL_DATA_SIZE {
      return Failure(InvalidContract);
    }
    if publicKey.Failure? {
      return Failure(publicKey.error);
    }
    PlantKey(boc.publicKeyCellData, data, boc.publicKeyLabelSizeBits, publicKey.value);
    TablePrefix(boc, leaf, publicKey.value);
    hide PlantedKey, PointsAt, Parsed;
    r := HashPrefix(boc, index + 1, Prefix(boc.table, leaf, publicKey.value));
  }

  /** Hashes the first cells of the table; the outcome is the hash of the root. */
  method HashPrefix(boc: BocContext, count: nat, ghost prefix: seq<CellView>) returns (r: Result<Hash>)
    requires boc.Valid() && Parsed(boc.table) && boc.PlantFits()
    requires 0 < count <= boc.cellsCount && prefix == boc.Table()[..count]
    modifies boc.hashes, boc.cellDepth
    ensures boc.Valid()
    ensures r == if Forward(prefix, MAX_CONTRACT_CELLS_COUNT)
                 then Success(Eval(boc.sha, Unfold(prefix, old(boc.Nodes()), 0)).hash) else Failure(InvalidCell)
    ensures r.Success? ==> Evaluated(boc.sha, prefix, old(boc.Nodes()), boc.Nodes(), 0)
  {
    hide PointsAt, Parsed, Plant, Forward, Eval;
    var hashed := boc.HashFrom(count);
    if hashed.Failure? {
      return Failure(hashed.error);
    }
    r := Success(boc.HashAt(0, boc.cellDepth[..]));
  }

  lemma TablePrefix(boc: BocContext, leaf: Leaf, key: PublicKey)
    requires KeyCell(boc.table, leaf) && boc.publicKeyCellIndex == leaf.index
    requires |boc.table[leaf.index].data| <= boc.publicKeyCellData.Length
    requires boc.publicKeyCellData[..|boc.table[leaf.index].data|]
            == PlantedKey(boc.table[leaf.index].data, leaf.labelSize, key)
    ensures boc.Table()[..leaf.index + 1] == Prefix(boc.table, leaf, key)
  {
    hide PlantedKey;
    var data := boc.table[leaf.index].data;
    assert boc.publicKeyCellData[..][..|data|] == boc.publicKeyCellData[..|data|];
    assert PlantedKey(data, leaf.labelSize, key)[..|data|] == PlantedKey(data, leaf.labelSize, key);
  }
}
