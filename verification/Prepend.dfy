/** Putting an address in front of the bits of a cell (src/message.c, prepend_address_to_cell). */
module Prepending {
  import opened Bits
  import opened Outcomes
  import opened Cells
  import opened SliceWriter
  import opened Slices
  import opened Fields

  const CELL_BUFFER_SIZE := 130

  // Bits packed into bytes.

  function Pack(bits: seq<bool>): (bytes: seq<byte>)
    requires |bits| % 8 == 0
    ensures 8 * |bytes| == |bits|
  {
    if bits == [] then []
    else
      var n := |bits| - 8;
      NumBound(bits[n..]);
      Pow2Values();
      Pack(bits[..n]) + [Num(bits[n..])]
  }

  lemma {:induction false} BitsOfPack(bits: seq<bool>)
    requires |bits| % 8 == 0
    ensures BitsOf(Pack(bits)) == bits
  {
    hide ToBits, Num, Pow2;
    if bits != [] {
      var n := |bits| - 8;
      BitsOfPack(bits[..n]);
      ToBitsNum(bits[n..]);
      assert Pack(bits)[..|Pack(bits)| - 1] == Pack(bits[..n]);
      assert bits == bits[..n] + bits[n..];
    }
  }

  lemma PackBitsOf(bytes: seq<byte>)
    ensures Pack(BitsOf(bytes)) == bytes
  {
    hide Pack, BitsOf;
    BitsOfPack(BitsOf(bytes));
    BitsOfInjective(Pack(BitsOf(bytes)), bytes);
  }

  // The standard encoding of a bit string as cell data.

  /** Twice the number of whole bytes, plus one if there is a partial byte. */
  function D2For(n: nat): byte {
    var d2 := ToByte(n / 8 * 2);
    if n % 8 == 0 || d2 == 0xff then d2 else d2 + 1
  }

  /** The bits, completed to whole bytes by a tag if they are not. */
  function Completed(bits: seq<bool>): (c: seq<bool>)
    ensures |c| % 8 == 0
  {
    if |bits| % 8 == 0 then bits else bits + [true] + Zeros(7 - |bits| % 8)
  }

  /** A cell with other bits and the same references. */
  function WithBits(cell: CellView, bits: seq<bool>): CellView {
    CellView(cell.d1, D2For(|bits|), Pack(Completed(bits)), cell.refs)
  }

  lemma SizeFor(n: nat)
    requires n < 1024
    ensures D2For(n) % 2 == (if n % 8 == 0 then 0 else 1)
    ensures DataSize(D2For(n)) == if n % 8 == 0 then n / 8 else n / 8 + 1
  {
    var q := n / 8;
    assert q < 128;
    assert ToByte(q * 2) == q * 2;
  }

  /** The standard encoding denotes the bits it is made from. */
  lemma WithBitsDenotes(cell: CellView, bits: seq<bool>)
    requires cell.Shaped() && |bits| < 1024
    ensures WithBits(cell, bits).Shaped()
    ensures Payload(WithBits(cell, bits).d2, WithBits(cell, bits).data) == bits
  {
    hide BitsOf, Pack, Untagged, D2For;
    SizeFor(|bits|);
    BitsOfPack(Completed(bits));
    if |bits| % 8 != 0 {
      UntaggedOf(bits, 7 - |bits| % 8);
    }
  }

  // What the program writes.

  /** A cell whose data carry a completion tag. */
  ghost predicate Tagged(cell: CellView) {
    cell.d2 % 2 == 1 && HasTag(BitsOf(cell.data))
  }

  ghost function AddressPrefix(wc: byte, address: seq<byte>): (bits: seq<bool>)
    requires |address| == 32
    ensures |bits| == ADDRESS_BITS
  {
    StdAddress(ToBits(wc, 8), BitsOf(address))
  }

  /** The number of bits the new cell is meant to have. */
  function NewLength(cell: CellView): nat {
    |Payload(cell.d2, cell.data)| + ADDRESS_BITS
  }

  /** All bits written: the address, the old data with its tag if it has one, five zeros. */
  ghost function Raw(cell: CellView, wc: byte, address: seq<byte>): (bits: seq<bool>)
    requires |address| == 32
    ensures |bits| == ADDRESS_BITS + 8 * |cell.data| + 5
  {
    AddressPrefix(wc, address) + BitsOf(cell.data) + Zeros(5)
  }

  /** The new cell: as many of these bits as the new descriptor announces, and the old references. */
  ghost function Prepended(cell: CellView, wc: byte, address: seq<byte>): CellView
    requires |address| == 32 && Fits(cell)
  {
    var d2 := D2For(NewLength(cell));
    NewSizeFits(cell);
    CellView(cell.d1, d2, Pack(Raw(cell, wc, address)[..8 * DataSize(d2)]), cell.refs)
  }

  /** There are data, and they fit the 130-byte buffer with the address, the spill byte and the references. */
  predicate Fits(cell: CellView) {
    && cell.Shaped() && 1 <= |cell.data| <= 94
    && 2 + DataSize(D2For(NewLength(cell))) + |cell.refs| <= CELL_BUFFER_SIZE
  }

  lemma NewSizeFits(cell: CellView)
    requires 1 <= |cell.data| <= 94
    ensures var size := DataSize(D2For(NewLength(cell)));
            size <= |cell.data| + 34 && NewLength(cell) <= 8 * size < NewLength(cell) + 8
  {
    SizeFor(NewLength(cell));
  }

  /** For a tagged cell the result is the standard encoding of the address in front of the old bits. */
  lemma PrependIsExact(cell: CellView, wc: byte, address: seq<byte>)
    requires |address| == 32 && Fits(cell) && Tagged(cell)
    ensures Prepended(cell, wc, address) == WithBits(cell, AddressPrefix(wc, address) + Payload(cell.d2, cell.data))
  {
    hide BitsOf, Untagged, Pack, D2For, ToBits;
    var front, payload, data := AddressPrefix(wc, address), Payload(cell.d2, cell.data), BitsOf(cell.data);
    var size := DataSize(D2For(NewLength(cell)));
    TagSplits(data);
    NewSizeFits(cell);
    SizeFor(NewLength(cell));
    CutBehindTag(front, payload, data, 8 * size);
  }

  lemma CutBehindTag(front: seq<bool>, payload: seq<bool>, data: seq<bool>, n: nat)
    requires |payload| < |data| && data == payload + [true] + Zeros(|data| - |payload| - 1)
    requires n % 8 == 0 && |front + payload| <= n < |front + payload| + 8 && n <= |front| + |data| + 5
    ensures (front + data + Zeros(5))[..n] == Completed(front + payload)
  {
    var s, k := front + payload, |data| - |payload| - 1;
    CompletedBy(s, n - |s|);
    hide Completed;
    assert front + data + Zeros(5) == s + [true] + Zeros(k + 5);
  }

  lemma CompletedBy(bits: seq<bool>, r: nat)
    requires r < 8 && (|bits| + r) % 8 == 0
    ensures Completed(bits) == if r == 0 then bits else bits + [true] + Zeros(r - 1)
  {
    assert r == 0 <==> |bits| % 8 == 0;
    assert r > 0 ==> |bits| % 8 == 8 - r;
  }

  /** The new cell is 267 bits longer exactly when the old one was tagged. */
  lemma PrependExactOnlyIfTagged(cell: CellView, wc: byte, address: seq<byte>)
    requires |address| == 32 && Fits(cell)
    ensures var made := Prepended(cell, wc, address);
            |Payload(made.d2, made.data)| == |Payload(cell.d2, cell.data)| + ADDRESS_BITS <==> Tagged(cell)
  {
    hide BitsOf, Untagged, Pack, D2For, ToBits, HasTag;
    if Tagged(cell) {
      PrependIsExact(cell, wc, address);
      WithBitsDenotes(cell, AddressPrefix(wc, address) + Payload(cell.d2, cell.data));
    } else {
      PrependTooShort(cell, wc, address);
    }
  }

  lemma PrependTooShort(cell: CellView, wc: byte, address: seq<byte>)
    requires |address| == 32 && Fits(cell) && !Tagged(cell)
    ensures var made := Prepended(cell, wc, address); |Payload(made.d2, made.data)| < NewLength(cell)
  {
    hide BitsOf, Untagged, Pack, D2For, ToBits, HasTag;
    var front, data := AddressPrefix(wc, address), BitsOf(cell.data);
    var made := Prepended(cell, wc, address);
    NewSizeFits(cell);
    SizeFor(NewLength(cell));
    BitsOfPack(Raw(cell, wc, address)[..8 * DataSize(made.d2)]);
    if cell.d2 % 2 == 0 {
      assert Raw(cell, wc, address)[..8 * DataSize(made.d2)] == front + data + Zeros(5);
      UntaggedShorter(front + data, 5);
    } else {
      NoTagNoBits(data);
      assert data == Zeros(|data|) by { NoTagZeros(data); }
      assert Raw(cell, wc, address)[..8 * DataSize(made.d2)] == front + Zeros(5);
      UntaggedShorter(front, 5);
    }
  }

  /**
   What the new cell keeps behind the address: all but zeros of the old data, or all but the tag and
   zeros, if its bits fill whole bytes then.
   */
  lemma PrependKeeps(cell: CellView, wc: byte, address: seq<byte>)
    requires |address| == 32 && Fits(cell)
    ensures ADDRESS_BITS <= |BitsOf(Prepended(cell, wc, address).data)|
    ensures var data, kept := BitsOf(cell.data), BitsOf(Prepended(cell, wc, address).data)[ADDRESS_BITS..];
            if NewLength(cell) % 8 == 0 then Tagged(cell) && kept == Payload(cell.d2, cell.data)
            else |kept| <= |data| + 5 && kept + Zeros(|data| + 5 - |kept|) == data + Zeros(5)
  {
    hide BitsOf, Untagged, Pack, D2For, ToBits, HasTag;
    var front, payload, data := AddressPrefix(wc, address), Payload(cell.d2, cell.data), BitsOf(cell.data);
    var raw, n := Raw(cell, wc, address), 8 * DataSize(D2For(NewLength(cell)));
    NewSizeFits(cell);
    SizeFor(NewLength(cell));
    BitsOfPack(raw[..n]);
    assert raw == front + (data + Zeros(5));
    assert raw[..n][ADDRESS_BITS..] == (data + Zeros(5))[..n - ADDRESS_BITS];
    if Tagged(cell) {
      TagSplits(data);
    } else if cell.d2 % 2 == 1 {
      NoTagNoBits(data);
      NoTagZeros(data);
    }
    if NewLength(cell) % 8 != 0 {
      CutZeros(data + Zeros(5), n - ADDRESS_BITS);
    }
  }

  lemma CutZeros(bits: seq<bool>, n: nat)
    requires n <= |bits| && forall i | n <= i < |bits| :: !bits[i]
    ensures bits[..n] + Zeros(|bits| - n) == bits
  {}

  lemma NoTagZeros(bits: seq<bool>)
    requires !HasTag(bits)
    ensures bits == Zeros(|bits|)
  {}

  lemma UntaggedShorter(bits: seq<bool>, n: nat)
    requires bits != [] && bits[0]
    ensures |Untagged(bits + Zeros(n))| < |bits|
  {
    UntaggedZeros(bits, n);
    TagSplits(bits);
  }

  // The method.

  /** The first bits of a buffer. */
  ghost predicate StartsWith(buf: seq<byte>, bits: seq<bool>) {
    |bits| <= 8 * |buf| && BitsOf(buf)[..|bits|] == bits
  }

  /** A write at the end of known first bits makes them longer. */
  lemma Extended(before: seq<byte>, after: seq<byte>, bits: seq<bool>, input: seq<byte>)
    requires StartsWith(before, bits) && Written(before, after, |bits|, input, false)
    ensures StartsWith(after, bits + BitsOf(input) + Filler(8 - Shift(|bits|), false))
    ensures StartsWith(after, bits + BitsOf(input))
  {
    hide BitsOf, Shift, ByteOf, Filler;
    var end := ByteOf(|bits|) + |input| + 1;
    var all := bits + BitsOf(input) + Filler(8 - Shift(|bits|), false);
    BitsOfPrefix(after, end, 8 * end);
    assert BitsOf(after)[..8 * end] == all;
    assert all[..|bits + BitsOf(input)|] == bits + BitsOf(input);
    assert BitsOf(after)[..|bits + BitsOf(input)|] == BitsOf(after)[..8 * end][..|bits + BitsOf(input)|];
  }

  lemma PrefixByte()
    ensures ToBits(0x80, 8) == [true] + Zeros(7)
  {
    Pow2Values();
    ToBitsZero(7);
    ToBitsSplit(0x80, 1, 7);
    assert Shr(0x80, 7) == 1 by { TopBitSet(); }
  }

  lemma TopBitSet()
    ensures Shr(0x80, 7) == 1
  {}

  /** The slice over the new cell's data: the cursor is three bits into a byte, behind the bits written. */
  ghost predicate Writing(slice: SliceData, bits: seq<bool>)
    reads slice, slice.data
  {
    && slice.data.Length == slice.dataSizeBytes == CELL_BUFFER_SIZE && slice.base == 2
    && slice.windowEnd == 8 * CELL_BUFFER_SIZE
    && |bits| == slice.windowStart + 16 && slice.windowStart % 8 == 3
    && StartsWith(slice.data[..], bits)
  }

  method AppendBytes(slice: SliceData, input: seq<byte>, ghost bits: seq<bool>)
    requires Writing(slice, bits) && 1 <= |input| && |bits| + 8 * |input| + 5 <= 8 * CELL_BUFFER_SIZE
    modifies slice`windowStart, slice.data
    ensures Writing(slice, bits + BitsOf(input))
    ensures StartsWith(slice.data[..], bits + BitsOf(input) + Zeros(5))
  {
    hide BitsOf, StartsWith, Written;
    ghost var before := slice.data[..];
    WholeBytes(slice.windowStart, |input|);
    assert input[..|input|] == input;
    var _ := slice.Append(input, 8 * |input|, false);
    assert Filler(5, false) == Zeros(5);
    Extended(before, slice.data[..], bits, input);
  }

  lemma WholeBytes(offset: nat, n: nat)
    requires 1 <= n && offset % 8 == 3 && offset + 8 * n < 0x800
    ensures Bytes(8 * n) == n && Shifted(offset, 8 * n) && CursorAfter(offset, 8 * n, false) == offset + 8 * n
    ensures 8 * ByteOf(offset) + 3 == offset && Shift(offset + 16) == 3 && ByteOf(offset + 16) == ByteOf(offset) + 2
    ensures (offset + 8 * n) % 8 == 3
  {}

  /** The four appends. */
  method WriteData(buffer: array<byte>, cell: CellView, wc: byte, address: seq<byte>)
    requires buffer.Length == CELL_BUFFER_SIZE && |address| == 32 && 1 <= |cell.data| <= 94
    modifies buffer
    ensures StartsWith(buffer[..], old(BitsOf(buffer[..2])) + Raw(cell, wc, address))
  {
    ghost var front := BitsOf(buffer[..2]);
    var slice := new SliceData(buffer, 2, CELL_BUFFER_SIZE);
    var _ := slice.Append([0x80], 3, false);
    assert buffer[..][..2] == old(buffer[..2]);
    FirstByte(buffer[..], front);
    hide *;
    ghost var bits := front + [true, false, false];
    AppendBytes(slice, [wc], bits);
    ghost var bits2 := bits + BitsOf([wc]);
    AppendBytes(slice, address, bits2);
    ghost var bits3 := bits2 + BitsOf(address);
    AppendBytes(slice, cell.data, bits3);
    RawIs(front, cell, wc, address);
  }

  lemma FirstByte(buf: seq<byte>, front: seq<bool>)
    requires |buf| > 2 && BitsOf(buf[..2]) == front && buf[2] == 0x80
    ensures StartsWith(buf, front + [true, false, false])
  {
    hide BitsOf, ToBits;
    PrefixByte();
    PrefixBits(buf, 2, 3);
    assert ([true] + Zeros(7))[..3] == [true, false, false];
  }

  lemma RawIs(front: seq<bool>, cell: CellView, wc: byte, address: seq<byte>)
    requires |address| == 32
    ensures front + [true, false, false] + BitsOf([wc]) + BitsOf(address) + BitsOf(cell.data) + Zeros(5)
         == front + Raw(cell, wc, address)
  {
    hide BitsOf, ToBits;
    BitsOfSingle(wc);
    var a, b, c, d, z := [true, false, false], ToBits(wc, 8), BitsOf(address), BitsOf(cell.data), Zeros(5);
    assert front + a + b + c + d + z == front + (a + b + c + d + z);
  }

  /** Builds the new cell in the buffer and points the slot at it; the recorded length stays. */
  method PrependAddressToCell(buffer: array<byte>, cell: Cell, wc: byte, address: seq<byte>) returns (made: Cell)
    requires buffer.Length == CELL_BUFFER_SIZE && Loaded(cell) && cell.mem != buffer
    requires |address| == 32 && Fits(View(cell)) && |View(cell).refs| <= MAX_REFERENCES_COUNT
    modifies buffer
    ensures made == Cell(buffer, 0, cell.length)
    ensures Loaded(made) && View(made) == Prepended(old(View(cell)), wc, address)
  {
    var v := View(cell);
    var bitLen := BitLen(v);
    hide BitsOf, D2For, Raw, DataSize, Payload, RefsCount, Prepended, View;
    made := WriteCell(buffer, v, D2For(bitLen + ADDRESS_BITS), wc, address, cell.length);
  }

  method WriteCell(buffer: array<byte>, v: CellView, d2: byte, wc: byte, address: seq<byte>, length: nat)
    returns (made: Cell)
    requires buffer.Length == CELL_BUFFER_SIZE && |address| == 32
    requires Fits(v) && d2 == D2For(NewLength(v)) && 2 + DataSize(d2) + |v.refs| <= CELL_BUFFER_SIZE
    modifies buffer
    ensures made == Cell(buffer, 0, length)
    ensures Loaded(made) && View(made) == Prepended(v, wc, address)
  {
    buffer[0], buffer[1] := v.d1, d2;
    assert buffer[..2] == [v.d1, d2];
    hide BitsOf, D2For, Raw, DataSize, Payload, RefsCount, Copied, StartsWith, NewLength, Prepended;
    WriteData(buffer, v, wc, address);
    ghost var written := buffer[..];
    Copy(buffer, 2 + DataSize(d2), v.refs);
    made := Cell(buffer, 0, length);
    NewCell(buffer, written, v, wc, address, d2, made);
  }

  lemma NewCell(buffer: array<byte>, written: seq<byte>, v: CellView, wc: byte, address: seq<byte>, d2: byte,
                made: Cell)
    requires buffer.Length == CELL_BUFFER_SIZE == |written| && |address| == 32 && Fits(v) && d2 == D2For(NewLength(v))
    requires StartsWith(written, BitsOf([v.d1, d2]) + Raw(v, wc, address))
    requires Copied(written, buffer[..], 2 + DataSize(d2), v.refs)
    requires made.Cell? && made.mem == buffer && made.begin == 0
    ensures Loaded(made) && View(made) == Prepended(v, wc, address)
  {
    hide BitsOf, Pack, D2For, Raw, DataSize, RefsCount, Payload;
    NewSizeFits(v);
    var raw, descriptors, size := Raw(v, wc, address), [v.d1, d2], DataSize(d2);
    StartsTwice(written, descriptors, raw, 8 * size);
    assert written[..2] == descriptors;
    BitsOfPack(raw[..8 * size]);
    BitsOfInjective(written[2..2 + size], Pack(raw[..8 * size]));
    assert buffer[0] == buffer[..][0] == v.d1 && buffer[1] == buffer[..][1] == d2;
    assert buffer[2..2 + size] == buffer[..][2..2 + size] == written[2..2 + size];
    assert buffer[2 + size..2 + size + |v.refs|] == buffer[..][2 + size..2 + size + |v.refs|] == v.refs;
  }

  lemma StartsTwice(buf: seq<byte>, two: seq<byte>, raw: seq<bool>, n: nat)
    requires |two| == 2 && n % 8 == 0 && n <= |raw| && StartsWith(buf, BitsOf(two) + raw)
    ensures 2 + n / 8 <= |buf| && buf[..2] == two && BitsOf(buf[2..2 + n / 8]) == raw[..n]
  {
    hide BitsOf;
    var k := 2 + n / 8;
    var s := BitsOf(buf);
    assert s[..16] == s[..16 + |raw|][..16] == BitsOf(two);
    BitsOfPrefix(buf, 2, 16);
    BitsOfInjective(buf[..2], two);
    assert s[16..16 + n] == s[..16 + |raw|][16..16 + n] == (BitsOf(two) + raw)[16..16 + n] == raw[..n];
    BitsOfSlice(buf, 2, k);
  }

  /** The data of the new cell start with the address, and then with the old bits. */
  lemma PrependedStarts(cell: CellView, wc: byte, address: seq<byte>)
    requires |address| == 32 && Fits(cell)
    ensures var bits := BitsOf(Prepended(cell, wc, address).data);
            && NewLength(cell) <= |bits|
            && StartsStd(bits) && Num(bits[3..11]) == wc && bits[11..ADDRESS_BITS] == BitsOf(address)
            && bits[ADDRESS_BITS..NewLength(cell)] == Payload(cell.d2, cell.data)
  {
    hide BitsOf, ToBits, Num, Pack, D2For, Pow2;
    var raw, n := Raw(cell, wc, address), 8 * DataSize(D2For(NewLength(cell)));
    var payload, data := Payload(cell.d2, cell.data), BitsOf(cell.data);
    NewSizeFits(cell);
    BitsOfPack(raw[..n]);
    Pow2Values();
    NumToBitsSmall(wc, 8);
    var a, w, d := [true, false, false], ToBits(wc, 8), BitsOf(address);
    Parts(a, w, d, data, raw);
    assert payload == data[..|payload|];
    assert raw[..n][ADDRESS_BITS..NewLength(cell)] == raw[ADDRESS_BITS..NewLength(cell)];
    assert raw[..n][3..11] == raw[3..11] && raw[..n][11..ADDRESS_BITS] == raw[11..ADDRESS_BITS];
    assert raw[..n][..2] == raw[..2];
    assert raw[ADDRESS_BITS..NewLength(cell)] == raw[ADDRESS_BITS..ADDRESS_BITS + |data|][..|payload|];
  }

  lemma Parts(a: seq<bool>, w: seq<bool>, d: seq<bool>, data: seq<bool>, raw: seq<bool>)
    requires |a| == 3 && |w| == 8 && |d| == 256 && raw == a + w + d + data + Zeros(5)
    ensures raw[..2] == a[..2] && raw[3..11] == w && raw[11..267] == d && raw[267..267 + |data|] == data
  {}

  /** What was put in front is read back, and the cursor is left where the old bits start. */
  method ReadBack(made: Cell, out: array<byte>, ghost cell: CellView, ghost wc: byte, ghost address: seq<byte>)
    returns (r: Result<nat>, slice: SliceData)
    requires |address| == 32 && Fits(cell) && Loaded(made) && View(made) == Prepended(cell, wc, address)
    requires out.Length == 32 && out != made.mem
    modifies out
    ensures r == Success(wc) && out[..] == address
    ensures fresh(slice) && FromCell(slice) && slice.windowStart == ADDRESS_BITS
    ensures var payload := Payload(cell.d2, cell.data);
            |payload| <= |slice.Window()| && slice.Window()[..|payload|] == payload
  {
    hide BitsOf, AddressRead, Prepended, Payload, View, Fits;
    slice := SliceFromCell(made);
    ghost var bits, before := slice.Window(), out[..];
    r := DeserializeAddress(slice, out);
    ReadBackBits(cell, wc, address, bits, r, before, out[..], slice.windowStart);
  }

  lemma ReadBackBits(cell: CellView, wc: byte, address: seq<byte>, bits: seq<bool>, r: Result<nat>,
                     before: seq<byte>, after: seq<byte>, moved: int)
    requires |address| == 32 && Fits(cell) && bits == BitsOf(Prepended(cell, wc, address).data)
    requires AddressRead(bits, r, before, after, moved)
    ensures r == Success(wc) && after == address && moved == ADDRESS_BITS <= |bits|
    ensures var payload := Payload(cell.d2, cell.data);
            |payload| <= |bits[ADDRESS_BITS..]| && bits[ADDRESS_BITS..][..|payload|] == payload
  {
    hide BitsOf, Num, Pack, D2For, Prepended, Fits, Payload;
    PrependedStarts(cell, wc, address);
    BitsOfInjective(after, address);
    assert bits[ADDRESS_BITS..][..NewLength(cell) - ADDRESS_BITS] == bits[ADDRESS_BITS..NewLength(cell)];
  }
}
