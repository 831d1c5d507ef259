/**
 The walk down a dictionary to the key of 64 zero bits (src/hashmap_label.c). Section 3.3 of the TVM
 whitepaper describes the labels; only the form of one repeated bit is accepted.
 */
module HashmapLabels {
  import opened Bits
  import opened Outcomes
  import opened Cells
  import opened Slices
  import opened Fields
  import opened BocContexts

  const KEY_BITS := 64

  function Repeat(bit: bool, n: nat): (bits: seq<bool>)
    ensures |bits| == n
  {
    if bit then seq(n, _ => true) else Zeros(n)
  }

  /** A label of length equal bits, read off size bits of the cell. */
  datatype Label = Label(bit: bool, length: nat, size: nat) {
    function Bits(): seq<bool> {
      Repeat(bit, length)
    }
  }

  /** The tag 11, the repeated bit, and the length in as many bits as max has. */
  function ParseLabel(bits: seq<bool>, max: nat): Result<Label> {
    if bits == [] then Failure(SliceIsEmpty)
    else if !bits[0] then Failure(WrongLabel)
    else if |bits| < 2 then Failure(CellUnderflow)
    else if !bits[1] then Failure(WrongLabel)
    else if |bits| < 3 + BitLength(max) then Failure(CellUnderflow)
    else
      var length := Num(bits[3..3 + BitLength(max)]);
      if length > KEY_BITS then Failure(RangeCheck)
      else Success(Label(bits[2], length, 3 + BitLength(max)))
  }

  /** A label is two ones, the repeated bit, and its length in the n bits that the longest one takes. */
  lemma LabelIsRead(bit: bool, length: nat, max: nat, n: nat, rest: seq<bool>)
    requires length <= 64 && length < Pow2(n) && max < Pow2(n) && (n == 0 || Pow2(n - 1) <= max)
    ensures ParseLabel([true, true, bit] + ToBits(length, n) + rest, max) == Success(Label(bit, length, 3 + n))
  {
    hide ToBits, Num, Pow2;
    BitLengthIs(max, n);
    NumToBitsSmall(length, n);
    var bits := [true, true, bit] + ToBits(length, n) + rest;
    assert bits[0] && bits[1] && bits[2] == bit && bits[3..3 + n] == ToBits(length, n);
  }

  lemma {:induction false} BitLengthIs(max: nat, n: nat)
    requires max < Pow2(n) && (n == 0 || Pow2(n - 1) <= max)
    ensures BitLength(max) == n
  {
    if n > 0 {
      assert Pow2(n) == 2 * Pow2(n - 1);
      assert n > 1 ==> Pow2(n - 1) == 2 * Pow2(n - 2);
      BitLengthIs(max / 2, n - 1);
    }
  }

  /** Labels that do not start with two ones are refused, and so are those longer than 64 bits. */
  lemma OtherLabels(bits: seq<bool>, max: nat)
    ensures |bits| >= 2 && !(bits[0] && bits[1]) ==> ParseLabel(bits, max) == Failure(WrongLabel)
    ensures ParseLabel(bits, max).Success? ==> ParseLabel(bits, max).value.length <= 64
  {
    hide Num;
  }

  datatype Leaf = Leaf(index: nat, labelSize: nat)

  /** The bits a label and a key of remaining zeros have in common. */
  function Common(edge: Label, remaining: nat): (n: nat)
    ensures n <= remaining
  {
    if edge.bit then 0 else if edge.length <= remaining then edge.length else remaining
  }

  /** The label is the whole rest of the key. */
  predicate Ends(edge: Label, remaining: nat) {
    edge.length == remaining && (!edge.bit || remaining == 0)
  }

  /** One step of the descent: the cell below, or nothing if this is the leaf. */
  function Below(cell: CellView, edge: Label, remaining: nat): (r: Result<nat>)
  {
    if Common(edge, remaining) == remaining then Failure(CellUnderflow)
    else if cell.refs == [] || |cell.refs| > MAX_REFERENCES_COUNT then Failure(InvalidData)
    else Success(cell.refs[0])
  }

  /** The descent from a cell with so many zero bits of the key left. */
  function Walk(cells: seq<CellView>, index: nat, remaining: nat): Result<Leaf>
    decreases remaining, 1
  {
    if index == 0 || index > MAX_CONTRACT_CELLS_COUNT then Failure(InvalidData)
    else if index >= |cells| then Failure(CellIsEmpty)
    else
      var edge :- ParseLabel(BitsOf(cells[index].data), remaining);
      WalkOn(cells, index, remaining, edge)
  }

  /** The descent behind the label of a cell. */
  function WalkOn(cells: seq<CellView>, index: nat, remaining: nat, edge: Label): Result<Leaf>
    requires index < |cells|
    decreases remaining, 0
  {
    if Ends(edge, remaining) then Success(Leaf(index, edge.size))
    else
      var next :- Below(cells[index], edge, remaining);
      Walk(cells, next, remaining - Common(edge, remaining) - 1)
  }

  // What the descent spells.

  /** The label of a visited cell. */
  ghost function LabelAt(cells: seq<CellView>, index: nat, remaining: nat): (edge: Label)
    requires Walk(cells, index, remaining).Success?
    ensures index < |cells| && WalkOn(cells, index, remaining, edge).Success?
    ensures !Ends(edge, remaining) ==>
              && Common(edge, remaining) < remaining && cells[index].refs != []
              && Walk(cells, cells[index].refs[0], remaining - Common(edge, remaining) - 1).Success?
  {
    hide ParseLabel, BitsOf;
    ParseLabel(BitsOf(cells[index].data), remaining).value
  }

  /** The labels and branch bits from a cell down to the leaf. */
  ghost function Spelled(cells: seq<CellView>, index: nat, remaining: nat): seq<bool>
    requires Walk(cells, index, remaining).Success?
    decreases remaining
  {
    hide LabelAt;
    var edge := LabelAt(cells, index, remaining);
    if Ends(edge, remaining) then edge.Bits()
    else edge.Bits() + [false]
         + Spelled(cells, cells[index].refs[0], remaining - Common(edge, remaining) - 1)
  }

  /** Every label on the way is all zeros, or empty. */
  ghost predicate LabelsZero(cells: seq<CellView>, index: nat, remaining: nat)
    requires Walk(cells, index, remaining).Success?
    decreases remaining
  {
    hide LabelAt;
    var edge := LabelAt(cells, index, remaining);
    && (!edge.bit || edge.length == 0)
    && (Ends(edge, remaining) || LabelsZero(cells, cells[index].refs[0], remaining - Common(edge, remaining) - 1))
  }

  /** The descent ends at the zero key exactly when all labels on the way are zero. */
  lemma {:induction false} WalkSpellsZeros(cells: seq<CellView>, index: nat, remaining: nat)
    requires Walk(cells, index, remaining).Success?
    ensures Spelled(cells, index, remaining) == Zeros(remaining) <==> LabelsZero(cells, index, remaining)
    decreases remaining
  {
    hide LabelAt, Walk, WalkOn, Ends, Common, Zeros;
    var edge := LabelAt(cells, index, remaining);
    var n := Common(edge, remaining);
    if Ends(edge, remaining) {
      SpelledLeaf(edge, remaining);
    } else {
      WalkSpellsZeros(cells, cells[index].refs[0], remaining - n - 1);
      SpelledAbove(edge, remaining, Spelled(cells, cells[index].refs[0], remaining - n - 1));
    }
  }

  lemma SpelledLeaf(edge: Label, remaining: nat)
    requires Ends(edge, remaining)
    ensures edge.Bits() == Zeros(remaining) && (!edge.bit || edge.length == 0)
  {}

  lemma SpelledAbove(edge: Label, remaining: nat, below: seq<bool>)
    requires !Ends(edge, remaining) && Common(edge, remaining) < remaining
    ensures edge.Bits() + [false] + below == Zeros(remaining)
            <==> (!edge.bit || edge.length == 0) && below == Zeros(remaining - Common(edge, remaining) - 1)
  {
    var n, all := Common(edge, remaining), edge.Bits() + [false] + below;
    if edge.bit && edge.length > 0 {
      assert all[0];
    } else {
      assert n == edge.length && edge.Bits() == Zeros(n);
      assert all[n + 1..] == below;
      assert Zeros(remaining)[n + 1..] == Zeros(remaining - n - 1);
      assert Zeros(remaining) == Zeros(n) + [false] + Zeros(remaining - n - 1);
    }
  }

  /**
   Nothing makes the descent stop at a label that is not on the way to the key: here it skips the
   label 1 and ends at a leaf whose key starts with a one and has 65 bits.
   */
  lemma WrongLabelIsSkipped(root: CellView, above: CellView, leaf: CellView)
    requires above.data == [0xE0, 0x40] && above.refs == [2] && leaf.data == [0xDF, 0x80]
    ensures var cells := [root, above, leaf];
            && Walk(cells, 1, KEY_BITS) == Success(Leaf(2, 9))
            && Spelled(cells, 1, KEY_BITS) == [true, false] + Zeros(63)
  {
    hide BitsOf, ParseLabel;
    var cells, first, second := [root, above, leaf], Label(true, 1, 10), Label(false, 63, 9);
    LabelOfAbove(above);
    LabelOfLeaf(leaf);
    assert WalkOn(cells, 2, 63, second) == Success(Leaf(2, 9));
    assert Below(above, first, KEY_BITS) == Success(2);
    assert LabelAt(cells, 1, KEY_BITS) == first && LabelAt(cells, 2, 63) == second;
    assert Spelled(cells, 2, 63) == Zeros(63);
    assert first.Bits() + [false] + Zeros(63) == [true, false] + Zeros(63);
  }

  lemma LabelOfAbove(cell: CellView)
    requires cell.data == [0xE0, 0x40]
    ensures ParseLabel(BitsOf(cell.data), 64) == Success(Label(true, 1, 10))
  {
    hide ToBits, BitsOf;
    var bits := BitsOf(cell.data);
    BitsOfTwo(0xE0, 0x40);
    BitsOfE0();
    BitsOf40();
    BitsOfOne();
    assert bits[3..10] == ToBits(1, 7);
    LabelLengthBits(1, 7);
  }

  lemma LabelOfLeaf(cell: CellView)
    requires cell.data == [0xDF, 0x80]
    ensures ParseLabel(BitsOf(cell.data), 63) == Success(Label(false, 63, 9))
  {
    hide ToBits, BitsOf;
    var bits := BitsOf(cell.data);
    BitsOfTwo(0xDF, 0x80);
    BitsOfDF();
    BitsOf80();
    BitsOf63();
    assert bits[3..9] == ToBits(63, 6);
    LabelLengthBits(63, 6);
  }

  lemma BitsOfE0()
    ensures ToBits(0xE0, 8) == [true, true, true, false, false, false, false, false]
  {}

  lemma BitsOf40()
    ensures ToBits(0x40, 8) == [false, true, false, false, false, false, false, false]
  {}

  lemma BitsOfOne()
    ensures ToBits(1, 7) == [false, false, false, false, false, false, true]
  {}

  lemma BitsOfDF()
    ensures ToBits(0xDF, 8) == [true, true, false, true, true, true, true, true]
  {}

  lemma BitsOf80()
    ensures ToBits(0x80, 8) == [true, false, false, false, false, false, false, false]
  {}

  lemma BitsOf63()
    ensures ToBits(63, 6) == [true, true, true, true, true, true]
  {}

  lemma BitsOfTwo(a: byte, b: byte)
    ensures BitsOf([a, b]) == ToBits(a, 8) + ToBits(b, 8)
  {
    assert [a, b][..1] == [a];
    BitsOfSingle(a);
  }

  lemma LabelLengthBits(length: nat, n: nat)
    requires (length == 1 && n == 7) || (length == 63 && n == 6)
    ensures Num(ToBits(length, n)) == length && BitLength(64) == 7 && BitLength(63) == 6
  {
    hide ToBits, Num;
    assert Pow2(6) == 64 && Pow2(7) == 128;
    NumToBitsSmall(length, n);
  }

  // The methods.

  /** A slice over eight bytes of its own, with nothing read or cut off yet. */
  ghost predicate EightBytes(s: SliceData)
    reads s
  {
    s.data.Length == 8 == s.dataSizeBytes && s.base == 0 && s.windowStart == 0 && s.windowEnd == KEY_BITS
  }

  /** Reads a label off the slice and writes its bits into another. */
  method GetLabel(max: nat, slice: SliceData, edge: SliceData) returns (r: Result<Label>)
    requires FromCell(slice) && EightBytes(edge) && edge.data != slice.data && edge != slice && max <= KEY_BITS
    modifies slice`windowStart, edge`windowEnd, edge.data
    ensures r == old(ParseLabel(slice.Window(), max))
    ensures r.Success? ==> edge.Valid() && edge.Window() == r.value.Bits()
    ensures r.Success? ==> slice.windowStart == old(slice.windowStart) + r.value.size
  {
    hide Num, BitsOf, BitLength;
    ghost var bits := slice.Window();
    if slice.IsEmpty() {
      return Failure(SliceIsEmpty);
    }
    var short := slice.GetNextBit();
    NumOfBit(bits[..1]);
    var _ :- Validate(short.value == 1, WrongLabel);
    var long :- slice.GetNextBit();
    NumOfBit(bits[1..][..1]);
    var _ :- Validate(long == 1, WrongLabel);
    assert bits[1..][1..] == bits[2..];
    r := GetLabelSame(max, slice, edge, bits);
  }

  method GetLabelSame(max: nat, slice: SliceData, edge: SliceData, ghost bits: seq<bool>) returns (r: Result<Label>)
    requires FromCell(slice) && EightBytes(edge) && edge.data != slice.data && edge != slice && max <= KEY_BITS
    requires |bits| >= 2 && bits[0] && bits[1] && slice.Window() == bits[2..]
    modifies slice`windowStart, edge`windowEnd, edge.data
    ensures r == ParseLabel(bits, max)
    ensures r.Success? ==> edge.Valid() && edge.Window() == r.value.Bits()
    ensures r.Success? ==> slice.windowStart == old(slice.windowStart) + r.value.size - 2
  {
    hide Num, BitsOf, BitLength;
    var bit :- slice.GetNextBit();
    NumOfBit(bits[2..][..1]);
    assert bits[2..][1..] == bits[3..];
    SizeBits(max);
    var length :- slice.GetNextSize(max);
    assert bits[3..][..BitLength(max)] == bits[3..3 + BitLength(max)];
    var _ :- Validate(length <= KEY_BITS, RangeCheck);
    SetLabel(edge, bit == 1, length);
    r := Success(Label(bit == 1, length, 3 + BitLength(max)));
  }

  lemma SizeBits(max: nat)
    requires max <= KEY_BITS
    ensures BitLength(max) <= 7
    ensures BitLength(max) == 0 <==> max == 0
    ensures Num([]) == 0
  {
    BitLengthMonotone(max, 6);
  }

  lemma BitLengthMonotone(n: nat, k: nat)
    requires n <= Pow2(k)
    ensures BitLength(n) <= k + 1
  {
    if k > 0 && n > 0 {
      BitLengthMonotone(n / 2, k - 1);
    }
  }

  /** Fills whole bytes and cuts the window to the length of the label. */
  method SetLabel(edge: SliceData, bit: bool, length: nat)
    requires EightBytes(edge) && length <= KEY_BITS
    modifies edge`windowEnd, edge.data
    ensures edge.Valid() && edge.Window() == Repeat(bit, length)
  {
    var value: byte := if bit then 0xff else 0;
    var lengthBytes := WholeBytesFor(length);
    var _ := edge.Fill(value, lengthBytes);
    var _ := edge.Truncate(length);
    FilledBits(edge.data[..], bit, lengthBytes, 8 * lengthBytes);
    assert edge.Buffer() == edge.data[..];
    hide BitsOf;
    assert BitsOf(edge.Buffer())[0..length] == BitsOf(edge.Buffer())[..8 * lengthBytes][..length]
            == Repeat(bit, length);
  }

  function WholeBytesFor(bits: nat): (n: nat)
    ensures bits <= KEY_BITS ==> n <= 8 && bits <= 8 * n
  {
    bits / 8 + if bits % 8 != 0 then 1 else 0
  }

  lemma {:induction false} FilledBits(buf: seq<byte>, bit: bool, n: nat, k: nat)
    requires n <= |buf| && k == 8 * n && forall j | 0 <= j < n :: buf[j] == if bit then 0xff else 0
    ensures BitsOf(buf)[..k] == Repeat(bit, k)
  {
    hide BitsOf, ToBits, Repeat;
    if n > 0 {
      FilledBits(buf, bit, n - 1, k - 8);
      ByteAt(buf, n - 1, k - 8, k);
      SameBits();
      MoreOfTheSame(BitsOf(buf), k - 8, k, bit);
    } else {
      assert BitsOf(buf)[..0] == [] == Repeat(bit, 0);
    }
  }

  lemma MoreOfTheSame(s: seq<bool>, i: nat, k: nat, bit: bool)
    requires k == i + 8 <= |s| && s[..i] == Repeat(bit, i) && s[i..k] == Repeat(bit, 8)
    ensures s[..k] == Repeat(bit, k)
  {
    assert s[..k] == s[..i] + s[i..k];
  }

  lemma SameBits()
    ensures ToBits(0xff, 8) == Repeat(true, 8) && ToBits(0, 8) == Repeat(false, 8)
  {
    ToBitsZero(8);
  }

  /** The rest of a key of zeros. */
  ghost predicate ZeroKey(key: SliceData, remaining: nat)
    reads key, key.data
  {
    && key.Valid() && key.data.Length == 8 == key.dataSizeBytes && key.base == 0
    && key.windowStart <= key.windowEnd && key.windowEnd - key.windowStart == remaining
    && forall i | 0 <= i < 8 :: key.data[i] == 0
  }

  lemma ZeroKeyWindow(key: SliceData, remaining: nat)
    requires ZeroKey(key, remaining)
    ensures key.Window() == Zeros(remaining)
  {
    hide BitsOf;
    FilledBits(key.Buffer(), false, 8, 64);
    var s := BitsOf(key.Buffer());
    assert s[..64] == s;
    assert s == Zeros(64);
  }

  /** How many bits a label and the key have in common. */
  method CommonPrefix(edge: SliceData, key: SliceData, ghost l: Label, ghost remaining: nat) returns (i: nat)
    requires edge.Valid() && edge.Window() == l.Bits() && ZeroKey(key, remaining)
    ensures i == Common(l, remaining)
  {
    ZeroKeyWindow(key, remaining);
    hide BitsOf;
    var maxPrefixLen :=
      if edge.RemainingBits() <= key.RemainingBits() then edge.RemainingBits() else key.RemainingBits();
    i := 0;
    while i < maxPrefixLen
      invariant i <= maxPrefixLen && (i > 0 ==> !l.bit)
    {
      edge.SingleBit(i);
      key.SingleBit(i);
      if edge.GetBits(i, 1) != key.GetBits(i, 1) {
        return;
      }
      i := i + 1;
    }
  }

  /** Descends to the cell that holds the key, and records where it is and how long its label is. */
  method PutToNode(boc: BocContext, index: nat, bitLen: nat, key: SliceData) returns (r: Result<()>)
    requires boc.Valid() && bitLen <= KEY_BITS && ZeroKey(key, bitLen)
    modifies key`windowStart, boc`publicKeyCellIndex, boc`publicKeyLabelSizeBits
    ensures boc.Valid()
    ensures Descended(boc, r, Walk(boc.table, index, bitLen))
    decreases bitLen
  {
    assert boc.cellsCount == |boc.table|;
    hide BocContext.Valid, BitsOf, ParseLabel, PointsAt, WalkOn, ZeroKey;
    if index == 0 || index > MAX_CONTRACT_CELLS_COUNT {
      return Failure(InvalidData);
    }
    if index >= boc.cellsCount {
      return Failure(CellIsEmpty);
    }
    var edge, l := LabelOf(boc, index, bitLen);
    if l.Failure? {
      return Failure(l.error);
    }
    r := LeafOrBelow(boc, index, bitLen, key, edge, l.value);
  }

  /** Records the leaf, or goes on below the cell. */
  method LeafOrBelow(boc: BocContext, index: nat, bitLen: nat, key: SliceData, edge: SliceData, l: Label)
    returns (r: Result<()>)
    requires boc.Valid() && index < |boc.table| && bitLen <= KEY_BITS && ZeroKey(key, bitLen)
    requires edge != key && edge.windowStart == 0 && edge.Valid() && edge.Window() == l.Bits()
    requires l.length <= KEY_BITS && l.size == 3 + BitLength(bitLen)
    modifies key`windowStart, edge`windowEnd, boc`publicKeyCellIndex, boc`publicKeyLabelSizeBits
    ensures boc.Valid()
    ensures Descended(boc, r, WalkOn(boc.table, index, bitLen, l))
    decreases bitLen, 1
  {
    EqualMeansEnds(edge, key, l, bitLen);
    var found := edge.Equal(key);
    hide BocContext.Valid, PointsAt, ZeroKey, Ends, SliceData.Window, BitLength;
    if found.value {
      RecordLeaf(boc, index, bitLen);
      return Success(());
    }
    r := Descend(boc, index, bitLen, key, edge, l);
  }

  /** Notes where the key ends and how many bits the label took: the two tag bits, the key bit and the length. */
  method RecordLeaf(boc: BocContext, index: nat, bitLen: uint16)
    requires boc.Valid()
    modifies boc`publicKeyCellIndex, boc`publicKeyLabelSizeBits
    ensures boc.Valid() && boc.publicKeyCellIndex == index
    ensures boc.publicKeyLabelSizeBits == 3 + BitLength(bitLen)
  {
    var lz := LeadingZeros(bitLen);
    boc.publicKeyLabelSizeBits := 2 + 1 + (16 - lz);
    boc.publicKeyCellIndex := index;
  }

  /** Reads the label of a cell. */
  method LabelOf(boc: BocContext, index: nat, bitLen: nat) returns (edge: SliceData, l: Result<Label>)
    requires boc.Valid() && index < boc.cellsCount && bitLen <= KEY_BITS
    ensures l == ParseLabel(BitsOf(boc.table[index].data), bitLen)
    ensures fresh(edge) && fresh(edge.data)
    ensures edge.windowStart == 0 && (l.Success? ==> edge.Valid() && edge.Window() == l.value.Bits())
  {
    hide BitsOf, ParseLabel;
    var slice := SliceFromCell(boc.cells[index]);
    var labelData := new byte[8](_ => 0);
    edge := new SliceData(labelData, 0, 8);
    l := GetLabel(bitLen, slice, edge);
  }

  lemma EqualMeansEnds(edge: SliceData, key: SliceData, l: Label, remaining: nat)
    requires edge.Valid() && edge.Window() == l.Bits() && l.length <= KEY_BITS
    requires ZeroKey(key, remaining) && remaining <= KEY_BITS
    ensures edge.RemainingBits() == l.length && key.RemainingBits() == remaining
    ensures l.length == remaining ==> (edge.SameWindow(key) <==> Ends(l, remaining))
  {
    ZeroKeyWindow(key, remaining);
    hide BitsOf;
    if l.length == remaining && l.bit && remaining > 0 {
      assert l.Bits()[0] && !Zeros(remaining)[0];
    }
    if l.length == remaining && Ends(l, remaining) {
      assert l.Bits() == Zeros(remaining);
    }
  }

  /** Goes on below a cell that is not the leaf. */
  method Descend(boc: BocContext, index: nat, bitLen: nat, key: SliceData, edge: SliceData, l: Label)
    returns (r: Result<()>)
    requires boc.Valid() && index < |boc.table| && bitLen <= KEY_BITS && ZeroKey(key, bitLen)
    requires edge != key && edge.windowStart == 0 && edge.Valid() && edge.Window() == l.Bits() && !Ends(l, bitLen)
    modifies key`windowStart, edge`windowEnd, boc`publicKeyCellIndex, boc`publicKeyLabelSizeBits
    ensures boc.Valid()
    ensures Descended(boc, r, WalkOn(boc.table, index, bitLen, l))
    decreases bitLen, 0
  {
    var refs := View(boc.cells[index]).refs;
    var next := SkipLabel(key, edge, bitLen, l);
    if next.Failure? {
      return Failure(next.error);
    }
    hide BocContext.Valid, PointsAt, ZeroKey, Walk, Common, SliceData.Window, SliceData.Valid;
    if refs == [] || |refs| > MAX_REFERENCES_COUNT || refs[0] == 0 || refs[0] > MAX_CONTRACT_CELLS_COUNT {
      WalkNowhere(boc.table, refs, next.value);
      return Failure(InvalidData);
    }
    r := PutToNode(boc, refs[0], next.value, key);
  }

  lemma WalkNowhere(cells: seq<CellView>, refs: seq<byte>, remaining: nat)
    requires refs != [] ==> refs[0] == 0 || refs[0] > MAX_CONTRACT_CELLS_COUNT || |refs| > MAX_REFERENCES_COUNT
    ensures refs != [] && |refs| <= MAX_REFERENCES_COUNT ==> Walk(cells, refs[0], remaining) == Failure(InvalidData)
  {}

  /** Moves the key behind the common prefix and the branch bit, which is 0; gives the bits left then. */
  method SkipLabel(key: SliceData, edge: SliceData, bitLen: nat, ghost l: Label) returns (r: Result<nat>)
    requires edge != key && edge.windowStart == 0 && edge.Valid() && edge.Window() == l.Bits() && bitLen <= KEY_BITS
    requires ZeroKey(key, bitLen)
    modifies key`windowStart, edge`windowEnd
    ensures r == if Common(l, bitLen) == bitLen then Failure(CellUnderflow) else Success(bitLen - Common(l, bitLen) - 1)
    ensures r.Success? ==> ZeroKey(key, r.value)
  {
    hide Common;
    var left := SkipPrefix(key, edge, bitLen, l);
    if left < 1 {
      return Failure(CellUnderflow);
    }
    ZeroKeyWindow(key, left);
    hide BitsOf, SliceData.Window;
    var next := key.GetNextBit();
    assert next == Success(0) by {
      assert Zeros(left)[..1] == [false];
      NumOfBit([false]);
    }
    r := Success(left - 1);
  }

  method SkipPrefix(key: SliceData, edge: SliceData, bitLen: nat, ghost l: Label) returns (left: nat)
    requires edge != key && edge.windowStart == 0 && edge.Valid() && edge.Window() == l.Bits() && bitLen <= KEY_BITS
    requires ZeroKey(key, bitLen)
    modifies key`windowStart, edge`windowEnd
    ensures left == bitLen - Common(l, bitLen) && ZeroKey(key, left)
  {
    hide BitsOf, SliceData.Window;
    var i := CommonPrefix(edge, key, l, bitLen);
    LabelLength(edge, l);
    var _ := key.MoveBy(i);
    var _ := edge.Truncate(i);
    left := bitLen - edge.RemainingBits();
  }

  lemma LabelLength(edge: SliceData, l: Label)
    requires edge.Valid() && edge.Window() == l.Bits()
    ensures edge.RemainingBits() == l.length
  {}

  /** The outcome of the descent is what has been recorded. */
  ghost predicate Descended(boc: BocContext, r: Result<()>, leaf: Result<Leaf>)
    reads boc
  {
    if leaf.Success?
    then r.Success? && boc.publicKeyCellIndex == leaf.value.index && boc.publicKeyLabelSizeBits == leaf.value.labelSize
    else r == Failure(leaf.error)
  }
}
