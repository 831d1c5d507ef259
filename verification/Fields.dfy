/** Copying byte fields out of a slice at any bit position (src/message.c). */
module Fields {
  import opened Bits
  import opened Outcomes
  import opened Seqs
  import opened SliceWriter
  import opened Slices
  import opened Cells

  /** Byte k of the buffer shifted left, filled up from the byte behind it. */
  function Joined(buf: seq<byte>, k: nat, shift: nat): byte
    requires k + 1 < |buf| && shift < 8
  {
    OrByte8(ShlByte(buf[k], shift), ShrByte(buf[k + 1], 8 - shift))
  }

  lemma JoinedBits(buf: seq<byte>, k: nat, shift: nat, from: nat)
    requires k + 1 < |buf| && shift < 8 && from == 8 * k + shift
    ensures ToBits(Joined(buf, k, shift), 8) == BitsOf(buf)[from..from + 8]
  {
    hide ToBits, BitsOf, OrByte8, ShlByte, ShrByte;
    ByteJoin(buf[k], buf[k + 1], shift);
    TwoBytes(buf, k);
    Across(BitsOf(buf), 8 * k, ToBits(buf[k], 8), ToBits(buf[k + 1], 8), shift, from);
  }

  lemma Across(s: seq<bool>, i: nat, a: seq<bool>, b: seq<bool>, shift: nat, from: nat)
    requires |a| == |b| == 8 && shift < 8 && from == i + shift && i + 16 <= |s| && s[i..i + 16] == a + b
    ensures a[shift..] + b[..shift] == s[from..from + 8]
  {
    SliceOfSlice(s, i, i + 16, shift, shift + 8);
    assert (a + b)[shift..shift + 8] == a[shift..] + b[..shift];
  }

  lemma ByteJoin(hi: byte, lo: byte, shift: nat)
    requires shift < 8
    ensures ToBits(OrByte8(ShlByte(hi, shift), ShrByte(lo, 8 - shift)), 8)
            == ToBits(hi, 8)[shift..] + ToBits(lo, 8)[..shift]
  {
    hide ToBits, Pow2, Shl, Shr, Or, OrBits;
    ShlBits(8, hi, shift);
    assert ToBits(ShrByte(lo, 8 - shift), 8) == Zeros(8 - shift) + ToBits(lo, 8)[..shift] by {
      Pow2Values();
      ShrBits(8, lo, 8 - shift);
    }
    OrBitwise(8, ShlByte(hi, shift), ShrByte(lo, 8 - shift));
    OrParts(ToBits(hi, 8), ToBits(lo, 8), shift);
  }

  lemma OrParts(a: seq<bool>, b: seq<bool>, shift: nat)
    requires |a| == |b| == 8 && shift < 8
    ensures OrBits(a[shift..] + Zeros(shift), Zeros(8 - shift) + b[..shift]) == a[shift..] + b[..shift]
  {}

  lemma TwoBytes(buf: seq<byte>, k: nat)
    requires k + 1 < |buf|
    ensures BitsOf(buf)[8 * k..8 * k + 16] == ToBits(buf[k], 8) + ToBits(buf[k + 1], 8)
  {
    hide *;
    BitsOfByte(buf, k);
    ByteAt(buf, k + 1, 8 * k + 8, 8 * k + 16);
    SlicesJoin(BitsOf(buf), 8 * k, 8 * k + 8, 8 * k + 16);
  }

  lemma {:induction false} JoinedRun(buf: seq<byte>, out: seq<byte>, first: nat, shift: nat, from: nat, to: nat)
    requires first + |out| < |buf| && shift < 8
    requires from == 8 * first + shift && to == from + 8 * |out|
    requires forall m | 0 <= m < |out| :: out[m] == Joined(buf, first + m, shift)
    ensures to <= 8 * |buf| && BitsOf(out) == BitsOf(buf)[from..to]
  {
    hide ToBits, Joined, BitsOf;
    if out == [] {
      assert BitsOf([]) == [];
    } else {
      var n := |out| - 1;
      var front := out[..n];
      JoinedRun(buf, front, first, shift, from, to - 8);
      assert out[n] == Joined(buf, first + n, shift);
      JoinedStep(buf, out, n, first + n, shift, from, to - 8, to);
    }
  }

  lemma JoinedStep(buf: seq<byte>, out: seq<byte>, n: nat, k: nat, shift: nat, from: nat, mid: nat, to: nat)
    requires |out| == n + 1 && k + 1 < |buf| && shift < 8 && from <= mid == 8 * k + shift && to == mid + 8
    requires to <= 8 * |buf| && out[n] == Joined(buf, k, shift) && BitsOf(out[..n]) == BitsOf(buf)[from..mid]
    ensures BitsOf(out) == BitsOf(buf)[from..to]
  {
    hide ToBits, Joined, BitsOf;
    JoinedBits(buf, k, shift, mid);
    BitsOfSnoc(out, n, out[n]);
    assert out[n := out[n]][..n + 1] == out;
    SlicesJoin(BitsOf(buf), from, mid, to);
  }

  lemma JoinedWithNothing(b: byte, shift: nat)
    requires shift < 8
    ensures OrByte8(ShlByte(b, shift), ShrByte(0, 8 - shift)) == ShlByte(b, shift)
  {
    hide ToBits, Shl, Or, Pow2;
    var x := ShlByte(b, shift);
    Pow2Values();
    ToBitsZero(8);
    assert OrBits(ToBits(x, 8), Zeros(8)) == ToBits(x, 8);
    OrBitwise(8, x, 0);
    ToBitsInjective(8, Or(8, x, 0), x);
  }

  /**
   Copies outSize bytes out of the buffer at bit position offset. At the very end of the buffer
   the missing bits are zero.
   */
  method DeserializeArray(input: seq<byte>, offset: nat, out: array<byte>, outSize: nat) returns (r: Result<()>)
    requires outSize <= out.Length
    modifies out
    ensures r == Validate(outSize == 0 || ByteOf(offset) + outSize <= |input|, InvalidMessage)
    ensures r.Success? && outSize > 0 ==>
              BitsOf(out[..outSize]) == BitsOf(input + [0])[offset..offset + 8 * outSize]
    ensures out[outSize..] == old(out[outSize..])
  {
    hide Joined, OrByte8, ShlByte, ShrByte, ByteOf, Shift, BitsOf;
    var first, shift := ByteOf(offset), Shift(offset);
    ghost var padded := input + [0];
    for j := 0 to outSize
      invariant j > 0 ==> first + j <= |input|
      invariant forall m | 0 <= m < j - 1 || (0 <= m < j && j == outSize) :: out[m] == Joined(padded, first + m, shift)
      invariant 0 < j < outSize ==> out[j - 1] == ShlByte(input[first + j - 1], shift)
      invariant out[outSize..] == old(out[outSize..])
    {
      if first + j >= |input| {
        return Failure(InvalidMessage);
      }
      JoinedIs(input, first + j, shift);
      if j > 0 {
        JoinedIs(input, first + j - 1, shift);
      }
      out[j] := ShlByte(input[first + j], shift);
      if j == outSize - 1 && first + j + 1 < |input| {
        out[j] := OrByte8(out[j], ShrByte(input[first + j + 1], 8 - shift));
      }
      if j != 0 {
        out[j - 1] := OrByte8(out[j - 1], ShrByte(input[first + j], 8 - shift));
      }
    }
    if outSize > 0 {
      JoinedRun(padded, out[..outSize], first, shift, offset, offset + 8 * outSize);
    }
    r := Success(());
  }

  lemma JoinedIs(input: seq<byte>, k: nat, shift: nat)
    requires k < |input| && shift < 8
    ensures Joined(input + [0], k, shift)
         == if k + 1 < |input| then OrByte8(ShlByte(input[k], shift), ShrByte(input[k + 1], 8 - shift))
            else ShlByte(input[k], shift)
  {
    hide OrByte8, ShlByte, ShrByte;
    if k + 1 == |input| {
      JoinedWithNothing(input[k], shift);
    }
  }

  // Fields read at the cursor of a slice.

  /** A slice as it is made from a cell and moved since: its window reaches to the end of the cell's data. */
  ghost predicate FromCell(slice: SliceData)
    reads slice
  {
    slice.Valid() && slice.windowStart <= slice.windowEnd == 8 * slice.dataSizeBytes && slice.dataSizeBytes < 0x100
  }

  /** The slice over a cell's data, padding and completion tag included. */
  method SliceFromCell(cell: Cell) returns (slice: SliceData)
    requires Loaded(cell)
    ensures fresh(slice) && FromCell(slice) && slice.data == cell.mem && slice.windowStart == 0
    ensures slice.Window() == BitsOf(View(cell).data)
  {
    hide BitsOf;
    var size := DataSize(cell.mem[cell.begin + 1]);
    slice := new SliceData(cell.mem, cell.begin + 2, size);
    assert slice.Buffer() == View(cell).data;
    ghost var bits := BitsOf(slice.Buffer());
    assert bits[0..8 * size] == bits;
  }

  /** The error for a value of more bytes than are left: missing bytes are noticed before missing bits. */
  function ValueError(left: nat, length: nat): Error {
    if length > (left + 7) / 8 then InvalidMessage else CellUnderflow
  }

  /** Reads whole bytes, exactly when that many bits are left. */
  method DeserializeValue(slice: SliceData, value: array<byte>, length: nat) returns (r: Result<()>)
    requires FromCell(slice) && length <= value.Length && value != slice.data
    modifies slice`windowStart, value
    ensures FromCell(slice)
    ensures var left := |old(slice.Window())|; r == Validate(8 * length <= left, ValueError(left, length))
    ensures r.Success? ==> BitsOf(value[..length]) == old(slice.Window())[..8 * length]
    ensures slice.windowStart == old(slice.windowStart) + if r.Success? then 8 * length else 0
    ensures r.Success? ==> slice.Window() == old(slice.Window())[8 * length..]
    ensures value[length..] == old(value[length..])
  {
    hide BitsOf, ByteOf, Shift;
    ghost var before := slice.Window();
    ghost var start := slice.windowStart;
    var buf := slice.Buffer();
    BytesLeft(start, length, |buf|, |before|);
    if 8 * length <= |before| {
      WindowPrefix(buf, start, 8 * length, before);
    }
    var _ :- DeserializeArray(buf, slice.windowStart, value, length);
    assert 8 * length <= |before| ==> BitsOf(value[..length]) == before[..8 * length] by {
      if length == 0 {
        assert value[..0] == [];
      }
    }
    r := slice.MoveBy(8 * length);
  }

  lemma BytesLeft(start: nat, length: nat, size: nat, left: nat)
    requires start + left == 8 * size
    ensures 8 * length <= left ==> length == 0 || ByteOf(start) + length <= size
    ensures 8 * length > left ==> (ValueError(left, length) == InvalidMessage <==> ByteOf(start) + length > size)
  {}

  lemma WindowPrefix(buf: seq<byte>, start: nat, n: nat, window: seq<bool>)
    requires start + n <= 8 * |buf| && window == BitsOf(buf)[start..]
    ensures BitsOf(buf + [0])[start..start + n] == window[..n]
  {
    hide BitsOf;
    BitsOfAppend(buf, [0]);
    assert (BitsOf(buf) + BitsOf([0]))[start..start + n] == BitsOf(buf)[start..start + n];
  }

  /** addr_std, section 3.1.2 of the TON Blockchain paper, with the anycast bit skipped. */
  const ADDRESS_BITS := 267

  ghost predicate StartsStd(bits: seq<bool>) {
    |bits| >= 2 && bits[..2] == [true, false]
  }

  ghost predicate StartsNone(bits: seq<bool>) {
    |bits| >= 2 && bits[..2] == [false, false]
  }

  ghost function StdAddress(workchain: seq<bool>, address: seq<bool>): seq<bool> {
    [true, false, false] + workchain + address
  }

  lemma TypeBits(bits: seq<bool>)
    requires |bits| == 2
    ensures Num(bits) == 0 <==> bits == [false, false]
    ensures Num(bits) == 2 <==> bits == [true, false]
    ensures Num(bits) == 0 || Num(bits) == 2 <==> !bits[1]
  {
    assert bits[..1] == [bits[0]];
    assert Num(bits[..1]) == if bits[0] then 1 else 0;
  }

  /** The error for bits that are no address: none for the type, another type, too few behind the type. */
  ghost function AddressError(bits: seq<bool>): Error {
    if |bits| < 2 then CellUnderflow
    else if bits[1] then InvalidMessage
    else if |bits| < 11 then CellUnderflow
    else ValueError(|bits| - 11, 32)
  }

  /** The outcome of reading an address off the front of bits: the workchain, the address and the move of the cursor. */
  ghost predicate AddressRead(bits: seq<bool>, r: Result<nat>, before: seq<byte>, after: seq<byte>, moved: int) {
    && (r.Success? <==> StartsNone(bits) || (StartsStd(bits) && |bits| >= ADDRESS_BITS))
    && (r.Failure? ==> r.error == AddressError(bits))
    && (r.Success? && StartsStd(bits) ==>
          r.value == Num(bits[3..11]) && BitsOf(after) == bits[11..ADDRESS_BITS] && moved == ADDRESS_BITS)
    && (r.Success? && StartsNone(bits) ==> r.value == 0 && after == before && moved == 2)
  }

  /** Reads addr_none or addr_std; without an address neither the workchain nor the address is set. */
  method DeserializeAddress(slice: SliceData, address: array<byte>) returns (r: Result<nat>)
    requires FromCell(slice) && address.Length == 32 && address != slice.data
    modifies slice`windowStart, address
    ensures FromCell(slice) && slice.windowStart >= old(slice.windowStart)
    ensures var moved := slice.windowStart - old(slice.windowStart);
            AddressRead(old(slice.Window()), r, old(address[..]), address[..], moved)
    ensures r.Success? ==> slice.Window() == old(slice.Window())[slice.windowStart - old(slice.windowStart)..]
  {
    hide BitsOf, Num;
    ghost var bits := slice.Window();
    var addrType :- slice.GetNextInt(2);
    TypeBits(bits[..2]);
    var _ :- Validate(addrType == 0 || addrType == 2, InvalidMessage);
    if addrType == 0 {
      return Success(0);
    }
    r := DeserializeStdAddress(slice, address, bits);
  }

  method DeserializeStdAddress(slice: SliceData, address: array<byte>, ghost bits: seq<bool>) returns (r: Result<nat>)
    requires FromCell(slice) && address.Length == 32 && address != slice.data
    requires |bits| >= 2 && slice.Window() == bits[2..]
    modifies slice`windowStart, address
    ensures FromCell(slice)
    ensures r.Success? <==> |bits| >= ADDRESS_BITS
    ensures r.Failure? ==> r.error == if |bits| < 11 then CellUnderflow else ValueError(|bits| - 11, 32)
    ensures slice.windowStart >= old(slice.windowStart)
    ensures r.Success? ==>
              && r.value == Num(bits[3..11])
              && BitsOf(address[..]) == bits[11..ADDRESS_BITS]
              && slice.windowStart == old(slice.windowStart) + 265
              && slice.Window() == bits[ADDRESS_BITS..]
  {
    hide BitsOf, Num, SliceData.Buffer, SliceData.Window;
    var _ :- slice.GetNextBit();
    Moved(bits, 2, 1);
    var workchain :- slice.GetNextByte();
    Moved(bits, 3, 8);
    var _ :- DeserializeValue(slice, address, 32);
    if |bits| >= ADDRESS_BITS {
      Moved(bits, 11, 256);
    }
    assert address[..32] == address[..];
    r := Success(workchain);
  }

  lemma Moved(bits: seq<bool>, i: nat, k: nat)
    requires i + k <= |bits|
    ensures bits[i..][..k] == bits[i..i + k] && bits[i..][k..] == bits[i + k..]
  {}
}
