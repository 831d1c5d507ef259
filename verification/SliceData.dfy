/** A window of bits over a byte buffer (src/slice_data.c). */
module Slices {
  import opened Bits
  import opened Outcomes
  import opened Seqs
  import opened SliceReader
  import opened SliceWriter

  /** The number of significant bits of n. */
  function BitLength(n: nat): nat {
    if n == 0 then 0 else 1 + BitLength(n / 2)
  }

  lemma {:induction false} BitLengthBounds(n: nat, k: nat)
    requires n < Pow2(k)
    requires k > 0 ==> Pow2(k - 1) <= n
    ensures BitLength(n) == k
  {
    if k == 1 {
      assert n == 1;
    } else if k > 1 {
      BitLengthBounds(n / 2, k - 1);
    }
  }

  /** The number of zeros in front of a 16-bit value (src/utils.c). */
  method LeadingZeros(value: uint16) returns (lz: nat)
    ensures lz <= 16 && lz == 16 - BitLength(value)
  {
    lz := 0;
    assert Pow2(16) == 0x1_0000 by { Pow2Values(); }
    while lz < 16
      invariant lz <= 16 && value < Pow2(16 - lz)
    {
      TopBit(value, lz);
      if Shl(16, value, lz) >= 0x8000 {
        break;
      }
      lz := lz + 1;
    }
    BitLengthBounds(value, 16 - lz);
  }

  lemma TopBit(value: nat, i: nat)
    requires i < 16 && value < Pow2(16 - i)
    ensures Shl(16, value, i) >= 0x8000 <==> value >= Pow2(15 - i)
  {
    hide Pow2;
    Pow2Values();
    assert Pow2(16 - i) * Pow2(i) == 0x1_0000 by { Pow2Add(16 - i, i); }
    assert Pow2(15 - i) * Pow2(i) == 0x8000 by { Pow2Add(15 - i, i); Pow2Half(); }
    var y := value * Pow2(i);
    assert 0 <= y < 0x1_0000 by { TimesBelow(value, Pow2(16 - i), Pow2(i)); }
    assert y % 0x1_0000 == y;
    if value >= Pow2(15 - i) {
      MulMonotone(Pow2(15 - i), value, Pow2(i));
    } else {
      TimesBelow(value, Pow2(15 - i), Pow2(i));
    }
  }

  lemma Pow2Half()
    ensures Pow2(15) == 0x8000
  {
    Pow2Values();
    assert Pow2(16) == 2 * Pow2(15);
  }

  lemma TimesBelow(a: nat, b: nat, c: nat)
    requires a < b && c > 0
    ensures 0 <= a * c < b * c
  {
    MulMonotone(a + 1, b, c);
    assert (a + 1) * c == a * c + c;
  }

  /**
   A slice points at dataSizeBytes bytes of a buffer, from position base on; its window is the
   part still to be read or written.
   */
  class SliceData {
    var data: array<byte>
    var base: nat
    var windowStart: uint16
    var windowEnd: uint16
    var dataSizeBytes: uint16

    constructor (data: array<byte>, base: nat, size: uint16)
      ensures this.data == data && this.base == base && dataSizeBytes == size
      ensures windowStart == 0 && windowEnd == 8 * size % 0x1_0000
    {
      this.data, this.base, dataSizeBytes := data, base, size;
      windowStart, windowEnd := 0, 8 * size % 0x1_0000;
    }

    /** The buffer is there, short enough for a byte index, and covers the window. */
    ghost predicate Valid()
      reads this
    {
      && base + dataSizeBytes <= data.Length
      && dataSizeBytes <= 0x100
      && windowEnd <= 8 * dataSizeBytes
    }

    function Buffer(): (buf: seq<byte>)
      requires Valid()
      reads this, data
      ensures |buf| == dataSizeBytes
    {
      data[base..base + dataSizeBytes]
    }

    /** The bits still in the window. */
    ghost function Window(): (bits: seq<bool>)
      requires Valid()
      reads this, data
      ensures |bits| == RemainingBits()
    {
      if windowStart > windowEnd then [] else BitsOf(Buffer())[windowStart..windowEnd]
    }

    function RemainingBits(): (n: nat)
      reads this
    {
      if windowStart > windowEnd then 0 else windowEnd - windowStart
    }

    predicate IsEmpty()
      reads this
    {
      windowStart >= windowEnd
    }

    method MoveBy(offset: nat) returns (r: Result<()>)
      requires Valid()
      modifies this`windowStart
      ensures r == Validate(old(windowStart) + offset <= windowEnd, CellUnderflow)
      ensures windowStart == old(windowStart) + if r.Success? then offset else 0
      ensures r.Success? ==> offset <= |old(Window())| && Window() == old(Window())[offset..]
    {
      hide BitsOf;
      var _ :- Validate(windowStart + offset <= windowEnd, CellUnderflow);
      ghost var before := Window();
      SliceInside(BitsOf(Buffer()), windowStart, windowEnd, before, offset, |before|, windowStart + offset, windowEnd);
      assert before[offset..|before|] == before[offset..];
      windowStart := windowStart + offset;
      r := Success(());
    }

    method Truncate(size: uint16) returns (r: Result<()>)
      modifies this`windowEnd
      ensures r == Validate(size <= old(windowEnd), CellUnderflow)
      ensures windowEnd == if r.Success? then size else old(windowEnd)
    {
      var _ :- Validate(size <= windowEnd, CellUnderflow);
      windowEnd := size;
      r := Success(());
    }

    /** One to eight bits, offset bits into the window; see ReadBits for what is above them. */
    function GetBits(offset: nat, bits: nat): (r: Result<byte>)
      requires Valid()
      reads this, data
    {
      if offset + bits > RemainingBits() then Failure(CellUnderflow)
      else if bits == 0 || bits > 8 then Failure(RangeCheck)
      else Success(ReadBits(Buffer(), windowStart + offset, bits))
    }

    /** A whole byte is never contaminated. */
    lemma GetByteExact(offset: nat, window: seq<bool>)
      requires Valid() && offset + 8 <= |window| <= RemainingBits() && window == Window()[..|window|]
      ensures GetBits(offset, 8).Success?
      ensures ToBits(GetBits(offset, 8).value, 8) == window[offset..offset + 8]
    {
      hide ToBits, BitsOf, ReadBits;
      var s, i := BitsOf(Buffer()), windowStart + offset;
      ReadBitsExact(Buffer(), i, 8);
      SliceInside(s, windowStart, windowEnd, Window(), offset, offset + 8, i, i + 8);
      SliceInside(Window(), 0, |window|, window, offset, offset + 8, offset, offset + 8);
      if !Straddles(i, 8) {
        assert Zeros(0) + s[i..i + 8] == s[i..i + 8];
      }
    }

    lemma GetTailExact(offset: nat, bits: nat, window: seq<bool>)
      requires Valid() && offset % 8 == 0 && 1 <= bits < 8
      requires offset + bits == |window| <= RemainingBits() && window == Window()[..|window|]
      ensures GetBits(offset, bits).Success?
      ensures EndsIn(ToBits(GetBits(offset, bits).value, 8), window[..offset], window[offset..])
    {
      hide ToBits, BitsOf, ReadBits, EndsIn;
      var i := windowStart + offset;
      SliceInside(BitsOf(Buffer()), windowStart, windowEnd, Window(), 0, |window|, windowStart, i + bits);
      PartialRead(Buffer(), windowStart, i, bits, window, offset);
    }

    /** The number the first bits of the window denote, for up to 64 of them. */
    ghost function Front(bits: nat): Result<nat>
      requires Valid()
      reads this, data
    {
      if bits > RemainingBits() then Failure(CellUnderflow)
      else if bits > 64 then Failure(RangeCheck)
      else Success(Num(Window()[..bits]))
    }

    method GetInt(bits: nat) returns (r: Result<nat>)
      requires Valid()
      ensures r == Front(bits)
    {
      var _ :- Validate(bits <= RemainingBits(), CellUnderflow);
      var _ :- Validate(bits <= 64, RangeCheck);
      if bits == 0 {
        return Success(0);
      }
      var value := Assemble(bits);
      r := Success(value);
    }

    /** The loop of GetInt: whole bytes first, then what is left over. */
    method Assemble(bits: nat) returns (value: nat)
      requires Valid() && 0 < bits <= 64 && bits <= RemainingBits()
      ensures value == Num(Window()[..bits])
    {
      hide *;
      value := 0;
      var bytes, remainder := bits / 8, bits % 8;
      ghost var window := Window()[..bits];
      HoldsNothing(window);
      for i := 0 to bytes
        invariant Holds(value, window, 8 * i)
      {
        GetByteExact(8 * i, window);
        var b := GetBits(8 * i, 8).value;
        HoldsByte(value, window, 8 * i, b);
        value := Or(64, value, Shl(64, b, 8 * (7 - i)));
      }
      if remainder != 0 {
        GetTailExact(8 * bytes, remainder, window);
        var b := GetBits(8 * bytes, remainder).value;
        HoldsTail(value, window, 8 * bytes, b);
        value := Or(64, value, Shl(64, b, 8 * (7 - bytes) + (8 - remainder)));
      }
      HoldsAll(value, window);
      value := Shr(value, 64 - bits);
    }

    /** What reading a number off the front of the window gives. */
    ghost function Next(bits: nat): Result<nat>
      requires Valid()
      reads this, data
    {
      if windowStart + bits > windowEnd then Failure(CellUnderflow) else Front(bits)
    }

    method GetNextInt(bits: nat) returns (r: Result<nat>)
      requires Valid()
      modifies this`windowStart
      ensures Valid() && r == old(Next(bits))
      ensures windowStart == old(windowStart) + if r.Success? then bits else 0
      ensures r.Success? ==> Window() == old(Window())[bits..]
    {
      hide Window;
      var value :- GetInt(bits);
      var _ :- MoveBy(bits);
      r := Success(value);
    }

    method GetNextBit() returns (r: Result<nat>)
      requires Valid()
      modifies this`windowStart
      ensures Valid() && r == old(Next(1))
      ensures windowStart == old(windowStart) + if r.Success? then 1 else 0
      ensures r.Success? ==> Window() == old(Window())[1..]
    {
      hide Window;
      var bit :- GetBits(0, 1);
      FirstBits(1);
      var _ := MoveBy(1);
      r := Success(bit);
    }

    method GetNextByte() returns (r: Result<nat>)
      requires Valid()
      modifies this`windowStart
      ensures Valid() && r == old(Next(8))
      ensures windowStart == old(windowStart) + if r.Success? then 8 else 0
      ensures r.Success? ==> Window() == old(Window())[8..]
    {
      hide Window;
      var value :- GetBits(0, 8);
      FirstBits(8);
      var _ := MoveBy(8);
      r := Success(value);
    }

    lemma FirstBits(bits: nat)
      requires Valid() && (bits == 1 || bits == 8) && bits <= RemainingBits()
      ensures GetBits(0, bits).Success? && GetBits(0, bits).value == Num(Window()[..bits])
    {
      hide ToBits, BitsOf, Num, ReadBits;
      var s := BitsOf(Buffer());
      ReadBitsValue(Buffer(), windowStart, bits);
      SliceInside(s, windowStart, windowEnd, Window(), 0, bits, windowStart, windowStart + bits);
    }

    lemma SingleBit(offset: nat)
      requires Valid() && offset < RemainingBits()
      ensures GetBits(offset, 1) == Success(if Window()[offset] then 1 else 0)
    {
      hide BitsOf, ReadBits;
      var s, i := BitsOf(Buffer()), windowStart + offset;
      ReadBitsValue(Buffer(), i, 1);
      assert s[i..i + 1] == [s[i]] == [Window()[offset]];
      NumOfBit(s[i..i + 1]);
    }

    method GetNextSize(maxValue: uint16) returns (r: Result<nat>)
      requires Valid()
      modifies this`windowStart
      ensures Valid()
      ensures r == if maxValue == 0 then Success(0) else old(Next(BitLength(maxValue)))
      ensures windowStart == old(windowStart) + if r.Success? then BitLength(maxValue) else 0
    {
      if maxValue == 0 {
        return Success(0);
      }
      var lz := LeadingZeros(maxValue);
      r := GetNextInt(16 - lz);
    }

    ghost predicate SameWindow(other: SliceData)
      requires Valid() && other.Valid()
      reads this, data, other, other.data
    {
      Window() == other.Window()
    }

    /** The first n bits of both windows are the same. */
    ghost predicate SameFront(other: SliceData, n: nat)
      requires Valid() && other.Valid()
      reads this, data, other, other.data
    {
      n <= |Window()| && n <= |other.Window()| && Window()[..n] == other.Window()[..n]
    }

    /** Windows of equal length are compared by number; the length is truncated to a byte. */
    method Equal(other: SliceData) returns (r: Result<bool>)
      requires Valid() && other.Valid()
      ensures RemainingBits() != other.RemainingBits() ==> r == Success(false)
      ensures RemainingBits() == other.RemainingBits() <= 64 ==> r == Success(SameWindow(other))
      ensures RemainingBits() == other.RemainingBits() > 64 ==>
                var n := ToByte(RemainingBits());
                r == if n > 64 then Failure(RangeCheck) else Success(SameFront(other, n))
    {
      if RemainingBits() != other.RemainingBits() {
        return Success(false);
      }
      WholeFront(other);
      hide *;
      r := EqualFronts(other, ToByte(RemainingBits()));
    }

    method EqualFronts(other: SliceData, n: nat) returns (r: Result<bool>)
      requires Valid() && other.Valid() && n <= RemainingBits() && n <= other.RemainingBits()
      ensures r == if n > 64 then Failure(RangeCheck) else Success(SameFront(other, n))
    {
      hide Num, BitsOf, Buffer, Window;
      var mine := GetInt(n);
      if mine.Failure? {
        return Failure(mine.error);
      }
      var theirs := other.GetInt(n);
      NumInjective(Window()[..n], other.Window()[..n]);
      r := Success(mine.value == theirs.value);
    }

    lemma WholeFront(other: SliceData)
      requires Valid() && other.Valid() && RemainingBits() == other.RemainingBits()
      ensures var n := ToByte(RemainingBits());
              && n <= RemainingBits()
              && (RemainingBits() <= 64 ==> n <= 64 && (SameFront(other, n) <==> SameWindow(other)))
    {
      hide Num, BitsOf, Buffer;
      var a, b, n := Window(), other.Window(), ToByte(RemainingBits());
      assert n == |a| ==> a[..n] == a && b[..n] == b;
    }

    /** Sets the first bytes of the buffer. */
    method Fill(value: byte, n: nat) returns (r: Result<()>)
      requires Valid()
      modifies data
      ensures r == Validate(dataSizeBytes >= n, InvalidData)
      ensures r.Success? ==>
                forall k | 0 <= k < data.Length :: data[k] == if base <= k < base + n then value else old(data[k])
    {
      var _ :- Validate(dataSizeBytes >= n, InvalidData);
      for i := 0 to n
        invariant forall k | 0 <= k < data.Length :: data[k] == if base <= k < base + i then value else old(data[k])
      {
        data[base + i] := value;
      }
      r := Success(());
    }

    /**
     Writes whole bytes at the cursor. On a byte boundary they are copied; a write of less than a
     byte copies one byte wherever the cursor is. Otherwise the bytes are written shifted, and the
     rest of the last byte is cleared or, with a tag, ends in the completion tag.
     */
    method Append(input: seq<byte>, bits: uint16, appendTag: bool) returns (r: Result<()>)
      requires windowEnd <= 8 * dataSizeBytes && |input| >= Bytes(bits) && |input| >= 1
      requires base + ByteOf(windowStart) + Bytes(bits) + 1 <= data.Length
      modifies data, this`windowStart
      ensures r.Success? <==>
                && Bytes(bits) <= 8 * old(RemainingBits())
                && (Shifted(old(windowStart), bits) ==> ByteOf(old(windowStart)) + Bytes(bits) <= dataSizeBytes)
      ensures r.Failure? ==> r.error == if Bytes(bits) > 8 * old(RemainingBits()) then CellUnderflow else InvalidData
      ensures r.Success? && !Shifted(old(windowStart), bits) ==>
                Copied(old(data[..]), data[..], base + ByteOf(old(windowStart)), input[..Copies(bits)])
      ensures r.Success? && Shifted(old(windowStart), bits) ==>
                Written(old(data[..]), data[..], 8 * base + old(windowStart), input[..Bytes(bits)], appendTag)
      ensures r.Success? ==> windowStart == CursorAfter(old(windowStart), bits, appendTag)
    {
      hide Bytes, ByteOf, Shift, Copied, Written, CursorAfter, ToUint16;
      if Bytes(bits) > 8 * RemainingBits() {
        return Failure(CellUnderflow);
      }
      if Shifted(windowStart, bits) {
        var shift, first := Shift(windowStart), ByteOf(windowStart);
        var ok := WriteShifted(data, base + first, dataSizeBytes - first, shift, input[..Bytes(bits)], appendTag);
        if !ok {
          return Failure(InvalidData);
        }
        assert 8 * (base + first) + shift == 8 * base + windowStart;
      } else {
        Copy(data, base + ByteOf(windowStart), input[..Copies(bits)]);
      }
      windowStart := CursorAfter(windowStart, bits, appendTag);
      r := Success(());
    }
  }
}
