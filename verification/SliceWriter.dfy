/** Writing bytes into a buffer at any bit position (src/slice_data.c). */
module SliceWriter {
  import opened Bits
  import opened Seqs

  // C operators on bytes.

  function ShrByte(b: byte, k: nat): byte {
    Shr(b, k)
  }

  function ShlByte(b: byte, k: nat): byte
    requires k <= 8
  {
    Pow2Values();
    ShlBits(8, b, k);
    Shl(8, b, k)
  }

  function OrByte8(a: byte, b: byte): byte {
    Pow2Values();
    OrBitwise(8, a, b);
    Or(8, a, b)
  }

  function ToUint16(x: nat): (r: uint16)
    ensures x < 0x1_0000 ==> r == x
  {
    x % 0x1_0000
  }

  /** The high bits of the byte the first shifted byte lands in. */
  function KeepTop(b: byte, shift: nat): byte
    requires shift <= 8
  {
    ShlByte(ShrByte(b, 8 - shift), 8 - shift)
  }

  /** The last byte with a completion tag behind its shift data bits. */
  function WithTag(prev: byte, shift: nat): byte
    requires 0 < shift < 8
  {
    var down := if shift != 7 then ShrByte(prev, 7 - shift) else prev;
    var tagged := OrByte8(down, 1);
    if shift != 7 then ShlByte(tagged, 7 - shift) else tagged
  }

  function LastByte(prev: byte, shift: nat, tag: bool): byte
    requires 0 < shift < 8
  {
    if tag then WithTag(prev, shift) else prev
  }

  // What an append does to the buffer.

  function Bytes(bits: uint16): (n: nat)
    ensures n < 0x100
  {
    ToByte(bits / 8)
  }

  function Copies(bits: uint16): (n: nat)
  {
    if Bytes(bits) == 0 then 1 else Bytes(bits)
  }

  function ByteOf(offset: nat): nat {
    offset / 8
  }

  function Shift(offset: nat): (shift: nat)
    ensures shift < 8 && 8 * ByteOf(offset) + shift == offset
  {
    offset % 8
  }

  predicate Shifted(offset: nat, bits: uint16) {
    Shift(offset) != 0 && Bytes(bits) != 0
  }

  /** Where the cursor is left: with a tag, on the next byte boundary. */
  function CursorAfter(offset: nat, bits: uint16, tag: bool): uint16 {
    ToUint16(offset + bits + if Shifted(offset, bits) && tag then 8 - Shift(offset) else 0)
  }

  ghost predicate Copied(before: seq<byte>, after: seq<byte>, at: nat, input: seq<byte>) {
    && at + |input| <= |before|
    && after == before[..at] + input + before[at + |input|..]
  }

  /** The bits that fill up the last byte. */
  function Filler(n: nat, tag: bool): (bits: seq<bool>)
    requires n > 0
    ensures |bits| == n
  {
    [tag] + Zeros(n - 1)
  }

  /** The input written at bit position p, and the byte it ends in filled up. */
  ghost predicate Written(before: seq<byte>, after: seq<byte>, p: nat, input: seq<byte>, tag: bool) {
    var end := ByteOf(p) + |input| + 1;
    && end <= |before| == |after|
    && BitsOf(after[..end]) == BitsOf(before)[..p] + BitsOf(input) + Filler(8 - Shift(p), tag)
    && after[end..] == before[end..]
  }

  method Copy(dst: array<byte>, at: nat, src: seq<byte>)
    requires at + |src| <= dst.Length
    modifies dst
    ensures Copied(old(dst[..]), dst[..], at, src)
  {
    ghost var before := dst[..];
    for i := 0 to |src|
      invariant dst[..] == before[..at] + src[..i] + before[at + i..]
    {
      ghost var now := dst[..];
      dst[at + i] := src[i];
      assert dst[..] == now[at + i := src[i]];
      CopyStep(before, now, at, src, i);
    }
    assert src[..|src|] == src;
  }

  lemma CopyStep(before: seq<byte>, now: seq<byte>, at: nat, src: seq<byte>, i: nat)
    requires at + |src| <= |before| && i < |src|
    requires now == before[..at] + src[..i] + before[at + i..]
    ensures now[at + i := src[i]] == before[..at] + src[..i + 1] + before[at + i + 1..]
  {}

  // The shifted loop: the byte in hand holds the last bits of what has been written so far.

  function Carry(prev: byte, shift: nat): (bits: seq<bool>)
    requires shift <= 8
  {
    ToBits(prev, 8)[..shift]
  }

  ghost predicate Carried(before: seq<byte>, now: seq<byte>, at: nat, shift: nat, input: seq<byte>, j: nat, prev: byte)
  {
    && |now| == |before| && at + j < |now| && j <= |input| && 0 < shift < 8
    && ToBits(prev, 8) == Carry(prev, shift) + Zeros(8 - shift)
    && BitsOf(now[..at + j]) + Carry(prev, shift) == BitsOf(before)[..8 * at + shift] + BitsOf(input[..j])
    && now[at + j..] == before[at + j..]
  }

  lemma FirstCarry(before: seq<byte>, at: nat, shift: nat, input: seq<byte>)
    requires at < |before| && 0 < shift < 8
    ensures Carried(before, before, at, shift, input, 0, KeepTop(before[at], shift))
  {
    hide ToBits, BitsOf, KeepTop;
    KeepTopBits(before[at], shift);
    PrefixBits(before, at, shift);
    assert BitsOf([]) == [];
    assert input[..0] == [];
  }

  lemma KeepTopBits(b: byte, shift: nat)
    requires 0 < shift < 8
    ensures ToBits(KeepTop(b, shift), 8) == ToBits(b, 8)[..shift] + Zeros(8 - shift)
  {
    hide ToBits, Shr, Shl, Pow2;
    var x, k := ShrByte(b, 8 - shift), 8 - shift;
    assert ToBits(x, 8) == Zeros(k) + ToBits(b, 8)[..8 - k] by { Pow2Values(); ShrBits(8, b, k); }
    assert ToBits(ShlByte(x, k), 8) == ToBits(x, 8)[k..] + Zeros(k) by { ShlBits(8, x, k); }
  }

  lemma PrefixBits(buf: seq<byte>, at: nat, r: nat)
    requires at < |buf| && r <= 8
    ensures BitsOf(buf)[..8 * at + r] == BitsOf(buf[..at]) + ToBits(buf[at], 8)[..r]
  {
    hide ToBits;
    var front := buf[..at + 1];
    assert front[..|front| - 1] == buf[..at];
    BitsOfPrefix(buf, at + 1, 8 * at + 8);
    TakeMore(BitsOf(buf), BitsOf(buf[..at]), ToBits(buf[at], 8), 8 * at, r);
  }

  lemma BitsOfPrefix(buf: seq<byte>, n: nat, k: nat)
    requires n <= |buf| && k == 8 * n
    ensures BitsOf(buf)[..k] == BitsOf(buf[..n])
  {
    hide *;
    assert buf == buf[..n] + buf[n..];
    BitsOfAppend(buf[..n], buf[n..]);
  }

  lemma TakeMore(s: seq<bool>, a: seq<bool>, t: seq<bool>, i: nat, r: nat)
    requires |a| == i && r <= |t| && i + |t| <= |s| && s[..i + |t|] == a + t
    ensures s[..i + r] == a + t[..r]
  {
    assert s[..i + r] == s[..i + |t|][..i + r];
  }

  lemma BitsOfSnoc(buf: seq<byte>, n: nat, b: byte)
    requires n < |buf|
    ensures BitsOf(buf[n := b][..n + 1]) == BitsOf(buf[..n]) + ToBits(b, 8)
  {
    var front := buf[n := b][..n + 1];
    assert front[..|front| - 1] == buf[..n];
  }

  /** One turn of the loop. */
  lemma NextCarry(before: seq<byte>, now: seq<byte>, at: nat, shift: nat, input: seq<byte>, j: nat, prev: byte)
    requires Carried(before, now, at, shift, input, j, prev) && j < |input| && at + j + 1 < |now|
    ensures Carried(before, now[at + j := OrByte8(prev, ShrByte(input[j], shift))], at, shift, input, j + 1,
                    ShlByte(input[j], 8 - shift))
  {
    hide ToBits, BitsOf, Zeros, OrByte8, ShrByte, ShlByte;
    var t, x, next := ToBits(input[j], 8), OrByte8(prev, ShrByte(input[j], shift)), ShlByte(input[j], 8 - shift);
    ShiftedByte(prev, input[j], shift);
    BitsOfSnoc(now, at + j, x);
    assert BitsOf(input[..j + 1]) == BitsOf(input[..j]) + t by {
      BitsOfSnoc(input, j, input[j]);
      assert input[j := input[j]] == input;
    }
    Regroup(BitsOf(now[..at + j]), Carry(prev, shift), BitsOf(before)[..8 * at + shift], BitsOf(input[..j]), t,
            8 - shift);
    assert now[at + j := x][at + j + 1..] == now[at + j..][1..] == before[at + j..][1..] == before[at + (j + 1)..];
  }

  /** The byte written and the byte carried on. */
  lemma ShiftedByte(prev: byte, b: byte, shift: nat)
    requires 0 < shift < 8 && ToBits(prev, 8) == Carry(prev, shift) + Zeros(8 - shift)
    ensures ToBits(OrByte8(prev, ShrByte(b, shift)), 8) == Carry(prev, shift) + ToBits(b, 8)[..8 - shift]
    ensures Carry(ShlByte(b, 8 - shift), shift) == ToBits(b, 8)[8 - shift..]
    ensures ToBits(ShlByte(b, 8 - shift), 8) == ToBits(b, 8)[8 - shift..] + Zeros(8 - shift)
  {
    hide ToBits, Shr, Shl, Or, Pow2;
    Pow2Values();
    ShrBits(8, b, shift);
    ShlBits(8, b, 8 - shift);
    OrBitwise(8, prev, ShrByte(b, shift));
    assert OrBits(Carry(prev, shift) + Zeros(8 - shift), Zeros(shift) + ToBits(b, 8)[..8 - shift])
        == Carry(prev, shift) + ToBits(b, 8)[..8 - shift];
  }

  lemma Regroup(a: seq<bool>, c: seq<bool>, p: seq<bool>, i: seq<bool>, t: seq<bool>, k: nat)
    requires a + c == p + i && k <= |t|
    ensures a + (c + t[..k]) + t[k..] == p + (i + t)
  {
    assert a + (c + t[..k]) + t[k..] == a + c + t;
  }

  lemma TaggedBits(prev: byte, shift: nat)
    requires 0 < shift < 8 && ToBits(prev, 8) == Carry(prev, shift) + Zeros(8 - shift)
    ensures ToBits(WithTag(prev, shift), 8) == Carry(prev, shift) + Filler(8 - shift, true)
  {
    hide ToBits, Shr, Shl, Or, Pow2;
    var k := 7 - shift;
    var c := Carry(prev, shift);
    var down := ShrByte(prev, k);
    assert prev == ShrByte(prev, 0) by { ShiftByNothing(prev); }
    assert ToBits(down, 8) == Zeros(k) + c + [false] by {
      Pow2Values();
      ShrBits(8, prev, k);
      assert (c + Zeros(8 - shift))[..8 - k] == c + [false];
    }
    assert ToBits(1, 8) == Zeros(7) + [true] by { OneBits(); }
    var tagged := OrByte8(down, 1);
    assert ToBits(tagged, 8) == Zeros(k) + c + [true] by {
      OrBitwise(8, down, 1);
      assert OrBits(Zeros(k) + c + [false], Zeros(7) + [true]) == Zeros(k) + c + [true];
    }
    assert tagged == ShlByte(tagged, 0) by { ShiftByNothing(tagged); }
    assert ToBits(ShlByte(tagged, k), 8) == c + [true] + Zeros(k) by {
      ShlBits(8, tagged, k);
      assert (Zeros(k) + c + [true])[k..] == c + [true];
    }
    assert c + [true] + Zeros(k) == c + Filler(8 - shift, true);
  }

  lemma ShiftByNothing(b: byte)
    ensures ShrByte(b, 0) == b == ShlByte(b, 0)
  {
    Pow2Values();
    DivModUnique(b * Pow2(0), Pow2(8), 0, b);
  }

  lemma OneBits()
    ensures ToBits(1, 8) == Zeros(7) + [true]
  {
    ToBitsZero(7);
  }

  lemma FinishCarry(before: seq<byte>, now: seq<byte>, at: nat, shift: nat, input: seq<byte>, prev: byte, tag: bool,
                    p: nat)
    requires Carried(before, now, at, shift, input, |input|, prev) && p == 8 * at + shift
    ensures Written(before, now[at + |input| := LastByte(prev, shift, tag)], p, input, tag)
  {
    hide ToBits, BitsOf, WithTag;
    var n, last := at + |input|, LastByte(prev, shift, tag);
    assert input[..|input|] == input;
    assert ToBits(last, 8) == Carry(prev, shift) + Filler(8 - shift, tag) by {
      if tag {
        TaggedBits(prev, shift);
      } else {
        assert Filler(8 - shift, false) == Zeros(8 - shift);
      }
    }
    BitsOfSnoc(now, n, last);
    AppendAssoc(BitsOf(now[..n]), Carry(prev, shift), Filler(8 - shift, tag));
    assert now[n := last][n + 1..] == now[n..][1..] == before[n..][1..] == before[n + 1..];
  }

  /** Writes the input shift bits into byte at of the buffer, of which room bytes are left. */
  method WriteShifted(data: array<byte>, at: nat, room: int, shift: nat, input: seq<byte>, tag: bool) returns (ok: bool)
    requires 0 < shift < 8 && 1 <= |input| && at + |input| < data.Length
    modifies data
    ensures ok <==> |input| <= room
    ensures ok ==> Written(old(data[..]), data[..], 8 * at + shift, input, tag)
  {
    hide *;
    ghost var before := data[..];
    var prev := KeepTop(data[at], shift);
    FirstCarry(before, at, shift, input);
    for j := 0 to |input|
      invariant Carried(before, data[..], at, shift, input, j, prev)
      invariant j > 0 ==> j <= room
    {
      if j >= room {
        return false;
      }
      NextCarry(before, data[..], at, shift, input, j, prev);
      Store(data, at + j, OrByte8(prev, ShrByte(input[j], shift)));
      prev := ShlByte(input[j], 8 - shift);
    }
    FinishCarry(before, data[..], at, shift, input, prev, tag, 8 * at + shift);
    Store(data, at + |input|, LastByte(prev, shift, tag));
    ok := true;
  }

  method Store(data: array<byte>, at: nat, b: byte)
    requires at < data.Length
    modifies data
    ensures data[..] == old(data[..])[at := b]
  {
    data[at] := b;
  }
}
