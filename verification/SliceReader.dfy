/** Reading numbers out of a byte buffer at any bit position (src/slice_data.c). */
module SliceReader {
  import opened Bits
  import opened Seqs

  // Reading up to eight bits.

  predicate Straddles(index: nat, bits: nat) {
    index % 8 != 0 && index % 8 + bits > 8
  }

  /** The 16-bit word the two bytes under a straddling read make up. */
  function Word(buf: seq<byte>, q: nat): nat {
    var hi := if q < |buf| then Shl(16, buf[q], 8) else 0;
    var lo := if q + 1 < |buf| then buf[q + 1] else 0;
    Or(16, hi, lo)
  }

  /** A read of 1 to 8 bits, r bits into byte q. A straddling read is not masked. */
  function ReadAt(buf: seq<byte>, q: nat, r: nat, bits: nat): byte
    requires r < 8 && 1 <= bits <= 8 && 8 * q + r + bits <= 8 * |buf|
  {
    if r == 0 then
      Shr(buf[q], 8 - r - bits)
    else if bits <= 8 - r then
      MaskFits(Shr(buf[q], 8 - r - bits), bits);
      Shr(buf[q], 8 - r - bits) % Pow2(bits)
    else
      Shr(Shr(Word(buf, q), 8 - r), 8 - bits) % 0x100
  }

  function ReadBits(buf: seq<byte>, index: nat, bits: nat): byte
    requires 1 <= bits <= 8 && index + bits <= 8 * |buf|
  {
    ReadAt(buf, index / 8, index % 8, bits)
  }

  lemma MaskFits(x: nat, bits: nat)
    requires bits <= 8
    ensures x % Pow2(bits) < 0x100
  {
    Pow2Values();
    Pow2Add(bits, 8 - bits);
    MulMonotone(1, Pow2(8 - bits), Pow2(bits));
    DivMod(x, Pow2(bits));
  }

  lemma OrDisjoint(a: seq<bool>, b: seq<bool>)
    ensures OrBits(a + Zeros(|b|), Zeros(|a|) + b) == a + b
  {}

  /** Two bytes joined to a word. */
  lemma JoinBytes(hi: byte, lo: byte)
    ensures var w := Or(16, Shl(16, hi, 8), lo);
            w < Pow2(16) && ToBits(w, 16) == ToBits(hi, 8) + ToBits(lo, 8)
  {
    Pow2Values();
    ShlBits(16, hi, 8);
    ToBitsSplit(hi, 8, 8);
    ZeroExtend(lo, 8, 8);
    OrBitwise(16, Shl(16, hi, 8), lo);
    OrDisjoint(ToBits(hi, 8), ToBits(lo, 8));
  }

  lemma WordBits(buf: seq<byte>, q: nat)
    requires q + 1 < |buf|
    ensures ToBits(Word(buf, q), 16) == BitsOf(buf)[8 * q..8 * q + 16]
    ensures Word(buf, q) < Pow2(16)
  {
    hide ToBits, BitsOf, Pow2, Num, Or, Shl;
    JoinBytes(buf[q], buf[q + 1]);
    BitsOfByte(buf, q);
    assert BitsOf(buf)[8 * q + 8..8 * q + 16] == ToBits(buf[q + 1], 8) by { BitsOfByte(buf, q + 1); }
    SlicesJoin(BitsOf(buf), 8 * q, 8 * q + 8, 8 * q + 16);
  }

  /** A masked read inside one byte. */
  lemma MaskedBits(b: byte, r: nat, bits: nat)
    requires 1 <= bits && r + bits <= 8
    ensures ToBits(Shr(b, 8 - r - bits) % Pow2(bits), 8) == Zeros(8 - bits) + ToBits(b, 8)[r..r + bits]
  {
    hide ToBits, Num, Pow2, Shr;
    var k := 8 - r - bits;
    var x := Shr(b, k);
    var t := ToBits(b, 8);
    assert ToBits(x, 8) == Zeros(k) + t[..8 - k] by { Pow2Values(); ShrBits(8, b, k); }
    assert ToBits(x, 8) == ToBits(Shr(x, bits), 8 - bits) + ToBits(x, bits) by { ToBitsSplit(x, 8 - bits, bits); }
    assert ToBits(x, bits) == t[r..r + bits] by {
      LastOf(Zeros(k), t, r, bits, ToBits(Shr(x, bits), 8 - bits), ToBits(x, bits));
    }
    DivMod(x, Pow2(bits));
    ToBitsMod(x, bits);
    ZeroExtend(x % Pow2(bits), 8 - bits, bits);
  }

  lemma LastOf(z: seq<bool>, t: seq<bool>, r: nat, bits: nat, hi: seq<bool>, lo: seq<bool>)
    requires |z| == 8 - r - bits && |t| == 8 && r + bits <= 8 && |lo| == bits
    requires z + t[..8 - |z|] == hi + lo
    ensures lo == t[r..r + bits]
  {
    assert lo == (hi + lo)[8 - bits..];
  }

  /** A word shifted down twice and truncated to a byte. */
  lemma TruncatedBits(w: nat, r: nat, bits: nat)
    requires w < Pow2(16) && r < 8 && 1 <= bits <= 8 && r + bits >= 8
    ensures ToBits(Shr(Shr(w, 8 - r), 8 - bits) % 0x100, 8) == ToBits(w, 16)[r + bits - 8..r + bits]
  {
    hide ToBits, Num, Pow2, Shr;
    var t := ToBits(w, 16);
    var x := Shr(w, 8 - r);
    var y := Shr(x, 8 - bits);
    assert ToBits(x, 16) == Zeros(8 - r) + t[..8 + r] by { ShrBits(16, w, 8 - r); }
    assert ToBits(y, 16) == Zeros(8 - bits) + ToBits(x, 16)[..8 + bits] by { ShrBits(16, x, 8 - bits); }
    assert ToBits(y, 16) == ToBits(Shr(y, 8), 8) + ToBits(y, 8) by { ToBitsSplit(y, 8, 8); }
    LowByte(t, r, bits, ToBits(x, 16), ToBits(Shr(y, 8), 8), ToBits(y, 8));
    Pow2Values();
    ToBitsMod(y, 8);
  }

  lemma LowByte(t: seq<bool>, r: nat, bits: nat, x: seq<bool>, hi: seq<bool>, lo: seq<bool>)
    requires |t| == 16 && r < 8 && 1 <= bits <= 8 && r + bits >= 8 && |hi| == |lo| == 8
    requires x == Zeros(8 - r) + t[..8 + r] && hi + lo == Zeros(8 - bits) + x[..8 + bits]
    ensures lo == t[r + bits - 8..r + bits]
  {
    forall i | 0 <= i < 8
      ensures lo[i] == t[r + bits - 8 + i]
    {
      assert lo[i] == (hi + lo)[8 + i] == x[bits + i];
    }
  }

  /**
   The low bits of a read are the bits of the window. Above them there are zeros, except that a
   straddling read returns the eight bits of the buffer that end where the window ends.
   */
  lemma ReadBitsExact(buf: seq<byte>, index: nat, bits: nat)
    requires 1 <= bits <= 8 && index + bits <= 8 * |buf|
    ensures var s, r := BitsOf(buf), ToBits(ReadBits(buf, index, bits), 8);
            if Straddles(index, bits) then index + bits >= 8 && r == s[index + bits - 8..index + bits]
            else r == Zeros(8 - bits) + s[index..index + bits]
  {
    hide ToBits, BitsOf, ReadAt;
    if Straddles(index, bits) {
      StraddlingBits(buf, index / 8, index % 8, bits, index);
    } else {
      ContainedBits(buf, index / 8, index % 8, bits, index);
    }
  }

  lemma ContainedBits(buf: seq<byte>, q: nat, r: nat, bits: nat, index: nat)
    requires q < |buf| && r < 8 && 1 <= bits && r + bits <= 8 && index == 8 * q + r
    ensures ToBits(ReadAt(buf, q, r, bits), 8) == Zeros(8 - bits) + BitsOf(buf)[index..index + bits]
  {
    hide ToBits, BitsOf, Num, Pow2, Shr, Or, Shl, Word;
    BitsInsideByte(buf, q, r, bits, index);
    if r == 0 {
      AlignedBits(buf[q], bits);
    } else {
      MaskedBits(buf[q], r, bits);
    }
  }

  lemma AlignedBits(b: byte, bits: nat)
    requires 1 <= bits <= 8
    ensures ToBits(Shr(b, 8 - bits), 8) == Zeros(8 - bits) + ToBits(b, 8)[0..bits]
  {
    hide *;
    Pow2Values();
    ShrBits(8, b, 8 - bits);
    assert 8 - (8 - bits) == bits;
  }

  lemma StraddlingBits(buf: seq<byte>, q: nat, r: nat, bits: nat, index: nat)
    requires q + 1 < |buf| && 0 < r < 8 && 1 <= bits <= 8 && r + bits > 8 && index == 8 * q + r
    ensures ToBits(ReadAt(buf, q, r, bits), 8) == BitsOf(buf)[index + bits - 8..index + bits]
  {
    hide ToBits, BitsOf, Num, Pow2, Shr, Or, Shl, Word;
    WordBits(buf, q);
    TruncatedBits(Word(buf, q), r, bits);
    SliceInside(BitsOf(buf), 8 * q, 8 * q + 16, ToBits(Word(buf, q), 16), r + bits - 8, r + bits,
                index + bits - 8, index + bits);
  }

  lemma BitsInsideByte(buf: seq<byte>, q: nat, r: nat, bits: nat, index: nat)
    requires q < |buf| && r + bits <= 8 && index == 8 * q + r
    ensures BitsOf(buf)[index..index + bits] == ToBits(buf[q], 8)[r..r + bits]
  {
    hide *;
    BitsOfByte(buf, q);
    SliceInside(BitsOf(buf), 8 * q, 8 * q + 8, ToBits(buf[q], 8), r, r + bits, index, index + bits);
  }

  /** A read returns exactly the number in the window if and only if nothing leaks above it. */
  lemma ReadBitsValue(buf: seq<byte>, index: nat, bits: nat)
    requires 1 <= bits <= 8 && index + bits <= 8 * |buf|
    ensures var s := BitsOf(buf);
            ReadBits(buf, index, bits) == Num(s[index..index + bits])
            <==> (Straddles(index, bits) ==> index + bits >= 8 && s[index + bits - 8..index] == Zeros(8 - bits))
  {
    hide ToBits, BitsOf, Num, Pow2, ReadBits;
    var s, r := BitsOf(buf), ReadBits(buf, index, bits);
    var window := s[index..index + bits];
    ReadBitsExact(buf, index, bits);
    assert Num(ToBits(r, 8)) == r by { Pow2Values(); NumToBitsSmall(r, 8); }
    NumZeroExtend(8 - bits, window);
    if Straddles(index, bits) {
      var lead := s[index + bits - 8..index];
      NumPadded(lead, window);
      SlicesJoin(s, index + bits - 8, index, index + bits);
    }
  }

  lemma NumPadded(lead: seq<bool>, window: seq<bool>)
    ensures Num(lead + window) == Num(window) <==> lead == Zeros(|lead|)
  {
    NumZeroExtend(|lead|, window);
    NumInjective(lead + window, Zeros(|lead|) + window);
    assert lead == (lead + window)[..|lead|];
    assert Zeros(|lead|) == (Zeros(|lead|) + window)[..|lead|];
  }

  lemma NumZeroExtend(k: nat, bits: seq<bool>)
    ensures Num(Zeros(k) + bits) == Num(bits)
  {
    NumAppend(Zeros(k), bits);
    NumZeros(k);
  }

  // Assembling up to 64 bits from such reads.

  /** Or-ing a byte into a 64-bit word whose lower part, from the byte's position on, is still zero. */
  lemma OrByte(value: nat, prefix: seq<bool>, b: byte)
    requires |prefix| + 8 <= 64
    requires ToBits(value, 64) == prefix + Zeros(64 - |prefix|)
    ensures var r := Or(64, value, Shl(64, b, 56 - |prefix|));
            r < Pow2(64) && ToBits(r, 64) == prefix + ToBits(b, 8) + Zeros(56 - |prefix|)
  {
    hide ToBits, Num, Pow2, Or, Shl;
    var k := 56 - |prefix|;
    Pow2Values();
    ZeroExtend(b, 56, 8);
    ShlBits(64, b, k);
    OrBitwise(64, value, Shl(64, b, k));
    assert ToBits(Shl(64, b, k), 64) == Zeros(|prefix|) + ToBits(b, 8) + Zeros(k);
    assert OrBits(prefix + Zeros(64 - |prefix|), Zeros(|prefix|) + ToBits(b, 8) + Zeros(k))
        == prefix + ToBits(b, 8) + Zeros(k);
  }

  /**
   The eight bits of a partial read end in the tail asked for; above it are zeros or the bits
   that come before the tail.
   */
  predicate EndsIn(b: seq<bool>, prefix: seq<bool>, tail: seq<bool>)
    requires |b| == 8 && 1 <= |tail| < 8 && |prefix| % 8 == 0
  {
    && b[8 - |tail|..] == tail
    && (|prefix| > 0 ==>
          || b[..8 - |tail|] == Zeros(8 - |tail|)
          || b[..8 - |tail|] == prefix[|prefix| + |tail| - 8..])
  }

  lemma PartialRead(buf: seq<byte>, start: nat, i: nat, bits: nat, window: seq<bool>, done: nat)
    requires done % 8 == 0 && 1 <= bits < 8 && i == start + done && i + bits <= 8 * |buf|
    requires window == BitsOf(buf)[start..i + bits]
    ensures EndsIn(ToBits(ReadBits(buf, i, bits), 8), window[..done], window[done..])
  {
    hide *;
    ReadBitsExact(buf, i, bits);
    Tail(BitsOf(buf), start, i, bits, window, done, ToBits(ReadBits(buf, i, bits), 8), Straddles(i, bits));
  }

  lemma Tail(s: seq<bool>, start: nat, i: nat, bits: nat, window: seq<bool>, done: nat, b: seq<bool>, leaks: bool)
    requires done % 8 == 0 && 1 <= bits < 8 && i == start + done && i + bits <= |s| && |b| == 8
    requires window == s[start..i + bits]
    requires if leaks then i + bits >= 8 && b == s[i + bits - 8..i + bits]
             else b == Zeros(8 - bits) + s[i..i + bits]
    ensures EndsIn(b, window[..done], window[done..])
  {
    SliceOfSlice(s, start, i + bits, done, done + bits);
    if leaks {
      assert b[8 - bits..] == s[i..i + bits] by { SliceOfSlice(s, i + bits - 8, i + bits, 8 - bits, 8); }
      if done > 0 {
        assert b[..8 - bits] == s[i + bits - 8..i] by { SliceOfSlice(s, i + bits - 8, i + bits, 0, 8 - bits); }
        assert window[done + bits - 8..done] == s[i + bits - 8..i] by {
          SliceOfSlice(s, start, i + bits, done + bits - 8, done);
        }
        SliceOfSlice(window, 0, done, done + bits - 8, done);
      }
    }
  }

  /**
   Or-ing in the last, partial read: whatever it leaked either falls off the word or coincides
   with bits that are there already.
   */
  lemma OrRemainder(value: nat, prefix: seq<bool>, b: byte, tail: seq<bool>)
    requires 1 <= |tail| < 8 && |prefix| % 8 == 0 && |prefix| + |tail| <= 64
    requires ToBits(value, 64) == prefix + Zeros(64 - |prefix|)
    requires EndsIn(ToBits(b, 8), prefix, tail)
    ensures var r := Or(64, value, Shl(64, b, 64 - |prefix| - |tail|));
            r < Pow2(64) && ToBits(r, 64) == prefix + tail + Zeros(64 - |prefix| - |tail|)
  {
    hide ToBits, Num, Pow2, Or, Shl, OrBits;
    var k := 64 - |prefix| - |tail|;
    Pow2Values();
    ZeroExtend(b, 56, 8);
    ShlBits(64, b, k);
    OrBitwise(64, value, Shl(64, b, k));
    OrOverlap(prefix, ToBits(b, 8), tail);
  }

  lemma OrOverlap(prefix: seq<bool>, b: seq<bool>, tail: seq<bool>)
    requires |b| == 8 && 1 <= |tail| < 8 && |prefix| % 8 == 0 && |prefix| + |tail| <= 64
    requires EndsIn(b, prefix, tail)
    ensures var k := 64 - |prefix| - |tail|;
            OrBits(prefix + Zeros(64 - |prefix|), (Zeros(56) + b)[k..] + Zeros(k)) == prefix + tail + Zeros(k)
  {
    var k, n := 64 - |prefix| - |tail|, |prefix|;
    var shifted := (Zeros(56) + b)[k..] + Zeros(k);
    forall i | 0 <= i < 64
      ensures OrBits(prefix + Zeros(64 - n), shifted)[i] == (prefix + tail + Zeros(k))[i]
    {
      if n <= i < n + |tail| {
        assert shifted[i] == b[8 - |tail|..][i - n];
      } else if i < n && i + k >= 56 {
        assert shifted[i] == b[..8 - |tail|][i + k - 56];
      }
    }
  }

  /** The first i bytes of the window are in the word. */
  ghost predicate Holds(value: nat, window: seq<bool>, n: nat)
    requires n <= |window| && n <= 64
  {
    value < Pow2(64) && ToBits(value, 64) == window[..n] + Zeros(64 - n)
  }

  lemma HoldsByte(value: nat, window: seq<bool>, n: nat, b: byte)
    requires n + 8 <= |window| <= 64 && Holds(value, window, n)
    requires ToBits(b, 8) == window[n..n + 8]
    ensures Holds(Or(64, value, Shl(64, b, 56 - n)), window, n + 8)
  {
    hide ToBits, Pow2, Or, Shl;
    OrByte(value, window[..n], b);
    assert window[..n] + window[n..n + 8] == window[..n + 8];
  }

  lemma HoldsTail(value: nat, window: seq<bool>, n: nat, b: byte)
    requires n % 8 == 0 && n < |window| < n + 8 && |window| <= 64 && Holds(value, window, n)
    requires EndsIn(ToBits(b, 8), window[..n], window[n..])
    ensures Holds(Or(64, value, Shl(64, b, 64 - |window|)), window, |window|)
  {
    hide ToBits, Pow2, Or, Shl, EndsIn;
    OrRemainder(value, window[..n], b, window[n..]);
    assert window[..n] + window[n..] == window[..|window|];
  }

  lemma HoldsNothing(window: seq<bool>)
    ensures Holds(0, window, 0)
  {
    ToBitsZero(64);
  }

  /** The word, shifted down, is the number the window denotes. */
  lemma HoldsAll(value: nat, window: seq<bool>)
    requires |window| <= 64 && Holds(value, window, |window|)
    ensures Shr(value, 64 - |window|) == Num(window)
  {
    hide ToBits, Pow2, Num, Shr;
    var k := 64 - |window|;
    assert window[..|window|] == window;
    ShrBits(64, value, k);
    assert (window + Zeros(k))[..64 - k] == window;
    NumToBitsSmall(Shr(value, k), 64);
    NumZeroExtend(k, window);
  }
}
