/**
 Machine words as numbers and as bit strings.

 A word is a natural number; the C operators are written with their width: a right shift halves,
 a left shift multiplies and truncates, and the bitwise or is defined on the bits. A buffer denotes
 the big-endian concatenation of its bytes' bits.
 */
module Bits {
  import opened Seqs

  type byte = x: int | 0 <= x < 0x100
  type uint16 = x: int | 0 <= x < 0x1_0000

  function Pow2(n: nat): (p: nat)
    ensures p >= 1
  {
    if n == 0 then 1 else 2 * Pow2(n - 1)
  }

  function Zeros(n: nat): seq<bool> {
    seq(n, _ => false)
  }

  /** The number a bit string denotes, most significant bit first. */
  function Num(bits: seq<bool>): nat {
    if bits == [] then 0
    else 2 * Num(bits[..|bits| - 1]) + if bits[|bits| - 1] then 1 else 0
  }

  /** The low n bits of x, most significant bit first. */
  function ToBits(x: nat, n: nat): (bits: seq<bool>)
    ensures |bits| == n
  {
    if n == 0 then [] else ToBits(x / 2, n - 1) + [x % 2 == 1]
  }

  /** The bit string a byte buffer holds. */
  function BitsOf(buf: seq<byte>): (bits: seq<bool>)
    ensures |bits| == 8 * |buf|
  {
    if buf == [] then [] else BitsOf(buf[..|buf| - 1]) + ToBits(buf[|buf| - 1], 8)
  }

  // The C operators on w-bit words.

  function Shr(x: nat, k: nat): (r: nat)
    ensures r <= x
  {
    if k == 0 then x else Shr(x / 2, k - 1)
  }

  function Shl(w: nat, x: nat, k: nat): nat {
    DivMod(x * Pow2(k), Pow2(w));
    (x * Pow2(k)) % Pow2(w)
  }

  function OrBits(a: seq<bool>, b: seq<bool>): (c: seq<bool>)
    requires |a| == |b|
  {
    seq(|a|, i requires 0 <= i < |a| => a[i] || b[i])
  }

  function Or(w: nat, x: nat, y: nat): nat {
    Num(OrBits(ToBits(x, w), ToBits(y, w)))
  }

  /** Conversion to an 8-bit word. */
  function ToByte(x: nat): (b: byte)
    ensures x < 0x100 ==> b == x
  {
    x % 0x100
  }

  // Division and powers of two.

  lemma MulMonotone(a: int, b: int, c: nat)
    requires a <= b
    ensures a * c <= b * c
  {
    assert (b - a) * c >= 0;
    assert (b - a) * c == b * c - a * c;
  }

  lemma DivModUnique(x: int, d: int, q: int, r: int)
    requires d > 0 && x == q * d + r && 0 <= r < d
    ensures x / d == q && x % d == r
  {
    DivMod(x, d);
    if q > x / d {
      MulMonotone(x / d + 1, q, d);
    } else if q < x / d {
      MulMonotone(q + 1, x / d, d);
    }
  }

  lemma DivMod(x: int, d: int)
    requires d > 0
    ensures x == (x / d) * d + x % d && 0 <= x % d < d
  {}

  lemma {:induction false} Pow2Add(a: nat, b: nat)
    ensures Pow2(a + b) == Pow2(a) * Pow2(b)
  {
    if a > 0 {
      Pow2Add(a - 1, b);
      assert Pow2(a + b) == 2 * Pow2(a - 1 + b);
    }
  }

  lemma Pow2Values()
    ensures Pow2(0) == 1 && Pow2(1) == 2 && Pow2(2) == 4 && Pow2(3) == 8 && Pow2(4) == 16
    ensures Pow2(5) == 32 && Pow2(6) == 64 && Pow2(7) == 128 && Pow2(8) == 0x100
    ensures Pow2(16) == 0x1_0000
  {
    Pow2Add(8, 8);
    assert Pow2(2) == 4 && Pow2(4) == 16 && Pow2(6) == 64 && Pow2(8) == 0x100;
  }

  lemma ModDouble(x: nat, p: nat)
    requires p > 0
    ensures x % (2 * p) == 2 * (x / 2 % p) + x % 2
  {
    var q, m := x / 2 / p, x / 2 % p;
    assert x / 2 == q * p + m;
    assert x == q * (2 * p) + (2 * m + x % 2);
    DivModUnique(x, 2 * p, q, 2 * m + x % 2);
  }

  lemma {:induction false} ShrBound(x: nat, k: nat, m: nat)
    requires x < Pow2(m + k)
    ensures Shr(x, k) < Pow2(m)
  {
    if k > 0 {
      assert Pow2(m + k) == 2 * Pow2(m + k - 1);
      ShrBound(x / 2, k - 1, m);
    }
  }

  lemma ShrSmall(x: nat, k: nat)
    requires x < Pow2(k)
    ensures Shr(x, k) == 0
  {
    ShrBound(x, k, 0);
  }

  // Numbers and bit strings correspond.

  lemma {:induction false} NumBound(bits: seq<bool>)
    ensures Num(bits) < Pow2(|bits|)
  {
    if bits != [] {
      NumBound(bits[..|bits| - 1]);
    }
  }

  lemma {:induction false} NumToBits(x: nat, n: nat)
    ensures Num(ToBits(x, n)) == x % Pow2(n)
  {
    if n > 0 {
      NumToBits(x / 2, n - 1);
      assert ToBits(x, n)[..n - 1] == ToBits(x / 2, n - 1);
      ModDouble(x, Pow2(n - 1));
    }
  }

  lemma NumToBitsSmall(x: nat, n: nat)
    requires x < Pow2(n)
    ensures Num(ToBits(x, n)) == x
  {
    NumToBits(x, n);
    DivModUnique(x, Pow2(n), 0, x);
  }

  lemma {:induction false} ToBitsNum(bits: seq<bool>)
    ensures ToBits(Num(bits), |bits|) == bits
  {
    if bits != [] {
      ToBitsNum(bits[..|bits| - 1]);
    }
  }

  lemma NumInjective(a: seq<bool>, b: seq<bool>)
    requires |a| == |b|
    ensures Num(a) == Num(b) <==> a == b
  {
    ToBitsNum(a);
    ToBitsNum(b);
  }

  lemma MulDouble(x: int, y: int)
    ensures x * (2 * y) == 2 * (x * y)
  {}

  lemma {:induction false} NumAppend(a: seq<bool>, b: seq<bool>)
    ensures Num(a + b) == Num(a) * Pow2(|b|) + Num(b)
  {
    if b == [] {
      assert a + b == a;
    } else {
      var b' := b[..|b| - 1];
      assert (a + b)[..|a + b| - 1] == a + b';
      NumAppend(a, b');
      MulDouble(Num(a), Pow2(|b'|));
    }
  }

  lemma {:induction false} ToBitsZero(n: nat)
    ensures ToBits(0, n) == Zeros(n)
  {
    if n > 0 {
      ToBitsZero(n - 1);
    }
  }

  lemma NumZeros(n: nat)
    ensures Num(Zeros(n)) == 0
  {
    ToBitsZero(n);
    NumToBits(0, n);
    DivModUnique(0, Pow2(n), 0, 0);
  }

  /** The high and the low bits of a word are its quotient and its remainder. */
  lemma {:induction false} ToBitsSplit(x: nat, m: nat, k: nat)
    ensures ToBits(x, m + k) == ToBits(Shr(x, k), m) + ToBits(x, k)
  {
    if k > 0 {
      ToBitsSplit(x / 2, m, k - 1);
    }
  }

  lemma ToBitsMod(x: nat, n: nat)
    ensures ToBits(x % Pow2(n), n) == ToBits(x, n)
  {
    NumToBits(x, n);
    ToBitsNum(ToBits(x, n));
  }

  lemma ZeroExtend(x: nat, k: nat, m: nat)
    requires x < Pow2(m)
    ensures ToBits(x, k + m) == Zeros(k) + ToBits(x, m)
  {
    ToBitsSplit(x, k, m);
    ShrSmall(x, m);
    ToBitsZero(k);
  }

  lemma {:induction false} ToBitsScaled(x: nat, m: nat, k: nat)
    ensures ToBits(x * Pow2(k), m + k) == ToBits(x, m) + Zeros(k)
  {
    if k > 0 {
      ToBitsScaled(x, m, k - 1);
      assert x * Pow2(k) == 2 * (x * Pow2(k - 1));
      assert Zeros(k - 1) + [false] == Zeros(k);
    }
  }

  // What the C operators do to the bits.

  lemma ShrBits(w: nat, x: nat, k: nat)
    requires k <= w && x < Pow2(w)
    ensures ToBits(Shr(x, k), w) == Zeros(k) + ToBits(x, w)[..w - k]
    ensures Shr(x, k) < Pow2(w - k)
  {
    ShrBound(x, k, w - k);
    ToBitsSplit(x, w - k, k);
    ZeroExtend(Shr(x, k), k, w - k);
  }

  lemma ShlBits(w: nat, x: nat, k: nat)
    requires k <= w
    ensures ToBits(Shl(w, x, k), w) == ToBits(x, w)[k..] + Zeros(k)
    ensures Shl(w, x, k) < Pow2(w)
  {
    ToBitsMod(x * Pow2(k), w);
    ToBitsScaled(x, w - k, k);
    ToBitsSplit(x, k, w - k);
  }

  lemma OrBitwise(w: nat, x: nat, y: nat)
    ensures ToBits(Or(w, x, y), w) == OrBits(ToBits(x, w), ToBits(y, w))
    ensures Or(w, x, y) < Pow2(w)
  {
    var bits := OrBits(ToBits(x, w), ToBits(y, w));
    ToBitsNum(bits);
    NumBound(bits);
  }

  lemma ToBitsInjective(w: nat, x: nat, y: nat)
    requires x < Pow2(w) && y < Pow2(w)
    requires ToBits(x, w) == ToBits(y, w)
    ensures x == y
  {
    NumToBitsSmall(x, w);
    NumToBitsSmall(y, w);
  }

  // Buffers.

  lemma {:induction false} BitsOfAppend(a: seq<byte>, b: seq<byte>)
    ensures BitsOf(a + b) == BitsOf(a) + BitsOf(b)
  {
    if b == [] {
      assert a + b == a;
    } else {
      assert (a + b)[..|a + b| - 1] == a + b[..|b| - 1];
      BitsOfAppend(a, b[..|b| - 1]);
    }
  }

  lemma BitsOfSlice(buf: seq<byte>, i: nat, j: nat)
    requires i <= j <= |buf|
    ensures BitsOf(buf)[8 * i..8 * j] == BitsOf(buf[i..j])
  {
    assert buf == buf[..i] + buf[i..j] + buf[j..];
    BitsOfMiddle(buf, buf[..i], buf[i..j], buf[j..], 8 * i, 8 * j);
  }

  lemma BitsOfMiddle(buf: seq<byte>, a: seq<byte>, b: seq<byte>, c: seq<byte>, i: nat, j: nat)
    requires buf == a + b + c && i == 8 * |a| && j == i + 8 * |b|
    ensures j <= 8 * |buf| && BitsOf(buf)[i..j] == BitsOf(b)
  {
    hide *;
    BitsOfAppend(a + b, c);
    BitsOfAppend(a, b);
    MiddleOf(BitsOf(a), BitsOf(b), BitsOf(c), i, j);
  }

  lemma MiddleOf(a: seq<bool>, b: seq<bool>, c: seq<bool>, i: nat, j: nat)
    requires i == |a| && j == |a| + |b|
    ensures (a + b + c)[i..j] == b
  {}

  lemma BitsOfSingle(b: byte)
    ensures BitsOf([b]) == ToBits(b, 8)
  {
    assert [b][..0] == [];
    assert BitsOf([b]) == BitsOf([]) + ToBits(b, 8);
  }

  lemma BitsOfByte(buf: seq<byte>, i: nat)
    requires i < |buf|
    ensures BitsOf(buf)[8 * i..8 * i + 8] == ToBits(buf[i], 8)
  {
    BitsOfSlice(buf, i, i + 1);
    assert buf[i..i + 1] == [buf[i]];
    BitsOfSingle(buf[i]);
  }

  /** The same, with both positions by names of their own. */
  lemma ByteAt(buf: seq<byte>, i: nat, from: nat, to: nat)
    requires i < |buf| && from == 8 * i && to == from + 8
    ensures to <= |BitsOf(buf)| && BitsOf(buf)[from..to] == ToBits(buf[i], 8)
  {
    hide *;
    BitsOfByte(buf, i);
  }

  lemma {:induction false} BitsOfInjective(a: seq<byte>, b: seq<byte>)
    requires BitsOf(a) == BitsOf(b)
    ensures a == b
  {
    if a != [] {
      var n := |a| - 1;
      assert |b| == n + 1;
      SameParts(BitsOf(a[..n]), ToBits(a[n], 8), BitsOf(b[..n]), ToBits(b[n], 8));
      BitsOfInjective(a[..n], b[..n]);
      Pow2Values();
      ToBitsInjective(8, a[n], b[n]);
    }
  }

  lemma NumOfBit(bits: seq<bool>)
    requires |bits| == 1
    ensures Num(bits) == if bits[0] then 1 else 0
  {
    assert bits[..0] == [];
  }
}
