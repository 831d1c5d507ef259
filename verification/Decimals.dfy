/** Decimal digit strings, and amounts written with a decimal point. */
module Decimals {

  function Pow10(n: nat): (p: nat)
    ensures p >= 1
  {
    if n == 0 then 1 else 10 * Pow10(n - 1)
  }

  predicate Digits(s: seq<nat>) {
    forall k | 0 <= k < |s| :: s[k] <= 9
  }

  /** The number a digit string denotes, most significant digit first. */
  function Dec(s: seq<nat>): nat {
    if s == [] then 0 else 10 * Dec(s[..|s| - 1]) + s[|s| - 1]
  }

  lemma MulTen(x: int, y: int)
    ensures x * (10 * y) == 10 * (x * y)
  {}

  lemma {:induction false} DecAppend(a: seq<nat>, b: seq<nat>)
    ensures Dec(a + b) == Dec(a) * Pow10(|b|) + Dec(b)
  {
    if b == [] {
      assert a + b == a;
    } else {
      var b' := b[..|b| - 1];
      assert (a + b)[..|a + b| - 1] == a + b';
      DecAppend(a, b');
      MulTen(Dec(a), Pow10(|b'|));
    }
  }

  lemma {:induction false} DecBound(s: seq<nat>)
    requires Digits(s)
    ensures Dec(s) < Pow10(|s|)
  {
    if s != [] {
      DecBound(s[..|s| - 1]);
    }
  }

  function ZeroDigits(n: nat): seq<nat> {
    seq(n, _ => 0)
  }

  lemma {:induction false} DecZeros(n: nat)
    ensures Dec(ZeroDigits(n)) == 0
  {
    if n > 0 {
      assert ZeroDigits(n)[..n - 1] == ZeroDigits(n - 1);
      DecZeros(n - 1);
    }
  }

  /** The first digit counts with the power of its place. */
  lemma DecLeading(s: seq<nat>)
    requires s != []
    ensures Dec(s) == s[0] * Pow10(|s| - 1) + Dec(s[1..])
  {
    assert s == s[..1] + s[1..];
    assert s[..1][..0] == [];
    assert Dec(s[..1]) == s[0];
    DecAppend(s[..1], s[1..]);
  }

  // Zeros that do not count.

  function StripLeading(s: seq<nat>): (t: seq<nat>)
    ensures |t| <= |s| && t == s[|s| - |t|..]
    ensures t != [] ==> t[0] != 0
  {
    if s != [] && s[0] == 0 then StripLeading(s[1..]) else s
  }

  function StripTrailing(s: seq<nat>): (t: seq<nat>)
    ensures |t| <= |s| && t == s[..|t|]
    ensures t != [] ==> t[|t| - 1] != 0
  {
    if s != [] && s[|s| - 1] == 0 then StripTrailing(s[..|s| - 1]) else s
  }

  lemma {:induction false} StripLeadingDec(s: seq<nat>)
    ensures Dec(StripLeading(s)) == Dec(s)
  {
    if s != [] && s[0] == 0 {
      StripLeadingDec(s[1..]);
      DecLeading(s);
    }
  }

  lemma {:induction false} StripTrailingDec(s: seq<nat>)
    ensures Dec(s) == Dec(StripTrailing(s)) * Pow10(|s| - |StripTrailing(s)|)
  {
    if s != [] && s[|s| - 1] == 0 {
      StripTrailingDec(s[..|s| - 1]);
      MulTen(Dec(StripTrailing(s)), Pow10(|s| - 1 - |StripTrailing(s)|));
    }
  }

  // Text.

  function Char(d: nat): char
    requires d <= 9
  {
    '0' + d as char
  }

  predicate IsDigit(c: char) {
    '0' <= c <= '9'
  }

  function Chars(s: seq<nat>): (t: string)
    requires Digits(s)
    ensures |t| == |s| && forall k | 0 <= k < |t| :: t[k] == Char(s[k]) && IsDigit(t[k])
  {
    seq(|s|, k requires 0 <= k < |s| => Char(s[k]))
  }

  function DigitOf(c: char): (d: nat)
    requires IsDigit(c)
    ensures d <= 9 && Char(d) == c
  {
    c as nat - '0' as nat
  }

  function DigitsOf(t: string): (s: seq<nat>)
    requires AllDigits(t)
    ensures |s| == |t| && forall k | 0 <= k < |t| :: s[k] == DigitOf(t[k])
  {
    seq(|t|, k requires 0 <= k < |t| => DigitOf(t[k]))
  }

  /** Where the decimal point is, or the length if there is none. */
  function Point(t: string): (p: nat)
    ensures p <= |t| && '.' !in t[..p] && (p < |t| ==> t[p] == '.')
  {
    if t == [] || t[0] == '.' then 0 else 1 + Point(t[1..])
  }

  function IntegerPart(t: string): string {
    t[..Point(t)]
  }

  function FractionPart(t: string): string {
    if Point(t) == |t| then [] else t[Point(t) + 1..]
  }

  /** Digits, with at most one point, at least one digit in front, and no more than decimals behind it. */
  predicate IsAmount(t: string, decimals: nat) {
    && IntegerPart(t) != []
    && AllDigits(IntegerPart(t)) && AllDigits(FractionPart(t))
    && |FractionPart(t)| <= decimals
  }

  /** The amount, in units of which 10 to the decimals make one, that a text denotes. */
  function Parse(t: string, decimals: nat): nat
    requires IsAmount(t, decimals)
  {
    var fraction := FractionPart(t);
    Dec(DigitsOf(IntegerPart(t))) * Pow10(decimals)
    + Dec(DigitsOf(fraction)) * Pow10(decimals - |fraction|)
  }

  /** No leading zero, no trailing zero behind the point, no point without digits behind it. */
  predicate Canonical(t: string) {
    && (|IntegerPart(t)| > 1 ==> t[0] != '0')
    && (Point(t) < |t| ==> FractionPart(t) != [] && t[|t| - 1] != '0')
  }

  /** The text in front of the point, and the text from the point on. */
  function WholeText(whole: seq<nat>): string
    requires Digits(whole)
  {
    var w := StripLeading(whole);
    if w == [] then "0" else Chars(w)
  }

  /** A point and what is behind it; nothing if there is nothing behind it. */
  function Behind(f: string): string {
    if f == [] then [] else ['.'] + f
  }

  /** The text the program prints for the digits in front of and behind the point. */
  function Render(whole: seq<nat>, fraction: seq<nat>): string
    requires Digits(whole) && Digits(fraction)
  {
    WholeText(whole) + Behind(Chars(StripTrailing(fraction)))
  }

  lemma {:induction false} PointAt(a: string, rest: string)
    requires (forall k | 0 <= k < |a| :: IsDigit(a[k])) && (rest == [] || rest[0] == '.')
    ensures Point(a + rest) == |a|
  {
    if a == [] {
      assert a + rest == rest;
    } else {
      assert (a + rest)[1..] == a[1..] + rest;
      PointAt(a[1..], rest);
    }
  }

  lemma DigitsOfChars(s: seq<nat>)
    requires Digits(s)
    ensures DigitsOf(Chars(s)) == s
  {}

  predicate AllDigits(t: string) {
    forall k | 0 <= k < |t| :: IsDigit(t[k])
  }

  lemma TextParts(a: string, f: string, t: string)
    requires AllDigits(a) && t == a + Behind(f)
    ensures Point(t) == |a| && IntegerPart(t) == a && FractionPart(t) == f
    ensures a != [] ==> t[0] == a[0]
    ensures f != [] ==> t[|t| - 1] == f[|f| - 1]
    ensures |t| == |a| + if f == [] then 0 else 1 + |f|
  {
    hide Point;
    PointAt(a, Behind(f));
    assert t[..|a|] == a;
    if f != [] {
      assert t[|a| + 1..] == f;
    } else {
      assert t == a;
    }
  }

  lemma WholeTextValue(whole: seq<nat>)
    requires Digits(whole)
    ensures AllDigits(WholeText(whole)) && WholeText(whole) != []
    ensures Dec(DigitsOf(WholeText(whole))) == Dec(whole)
  {
    hide Dec, StripLeading;
    StripLeadingDec(whole);
    if StripLeading(whole) == [] {
      DecOfZero();
    } else {
      DigitsOfChars(StripLeading(whole));
    }
  }

  /** What is printed is canonical and parses back to the number all digits together denote. */
  lemma RenderParses(whole: seq<nat>, fraction: seq<nat>)
    requires Digits(whole) && Digits(fraction)
    ensures var t := Render(whole, fraction);
            IsAmount(t, |fraction|) && Parse(t, |fraction|) == Dec(whole + fraction) && Canonical(t)
  {
    RenderValue(whole, fraction);
    RenderCanonical(whole, fraction);
  }

  lemma RenderValue(whole: seq<nat>, fraction: seq<nat>)
    requires Digits(whole) && Digits(fraction)
    ensures var t := Render(whole, fraction);
            IsAmount(t, |fraction|) && Parse(t, |fraction|) == Dec(whole + fraction)
  {
    hide Dec, StripLeading, StripTrailing, Point, DigitsOf, WholeText, IntegerPart, FractionPart, Pow10;
    var w, f := WholeText(whole), StripTrailing(fraction);
    WholeTextValue(whole);
    assert DigitsOf(Chars(f)) == f by { DigitsOfChars(f); }
    StripTrailingDec(fraction);
    DecAppend(whole, fraction);
    TextParts(w, Chars(f), Render(whole, fraction));
  }

  lemma RenderCanonical(whole: seq<nat>, fraction: seq<nat>)
    requires Digits(whole) && Digits(fraction)
    ensures Canonical(Render(whole, fraction))
  {
    hide Dec, StripLeading, StripTrailing, Point, DigitsOf, WholeText, IntegerPart, FractionPart;
    var w, f := WholeText(whole), StripTrailing(fraction);
    WholeTextValue(whole);
    NoLeadingZero(whole);
    TextParts(w, Chars(f), Render(whole, fraction));
  }

  lemma NoLeadingZero(whole: seq<nat>)
    requires Digits(whole)
    ensures |WholeText(whole)| > 1 ==> WholeText(whole)[0] != '0'
  {}

  lemma DecOfZero()
    ensures Dec(DigitsOf("0")) == 0 == Dec([])
  {
    assert DigitsOf("0") == [0];
    assert [0][..0] == [];
    assert Dec([0]) == 10 * Dec([]) + 0;
  }

  // There is only one canonical text for an amount.

  lemma {:induction false} SameLengthUnique(a: seq<nat>, b: seq<nat>)
    requires Digits(a) && Digits(b) && |a| == |b| && Dec(a) == Dec(b)
    ensures a == b
  {
    if a != [] {
      SameLengthUnique(a[..|a| - 1], b[..|b| - 1]);
    }
  }

  lemma {:induction false} NoLeadingZeroUnique(a: seq<nat>, b: seq<nat>)
    requires Digits(a) && Digits(b) && Dec(a) == Dec(b)
    requires (a != [] ==> a[0] != 0) && (b != [] ==> b[0] != 0)
    ensures a == b
  {
    if a == [] || b == [] {
      NotZero(a);
      NotZero(b);
    } else {
      NoLeadingZeroUnique(a[..|a| - 1], b[..|b| - 1]);
    }
  }

  lemma NotZero(s: seq<nat>)
    requires s != [] ==> s[0] != 0
    ensures s != [] ==> Dec(s) > 0
  {
    if s != [] {
      DecLeading(s);
      assert s[0] * Pow10(|s| - 1) >= Pow10(|s| - 1) by { AtLeast(s[0], Pow10(|s| - 1)); }
    }
  }

  lemma AtLeast(a: nat, b: nat)
    requires a >= 1
    ensures a * b >= b
  {}

  lemma NextMultiple(a: nat, b: nat, p: nat)
    requires a < b
    ensures a * p + p <= b * p
  {
    AtLeast(b - a, p);
    assert (b - a) * p == b * p - a * p;
  }

  /** Quotient and remainder by a power of ten are unique. */
  lemma SplitUnique(q: nat, r: nat, q': nat, r': nat, p: nat)
    requires q * p + r == q' * p + r' && r < p && r' < p
    ensures q == q' && r == r'
  {
    if q < q' {
      NextMultiple(q, q', p);
    } else if q' < q {
      NextMultiple(q', q, p);
    }
  }

  /** The fraction digits filled up with zeros. */
  function Padded(f: seq<nat>, n: nat): (p: seq<nat>)
    requires |f| <= n
    ensures |p| == n
  {
    f + ZeroDigits(n - |f|)
  }

  lemma PaddedDec(f: seq<nat>, n: nat)
    requires Digits(f) && |f| <= n
    ensures Dec(Padded(f, n)) == Dec(f) * Pow10(n - |f|) < Pow10(n) && Digits(Padded(f, n))
  {
    DecAppend(f, ZeroDigits(n - |f|));
    DecZeros(n - |f|);
    DecBound(Padded(f, n));
  }

  lemma PaddedUnique(f: seq<nat>, g: seq<nat>, n: nat)
    requires |f| <= n && |g| <= n && Padded(f, n) == Padded(g, n)
    requires (f != [] ==> f[|f| - 1] != 0) && (g != [] ==> g[|g| - 1] != 0)
    ensures f == g
  {
    if f != [] {
      PaddedAt(f, n, |f| - 1);
      PaddedAt(g, n, |f| - 1);
    }
    if g != [] {
      PaddedAt(f, n, |g| - 1);
      PaddedAt(g, n, |g| - 1);
    }
    assert f == Padded(f, n)[..|f|] && g == Padded(g, n)[..|g|];
  }

  lemma PaddedAt(f: seq<nat>, n: nat, k: nat)
    requires |f| <= n && k < n
    ensures Padded(f, n)[k] == if k < |f| then f[k] else 0
  {}

  /** Whole digits without the single zero that stands for none. */
  function Significant(w: seq<nat>): seq<nat> {
    if w == [0] then [] else w
  }

  lemma SignificantDec(w: seq<nat>)
    ensures Dec(Significant(w)) == Dec(w)
  {
    if w == [0] {
      assert w[..0] == [];
    }
  }

  /** Digits in front of and behind the point, without zeros that do not count. */
  predicate Plain(w: seq<nat>, f: seq<nat>, decimals: nat) {
    && w != [] && Digits(w) && Digits(f) && |f| <= decimals
    && (Significant(w) != [] ==> Significant(w)[0] != 0)
    && (f != [] ==> f[|f| - 1] != 0)
  }

  function ValueOf(w: seq<nat>, f: seq<nat>, decimals: nat): nat
    requires |f| <= decimals
  {
    Dec(w) * Pow10(decimals) + Dec(f) * Pow10(decimals - |f|)
  }

  lemma PlainUnique(w: seq<nat>, f: seq<nat>, w': seq<nat>, f': seq<nat>, decimals: nat)
    requires Plain(w, f, decimals) && Plain(w', f', decimals)
    requires ValueOf(w, f, decimals) == ValueOf(w', f', decimals)
    ensures w == w' && f == f'
  {
    hide Dec, Pow10, Padded;
    PaddedDec(f, decimals);
    PaddedDec(f', decimals);
    SplitUnique(Dec(w), Dec(Padded(f, decimals)), Dec(w'), Dec(Padded(f', decimals)), Pow10(decimals));
    SignificantDec(w);
    SignificantDec(w');
    NoLeadingZeroUnique(Significant(w), Significant(w'));
    SameLengthUnique(Padded(f, decimals), Padded(f', decimals));
    PaddedUnique(f, f', decimals);
  }

  /** Two canonical texts of the same amount are the same. */
  lemma CanonicalUnique(a: string, b: string, decimals: nat)
    requires IsAmount(a, decimals) && IsAmount(b, decimals) && Canonical(a) && Canonical(b)
    requires Parse(a, decimals) == Parse(b, decimals)
    ensures a == b
  {
    hide Dec, Pow10, Point, IntegerPart, FractionPart, Plain, Canonical;
    CanonicalPlain(a, decimals);
    CanonicalPlain(b, decimals);
    PlainUnique(DigitsOf(IntegerPart(a)), DigitsOf(FractionPart(a)),
                DigitsOf(IntegerPart(b)), DigitsOf(FractionPart(b)), decimals);
    DigitsInjective(IntegerPart(a), IntegerPart(b));
    DigitsInjective(FractionPart(a), FractionPart(b));
    Recompose(a);
    Recompose(b);
  }

  lemma DigitsInjective(a: string, b: string)
    requires AllDigits(a) && AllDigits(b) && DigitsOf(a) == DigitsOf(b)
    ensures a == b
  {
    forall k | 0 <= k < |a|
      ensures a[k] == b[k]
    {
      assert DigitsOf(a)[k] == DigitsOf(b)[k];
    }
  }

  lemma CanonicalPlain(t: string, decimals: nat)
    requires IsAmount(t, decimals) && Canonical(t)
    ensures Plain(DigitsOf(IntegerPart(t)), DigitsOf(FractionPart(t)), decimals)
  {
    hide Point;
    var w, f := IntegerPart(t), FractionPart(t);
    assert w[0] == t[0];
    if |w| == 1 && w[0] == '0' {
      assert DigitsOf(w) == [0];
    }
    if f != [] {
      assert f[|f| - 1] == t[|t| - 1];
    }
  }

  /** A canonical text is made of its parts. */
  lemma Recompose(t: string)
    requires Canonical(t)
    ensures t == IntegerPart(t) + Behind(FractionPart(t))
  {
    hide Point;
    var p := Point(t);
    assert t == t[..p] + t[p..];
    if p < |t| {
      assert t[p..] == [t[p]] + t[p + 1..];
    }
  }
}
