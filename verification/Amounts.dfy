/** Printing a big-endian binary amount in decimal (src/utils.c, convert_hex_amount_to_displayable). */
module Amounts {
  import opened Bits
  import opened Outcomes
  import opened Cells
  import opened Decimals

  const SCRATCH_SIZE := 37

  // One step of the double dabble: twice the number, and a bit.

  /** A digit corrected so that doubling it in binary carries in decimal. */
  function Adjust(d: nat): nat {
    if d >= 5 then d + 3 else d
  }

  /** A corrected digit shifted left within four bits, with the carry of the digit behind it. */
  function ShiftDigit(d: nat, carry: bool): nat {
    2 * d % 16 + if carry then 1 else 0
  }

  lemma AdjustedDigit(d: nat, carry: bool)
    requires d <= 9
    ensures ShiftDigit(Adjust(d), carry) == TwiceDigit(d) + (if carry then 1 else 0)
    ensures Adjust(d) >= 8 <==> d >= 5
  {}

  /** Twice a digit, without the carry. */
  function TwiceDigit(d: nat): (r: nat)
    ensures d <= 9 ==> r == (if d >= 5 then 2 * d - 10 else 2 * d)
  {
    2 * d % 10
  }

  /** All digits doubled, with the carries and the new bit. */
  function Double(s: seq<nat>, bit: bool): (r: seq<nat>)
    ensures |r| == |s|
  {
    seq(|s|, k requires 0 <= k < |s| =>
      TwiceDigit(s[k]) + if (if k + 1 < |s| then s[k + 1] >= 5 else bit) then 1 else 0)
  }

  lemma {:induction false} DoubleDec(s: seq<nat>, bit: bool)
    requires Digits(s) && s != [] && s[0] < 5
    ensures Digits(Double(s, bit)) && Dec(Double(s, bit)) == 2 * Dec(s) + if bit then 1 else 0
  {
    hide TwiceDigit;
    var n := |s| - 1;
    var front, last := s[..n], s[n];
    assert Double(s, bit)[..n] == Double(front, last >= 5);
    if n > 0 {
      DoubleDec(front, last >= 5);
    } else {
      assert front == [] && Double(front, last >= 5) == [];
    }
  }

  /** The digits in use: all of them decimal, none left of smin, and room for one more. */
  ghost predicate Scratch(s: seq<nat>, smin: nat) {
    |s| == SCRATCH_SIZE && Digits(s) && 1 <= smin <= SCRATCH_SIZE - 2 && forall k | 0 <= k < smin :: s[k] == 0
  }

  /** Shifts one bit in; fails when the top digit in use would carry out of the digits allowed. */
  method ShiftIn(scratch: array<nat>, smin: nat, bit: bool) returns (ok: bool, smin': nat)
    requires scratch.Length == SCRATCH_SIZE && Scratch(scratch[..], smin)
    modifies scratch
    ensures ok <==> old(scratch[smin]) < 5 || smin > 1
    ensures ok ==> scratch[..] == Double(old(scratch[..]), bit) && Scratch(scratch[..], smin')
  {
    ghost var s := scratch[..];
    smin' := smin;
    for k := smin to SCRATCH_SIZE
      invariant forall j | 0 <= j < SCRATCH_SIZE :: scratch[j] == if smin <= j < k then Adjust(s[j]) else s[j]
    {
      scratch[k] := Adjust(scratch[k]);
    }
    if scratch[smin] >= 8 {
      if smin <= 1 {
        return false, smin;
      }
      smin' := smin - 1;
    }
    ghost var adjusted := scratch[..];
    for k := smin' to SCRATCH_SIZE - 1
      invariant forall j | smin' <= j < k :: scratch[j] == ShiftDigit(adjusted[j], adjusted[j + 1] >= 8)
      invariant forall j | 0 <= j < SCRATCH_SIZE && !(smin' <= j < k) :: scratch[j] == adjusted[j]
    {
      scratch[k] := ShiftDigit(scratch[k], scratch[k + 1] >= 8);
    }
    scratch[SCRATCH_SIZE - 1] := ShiftDigit(scratch[SCRATCH_SIZE - 1], bit);
    DigitsShifted(s, adjusted, scratch[..], smin, smin', bit);
    ok := true;
  }

  lemma DigitsShifted(s: seq<nat>, adjusted: seq<nat>, after: seq<nat>, smin: nat, smin': nat, bit: bool)
    requires Scratch(s, smin) && |adjusted| == |after| == SCRATCH_SIZE
    requires forall j | 0 <= j < SCRATCH_SIZE :: adjusted[j] == if smin <= j then Adjust(s[j]) else s[j]
    requires smin' == (if adjusted[smin] >= 8 then smin - 1 else smin) && smin' >= 1
    requires forall j | smin' <= j < SCRATCH_SIZE - 1 :: after[j] == ShiftDigit(adjusted[j], adjusted[j + 1] >= 8)
    requires after[SCRATCH_SIZE - 1] == ShiftDigit(adjusted[SCRATCH_SIZE - 1], bit)
    requires forall j | 0 <= j < smin' :: after[j] == adjusted[j]
    ensures after == Double(s, bit) && Scratch(after, smin')
  {
    hide ShiftDigit, Adjust, Dec, TwiceDigit;
    forall j | 0 <= j < SCRATCH_SIZE
      ensures after[j] == Double(s, bit)[j]
    {
      assert adjusted[j] == Adjust(s[j]) by { AdjustZero(); }
      AdjustedDigit(s[j], bit);
      if j + 1 < SCRATCH_SIZE {
        assert adjusted[j + 1] == Adjust(s[j + 1]) by { AdjustZero(); }
        AdjustedDigit(s[j], adjusted[j + 1] >= 8);
        AdjustedDigit(s[j + 1], bit);
      }
    }
  }

  lemma AdjustZero()
    ensures Adjust(0) == 0
  {}

  // The whole amount.

  lemma NextBit(bits: seq<bool>, k: nat)
    requires k < |bits|
    ensures Num(bits[..k + 1]) == 2 * Num(bits[..k]) + if bits[k] then 1 else 0
  {
    assert bits[..k + 1][..k] == bits[..k];
  }

  lemma {:induction false} NumPrefix(bits: seq<bool>, k: nat)
    requires k <= |bits|
    ensures Num(bits[..k]) <= Num(bits)
    decreases |bits|
  {
    if k == |bits| {
      assert bits[..k] == bits;
    } else {
      var front := bits[..|bits| - 1];
      NumPrefix(front, k);
      assert front[..k] == bits[..k];
    }
  }

  lemma BitOfAmount(amount: seq<byte>, i: nat, j: nat)
    requires i < |amount| && j < 8
    ensures BitsOf(amount)[8 * i + j] <==> Shr(amount[i], 7 - j) % 2 == 1
  {
    hide BitsOf, ToBits, Shr;
    BitsOfByte(amount, i);
    BitAt(amount[i], 7 - j);
    assert BitsOf(amount)[8 * i..8 * i + 8][j] == BitsOf(amount)[8 * i + j];
  }

  /** A digit of 5 or more in the second place means at least half of 10 to the 36. */
  lemma TopDigit(s: seq<nat>)
    requires Scratch(s, 1)
    ensures s[1] >= 5 ==> 2 * Dec(s) >= Pow10(36)
  {
    hide Dec, Pow10;
    DecLeading(s);
    DecLeading(s[1..]);
    assert Pow10(36) == 10 * Pow10(35) by { PowStep(35); }
    if s[1] >= 5 {
      MulMonotone(5, s[1], Pow10(35));
    }
  }

  lemma PowStep(n: nat)
    ensures Pow10(n + 1) == 10 * Pow10(n)
  {}

  lemma BelowGuard(s: seq<nat>, smin: nat)
    requires Scratch(s, smin)
    ensures Dec(s) < Pow10(36)
  {
    hide Dec, Pow10;
    DecLeading(s);
    DecBound(s[1..]);
  }

  /** The scratch digits denote the number of the bits consumed so far. */
  ghost predicate Denotes(s: seq<nat>, smin: nat, bits: seq<bool>, k: nat) {
    Scratch(s, smin) && k <= |bits| && Dec(s) == Num(bits[..k])
  }

  /** The digits of an amount, unless it has more than 36. */
  method ToDigits(amount: seq<byte>, scratch: array<nat>) returns (ok: bool)
    requires scratch.Length == SCRATCH_SIZE
    modifies scratch
    ensures ok <==> Num(BitsOf(amount)) < Pow10(36)
    ensures ok ==> Digits(scratch[..]) && scratch[0] == 0 && Dec(scratch[..]) == Num(BitsOf(amount))
  {
    ghost var bits := BitsOf(amount);
    var smin: nat := SCRATCH_SIZE - 2;
    for i := 0 to SCRATCH_SIZE
      invariant forall k | 0 <= k < i :: scratch[k] == 0
    {
      scratch[i] := 0;
    }
    StartsAtZero(scratch[..], bits);
    hide Denotes, BitsOf, Num, Dec, Pow10, Shr;
    ok := true;
    for i := 0 to |amount|
      invariant ok && Denotes(scratch[..], smin, bits, 8 * i)
    {
      ok, smin := NextByte(amount, i, scratch, smin);
      if !ok {
        return;
      }
    }
    AllConsumed(scratch[..], smin, bits);
  }

  /** The eight bits of one byte. */
  method NextByte(amount: seq<byte>, i: nat, scratch: array<nat>, smin: nat) returns (ok: bool, smin': nat)
    requires scratch.Length == SCRATCH_SIZE && i < |amount| && Denotes(scratch[..], smin, BitsOf(amount), 8 * i)
    modifies scratch
    ensures if ok then Denotes(scratch[..], smin', BitsOf(amount), 8 * i + 8) else Num(BitsOf(amount)) >= Pow10(36)
  {
    hide Denotes, BitsOf, Num, Dec, Pow10, Shr;
    ok, smin' := true, smin;
    for j := 0 to 8
      invariant ok && Denotes(scratch[..], smin', BitsOf(amount), 8 * i + j)
    {
      BitOfAmount(amount, i, j);
      ok, smin' := NextDigits(scratch, smin', Shr(amount[i], 7 - j) % 2 == 1, BitsOf(amount), 8 * i + j);
      if !ok {
        return;
      }
    }
  }

  lemma StartsAtZero(s: seq<nat>, bits: seq<bool>)
    requires |s| == SCRATCH_SIZE && forall k | 0 <= k < SCRATCH_SIZE :: s[k] == 0
    ensures Denotes(s, SCRATCH_SIZE - 2, bits, 0)
  {
    assert s == ZeroDigits(SCRATCH_SIZE);
    DecZeros(SCRATCH_SIZE);
  }

  lemma AllConsumed(s: seq<nat>, smin: nat, bits: seq<bool>)
    requires Denotes(s, smin, bits, |bits|)
    ensures Digits(s) && s[0] == 0 && Dec(s) == Num(bits) < Pow10(36)
  {
    assert bits[..|bits|] == bits;
    BelowGuard(s, smin);
  }

  method NextDigits(scratch: array<nat>, smin: nat, bit: bool, ghost bits: seq<bool>, ghost k: nat)
    returns (ok: bool, smin': nat)
    requires scratch.Length == SCRATCH_SIZE && Denotes(scratch[..], smin, bits, k) && k < |bits| && bits[k] == bit
    modifies scratch
    ensures if ok then Denotes(scratch[..], smin', bits, k + 1) else Num(bits) >= Pow10(36)
  {
    hide Dec, Num, Pow10;
    ghost var s := scratch[..];
    NextBit(bits, k);
    NumPrefix(bits, k + 1);
    if smin == 1 {
      TopDigit(s);
    }
    DoubleDec(s, bit);
    ok, smin' := ShiftIn(scratch, smin, bit);
  }

  lemma {:induction false} StripLeadingNext(s: seq<nat>, d: nat)
    ensures StripLeading(s + [d]) == if StripLeading(s) == [] && d == 0 then [] else StripLeading(s) + [d]
  {
    if s == [] {
      assert s + [d] == [d] && [d][1..] == [];
    } else if s[0] == 0 {
      assert (s + [d])[1..] == s[1..] + [d];
      StripLeadingNext(s[1..], d);
    }
  }

  predicate AllZero(s: seq<nat>) {
    forall k | 0 <= k < |s| :: s[k] == 0
  }

  lemma {:induction false} StripTrailingAt(s: seq<nat>, i: nat)
    requires i <= |s| && AllZero(s[i..]) && (i > 0 ==> s[i - 1] != 0)
    ensures StripTrailing(s) == s[..i]
    decreases |s|
  {
    if i < |s| {
      var front := s[..|s| - 1];
      assert s[|s| - 1] == s[i..][|s| - 1 - i];
      forall k | 0 <= k < |front[i..]|
        ensures front[i..][k] == 0
      {
        assert front[i..][k] == s[i..][k];
      }
      StripTrailingAt(front, i);
    }
  }

  // Printing.

  /** The digits in front of the point, without leading zeros. */
  method PrintWhole(scratch: array<nat>, whole: nat, out: array<char>) returns (n: nat)
    requires whole <= scratch.Length && Digits(scratch[..]) && 1 <= out.Length && whole <= out.Length
    modifies out
    ensures n <= whole + 1 && n <= out.Length && out[..n] == WholeText(scratch[..whole])
    ensures forall k | n <= k < out.Length :: out[k] == old(out[k])
    ensures whole > 0 && scratch[0] == 0 ==> n <= whole
  {
    hide Char, Printed, WholeText;
    n := 0;
    ghost var s := scratch[..];
    NothingPrinted(s);
    assert out[..0] == [];
    var nonZero := false;
    for i := 0 to whole
      invariant n <= i && (nonZero <==> n > 0) && (i > 0 && s[0] == 0 ==> n < i)
      invariant Printed(out[..n], s, i) && forall k | n <= k < out.Length :: out[k] == old(out[k])
    {
      PrintedNext(out[..n], s, i);
      if nonZero || scratch[i] != 0 {
        nonZero := true;
        Put(out, n, Char(scratch[i]));
        n := n + 1;
      }
    }
    AllPrinted(out[..n], s, whole);
    if n == 0 {
      Put(out, 0, '0');
      n := 1;
    }
  }

  /** The first i digits without leading zeros. */
  ghost predicate Printed(text: string, s: seq<nat>, i: nat) {
    Digits(s) && i <= |s| && text == Chars(StripLeading(s[..i]))
  }

  lemma NothingPrinted(s: seq<nat>)
    requires Digits(s)
    ensures Printed([], s, 0)
  {}

  lemma PrintedNext(text: string, s: seq<nat>, i: nat)
    requires Printed(text, s, i) && i < |s|
    ensures |text| == 0 && s[i] == 0 ==> Printed(text, s, i + 1)
    ensures |text| != 0 || s[i] != 0 ==> Printed(text + [Char(s[i])], s, i + 1)
  {
    hide StripLeading, Chars, Char;
    var t, d := StripLeading(s[..i]), s[i];
    assert s[..i + 1] == s[..i] + [d];
    StripLeadingNext(s[..i], d);
    if |text| == 0 && d == 0 {
      assert t == [] == StripLeading(s[..i + 1]);
    } else {
      CharsSnoc(t, d);
    }
  }

  lemma CharsSnoc(s: seq<nat>, d: nat)
    requires Digits(s) && d <= 9
    ensures Chars(s + [d]) == Chars(s) + [Char(d)]
  {
    hide Char;
  }

  lemma AllPrinted(text: string, s: seq<nat>, whole: nat)
    requires Printed(text, s, whole)
    ensures WholeText(s[..whole]) == if |text| == 0 then [] + ['0'] else text
  {}

  method Put(out: array<char>, n: nat, c: char)
    requires n < out.Length
    modifies out
    ensures out[..n + 1] == old(out[..n]) + [c] && forall k | n < k < out.Length :: out[k] == old(out[k])
  {
    out[n] := c;
  }

  method OnlyZeros(scratch: array<nat>, from: nat) returns (allZero: bool)
    requires from <= scratch.Length
    ensures allZero <==> AllZero(scratch[from..])
  {
    for k := from to scratch.Length
      invariant forall j | from <= j < k :: scratch[j] == 0
    {
      if scratch[k] != 0 {
        assert scratch[from..][k - from] != 0;
        return false;
      }
    }
    allZero := true;
  }

  /** The digits behind the point, up to the last that is not zero; nothing if there is none. */
  method PrintFraction(scratch: array<nat>, whole: nat, out: array<char>, start: nat) returns (n: nat)
    requires whole <= scratch.Length && Digits(scratch[..]) && start + 1 + scratch.Length - whole <= out.Length
    modifies out
    ensures start <= n <= start + 1 + scratch.Length - whole
    ensures out[..n] == old(out[..start]) + Behind(Chars(StripTrailing(scratch[whole..])))
    ensures forall k | n <= k < out.Length :: out[k] == old(out[k])
  {
    hide StripTrailing, Chars, Char, Behind;
    ghost var f, front := scratch[whole..], out[..start];
    NothingBehind(f);
    n := start;
    var i, count, more := 0, scratch.Length - whole, true;
    while i < count && more
      invariant 0 <= i <= count && n == start + (if i == 0 then 0 else i + 1)
      invariant out[..n] == front + Behind(Chars(f[..i]))
      invariant forall k | n <= k < out.Length :: out[k] == old(out[k])
      invariant i > 0 ==> !AllZero(f[i - 1..])
      invariant !more ==> AllZero(f[i..])
      decreases count - i, more
    {
      var allZero := OnlyZeros(scratch, whole + i);
      assert scratch[whole + i..] == f[i..];
      if allZero {
        more := false;
      } else {
        PrintDigit(f, i);
        if i == 0 {
          Put(out, n, '.');
          n := n + 1;
        }
        Put(out, n, Char(scratch[whole + i]));
        n := n + 1;
        i := i + 1;
      }
    }
    LastDigit(f, i);
  }

  lemma NothingBehind(f: seq<nat>)
    requires Digits(f)
    ensures Behind(Chars(f[..0])) == []
  {}

  lemma PrintDigit(f: seq<nat>, i: nat)
    requires i < |f| && Digits(f)
    ensures Behind(Chars(f[..i + 1])) == (if i == 0 then ['.'] else Behind(Chars(f[..i]))) + [Char(f[i])]
  {
    hide Chars, Char;
    assert f[..i + 1] == f[..i] + [f[i]];
    CharsSnoc(f[..i], f[i]);
  }

  lemma LastDigit(f: seq<nat>, i: nat)
    requires i <= |f| && AllZero(f[i..]) && (i > 0 ==> !AllZero(f[i - 1..]))
    ensures StripTrailing(f) == f[..i]
  {
    StripTrailingAt(f, i);
  }

  /**
   Writes the amount with its decimals into a buffer of 39 characters and returns the length of the
   text; fails exactly when the amount is 10 to the 36 or more.
   */
  method ConvertHexAmountToDisplayable(amount: seq<byte>, decimals: nat, out: array<char>) returns (r: Result<nat>)
    requires decimals <= SCRATCH_SIZE && out.Length >= SCRATCH_SIZE + 2
    modifies out
    ensures r.Success? <==> Num(BitsOf(amount)) < Pow10(36)
    ensures r.Failure? ==> r.error == InvalidData
    ensures r.Success? ==> r.value <= SCRATCH_SIZE + 2 && Displays(out[..r.value], Num(BitsOf(amount)), decimals)
    ensures r.Success? ==> forall k | r.value <= k < out.Length :: out[k] == old(out[k])
  {
    hide Dec, Num, Pow10, Displays, WholeText, Behind, BitsOf, Chars, StripTrailing, Render;
    var scratch := new nat[SCRATCH_SIZE](_ => 0);
    var ok := ToDigits(amount, scratch);
    if !ok {
      return Failure(InvalidData);
    }
    var whole := SCRATCH_SIZE - decimals;
    ghost var s := scratch[..];
    var n := PrintWhole(scratch, whole, out);
    n := PrintFraction(scratch, whole, out, n);
    RenderIs(s[..whole], s[whole..]);
    Displayed(s, whole, out[..n], Num(BitsOf(amount)));
    r := Success(n);
  }

  /** The text is the amount, and no zero or point in it is superfluous. */
  ghost predicate Displays(text: string, amount: nat, decimals: nat) {
    IsAmount(text, decimals) && Parse(text, decimals) == amount && Canonical(text)
  }

  lemma RenderIs(whole: seq<nat>, fraction: seq<nat>)
    requires Digits(whole) && Digits(fraction)
    ensures Render(whole, fraction) == WholeText(whole) + Behind(Chars(StripTrailing(fraction)))
  {}

  lemma Displayed(s: seq<nat>, whole: nat, text: string, amount: nat)
    requires Digits(s) && whole <= |s| && text == Render(s[..whole], s[whole..]) && Dec(s) == amount
    ensures Displays(text, amount, |s| - whole)
  {
    hide Dec, Parse, IsAmount, Canonical, Render;
    RenderParses(s[..whole], s[whole..]);
    assert s == s[..whole] + s[whole..];
  }

  /** Amount and decimals determine the text, and text and decimals determine the amount. */
  lemma DisplayIsExact(text: string, amount: nat, text': string, amount': nat, decimals: nat)
    requires Displays(text, amount, decimals) && Displays(text', amount', decimals)
    ensures text == text' <==> amount == amount'
  {
    if amount == amount' {
      CanonicalUnique(text, text', decimals);
    }
  }

  /** The last n decimal digits of a number. */
  function DigitsFor(x: nat, n: nat): (s: seq<nat>)
    ensures |s| == n && Digits(s)
  {
    if n == 0 then [] else DigitsFor(x / 10, n - 1) + [x % 10]
  }

  lemma {:induction false} DecOfDigits(x: nat, n: nat)
    requires x < Pow10(n)
    ensures Dec(DigitsFor(x, n)) == x
  {
    if n > 0 {
      DecOfDigits(x / 10, n - 1);
      assert DigitsFor(x, n)[..n - 1] == DigitsFor(x / 10, n - 1);
    }
  }

  /** The text for an amount. */
  function AmountText(amount: nat, decimals: nat): string
    requires decimals <= SCRATCH_SIZE
  {
    var s := DigitsFor(amount, SCRATCH_SIZE);
    Render(s[..SCRATCH_SIZE - decimals], s[SCRATCH_SIZE - decimals..])
  }

  /** It is the only text that displays the amount. */
  lemma OnlyAmountText(text: string, amount: nat, decimals: nat)
    requires decimals <= SCRATCH_SIZE && amount < Pow10(36)
    ensures Displays(text, amount, decimals) <==> text == AmountText(amount, decimals)
  {
    hide Dec, Displays, Render, Pow10;
    PowStep(36);
    DecOfDigits(amount, SCRATCH_SIZE);
    Displayed(DigitsFor(amount, SCRATCH_SIZE), SCRATCH_SIZE - decimals, AmountText(amount, decimals), amount);
    if Displays(text, amount, decimals) {
      DisplayIsExact(text, amount, AmountText(amount, decimals), amount, decimals);
    }
  }
}
