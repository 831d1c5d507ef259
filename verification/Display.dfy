/** What the user is shown of a transaction (src/message.c, set_dst_address, set_amount, set_transaction_id). */
module Display {
  import opened Bits
  import opened Outcomes
  import opened Decimals
  import opened Amounts

  const AMOUNT_STR_SIZE := 40
  const NORMAL_FLAG := 3
  const ALL_BALANCE_FLAG := 128
  const ALL_BALANCE_AND_DELETE_FLAG := 160

  // Addresses.

  function HexDigit(d: nat): char
    requires d < 16
  {
    if d < 10 then '0' + d as char else 'A' + (d - 10) as char
  }

  function HexByte(b: byte): (t: string)
    ensures |t| == 2
  {
    [HexDigit(b / 16), HexDigit(b % 16)]
  }

  function Hex(bytes: seq<byte>): (t: string)
    ensures |t| == 2 * |bytes|
  {
    if bytes == [] then [] else Hex(bytes[..|bytes| - 1]) + HexByte(bytes[|bytes| - 1])
  }

  lemma HexDigitInjective(c: nat, d: nat)
    requires c < 16 && d < 16 && HexDigit(c) == HexDigit(d)
    ensures c == d
  {
    assert c < 10 ==> HexDigit(c) as nat == '0' as nat + c;
    assert d < 10 ==> HexDigit(d) as nat == '0' as nat + d;
    assert c >= 10 ==> HexDigit(c) as nat == 'A' as nat + c - 10;
    assert d >= 10 ==> HexDigit(d) as nat == 'A' as nat + d - 10;
  }

  lemma HexByteInjective(a: byte, b: byte)
    requires HexByte(a) == HexByte(b)
    ensures a == b
  {
    assert HexByte(a)[0] == HexByte(b)[0] && HexByte(a)[1] == HexByte(b)[1];
    HexDigitInjective(a / 16, b / 16);
    HexDigitInjective(a % 16, b % 16);
  }

  lemma {:induction false} HexInjective(a: seq<byte>, b: seq<byte>)
    requires Hex(a) == Hex(b)
    ensures a == b
  {
    hide HexByte;
    if a != [] {
      var n := |a| - 1;
      assert Hex(a)[..2 * n] == Hex(a[..n]) && Hex(b)[..2 * n] == Hex(b[..n]);
      assert Hex(a)[2 * n..] == HexByte(a[n]) && Hex(b)[2 * n..] == HexByte(b[n]);
      HexInjective(a[..n], b[..n]);
      HexByteInjective(a[n], b[n]);
    }
  }

  /** A number without leading zeros. */
  function Decimal(n: nat): (t: string)
    ensures t != [] && AllDigits(t)
  {
    if n < 10 then [Char(n)] else Decimal(n / 10) + [Char(n % 10)]
  }

  lemma {:induction false} DecimalInjective(m: nat, n: nat)
    requires Decimal(m) == Decimal(n)
    ensures m == n
  {
    var s, t := Decimal(m), Decimal(n);
    assert s[|s| - 1] == Char(m % 10) && t[|t| - 1] == Char(n % 10);
    if m >= 10 || n >= 10 {
      assert m >= 10 ==> s[..|s| - 1] == Decimal(m / 10);
      assert n >= 10 ==> t[..|t| - 1] == Decimal(n / 10);
      assert m >= 10 && n >= 10;
      DecimalInjective(m / 10, n / 10);
    }
  }

  /** A workchain byte as a signed number. */
  function SignedText(wc: byte): (t: string) {
    if wc < 0x80 then Decimal(wc) else "-" + Decimal(0x100 - wc)
  }

  lemma SignedTextInjective(a: byte, b: byte)
    requires SignedText(a) == SignedText(b)
    ensures a == b
  {
    var s, t := SignedText(a), SignedText(b);
    assert a < 0x80 ==> s[0] != '-';
    assert b < 0x80 ==> t[0] != '-';
    if a < 0x80 {
      DecimalInjective(a, b);
    } else {
      assert s[1..] == Decimal(0x100 - a) && t[1..] == Decimal(0x100 - b);
      DecimalInjective(0x100 - a, 0x100 - b);
    }
  }

  /** Workchain, colon, address in hexadecimal. */
  function AddressText(wc: byte, address: seq<byte>): string {
    SignedText(wc) + ":" + Hex(address)
  }

  /** The text determines the workchain and the address. */
  lemma AddressTextInjective(wc: byte, address: seq<byte>, wc': byte, address': seq<byte>)
    requires |address| == |address'| && AddressText(wc, address) == AddressText(wc', address')
    ensures wc == wc' && address == address'
  {
    hide Hex, SignedText;
    var t, n := AddressText(wc, address), 2 * |address|;
    assert t[|t| - n..] == Hex(address) && t[|t| - n..] == Hex(address');
    assert t[..|t| - n - 1] == SignedText(wc) && t[..|t| - n - 1] == SignedText(wc');
    HexInjective(address, address');
    SignedTextInjective(wc, wc');
  }

  /** The number a hexadecimal digit stands for. */
  function HexValue(c: char): nat {
    if '0' <= c <= '9' then c as nat - '0' as nat
    else if 'A' <= c <= 'F' then c as nat - 'A' as nat + 10
    else 16
  }

  lemma HexDigitValue(d: nat)
    requires d < 16
    ensures HexValue(HexDigit(d)) == d
  {
    assert d < 10 ==> HexDigit(d) as nat == '0' as nat + d;
    assert d >= 10 ==> HexDigit(d) as nat == 'A' as nat + d - 10;
  }

  /** Two digits for each byte, in the order of the bytes, the high half of a byte first. */
  lemma {:induction false} HexReads(bytes: seq<byte>, i: nat)
    requires i < |bytes|
    ensures HexValue(Hex(bytes)[2 * i]) < 16 && HexValue(Hex(bytes)[2 * i + 1]) < 16
    ensures 16 * HexValue(Hex(bytes)[2 * i]) + HexValue(Hex(bytes)[2 * i + 1]) == bytes[i]
  {
    var n := |bytes| - 1;
    if i < n {
      HexReads(bytes[..n], i);
    } else {
      HexDigitValue(bytes[n] / 16);
      HexDigitValue(bytes[n] % 16);
    }
  }

  /** The number that decimal digits, behind a minus sign or not, denote. */
  function Signed(t: string): int
    requires t != [] && AllDigits(if t[0] == '-' then t[1..] else t)
  {
    if t[0] == '-' then 0 - Dec(DigitsOf(t[1..])) else Dec(DigitsOf(t))
  }

  lemma {:induction false} DecimalReads(n: nat)
    ensures Dec(DigitsOf(Decimal(n))) == n && (|Decimal(n)| > 1 ==> Decimal(n)[0] != '0')
  {
    var t := Decimal(n);
    if n >= 10 {
      DecimalReads(n / 10);
      assert DigitsOf(t)[..|t| - 1] == DigitsOf(Decimal(n / 10)) && DigitOf(t[|t| - 1]) == n % 10;
      assert t[0] == Decimal(n / 10)[0];
      assert n / 10 < 10 ==> Decimal(n / 10) == [Char(n / 10)];
    } else {
      assert DigitsOf(t) == [n] && [n][..0] == [];
    }
  }

  /** The workchain byte is read as a signed number, and no digit in front of it is superfluous. */
  lemma SignedTextReads(wc: byte)
    ensures var t := SignedText(wc);
            && t != [] && AllDigits(if t[0] == '-' then t[1..] else t)
            && Signed(t) == (if wc < 0x80 then wc else wc - 0x100)
            && (|t| > 1 ==> t[0] != '0') && (wc >= 0x80 ==> t[0] == '-' && t[1] != '0')
  {
    hide Dec;
    DecimalReads(wc);
    var m := 0x100 - wc;
    DecimalReads(m);
    assert wc >= 0x80 ==> SignedText(wc)[1..] == Decimal(m);
    assert wc < 0x80 ==> IsDigit(SignedText(wc)[0]);
    assert m < 10 ==> Decimal(m) == [Char(m)];
  }

  /** The line of an address is the workchain, a colon, and the address in hexadecimal. */
  lemma AddressTextReads(wc: byte, address: seq<byte>)
    ensures var t := AddressText(wc, address);
            var n := |t| - 2 * |address| - 1;
            && 0 < n && t[n] == ':' && AllDigits(if t[0] == '-' then t[1..n] else t[..n])
            && Signed(t[..n]) == (if wc < 0x80 then wc else wc - 0x100)
            && (n > 1 ==> t[0] != '0') && (wc >= 0x80 ==> t[1] != '0')
            && forall i | 0 <= i < |address| ::
                 16 * HexValue(t[n + 1 + 2 * i]) + HexValue(t[n + 2 + 2 * i]) == address[i]
  {
    hide Hex, SignedText, Dec, HexValue;
    SignedTextReads(wc);
    var t, s, h := AddressText(wc, address), SignedText(wc), Hex(address);
    assert t[..|s|] == s && (t[0] == '-' ==> t[1..|s|] == s[1..]);
    forall i | 0 <= i < |address|
      ensures 16 * HexValue(t[|s| + 1 + 2 * i]) + HexValue(t[|s| + 2 + 2 * i]) == address[i]
    {
      HexReads(address, i);
      assert t[|s| + 1 + 2 * i] == h[2 * i] && t[|s| + 2 + 2 * i] == h[2 * i + 1];
    }
  }

  // Amounts.

  /** What an amount is counted in. */
  datatype Currency = Currency(decimals: byte, ticker: string)

  /** The amount line; it fails when the flag is unknown, the amount too large or the text too long. */
  function AmountLine(amount: nat, flags: nat, currency: Currency): Result<string> {
    if flags == NORMAL_FLAG then
      if currency.decimals > SCRATCH_SIZE then Failure(Unmodelled)
      else if amount >= Pow10(36) then Failure(InvalidData)
      else
        var text := AmountText(amount, currency.decimals);
        if |text| + 1 + |currency.ticker| > AMOUNT_STR_SIZE then Failure(InvalidMessage)
        else Success(text + " " + currency.ticker)
    else if flags == ALL_BALANCE_FLAG then Success("All balance")
    else if flags == ALL_BALANCE_AND_DELETE_FLAG then Success("All balance and delete account")
    else Failure(InvalidFlag)
  }

  /** A normal amount line determines the amount. */
  lemma AmountLineInjective(a: nat, b: nat, currency: Currency)
    requires AmountLine(a, NORMAL_FLAG, currency).Success?
    ensures AmountLine(a, NORMAL_FLAG, currency) == AmountLine(b, NORMAL_FLAG, currency) <==> a == b
  {
    if AmountLine(a, NORMAL_FLAG, currency) == AmountLine(b, NORMAL_FLAG, currency) {
      SameLineSameAmount(a, b, currency);
    }
  }

  lemma SameLineSameAmount(a: nat, b: nat, currency: Currency)
    requires AmountLine(a, NORMAL_FLAG, currency).Success?
    requires AmountLine(a, NORMAL_FLAG, currency) == AmountLine(b, NORMAL_FLAG, currency)
    ensures a == b
  {
    hide Pow10, AmountText, Displays;
    var line, n := AmountLine(a, NORMAL_FLAG, currency).value, |currency.ticker|;
    var s, t := AmountText(a, currency.decimals), AmountText(b, currency.decimals);
    assert line[..|line| - n - 1] == s && line[..|line| - n - 1] == t;
    OnlyAmountText(s, a, currency.decimals);
    OnlyAmountText(t, b, currency.decimals);
    DisplayIsExact(s, a, t, b, currency.decimals);
  }

  /** Every amount that fits 36 digits has a text. */
  lemma SomeText(amount: nat, decimals: nat) returns (text: string)
    requires decimals <= 37 && amount < Pow10(36)
    ensures Displays(text, amount, decimals)
  {
    hide Pow10, AmountText, Displays;
    text := AmountText(amount, decimals);
    OnlyAmountText(text, amount, decimals);
  }

  /** The line for flags of 3: the text that displays the amount with the currency's decimals, and the ticker. */
  lemma NormalLine(text: string, amount: nat, currency: Currency)
    requires currency.decimals <= 37 && amount < Pow10(36) && Displays(text, amount, currency.decimals)
    ensures AmountLine(amount, 3, currency)
         == if |text| + 1 + |currency.ticker| > 40 then Failure(InvalidMessage)
            else Success(text + " " + currency.ticker)
  {
    hide Pow10, AmountText, Displays;
    OnlyAmountText(text, amount, currency.decimals);
  }

  /** Whenever there is a line for flags of 3, it is of this kind. */
  lemma NormalLineShows(amount: nat, currency: Currency) returns (text: string)
    requires AmountLine(amount, 3, currency).Success?
    ensures currency.decimals <= 37 && amount < Pow10(36) && Displays(text, amount, currency.decimals)
    ensures AmountLine(amount, 3, currency).value == text + " " + currency.ticker
    ensures |text| + 1 + |currency.ticker| <= 40
  {
    hide Pow10, AmountText, Displays;
    text := SomeText(amount, currency.decimals);
    NormalLine(text, amount, currency);
  }

  /** Amounts that do not fit are refused, and so are flags other than 3, 128 and 160. */
  lemma OtherFlags(amount: nat, flags: nat, currency: Currency)
    ensures flags == 128 ==> AmountLine(amount, flags, currency) == Success("All balance")
    ensures flags == 160 ==> AmountLine(amount, flags, currency) == Success("All balance and delete account")
    ensures flags != 3 && flags != 128 && flags != 160 ==> AmountLine(amount, flags, currency) == Failure(InvalidFlag)
    ensures flags == 3 && currency.decimals <= 37 && amount >= Pow10(36) ==>
              AmountLine(amount, flags, currency) == Failure(InvalidData)
  {
    hide Pow10;
  }

  /** An amount of zero has the shortest text there is. */
  lemma ZeroText(decimals: nat)
    requires decimals <= SCRATCH_SIZE
    ensures AmountText(0, decimals) == "0"
  {
    hide Pow10, AmountText;
    var t := "0";
    assert IntegerPart(t) == t && FractionPart(t) == [];
    assert DigitsOf(t) == [0] && [0][..0] == [];
    OnlyAmountText(t, 0, decimals);
  }

  /** If the line of any amount can be shown, that of zero can. */
  lemma ZeroIsShown(amount: nat, currency: Currency)
    requires AmountLine(amount, NORMAL_FLAG, currency).Success?
    ensures AmountLine(0, NORMAL_FLAG, currency).Success?
  {
    hide AmountText, Displays, IsAmount;
    ZeroText(currency.decimals);
    OnlyAmountText(AmountText(amount, currency.decimals), amount, currency.decimals);
    assert AmountText(amount, currency.decimals) != [] by {
      assert Displays(AmountText(amount, currency.decimals), amount, currency.decimals);
      DisplayedIsNotEmpty(AmountText(amount, currency.decimals), amount, currency.decimals);
    }
  }

  lemma DisplayedIsNotEmpty(text: string, amount: nat, decimals: nat)
    requires Displays(text, amount, decimals)
    ensures text != []
  {}

  /** Amounts from 2 to the 122 on cannot be shown. */
  lemma HugeAmount(amount: nat, currency: Currency)
    requires amount >= Pow2(122)
    ensures AmountLine(amount, NORMAL_FLAG, currency).Failure?
  {
    hide Pow2, Pow10, AmountText;
    ThousandsBound(12);
    Pow2Add(120, 2);
    Pow2Values();
  }

  lemma {:induction false} ThousandsBound(k: nat)
    ensures Pow10(3 * k) <= Pow2(10 * k)
  {
    if k > 0 {
      ThousandsBound(k - 1);
      hide Pow2;
      Pow2Add(10 * k - 10, 10);
      assert Pow2(10) == 1024 by { Pow2Add(8, 2); Pow2Values(); }
      var p := Pow10(3 * k - 3);
      assert Pow10(3 * k) == 10 * Pow10(3 * k - 1) == 10 * (10 * Pow10(3 * k - 2)) == 1000 * p;
    }
  }

  /** The other lines do not depend on the amount. */
  lemma OtherLines(amount: nat, flags: nat, currency: Currency)
    requires flags != NORMAL_FLAG
    ensures AmountLine(amount, flags, currency).Success?
            <==> flags == ALL_BALANCE_FLAG || flags == ALL_BALANCE_AND_DELETE_FLAG
  {}

  /** A text in a buffer that is otherwise cleared. */
  ghost predicate Shows(buf: seq<char>, text: string) {
    && |text| <= |buf| && buf[..|text|] == text
    && forall k | |text| <= k < |buf| :: buf[k] == '\0'
  }

  method ClearText(out: array<char>)
    modifies out
    ensures Shows(out[..], [])
  {
    for i := 0 to out.Length
      invariant forall k | 0 <= k < i :: out[k] == '\0'
    {
      out[i] := '\0';
    }
  }

  /** Adds to the text in a cleared buffer. */
  method AddText(out: array<char>, at: nat, more: string, ghost text: string)
    requires at == |text| && Shows(out[..], text) && |text| + |more| <= out.Length
    modifies out
    ensures Shows(out[..], text + more)
  {
    for i := 0 to |more|
      invariant Shows(out[..], text + more[..i])
    {
      out[at + i] := more[i];
      assert more[..i + 1] == more[..i] + [more[i]];
    }
    assert more[..|more|] == more;
  }

  /** Writes the amount line. */
  method SetAmount(out: array<char>, amount: seq<byte>, flags: nat, currency: Currency) returns (r: Result<()>)
    requires out.Length == AMOUNT_STR_SIZE
    modifies out
    ensures var line := AmountLine(Num(BitsOf(amount)), flags, currency);
            if line.Success? then r.Success? && Shows(out[..], line.value) else r == Failure(line.error)
  {
    hide Num, BitsOf, Pow10, AmountText, Shows;
    ClearText(out);
    assert forall text: string :: [] + text == text;
    if flags == NORMAL_FLAG {
      r := SetNormalAmount(out, amount, currency);
    } else if flags == ALL_BALANCE_FLAG {
      AddText(out, 0, "All balance", []);
      r := Success(());
    } else if flags == ALL_BALANCE_AND_DELETE_FLAG {
      AddText(out, 0, "All balance and delete account", []);
      r := Success(());
    } else {
      r := Failure(InvalidFlag);
    }
  }

  method SetNormalAmount(out: array<char>, amount: seq<byte>, currency: Currency) returns (r: Result<()>)
    requires out.Length == AMOUNT_STR_SIZE && Shows(out[..], [])
    modifies out
    ensures var line := AmountLine(Num(BitsOf(amount)), NORMAL_FLAG, currency);
            if line.Success? then r.Success? && Shows(out[..], line.value) else r == Failure(line.error)
  {
    hide Num, BitsOf, Pow10, AmountText, Displays;
    if currency.decimals > SCRATCH_SIZE {
      return Failure(Unmodelled);
    }
    var textSize :- ConvertHexAmountToDisplayable(amount, currency.decimals, out);
    ghost var text := out[..textSize];
    OnlyAmountText(text, Num(BitsOf(amount)), currency.decimals);
    assert Shows(out[..], text);
    var _ :- Validate(AMOUNT_STR_SIZE >= textSize + 1 + |currency.ticker|, InvalidMessage);
    AddText(out, textSize, " ", text);
    AddText(out, textSize + 1, currency.ticker, text + " ");
    r := Success(());
  }
}
