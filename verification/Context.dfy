/** The state of signing one transaction (src/globals.h, SignTransactionContext_t). */
module Contexts {
  import opened Bits
  import opened Display
  import opened MessageFormat

  const CHAIN_ID_LENGTH := 4
  const TO_SIGN_LENGTH := 32
  const ADDRESS_LENGTH := 32
  const MAX_DATA_LEN := 1024

  class SignTransactionContext {
    var signWithChainId: bool
    var chainId: seq<byte>
    const toSign: array<byte>
    var addressStr: string
    const amountStr: array<char>
    var transactionIdStr: string
    var accountNumber: nat
    var originWalletType: byte
    var currentWalletType: byte
    var decimals: byte
    var address: seq<byte>
    var prependAddress: seq<byte>
    var wc: byte
    const data: array<byte>
    var dataOffset: nat
    var ticker: string

    constructor ()
      ensures Valid() && Cleared()
      ensures fresh(toSign) && fresh(amountStr) && fresh(data)
    {
      toSign := new byte[CHAIN_ID_LENGTH + TO_SIGN_LENGTH](_ => 0);
      amountStr := new char[AMOUNT_STR_SIZE](_ => '\0');
      data := new byte[MAX_DATA_LEN](_ => 0);
      signWithChainId, chainId := false, seq(CHAIN_ID_LENGTH, _ => 0);
      addressStr, transactionIdStr, ticker := "", "", "";
      accountNumber, originWalletType, currentWalletType, decimals, wc, dataOffset := 0, 0, 0, 0, 0, 0;
      address, prependAddress := seq(ADDRESS_LENGTH, _ => 0), seq(ADDRESS_LENGTH, _ => 0);
    }

    /** Back to the initial state. */
    method Reset()
      requires Valid()
      modifies this, toSign, amountStr, data
      ensures Valid() && Cleared()
    {
      ClearBytes(toSign);
      ClearBytes(data);
      ClearText(amountStr);
      signWithChainId, chainId := false, seq(CHAIN_ID_LENGTH, _ => 0);
      addressStr, transactionIdStr, ticker := "", "", "";
      accountNumber, originWalletType, currentWalletType, decimals, wc, dataOffset := 0, 0, 0, 0, 0, 0;
      address, prependAddress := seq(ADDRESS_LENGTH, _ => 0), seq(ADDRESS_LENGTH, _ => 0);
    }

    ghost predicate Valid()
      reads this
    {
      && toSign.Length == CHAIN_ID_LENGTH + TO_SIGN_LENGTH && amountStr.Length == AMOUNT_STR_SIZE
      && data.Length == MAX_DATA_LEN && toSign != data && dataOffset < MAX_DATA_LEN
      && |chainId| == CHAIN_ID_LENGTH && |address| == |prependAddress| == ADDRESS_LENGTH
    }

    /** Nothing received, nothing shown. */
    ghost predicate Cleared()
      reads this, amountStr
    {
      dataOffset == 0 && chainId == seq(CHAIN_ID_LENGTH, _ => 0) && Shown(EMPTY)
    }

    /** What the texts say. */
    ghost predicate Shown(screen: Screen)
      reads this, amountStr
    {
      && Says(screen.address, addressStr) && Says(screen.id, transactionIdStr)
      && (screen.amount.Blank? ==> Display.Shows(amountStr[..], ""))
      && (screen.amount.Text? ==> Display.Shows(amountStr[..], screen.amount.text))
    }

    function Currency(): Display.Currency
      reads this
    {
      Display.Currency.Currency(decimals, ticker)
    }
  }

  method ClearBytes(a: array<byte>)
    modifies a
    ensures forall i | 0 <= i < a.Length :: a[i] == 0
  {
    forall i | 0 <= i < a.Length { a[i] := 0; }
  }

  ghost predicate Says(line: Line, text: string) {
    match line
    case Blank => text == ""
    case Garbled => true
    case Text(t) => text == t
  }
}
