/** Two of the transactions that the repository's own tests sign (tests/test_sign_cmd.py), and a wallet of its code. */
module TestVectors {
  import opened Bits
  import opened Seqs
  import opened Outcomes
  import opened Cells
  import opened CellHash
  import opened SliceWriter
  import opened Fields
  import opened Slices
  import opened BocFormat
  import opened BocContexts
  import opened Prepending
  import opened HashmapLabels
  import opened Contracts
  import opened Decimals
  import opened Amounts
  import opened Display
  import opened MessageFormat
  import opened Signing
  import opened SignTransactions
  import opened Layouts
  import opened Requests

  // Bytes that do not start at a byte boundary.

  /** The byte that starts shift bits behind the start of hi; p is 2 to the shift, q is 2 to the 8 minus shift. */
  function Across(hi: byte, lo: byte, p: nat, q: nat): nat
    requires q > 0
  {
    hi % q * p + lo / q
  }

  lemma AcrossBits(hi: byte, lo: byte, shift: nat, p: nat, q: nat)
    requires 0 < shift < 8 && p == Pow2(shift) && q == Pow2(8 - shift)
    ensures Across(hi, lo, p, q) < 0x100
    ensures ToBits(Across(hi, lo, p, q), 8) == ToBits(hi, 8)[shift..] + ToBits(lo, 8)[..shift]
  {
    hide ToBits, Num, Pow2;
    var a, b := ToBits(hi, 8), ToBits(lo, 8);
    Pow2Values();
    NumToBitsSmall(hi, 8);
    NumToBitsSmall(lo, 8);
    NumSplit(a, shift, q);
    NumSplit(b, shift, q);
    NumAppend(a[shift..], b[..shift]);
    NumBound(a[shift..] + b[..shift]);
    ToBitsNum(a[shift..] + b[..shift]);
  }

  lemma NumSplit(a: seq<bool>, i: nat, q: nat)
    requires i <= |a| && q == Pow2(|a| - i)
    ensures Num(a[..i]) == Num(a) / q && Num(a[i..]) == Num(a) % q
  {
    hide Num, Pow2;
    assert a == a[..i] + a[i..];
    NumAppend(a[..i], a[i..]);
    NumBound(a[i..]);
    DivModUnique(Num(a), q, Num(a[..i]), Num(a[i..]));
  }

  /** Every byte of out is across two bytes of the piece. */
  ghost predicate IsMoved(piece: seq<byte>, out: seq<byte>, p: nat, q: nat)
    requires q > 0
  {
    |piece| == |out| + 1 && forall m | 0 <= m < |out| :: out[m] == Across(piece[m], piece[m + 1], p, q)
  }

  lemma {:induction false} MovedBits(piece: seq<byte>, out: seq<byte>, shift: nat, p: nat, q: nat)
    requires 0 < shift < 8 && p == Pow2(shift) && q == Pow2(8 - shift) && IsMoved(piece, out, p, q)
    ensures BitsOf(piece)[shift..shift + 8 * |out|] == BitsOf(out)
  {
    hide BitsOf, ToBits, Across, Pow2;
    if out == [] {
      assert BitsOf([]) == [];
    } else {
      var n := |out| - 1;
      MovedBits(piece[..n + 1], out[..n], shift, p, q);
      AcrossBits(piece[n], piece[n + 1], shift, p, q);
      TwoBytes(piece, n);
      Fields.Across(BitsOf(piece), 8 * n, ToBits(piece[n], 8), ToBits(piece[n + 1], 8), shift, 8 * n + shift);
      BitsOfPrefix(piece, n + 1, 8 * n + 8);
      SliceOfSlice(BitsOf(piece), 0, 8 * n + 8, shift, shift + 8 * n);
      BitsOfSnoc(out, n, out[n]);
      assert out[n := out[n]][..n + 1] == out;
      SlicesJoin(BitsOf(piece), shift, shift + 8 * n, shift + 8 * n + 8);
    }
  }

  /** The bits of a piece of a buffer, moved by shift bits. */
  lemma PieceBits(buf: seq<byte>, k: nat, piece: seq<byte>, out: seq<byte>, shift: nat, p: nat, q: nat)
    requires 0 < shift < 8 && p == Pow2(shift) && q == Pow2(8 - shift)
    requires k + |piece| <= |buf| && buf[k..k + |piece|] == piece && IsMoved(piece, out, p, q)
    ensures BitsOf(buf)[8 * k + shift..8 * k + shift + 8 * |out|] == BitsOf(out)
  {
    hide BitsOf, ToBits, Pow2, IsMoved;
    assert |piece| == |out| + 1 by { MovedSize(piece, out, p, q); }
    MovedBits(piece, out, shift, p, q);
    BitsOfSlice(buf, k, k + |piece|);
    SliceOfSlice(BitsOf(buf), 8 * k, 8 * (k + |piece|), shift, shift + 8 * |out|);
  }

  lemma MovedSize(piece: seq<byte>, out: seq<byte>, p: nat, q: nat)
    requires q > 0 && IsMoved(piece, out, p, q)
    ensures |piece| == |out| + 1
  {}

  lemma FourMoved(piece: seq<byte>, out: seq<byte>, p: nat, q: nat)
    requires |piece| == 5 && |out| == 4 && q > 0
    requires out[0] == Across(piece[0], piece[1], p, q) && out[1] == Across(piece[1], piece[2], p, q)
    requires out[2] == Across(piece[2], piece[3], p, q) && out[3] == Across(piece[3], piece[4], p, q)
    ensures IsMoved(piece, out, p, q)
  {
    hide Across;
    forall m | 0 <= m < 4
      ensures out[m] == Across(piece[m], piece[m + 1], p, q)
    {
      assert m == 0 || m == 1 || m == 2 || m == 3;
    }
  }

  lemma EightMoved(piece: seq<byte>, out: seq<byte>, p: nat, q: nat)
    requires |piece| == 9 && |out| == 8 && q > 0
    requires IsMoved(piece[..5], out[..4], p, q) && IsMoved(piece[4..], out[4..], p, q)
    ensures IsMoved(piece, out, p, q)
  {
    hide Across;
    forall m | 0 <= m < 8
      ensures out[m] == Across(piece[m], piece[m + 1], p, q)
    {
      if m < 4 {
        assert out[..4][m] == Across(piece[..5][m], piece[..5][m + 1], p, q);
      } else {
        assert out[4..][m - 4] == Across(piece[4..][m - 4], piece[4..][m - 3], p, q);
      }
    }
  }

  // The confirmation of test_sign_tx_confirm.

  /** A public key and time stamps. */
  const CONFIRM_FRONT: seq<byte> :=
    [0xB3]
    + [0xBA, 0xDB, 0x53, 0x5D, 0x1B, 0x88, 0xD0, 0xE4, 0xD6, 0x0D, 0x31, 0x65, 0x67, 0xB1, 0x44]
    + [0x85, 0x68, 0xEF, 0xAF, 0xDF, 0x21, 0x84, 0x6E, 0xCD, 0x0B, 0xA0, 0x2E, 0x3A, 0xDA, 0xBF, 0x97]
    + [0x00, 0x00, 0x00, 0xCA, 0x7E, 0x39, 0x5A, 0xA2, 0xB3, 0xD6, 0x95, 0xF7]

  const CONFIRM_CALL: seq<byte> := [0x8D, 0x53, 0xA0, 0x76] + [0xB2, 0x4A, 0x0D, 0xE6, 0x21, 0xE6, 0x76, 0x7F, 0xC0]

  const CONFIRM_ROOT: seq<byte> := CONFIRM_FRONT + CONFIRM_CALL

  /** Account 0, wallet type 2, 9 decimals, EVER, no metadata; one cell. */
  const CONFIRM_HEADER: seq<byte> := [0, 0, 0, 0, 2, 9, 4, 0x45, 0x56, 0x45, 0x52, 0]
  const CONFIRM_BAG: seq<byte> := [1, 1, 1, 1, 0, 0x3B, 0, 0x00, 0x71] + CONFIRM_ROOT

  const CONFIRM_ID: seq<byte> := [0x64, 0x94, 0x1B, 0xCC, 0x43, 0xCC, 0xEC, 0xFF]

  lemma ConfirmSizes()
    ensures |CONFIRM_FRONT| == 44 && |CONFIRM_CALL| == 13 && |CONFIRM_ID| == 8 && CONFIRM_FRONT[0] == 0xB3
  {}

  lemma ConfirmMoved()
    ensures IsMoved(CONFIRM_CALL[..5], [0x1A, 0xA7, 0x40, 0xED], 2, 128)
    ensures IsMoved(CONFIRM_CALL[4..], CONFIRM_ID, 2, 128)
  {
    hide IsMoved;
    FourMoved([0x8D, 0x53, 0xA0, 0x76, 0xB2], [0x1A, 0xA7, 0x40, 0xED], 2, 128);
    assert CONFIRM_CALL[..5] == [0x8D, 0x53, 0xA0, 0x76, 0xB2];
    var piece: seq<byte> := [0xB2, 0x4A, 0x0D, 0xE6, 0x21, 0xE6, 0x76, 0x7F, 0xC0];
    assert CONFIRM_CALL[4..] == piece;
    EightLiteral(piece, CONFIRM_ID, [0xB2, 0x4A, 0x0D, 0xE6, 0x21], [0x21, 0xE6, 0x76, 0x7F, 0xC0],
                 [0x64, 0x94, 0x1B, 0xCC], [0x43, 0xCC, 0xEC, 0xFF], 2, 128);
  }

  /** Eight bytes in two halves. */
  lemma EightLiteral(piece: seq<byte>, out: seq<byte>, a: seq<byte>, b: seq<byte>, c: seq<byte>, d: seq<byte>, p: nat,
                     q: nat)
    requires q > 0 && |a| == |b| == 5 && |c| == |d| == 4 && a[4] == b[0] && piece == a + b[1..] && out == c + d
    requires c[0] == Across(a[0], a[1], p, q) && c[1] == Across(a[1], a[2], p, q)
    requires c[2] == Across(a[2], a[3], p, q) && c[3] == Across(a[3], a[4], p, q)
    requires d[0] == Across(b[0], b[1], p, q) && d[1] == Across(b[1], b[2], p, q)
    requires d[2] == Across(b[2], b[3], p, q) && d[3] == Across(b[3], b[4], p, q)
    ensures IsMoved(piece, out, p, q)
  {
    hide Across, IsMoved;
    FourMoved(a, c, p, q);
    FourMoved(b, d, p, q);
    assert piece[..5] == a && piece[4..] == b && out[..4] == c && out[4..] == d;
    EightMoved(piece, out, p, q);
  }

  /** What is behind 44 bytes and a bit. */
  lemma NumberBits(root: seq<byte>, number: seq<byte>)
    requires |root| >= 49 && root[0] >= 0x80 && |number| == 4 && IsMoved(root[44..49], number, 2, 128)
    ensures BitsOf(root)[0] && BitsOf(root)[353..385] == BitsOf(number)
  {
    hide BitsOf, ToBits, Pow2, IsMoved;
    Pow2Values();
    TypeByte(root);
    PieceBits(root, 44, root[44..49], number, 1, 2, 128);
  }

  lemma ConfirmBits()
    ensures |CONFIRM_ROOT| == 57
    ensures var bits := BitsOf(CONFIRM_ROOT);
            bits[0] && bits[353..385] == BitsOf([0x1A, 0xA7, 0x40, 0xED]) && bits[385..449] == BitsOf(CONFIRM_ID)
  {
    hide BitsOf, Pow2, IsMoved;
    ConfirmSizes();
    ConfirmMoved();
    hide CONFIRM_FRONT, CONFIRM_CALL, CONFIRM_ID;
    assert CONFIRM_ROOT[44..49] == CONFIRM_CALL[..5] && CONFIRM_ROOT[48..57] == CONFIRM_CALL[4..];
    NumberBits(CONFIRM_ROOT, [0x1A, 0xA7, 0x40, 0xED]);
    Pow2Values();
    PieceBits(CONFIRM_ROOT, 48, CONFIRM_CALL[4..], CONFIRM_ID, 1, 2, 128);
  }

  /** The number of four bytes. */
  lemma FourBytes(b: seq<byte>)
    requires |b| == 4
    ensures Num(BitsOf(b)) == U32(b)
  {
    hide BitsOf, Num;
    AccountIs(b);
    assert b[..4] == b;
  }

  /** The cell is all of the bag. */
  lemma ConfirmParses()
    ensures ParseBoc(CONFIRM_BAG) == Success([CellView(0, 0x71, CONFIRM_ROOT, [])])
  {
    hide ParseBoc, ValidCells;
    ConfirmSizes();
    hide CONFIRM_FRONT, CONFIRM_CALL;
    var cell := CellView(0, 0x71, CONFIRM_ROOT, []);
    assert ValidCells([cell], 0, 1) by { OneCell(cell); }
    BagLayout(1, 1, 0, [0x3B], 0, [cell]);
    OneEncoding(cell);
    assert CONFIRM_BAG == [1, 1, 1, 1, 0] + [0x3B] + [0] + EncodeAll([cell]);
  }

  lemma OneCell(cell: CellView)
    requires cell.d1 == 0 && cell.Shaped()
    ensures ValidCells([cell], 0, 1) && Forward([cell], 16)
  {
    hide DataSize;
  }

  lemma OneEncoding(cell: CellView)
    ensures EncodeAll([cell]) == [cell.d1, cell.d2] + cell.data + cell.refs
  {
    EncodeFirst(cell, []);
    assert [cell] + [] == [cell] && EncodeAll([]) == [] && cell.Encode() + [] == cell.Encode();
  }

  lemma EncodeFirst(first: CellView, others: seq<CellView>)
    ensures EncodeAll([first] + others) == first.Encode() + EncodeAll(others)
  {
    assert ([first] + others)[1..] == others;
  }

  /** The message confirms the transaction with this number. */
  lemma ConfirmIsShown(wc: byte, own: seq<byte>, currency: Currency)
    ensures Message(2, [CellView(0, 0x71, CONFIRM_ROOT, [])], wc, own, currency)
         == Success(Screen(Confirm, Blank, Blank, Text(Hex(CONFIRM_ID))))
  {
    ConfirmBits();
    hide BitsOf, ContractHeader, MultisigParams, Num, Hex;
    var bits := BitsOf(CONFIRM_ROOT);
    HeaderBits(bits);
    FourBytes([0x1A, 0xA7, 0x40, 0xED]);
    assert U32([0x1A, 0xA7, 0x40, 0xED]) == 447168749;
    assert bits[385..] == bits[385..449] + bits[449..];
    ConfirmIsRead(CONFIRM_ID, bits[449..], wc, own, currency);
  }

  /**
   The test's bytes ask the wallet of type 2 to confirm the transaction 64941BCC43CCECFF, and to sign the
   SHA-256 of the descriptors and the data of its one cell.
   */
  lemma ConfirmVector(sha: Sha256, addresses: Addresses)
    ensures var own := addresses(0, 2);
            own.Success? ==>
              var run := Run([CONFIRM_HEADER + CONFIRM_BAG], 1, addresses);
              && run.Success? && run.value.1 == CONFIRM_BAG
              && !run.value.0.withChainId
              && Outcome(sha, run.value.0, CONFIRM_BAG)
                 == Success(Signed(Screen(Confirm, Blank, Blank, Text(Hex(CONFIRM_ID))),
                                   sha([0x00, 0x71] + CONFIRM_ROOT)))
  {
    var own := addresses(0, 2);
    if own.Success? {
      ConfirmRequest(addresses);
      ConfirmOutcome(sha, own.value);
    }
  }

  ghost function ConfirmRequestFor(own: Hash): (request: Request)
    ensures request.Valid()
  {
    Request(2, 0, own, own, Currency.Currency(9, "EVER"), false, [0, 0, 0, 0])
  }

  lemma ConfirmRequest(addresses: Addresses)
    requires addresses(0, 2).Success?
    ensures Run([CONFIRM_HEADER + CONFIRM_BAG], 1, addresses)
         == Success((ConfirmRequestFor(addresses(0, 2).value), CONFIRM_BAG))
  {
    hide ParseStart, Num, BitsOf;
    var none := Optional([], [], [], []);
    assert none.Announced(0) by { assert 0 == 16 * 0; }
    assert Characters("EVER") == [0x45, 0x56, 0x45, 0x52];
    assert HeaderBytes([0, 0, 0, 0], 2, 9, "EVER", 0, none) == CONFIRM_HEADER;
    assert Num(BitsOf([0, 0, 0, 0])) == 0 by { FourBytes([0, 0, 0, 0]); }
    RequestIsRead([0, 0, 0, 0], 2, 9, "EVER", 0, none, CONFIRM_BAG, addresses);
    OneChunk(CONFIRM_HEADER + CONFIRM_BAG);
    assert (CONFIRM_HEADER + CONFIRM_BAG)[12..] == CONFIRM_BAG;
    assert |CONFIRM_BAG| == 66;
  }

  lemma OneChunk(chunk: seq<byte>)
    ensures Flatten([chunk][..1]) == chunk
  {
    assert [chunk][..1] == [chunk] && [chunk][..0] == [] && Flatten([]) == [];
    assert [] + chunk == chunk;
  }

  lemma ConfirmOutcome(sha: Sha256, own: Hash)
    ensures Outcome(sha, ConfirmRequestFor(own), CONFIRM_BAG)
         == Success(Signed(Screen(Confirm, Blank, Blank, Text(Hex(CONFIRM_ID))), sha([0x00, 0x71] + CONFIRM_ROOT)))
  {
    hide ParseBoc, Hex, Message, Eval, Forward, Unfold;
    var cells := [CellView(0, 0x71, CONFIRM_ROOT, [])];
    assert |CONFIRM_ROOT| == 57;
    ConfirmParses();
    ConfirmIsShown(0, own, Currency.Currency(9, "EVER"));
    OneCell(cells[0]);
    OneHash(sha, cells[0]);
  }

  lemma OneHash(sha: Sha256, cell: CellView)
    requires cell.d1 == 0 && cell.Shaped() && Forward([cell], 16)
    ensures Eval(sha, Unfold([cell], ClearSlots(), 0)).hash == sha([0, cell.d2] + cell.data)
  {
    hide Forward;
    var t := Unfold([cell], ClearSlots(), 0);
    assert t.kids == [] && EvalAll(sha, t.kids) == [];
    assert [0, cell.d2] + cell.data + DepthBytes([]) + HashBytes([]) == [0, cell.d2] + cell.data;
  }

  // The transfer of test_sign_tx_transfer.

  const TRANSFER_FRONT: seq<byte> :=
    [0xB3]
    + [0xBA, 0xDB, 0x53, 0x5D, 0x1B, 0x88, 0xD0, 0xE4, 0xD6, 0x0D, 0x31, 0x65, 0x67, 0xB1, 0x44]
    + [0x85, 0x68, 0xEF, 0xAF, 0xDF, 0x21, 0x84, 0x6E, 0xCD, 0x0B, 0xA0, 0x2E, 0x3A, 0xDA, 0xBF, 0x97]
    + [0x00, 0x00, 0x00, 0xCA, 0x7C, 0xFB, 0x96, 0x42, 0xB3, 0xD6, 0x44, 0x9E]

  const TRANSFER_CALL: seq<byte> := [0xA6, 0x77, 0x32, 0x36, 0x40]

  const TRANSFER_ROOT: seq<byte> := TRANSFER_FRONT + TRANSFER_CALL

  /** The gift in pieces of eight bytes, between its first byte and its last two. */
  const GIFT0: seq<byte> := [0x1B, 0xE2, 0x25, 0x6B, 0x3D, 0x70, 0x4F, 0x24]
  const GIFT1: seq<byte> := [0xC4, 0x6A, 0xEA, 0x32, 0x98, 0xC1, 0xA5, 0xEA]
  const GIFT2: seq<byte> := [0x8F, 0x8D, 0x1A, 0xA8, 0x6C, 0xCC, 0x89, 0x47]
  const GIFT3: seq<byte> := [0x4B, 0xC0, 0x57, 0x02, 0x65, 0xE7, 0x89, 0x8A]
  const GIFT4: seq<byte> := [0xC0, 0, 0, 0, 0, 0, 0, 0]
  const GIFT5: seq<byte> := [0x00, 0x36, 0xD3, 0x69, 0x56, 0xF8, 0xB9, 0x69]

  const TRANSFER_GIFT: seq<byte> := [0x80] + GIFT0 + GIFT1 + GIFT2 + GIFT3 + GIFT4 + GIFT5 + [0xD0, 0x38]

  const TRANSFER_ADDRESS: seq<byte> :=
    [0xDF, 0x11, 0x2B, 0x59, 0xEB, 0x82, 0x79, 0x26]
    + [0x23, 0x57, 0x51, 0x94, 0xC6, 0x0D, 0x2F, 0x54]
    + [0x7C, 0x68, 0xD5, 0x43, 0x66, 0x64, 0x4A, 0x3A]
    + [0x5E, 0x02, 0xB8, 0x13, 0x2F, 0x3C, 0x4C, 0x56]

  const TRANSFER_AMOUNT: seq<byte> :=
    [0, 0, 0, 0, 0, 0, 0, 0]
    + [0x01, 0xB6, 0x9B, 0x4A, 0xB7, 0xC5, 0xCB, 0x4E]

  /** Account 0, wallet type 1, 9 decimals, EVER, no metadata; three cells, the last one empty. */
  const TRANSFER_HEADER: seq<byte> := [0, 0, 0, 0, 1, 9, 4, 0x45, 0x56, 0x45, 0x52, 0]
  const TRANSFER_BAG: seq<byte> :=
    [1, 1, 3, 1, 0, 0x6C, 0] + ([0x01, 0x61] + TRANSFER_ROOT + [1] + ([0x01, 0x65] + TRANSFER_GIFT + [2] + [0, 0]))

  lemma TransferSizes()
    ensures |TRANSFER_FRONT| == 44 && |TRANSFER_CALL| == 5 && TRANSFER_FRONT[0] == 0xB3
  {}

  lemma TransferNumber()
    ensures |TRANSFER_ROOT| == 49
    ensures BitsOf(TRANSFER_ROOT)[0] && BitsOf(TRANSFER_ROOT)[353..385] == BitsOf([0x4C, 0xEE, 0x64, 0x6C])
  {
    hide BitsOf, IsMoved;
    TransferSizes();
    FourMoved(TRANSFER_CALL, [0x4C, 0xEE, 0x64, 0x6C], 2, 128);
    hide TRANSFER_FRONT, TRANSFER_CALL;
    assert TRANSFER_ROOT[44..49] == TRANSFER_CALL;
    NumberBits(TRANSFER_ROOT, [0x4C, 0xEE, 0x64, 0x6C]);
  }

  /** Each piece, moved by three bits, with the first byte of the next. */
  lemma Gift0Moved()
    ensures IsMoved(GIFT0 + [GIFT1[0]], [0xDF, 0x11, 0x2B, 0x59, 0xEB, 0x82, 0x79, 0x26], 8, 32)
  {
    hide IsMoved;
    EightLiteral(GIFT0 + [GIFT1[0]], [0xDF, 0x11, 0x2B, 0x59, 0xEB, 0x82, 0x79, 0x26],
                 [0x1B, 0xE2, 0x25, 0x6B, 0x3D], [0x3D, 0x70, 0x4F, 0x24, 0xC4],
                 [0xDF, 0x11, 0x2B, 0x59], [0xEB, 0x82, 0x79, 0x26], 8, 32);
  }

  lemma Gift1Moved()
    ensures IsMoved(GIFT1 + [GIFT2[0]], [0x23, 0x57, 0x51, 0x94, 0xC6, 0x0D, 0x2F, 0x54], 8, 32)
  {
    hide IsMoved;
    EightLiteral(GIFT1 + [GIFT2[0]], [0x23, 0x57, 0x51, 0x94, 0xC6, 0x0D, 0x2F, 0x54],
                 [0xC4, 0x6A, 0xEA, 0x32, 0x98], [0x98, 0xC1, 0xA5, 0xEA, 0x8F],
                 [0x23, 0x57, 0x51, 0x94], [0xC6, 0x0D, 0x2F, 0x54], 8, 32);
  }

  lemma Gift2Moved()
    ensures IsMoved(GIFT2 + [GIFT3[0]], [0x7C, 0x68, 0xD5, 0x43, 0x66, 0x64, 0x4A, 0x3A], 8, 32)
  {
    hide IsMoved;
    EightLiteral(GIFT2 + [GIFT3[0]], [0x7C, 0x68, 0xD5, 0x43, 0x66, 0x64, 0x4A, 0x3A],
                 [0x8F, 0x8D, 0x1A, 0xA8, 0x6C], [0x6C, 0xCC, 0x89, 0x47, 0x4B],
                 [0x7C, 0x68, 0xD5, 0x43], [0x66, 0x64, 0x4A, 0x3A], 8, 32);
  }

  lemma Gift3Moved()
    ensures IsMoved(GIFT3 + [GIFT4[0]], [0x5E, 0x02, 0xB8, 0x13, 0x2F, 0x3C, 0x4C, 0x56], 8, 32)
  {
    hide IsMoved;
    EightLiteral(GIFT3 + [GIFT4[0]], [0x5E, 0x02, 0xB8, 0x13, 0x2F, 0x3C, 0x4C, 0x56],
                 [0x4B, 0xC0, 0x57, 0x02, 0x65], [0x65, 0xE7, 0x89, 0x8A, 0xC0],
                 [0x5E, 0x02, 0xB8, 0x13], [0x2F, 0x3C, 0x4C, 0x56], 8, 32);
  }

  lemma Gift4Moved()
    ensures IsMoved(GIFT4 + [GIFT5[0]], seq(8, _ => 0), 8, 32)
  {
    assert GIFT5[0] == 0;
    hide GIFT5;
    assert GIFT4 == [0xC0] + seq(7, _ => 0);
    hide GIFT4;
    ZerosMoved(0xC0, GIFT4 + [0]);
  }

  lemma ZerosMoved(first: byte, piece: seq<byte>)
    requires first % 32 == 0 && piece == [first] + seq(8, _ => 0)
    ensures IsMoved(piece, seq(8, _ => 0), 8, 32)
  {}

  lemma Gift5Moved()
    ensures IsMoved(GIFT5 + [0xD0], [0x01, 0xB6, 0x9B, 0x4A, 0xB7, 0xC5, 0xCB, 0x4E], 8, 32)
  {
    hide IsMoved;
    EightLiteral(GIFT5 + [0xD0], [0x01, 0xB6, 0x9B, 0x4A, 0xB7, 0xC5, 0xCB, 0x4E],
                 [0x00, 0x36, 0xD3, 0x69, 0x56], [0x56, 0xF8, 0xB9, 0x69, 0xD0],
                 [0x01, 0xB6, 0x9B, 0x4A], [0xB7, 0xC5, 0xCB, 0x4E], 8, 32);
  }

  /** A piece of eight bytes in its place, moved by three bits. */
  lemma PieceMoved(buf: seq<byte>, k: nat, piece: seq<byte>, next: byte, out: seq<byte>)
    requires k + 9 <= |buf| && |piece| == |out| == 8 && buf[k..k + 8] == piece && buf[k + 8] == next
    requires IsMoved(piece + [next], out, 8, 32)
    ensures BitsOf(buf)[8 * k + 3..8 * k + 67] == BitsOf(out)
  {
    hide BitsOf, IsMoved, Pow2;
    Pow2Values();
    assert buf[k..k + 9] == piece + [next];
    PieceBits(buf, k, piece + [next], out, 3, 8, 32);
  }

  lemma GiftPieces()
    ensures |TRANSFER_GIFT| == 51
    ensures TRANSFER_GIFT[1..9] == GIFT0 && TRANSFER_GIFT[9..17] == GIFT1 && TRANSFER_GIFT[17..25] == GIFT2
    ensures TRANSFER_GIFT[25..33] == GIFT3 && TRANSFER_GIFT[33..41] == GIFT4 && TRANSFER_GIFT[41..49] == GIFT5
    ensures TRANSFER_GIFT[9] == GIFT1[0] && TRANSFER_GIFT[17] == GIFT2[0] && TRANSFER_GIFT[25] == GIFT3[0]
    ensures TRANSFER_GIFT[33] == GIFT4[0] && TRANSFER_GIFT[41] == GIFT5[0] && TRANSFER_GIFT[49] == 0xD0
  {
    PiecesOf([0x80], GIFT0, GIFT1, GIFT2, GIFT3, GIFT4, GIFT5, [0xD0, 0x38]);
  }

  lemma PiecesOf(h: seq<byte>, a: seq<byte>, b: seq<byte>, c: seq<byte>, d: seq<byte>, e: seq<byte>, f: seq<byte>,
                 t: seq<byte>)
    requires |h| == 1 && |a| == |b| == |c| == |d| == |e| == |f| == 8 && |t| == 2
    ensures var s := h + a + b + c + d + e + f + t;
            && |s| == 51 && s[1..9] == a && s[9..17] == b && s[17..25] == c && s[25..33] == d && s[33..41] == e
            && s[41..49] == f && s[49] == t[0]
            && s[9] == b[0] && s[17] == c[0] && s[25] == d[0] && s[33] == e[0] && s[41] == f[0]
  {}

  lemma Joins(bits: seq<bool>, i: nat, j: nat, k: nat, a: seq<byte>, b: seq<byte>)
    requires i <= j <= k <= |bits| && bits[i..j] == BitsOf(a) && bits[j..k] == BitsOf(b)
    ensures bits[i..k] == BitsOf(a + b)
  {
    BitsOfAppend(a, b);
    SlicesJoin(bits, i, j, k);
  }

  /** Destination and amount of the gift. */
  lemma TransferFields()
    ensures |TRANSFER_GIFT| == 51 && BitsOf(TRANSFER_GIFT)[11..267] == BitsOf(TRANSFER_ADDRESS)
    ensures BitsOf(TRANSFER_GIFT)[267..395] == BitsOf(TRANSFER_AMOUNT)
  {
    hide BitsOf, IsMoved;
    GiftPieces();
    hide TRANSFER_GIFT;
    var a: seq<byte> := [0xDF, 0x11, 0x2B, 0x59, 0xEB, 0x82, 0x79, 0x26];
    var b: seq<byte> := [0x23, 0x57, 0x51, 0x94, 0xC6, 0x0D, 0x2F, 0x54];
    var c: seq<byte> := [0x7C, 0x68, 0xD5, 0x43, 0x66, 0x64, 0x4A, 0x3A];
    var d: seq<byte> := [0x5E, 0x02, 0xB8, 0x13, 0x2F, 0x3C, 0x4C, 0x56];
    var e: seq<byte> := [0, 0, 0, 0, 0, 0, 0, 0];
    assert e == seq(8, _ => 0);
    var f: seq<byte> := [0x01, 0xB6, 0x9B, 0x4A, 0xB7, 0xC5, 0xCB, 0x4E];
    Gift0Moved();
    PieceMoved(TRANSFER_GIFT, 1, GIFT0, GIFT1[0], a);
    Gift1Moved();
    PieceMoved(TRANSFER_GIFT, 9, GIFT1, GIFT2[0], b);
    Gift2Moved();
    PieceMoved(TRANSFER_GIFT, 17, GIFT2, GIFT3[0], c);
    Gift3Moved();
    PieceMoved(TRANSFER_GIFT, 25, GIFT3, GIFT4[0], d);
    Gift4Moved();
    PieceMoved(TRANSFER_GIFT, 33, GIFT4, GIFT5[0], e);
    Gift5Moved();
    PieceMoved(TRANSFER_GIFT, 41, GIFT5, 0xD0, f);
    var bits := BitsOf(TRANSFER_GIFT);
    Joins(bits, 11, 75, 139, a, b);
    Joins(bits, 11, 139, 203, a + b, c);
    Joins(bits, 11, 203, 267, a + b + c, d);
    Joins(bits, 267, 331, 395, e, f);
  }

  /** The bits in front of the destination's address, and the flags behind the amount. */
  lemma TransferEnds()
    ensures |TRANSFER_GIFT| == 51
    ensures var bits := BitsOf(TRANSFER_GIFT);
            bits[..2] == [true, false] && bits[3..11] == BitsOf([0]) && bits[396..404] == BitsOf([3])
  {
    hide BitsOf, ToBits, Pow2;
    GiftPieces();
    assert TRANSFER_GIFT[0] == 0x80 && TRANSFER_GIFT[1] == 0x1B;
    assert TRANSFER_GIFT[49] == 0xD0 && TRANSFER_GIFT[50] == 0x38;
    Pow2Values();
    assert TRANSFER_GIFT[0..2] == [0x80, 0x1B] && TRANSFER_GIFT[49..51] == [0xD0, 0x38];
    hide TRANSFER_GIFT;
    PieceBits(TRANSFER_GIFT, 0, [0x80, 0x1B], [0], 3, 8, 32);
    PieceBits(TRANSFER_GIFT, 49, [0xD0, 0x38], [3], 4, 16, 16);
    BitsOfByte(TRANSFER_GIFT, 0);
    BitsOf80();
    assert BitsOf(TRANSFER_GIFT)[..2] == BitsOf(TRANSFER_GIFT)[0..8][..2];
  }

  lemma AmountIs()
    ensures |TRANSFER_AMOUNT| == 16 && Num(BitsOf(TRANSFER_AMOUNT)) == 123456785012345678
  {
    hide BitsOf, Num, ToBits, Pow2;
    var high, low: seq<byte> := [0x01, 0xB6, 0x9B, 0x4A], [0xB7, 0xC5, 0xCB, 0x4E];
    var zeros: seq<byte> := seq(8, _ => 0);
    assert TRANSFER_AMOUNT == zeros + (high + low);
    BitsOfAppend(zeros, high + low);
    BitsOfAppend(high, low);
    FilledBits(zeros, false, 8, 64);
    assert BitsOf(zeros)[..64] == BitsOf(zeros) == Zeros(64);
    NumZeros(64);
    NumAppend(Zeros(64), BitsOf(high + low));
    NumAppend(BitsOf(high), BitsOf(low));
    FourBytes(high);
    FourBytes(low);
    Pow2Add(16, 16);
    Pow2Values();
  }

  // The amount as a decimal number.

  lemma DecSnoc(s: seq<nat>, d: nat)
    ensures Dec(s + [d]) == 10 * Dec(s) + d
  {
    assert (s + [d])[..|s|] == s;
  }

  lemma NineDigits(a: nat, b: nat, c: nat, d: nat, e: nat, f: nat, g: nat, h: nat, i: nat)
    ensures Dec([a, b, c, d, e, f, g, h, i])
         == 1_0000_0000 * a + 1000_0000 * b + 100_0000 * c + 10_0000 * d + 1_0000 * e + 1000 * f + 100 * g + 10 * h + i
  {
    hide Dec;
    DecSnoc([], a);
    DecSnoc([a], b);
    DecSnoc([a, b], c);
    DecSnoc([a, b, c], d);
    DecSnoc([a, b, c, d], e);
    DecSnoc([a, b, c, d, e], f);
    DecSnoc([a, b, c, d, e, f], g);
    DecSnoc([a, b, c, d, e, f, g], h);
    DecSnoc([a, b, c, d, e, f, g, h], i);
    assert Dec([]) == 0 by { DecOfNothing(); }
    assert [] + [a] == [a] && [a] + [b] == [a, b] && [a, b] + [c] == [a, b, c];
    assert [a, b, c] + [d] == [a, b, c, d] && [a, b, c, d] + [e] == [a, b, c, d, e];
    assert [a, b, c, d, e] + [f] == [a, b, c, d, e, f] && [a, b, c, d, e, f] + [g] == [a, b, c, d, e, f, g];
    assert [a, b, c, d, e, f, g] + [h] == [a, b, c, d, e, f, g, h];
    assert [a, b, c, d, e, f, g, h] + [i] == [a, b, c, d, e, f, g, h, i];
  }

  lemma DecOfNothing()
    ensures Dec([]) == 0
  {}

  lemma WrittenParts(w: seq<nat>, f: seq<nat>, text: string)
    requires Digits(w) && Digits(f) && w != [] && f != [] && w[0] != 0 && f[|f| - 1] != 0
    requires text == Chars(w) + "." + Chars(f)
    ensures IntegerPart(text) == Chars(w) && FractionPart(text) == Chars(f) && Point(text) == |w|
    ensures |text| == |w| + 1 + |f| && text[0] != '0' && text[|text| - 1] != '0'
  {
    hide Point;
    var a, b := Chars(w), Chars(f);
    WithPoint(a, b);
    NotNought(w[0]);
    NotNought(f[|f| - 1]);
    assert a[0] == Char(w[0]) && b[|b| - 1] == Char(f[|f| - 1]);
    hide Chars, Behind, Char, IntegerPart, FractionPart;
    TextParts(a, b, text);
  }

  lemma WithPoint(a: string, b: string)
    requires b != []
    ensures a + "." + b == a + Behind(b)
  {
    AppendAssoc(a, ".", b);
  }

  lemma NotNought(d: nat)
    requires 0 < d <= 9
    ensures Char(d) != '0'
  {}

  /** Digits in front of and behind a point are the text of the number they denote. */
  lemma WrittenOut(w: seq<nat>, f: seq<nat>, amount: nat, decimals: nat)
    requires Digits(w) && Digits(f) && w != [] && f != [] && |f| <= decimals
    requires w[0] != 0 && f[|f| - 1] != 0 && amount == Dec(w) * Pow10(decimals) + Dec(f) * Pow10(decimals - |f|)
    ensures Displays(Chars(w) + "." + Chars(f), amount, decimals)
  {
    hide Dec, Pow10, Point, IntegerPart, FractionPart;
    DigitsOfChars(w);
    DigitsOfChars(f);
    WrittenParts(w, f, Chars(w) + "." + Chars(f));
  }

  lemma AmountDigits()
    ensures Chars([1, 2, 3, 4, 5, 6, 7, 8, 5]) == "123456785" && Chars([0, 1, 2, 3, 4, 5, 6, 7, 8]) == "012345678"
  {}

  lemma AmountIsWritten()
    ensures Displays("123456785" + "." + "012345678", 123456785012345678, 9)
  {
    hide Dec, Pow10, Displays, Chars;
    NineDigits(1, 2, 3, 4, 5, 6, 7, 8, 5);
    NineDigits(0, 1, 2, 3, 4, 5, 6, 7, 8);
    TenToNine();
    AmountDigits();
    WrittenOut([1, 2, 3, 4, 5, 6, 7, 8, 5], [0, 1, 2, 3, 4, 5, 6, 7, 8], 123456785012345678, 9);
  }

  lemma TenToNine()
    ensures Pow10(0) == 1 && Pow10(9) == 10_0000_0000 && 123456785012345678 < Pow10(36)
  {
    assert Pow10(9) == 10_0000_0000;
    hide Pow10;
    TenMore(9);
    TenMore(18);
  }

  lemma TenMore(n: nat)
    ensures Pow10(n + 9) == 10_0000_0000 * Pow10(n)
  {
    assert Pow10(n + 3) == 10 * Pow10(n + 2) == 10 * (10 * Pow10(n + 1)) == 1000 * Pow10(n);
    assert Pow10(n + 6) == 10 * Pow10(n + 5) == 10 * (10 * Pow10(n + 4)) == 1000 * Pow10(n + 3);
    assert Pow10(n + 9) == 10 * Pow10(n + 8) == 10 * (10 * Pow10(n + 7)) == 1000 * Pow10(n + 6);
  }

  /** The line of the amount of the test. */
  lemma AmountIsShown()
    ensures AmountLine(123456785012345678, 3, Currency.Currency(9, "EVER"))
         == Success("123456785" + "." + "012345678" + " " + "EVER")
  {
    hide Pow10, Displays;
    AmountIsWritten();
    TenToNine();
    NormalLine("123456785" + "." + "012345678", 123456785012345678, Currency.Currency(9, "EVER"));
  }

  /** 1500000000 units of a currency with nine decimals. */
  lemma OneAndAHalf()
    ensures AmountLine(1500000000, 3, Currency.Currency(9, "EVER")) == Success("1" + "." + "5" + " " + "EVER")
  {
    HalfIsWritten();
    hide Pow10, Displays;
    TenToNine();
    NormalLine("1" + "." + "5", 1500000000, Currency.Currency(9, "EVER"));
  }

  lemma HalfIsWritten()
    ensures Displays("1" + "." + "5", 1500000000, 9)
  {
    assert Chars([1]) == "1" && Chars([5]) == "5";
    assert Dec([1]) == 1 && Dec([5]) == 5 by { assert [1][..0] == [] && [5][..0] == []; }
    hide Dec, Pow10, Displays, Chars;
    TenToNine();
    PowStep(8);
    WrittenOut([1], [5], 1500000000, 9);
  }

  // The screen of the transfer.

  ghost function TransferScreen(): Screen {
    Screen(Transfer, Text(AddressText(0, TRANSFER_ADDRESS)), Text("123456785" + "." + "012345678" + " " + "EVER"),
           Blank)
  }

  /** The cells of the transfer. */
  function TransferCells(): seq<CellView> {
    [CellView(1, 0x61, TRANSFER_ROOT, [1]), CellView(1, 0x65, TRANSFER_GIFT, [2]), CellView(0, 0, [], [])]
  }

  lemma TransferIsParsed()
    ensures ParseBoc(TRANSFER_BAG) == Success(TransferCells())
  {
    TransferSizes();
    GiftPieces();
    hide ParseBoc, ValidCells, TRANSFER_FRONT, TRANSFER_CALL, TRANSFER_GIFT;
    var cells := TransferCells();
    assert |TRANSFER_ROOT| == 49;
    ThreeValid(cells[0], cells[1], cells[2]);
    BagLayout(1, 3, 0, [0x6C], 0, cells);
    ThreeEncodings(cells[0], cells[1], cells[2]);
    assert cells[0].Encode() == [0x01, 0x61] + TRANSFER_ROOT + [1];
    assert cells[1].Encode() == [0x01, 0x65] + TRANSFER_GIFT + [2] && cells[2].Encode() == [0, 0];
    assert [1, 1, 3, 1, 0, 0x6C, 0] == [1, 1, 3, 1, 0] + [0x6C] + [0];
  }

  lemma ThreeValid(a: CellView, b: CellView, c: CellView)
    requires a.d1 == 1 && b.d1 == 1 && c.d1 == 0 && a.refs == [1] && b.refs == [2] && c.refs == []
    requires |a.data| == DataSize(a.d2) && |b.data| == DataSize(b.d2) && |c.data| == DataSize(c.d2)
    ensures ValidCells([a, b, c], 0, 3)
  {
    hide DataSize, CellView.Valid;
    OrdinaryIsValid(a, 0, 3);
    OrdinaryIsValid(b, 1, 3);
    OrdinaryIsValid(c, 2, 3);
  }

  lemma ThreeEncodings(a: CellView, b: CellView, c: CellView)
    ensures EncodeAll([a, b, c]) == a.Encode() + (b.Encode() + c.Encode())
  {
    hide CellView.Encode, EncodeAll;
    EncodeFirst(b, [c]);
    EncodeFirst(a, [b, c]);
    assert [b] + [c] == [b, c] && [a] + [b, c] == [a, b, c];
    assert EncodeAll([c]) == c.Encode() by { LastEncoding(c); }
  }

  lemma LastEncoding(c: CellView)
    ensures EncodeAll([c]) == c.Encode()
  {
    OneEncoding(c);
  }

  /** The gift is a transfer of 123456785.012345678 EVER to the address. */
  lemma TransferParamsAre(own: seq<byte>)
    ensures MultisigParams(BitsOf(TRANSFER_GIFT), 1290691692, 0, own, Currency.Currency(9, "EVER"))
         == Success(TransferScreen())
  {
    TransferEnds();
    TransferFields();
    AmountIs();
    AmountIsShown();
    ThreeIsNormal();
    hide BitsOf, Num, AmountLine, AddressText, TRANSFER_GIFT, TRANSFER_ADDRESS, TRANSFER_AMOUNT, MultisigParams, Pack;
    var bits := BitsOf(TRANSFER_GIFT);
    PlainTransferScreen(bits, 1290691692, 0, own, Currency.Currency(9, "EVER"));
    PackBitsOf(TRANSFER_ADDRESS);
  }

  lemma ThreeIsNormal()
    ensures Num(BitsOf([3])) == 3 && Num(BitsOf([0])) == 0
  {
    hide Num, ToBits, Pow2;
    Pow2Values();
    BitsOfSingle(3);
    BitsOfSingle(0);
    NumToBitsSmall(3, 8);
    NumToBitsSmall(0, 8);
  }

  /**
   The test's bytes are shown by the wallet of type 1 as a transfer of 123456785.012345678 EVER to the
   address in workchain 0.
   */
  lemma TransferVector(addresses: Addresses)
    ensures var own := addresses(0, 1);
            own.Success? ==>
              var run := Run([TRANSFER_HEADER + TRANSFER_BAG], 1, addresses);
              && run.Success? && run.value.1 == TRANSFER_BAG && ParseBoc(TRANSFER_BAG) == Success(TransferCells())
              && var request := run.value.0;
                 Message(request.walletType, TransferCells(), request.wc, request.address, request.currency)
                 == Success(TransferScreen())
  {
    var own := addresses(0, 1);
    if own.Success? {
      TransferIsParsed();
      TransferRequest(addresses);
      TransferIsShown(own.value);
    }
  }

  lemma TransferRequest(addresses: Addresses)
    requires addresses(0, 1).Success?
    ensures var own := addresses(0, 1).value;
            Run([TRANSFER_HEADER + TRANSFER_BAG], 1, addresses)
            == Success((Request(1, 0, own, own, Currency.Currency(9, "EVER"), false, [0, 0, 0, 0]), TRANSFER_BAG))
  {
    TransferSizes();
    GiftPieces();
    hide ParseStart, Num, BitsOf, TRANSFER_FRONT, TRANSFER_CALL, TRANSFER_GIFT;
    var none := Optional([], [], [], []);
    assert none.Announced(0) by { assert 0 == 16 * 0; }
    assert Characters("EVER") == [0x45, 0x56, 0x45, 0x52];
    assert HeaderBytes([0, 0, 0, 0], 1, 9, "EVER", 0, none) == TRANSFER_HEADER;
    assert Num(BitsOf([0, 0, 0, 0])) == 0 by { FourBytes([0, 0, 0, 0]); }
    RequestIsRead([0, 0, 0, 0], 1, 9, "EVER", 0, none, TRANSFER_BAG, addresses);
    OneChunk(TRANSFER_HEADER + TRANSFER_BAG);
    assert |TRANSFER_BAG| == 7 + 52 + 54 + 2;
    hide TRANSFER_BAG;
    assert (TRANSFER_HEADER + TRANSFER_BAG)[12..] == TRANSFER_BAG;
  }

  /** A call of which the gift refers to an empty cell 2. */
  lemma CallWithEmptyBody(cells: seq<CellView>, functionId: nat, wc: byte, own: seq<byte>, currency: Currency)
    requires |cells| == 3 && cells[2].data == [] && |BitsOf(cells[0].data)| >= 385 && BitsOf(cells[0].data)[0]
    requires Num(BitsOf(cells[0].data)[353..385]) == functionId
    ensures Message(1, cells, wc, own, currency)
         == MultisigParams(BitsOf(cells[1].data), functionId, wc, own, currency)
  {
    hide BitsOf, ContractHeader, MultisigParams, Num, BodyScreen;
    HeaderBits(BitsOf(cells[0].data));
  }

  lemma TransferIsShown(own: seq<byte>)
    ensures Message(1, TransferCells(), 0, own, Currency.Currency(9, "EVER")) == Success(TransferScreen())
  {
    hide BitsOf, MultisigParams, Num, Message;
    TransferNumber();
    TransferParamsAre(own);
    FourBytes([0x4C, 0xEE, 0x64, 0x6C]);
    assert U32([0x4C, 0xEE, 0x64, 0x6C]) == 1290691692;
    CallWithEmptyBody(TransferCells(), 1290691692, 0, own, Currency.Currency(9, "EVER"));
  }

  // A wallet of src/contract.c.

  /** A label, the place of the key, and a tag. */
  const KEY_DATA: seq<byte> :=
    [0xD8, 0, 0, 0, 0, 0, 0, 0, 0, 0, 0, 0, 0, 0, 0, 0] + [0, 0, 0, 0, 0, 0, 0, 0, 0, 0, 0, 0, 0, 0, 0, 0] + [0x04]

  /** safe_multisig_wallet: six of 73 cells, in front of the code. */
  const SAFE_MULTISIG: seq<byte> :=
    [0x01, 0x02, 0x49, 0x01, 0x00, 0x10, 0xF4, 0x00]
    + ([0x02, 0x01, 0x34, 0x06, 0x01]
       + ([0x01, 0x01, 0xC0, 0x02]
          + ([0x02, 0x03, 0xCF, 0x20, 0x05, 0x03]
             + ([0x01, 0x01, 0xDE, 0x04]
                + ([0x00, 0x03, 0xD0, 0x20] + ([0x00, 0x41] + KEY_DATA))))))

  function SafeMultisigCells(): seq<CellView> {
    [CellView(2, 1, [0x34], [6, 1]), CellView(1, 1, [0xC0], [2]), CellView(2, 3, [0xCF, 0x20], [5, 3]),
     CellView(1, 1, [0xDE], [4]), CellView(0, 3, [0xD0, 0x20], []),
     CellView(0, 0x41, KEY_DATA, [])]
  }

  /** The public key belongs behind the first five bits of the last cell, two steps down the dictionary. */
  lemma SafeMultisigKeyCell()
    ensures FindKeyCell(SafeMultisigCells()) == Success(Leaf.Leaf(5, 5))
  {
    hide ParseLabel, BitsOf;
    var cells := SafeMultisigCells();
    LabelOfUpper();
    LabelOfLower(cells[5].data);
    assert Walk(cells, 5, 3) == Success(Leaf.Leaf(5, 5)) by {
      assert WalkOn(cells, 5, 3, Label(false, 3, 5)) == Success(Leaf.Leaf(5, 5));
    }
    assert Below(cells[2], Label(false, 60, 10), 64) == Success(5);
    assert WalkOn(cells, 2, 64, Label(false, 60, 10)) == Walk(cells, 5, 3);
  }

  lemma LabelOfUpper()
    ensures ParseLabel(BitsOf([0xCF, 0x20]), 64) == Success(Label(false, 60, 10))
  {
    hide ToBits, BitsOf, ParseLabel;
    var bits := BitsOf([0xCF, 0x20]);
    BitsOfTwo(0xCF, 0x20);
    BitsOfCF();
    BitsOf20();
    BitsOf60();
    assert bits == [true, true, false] + ToBits(60, 7) + bits[10..];
    assert Pow2(6) == 64 && Pow2(7) == 128;
    LabelIsRead(false, 60, 64, 7, bits[10..]);
  }

  lemma BitsOfCF()
    ensures ToBits(0xCF, 8) == [true, true, false, false, true, true, true, true]
  {}

  lemma BitsOf20()
    ensures ToBits(0x20, 8)[..2] == [false, false]
  {}

  lemma BitsOf60()
    ensures ToBits(60, 7) == [false, true, true, true, true, false, false]
  {}

  lemma LabelOfLower(data: seq<byte>)
    requires data != [] && data[0] == 0xD8
    ensures ParseLabel(BitsOf(data), 3) == Success(Label(false, 3, 5))
  {
    hide ToBits, BitsOf, ParseLabel;
    var bits := BitsOf(data);
    BitsOfByte(data, 0);
    LowerBits();
    assert bits[..5] == bits[0..8][..5] == [true, true, false] + ToBits(3, 2);
    assert bits == bits[..5] + bits[5..];
    assert Pow2(1) == 2 && Pow2(2) == 4;
    LabelIsRead(false, 3, 3, 2, bits[5..]);
  }

  lemma LowerBits()
    ensures ToBits(0xD8, 8) == [true, true, false, true, true, false, false, false] && ToBits(3, 2) == [true, true]
  {}

  /** The bytes are these cells: offsets of two bytes, more cells declared than there are. */
  lemma SafeMultisigParses()
    ensures ParseBoc(SAFE_MULTISIG) == Success(SafeMultisigCells())
  {
    var cells := SafeMultisigCells();
    SafeMultisigIsValid();
    SixEncodings(cells[0], cells[1], cells[2], cells[3], cells[4], cells[5]);
    SafeMultisigBytes();
    hide ParseBoc, ValidCells, EncodeAll, SAFE_MULTISIG, CellView.Encode, KEY_DATA;
    BagLayout(1, 73, 0, [0x10, 0xF4], 0, cells);
  }

  lemma SafeMultisigIsValid()
    ensures ValidCells(SafeMultisigCells(), 0, 73)
  {
    KeyDataSize();
    hide KEY_DATA, ValidCells;
    SixValid(SafeMultisigCells());
  }

  lemma KeyDataSize()
    ensures |KEY_DATA| == 33 && KEY_DATA[0] == 0xD8
  {}

  lemma SafeMultisigBytes()
    ensures var cells := SafeMultisigCells();
            SAFE_MULTISIG == [1, 2, 73, 1, 0] + [0x10, 0xF4] + [0]
                             + (cells[0].Encode() + (cells[1].Encode() + (cells[2].Encode()
                             + (cells[3].Encode() + (cells[4].Encode() + cells[5].Encode())))))
  {
    hide KEY_DATA;
    var cells := SafeMultisigCells();
    assert [0x01, 0x02, 0x49, 0x01, 0x00, 0x10, 0xF4, 0x00] == [1, 2, 73, 1, 0] + [0x10, 0xF4] + [0];
    assert cells[0].Encode() == [0x02, 0x01, 0x34, 0x06, 0x01] && cells[1].Encode() == [0x01, 0x01, 0xC0, 0x02];
    assert cells[2].Encode() == [0x02, 0x03, 0xCF, 0x20, 0x05, 0x03] && cells[3].Encode() == [0x01, 0x01, 0xDE, 0x04];
    assert cells[4].Encode() == [0x00, 0x03, 0xD0, 0x20] && cells[5].Encode() == [0x00, 0x41] + KEY_DATA;
  }

  lemma SixValid(cells: seq<CellView>)
    requires |cells| == 6 && forall k | 0 <= k < 6 :: cells[k].d1 == |cells[k].refs| <= 2
    requires forall k | 0 <= k < 6 :: |cells[k].data| == DataSize(cells[k].d2)
    requires forall k, j | 0 <= k < 6 && 0 <= j < |cells[k].refs| :: k < cells[k].refs[j] <= 73
    ensures ValidCells(cells, 0, 73)
  {
    hide DataSize, CellView.Valid;
    forall k | 0 <= k < 6
      ensures cells[k].Valid(0 + k, 73)
    {
      OrdinaryIsValid(cells[k], k, 73);
    }
  }

  lemma SixEncodings(a: CellView, b: CellView, c: CellView, d: CellView, e: CellView, f: CellView)
    ensures EncodeAll([a, b, c, d, e, f])
         == a.Encode() + (b.Encode() + (c.Encode() + (d.Encode() + (e.Encode() + f.Encode()))))
  {
    hide CellView.Encode, EncodeAll;
    ThreeEncodings(d, e, f);
    EncodeFirst(c, [d, e, f]);
    EncodeFirst(b, [c, d, e, f]);
    EncodeFirst(a, [b, c, d, e, f]);
    assert [c] + [d, e, f] == [c, d, e, f] && [b] + [c, d, e, f] == [b, c, d, e, f];
    assert [a] + [b, c, d, e, f] == [a, b, c, d, e, f];
  }
}
