/**
 The bag-of-cells layout the program accepts (src/contract.c), a subset of section 5.3.9 of the TON
 Blockchain paper: one-byte references, one root, no index, no checksum.
 */
module BocFormat {
  import opened Bits
  import opened Outcomes
  import opened Cells
  import opened Seqs
  import opened ByteStreams

  datatype Header = Header(offsetSize: byte, cellsCount: byte, size: nat)

  /** No index, no checksum, no cache bits. */
  predicate PlainFlags(b: byte) {
    b / 0x80 % 2 == 0 && b / 0x40 % 2 == 0 && b / 0x20 % 2 == 0
  }

  function RefSize(b: byte): nat {
    b % 8
  }

  /** Flags and reference size, offset size, three counts, the total size and the root index. */
  function ParseHeader(boc: seq<byte>): (r: Result<Header>)
    ensures r.Success? ==> r.value.size <= |boc|
  {
    if |boc| < 1 then Failure(EndOfStream)
    else if !PlainFlags(boc[0]) || RefSize(boc[0]) != 1 then Failure(InvalidContract)
    else if |boc| < 2 then Failure(EndOfStream)
    else if boc[1] == 0 || boc[1] > 8 then Failure(InvalidContract)
    else if |boc| < 4 then Failure(EndOfStream)
    else if boc[3] != 1 then Failure(InvalidContract)
    else if |boc| < 5 + boc[1] + 1 then Failure(EndOfStream)
    else Success(Header(boc[1], boc[2], 5 + boc[1] + 1))
  }

  /** Cells index, index + 1, ... off the stream, until there are count or the stream is used up. */
  function ParseCells(stream: seq<byte>, index: nat, count: nat): Result<seq<CellView>>
    decreases count - index
  {
    if index >= count then Success([])
    else if index >= MAX_CONTRACT_CELLS_COUNT then Failure(InvalidContract)
    else
      var cell :- ParseCell(stream, index, count);
      ParsedCellEncodes(stream, index, count);
      var rest := stream[|cell.Encode()|..];
      if rest == [] then Success([cell])
      else
        var cells :- ParseCells(rest, index + 1, count);
        Success([cell] + cells)
  }

  function ParseBoc(boc: seq<byte>): Result<seq<CellView>> {
    var header :- ParseHeader(boc);
    ParseCells(boc[header.size..], 0, header.cellsCount)
  }

  function EncodeAll(cells: seq<CellView>): seq<byte> {
    if cells == [] then [] else cells[0].Encode() + EncodeAll(cells[1..])
  }

  /** Cells index, index + 1, ... of count are valid; in particular references point forward. */
  ghost predicate ValidCells(cells: seq<CellView>, index: nat, count: nat) {
    forall k | 0 <= k < |cells| :: cells[k].Valid(index + k, count)
  }

  /** Parsed cells are valid, at least one if any are declared, and no more than 16. */
  lemma {:induction false} ParsedCellsValid(stream: seq<byte>, index: nat, count: nat)
    requires ParseCells(stream, index, count).Success?
    ensures var cells := ParseCells(stream, index, count).value;
            && ValidCells(cells, index, count)
            && (cells == [] <==> index >= count)
            && (cells != [] ==> index + |cells| <= MAX_CONTRACT_CELLS_COUNT && index + |cells| <= count)
    decreases count - index
  {
    hide ParseCell, CellView.Valid;
    if index < count {
      var cells := ParseCells(stream, index, count).value;
      ParsedCellEncodes(stream, index, count);
      var rest := stream[|cells[0].Encode()|..];
      if rest != [] {
        ParsedCellsValid(rest, index + 1, count);
        ValidFrom(cells[0], ParseCells(rest, index + 1, count).value, index, count);
      }
    }
  }

  lemma ValidFrom(first: CellView, others: seq<CellView>, index: nat, count: nat)
    ensures first.Valid(index, count) && ValidCells(others, index + 1, count)
            <==> ValidCells([first] + others, index, count)
  {
    hide CellView.Valid;
    var cells := [first] + others;
    if ValidCells(cells, index, count) {
      assert cells[0].Valid(index + 0, count);
      forall k | 0 <= k < |others|
        ensures others[k].Valid(index + 1 + k, count)
      {
        assert cells[k + 1].Valid(index + (k + 1), count);
      }
    }
  }

  /**
   The parsed cells tile the stream: their encodings are exactly the bytes consumed, and parsing
   stops before the declared count only at the end of the stream.
   */
  lemma {:induction false} ParsedCellsTile(stream: seq<byte>, index: nat, count: nat)
    requires ParseCells(stream, index, count).Success? && index <= count
    ensures var cells := ParseCells(stream, index, count).value;
            && |EncodeAll(cells)| <= |stream| && EncodeAll(cells) == stream[..|EncodeAll(cells)|]
            && (index + |cells| == count || EncodeAll(cells) == stream)
    decreases count - index
  {
    hide ParseCell, CellView.Valid, CellView.Encode;
    if index < count {
      var cells := ParseCells(stream, index, count).value;
      ParsedCellEncodes(stream, index, count);
      var first := cells[0].Encode();
      var rest := stream[|first|..];
      assert stream == first + rest;
      if rest == [] {
        assert EncodeAll(cells[1..]) == [];
      } else {
        ParsedCellsTile(rest, index + 1, count);
        assert cells[1..] == ParseCells(rest, index + 1, count).value;
      }
      Tiled(first, EncodeAll(cells[1..]), rest, stream);
    }
  }

  lemma Tiled(first: seq<byte>, cells: seq<byte>, rest: seq<byte>, stream: seq<byte>)
    requires stream == first + rest && |cells| <= |rest| && cells == rest[..|cells|]
    ensures |first + cells| <= |stream| && first + cells == stream[..|first + cells|]
    ensures cells == rest ==> first + cells == stream
  {}

  /** Valid cells parse back from their encodings, if they are all the declared ones or all there is. */
  lemma {:induction false} EncodedCellsParse(cells: seq<CellView>, rest: seq<byte>, index: nat, count: nat)
    requires ValidCells(cells, index, count) && cells != []
    requires index + |cells| <= MAX_CONTRACT_CELLS_COUNT && index + |cells| <= count
    requires index + |cells| == count || rest == []
    ensures ParseCells(EncodeAll(cells) + rest, index, count) == Success(cells)
  {
    hide ParseCell, CellView.Valid, CellView.Encode;
    var first, others := cells[0].Encode(), EncodeAll(cells[1..]);
    assert cells == [cells[0]] + cells[1..];
    ValidFrom(cells[0], cells[1..], index, count);
    AppendAssoc(first, others, rest);
    EncodedCellParses(cells[0], others + rest, index, count);
    assert (first + (others + rest))[|first|..] == others + rest;
    if |cells| == 1 {
      assert cells == [cells[0]] && others == [] && others + rest == rest;
      if rest != [] {
        assert ParseCells(rest, index + 1, count) == Success([]);
      }
    } else {
      EncodedCellsParse(cells[1..], rest, index + 1, count);
      NotEmpty(cells[1..]);
      assert others + rest != [];
    }
  }

  lemma NotEmpty(cells: seq<CellView>)
    requires cells != []
    ensures EncodeAll(cells) != []
  {}

  /**
   A parsed bag of cells: at most 16 valid cells, at least one if any are declared, whose encodings are
   exactly the bytes behind the header that are consumed; fewer than declared only at the end of the bytes.
   */
  lemma ParsedBoc(boc: seq<byte>)
    requires ParseBoc(boc).Success?
    ensures var header, cells := ParseHeader(boc).value, ParseBoc(boc).value;
            && |cells| <= MAX_CONTRACT_CELLS_COUNT && |cells| <= header.cellsCount
            && (cells == [] <==> header.cellsCount == 0)
            && ValidCells(cells, 0, header.cellsCount)
            && EncodeAll(cells) <= boc[header.size..]
            && (|cells| == header.cellsCount || EncodeAll(cells) == boc[header.size..])
  {
    hide ParseHeader, ParseCells, EncodeAll, ValidCells;
    var header := ParseHeader(boc).value;
    ParsedCellsValid(boc[header.size..], 0, header.cellsCount);
    ParsedCellsTile(boc[header.size..], 0, header.cellsCount);
  }

  /** Valid cells, encoded behind a header that declares as many or more, are what is parsed. */
  lemma BocRoundTrip(header: seq<byte>, cells: seq<CellView>)
    requires ParseHeader(header).Success? && ParseHeader(header).value.size == |header|
    requires var count := ParseHeader(header).value.cellsCount;
             0 < |cells| <= count && |cells| <= MAX_CONTRACT_CELLS_COUNT && ValidCells(cells, 0, count)
    ensures ParseBoc(header + EncodeAll(cells)) == Success(cells)
  {
    hide ParseCells, EncodeAll, ValidCells;
    var boc := header + EncodeAll(cells);
    HeaderOfPrefix(header, boc);
    assert boc[|header|..] == EncodeAll(cells) + [];
    EncodedCellsParse(cells, [], 0, ParseHeader(header).value.cellsCount);
  }

  lemma HeaderOfPrefix(header: seq<byte>, boc: seq<byte>)
    requires ParseHeader(header).Success? && |header| <= |boc| && boc[..|header|] == header
    ensures ParseHeader(boc) == ParseHeader(header)
  {
    assert forall i | 0 <= i < 4 :: boc[i] == boc[..|header|][i];
  }

  // The layout of a bag, in bytes.

  /** The flags that are accepted: references of one byte, and none of the three top bits. */
  lemma AcceptedFlags(b: byte)
    ensures PlainFlags(b) && RefSize(b) == 1 <==> b == 1 || b == 9 || b == 17 || b == 25
  {
    var q, r := b / 8, b % 8;
    assert b == 8 * q + r && q < 32;
    DivModUnique(b, 0x20, q / 4, 8 * (q % 4) + r);
    DivModUnique(b, 0x40, q / 8, 8 * (q % 8) + r);
    DivModUnique(b, 0x80, q / 16, 8 * (q % 16) + r);
  }

  /**
   The header is the flags, the size of the offsets, the number of cells, one root, the absent count, the total
   size, in as many bytes as the second byte says, and the root index.
   */
  lemma HeaderLayout(flags: byte, count: byte, absent: byte, total: seq<byte>, root: byte, rest: seq<byte>)
    requires |total| < 0x100
    ensures var boc := [flags, |total|, count, 1, absent] + total + [root] + rest;
            ParseHeader(boc)
            == if (flags == 1 || flags == 9 || flags == 17 || flags == 25) && 1 <= |total| <= 8
               then Success(Header(|total|, count, 6 + |total|)) else Failure(InvalidContract)
  {
    AcceptedFlags(flags);
    hide PlainFlags, RefSize;
    var boc := [flags, |total|, count, 1, absent] + total + [root] + rest;
    assert boc[0] == flags && boc[1] == |total| && boc[2] == count && boc[3] == 1;
  }

  /** There is no other header. */
  lemma HeaderIsLaidOut(boc: seq<byte>)
    requires ParseHeader(boc).Success?
    ensures |boc| >= 7 && 1 <= boc[1] <= 8 && |boc| >= 6 + boc[1]
    ensures var total, rest := boc[5..5 + boc[1]], boc[6 + boc[1]..];
            && boc == [boc[0], |total|, boc[2], 1, boc[4]] + total + [boc[5 + boc[1]]] + rest
            && (boc[0] == 1 || boc[0] == 9 || boc[0] == 17 || boc[0] == 25)
            && ParseHeader(boc).value == Header(|total|, boc[2], 6 + |total|)
  {
    AcceptedFlags(boc[0]);
    hide PlainFlags, RefSize;
  }

  /** Valid cells behind such a header parse back, if it declares as many or more. */
  lemma BagLayout(flags: byte, count: byte, absent: byte, total: seq<byte>, root: byte, cells: seq<CellView>)
    requires (flags == 1 || flags == 9 || flags == 17 || flags == 25) && 1 <= |total| <= 8
    requires 0 < |cells| <= count && |cells| <= MAX_CONTRACT_CELLS_COUNT && ValidCells(cells, 0, count)
    ensures ParseBoc([flags, |total|, count, 1, absent] + total + [root] + EncodeAll(cells)) == Success(cells)
  {
    hide ParseHeader, ParseBoc, EncodeAll, ValidCells;
    var header := [flags, |total|, count, 1, absent] + total + [root];
    HeaderLayout(flags, count, absent, total, root, []);
    assert header + [] == header;
    BocRoundTrip(header, cells);
  }

  /** There is no seventeenth cell, and no message without cells. */
  lemma CellLimits(stream: seq<byte>, count: nat)
    ensures count > 16 ==> ParseCells(stream, 16, count) == Failure(InvalidContract)
    ensures ParseCells(stream, 0, 0) == Success([])
  {}

  function WithoutValue<T>(r: Result<T>): Result<()> {
    if r.Success? then Success(()) else Failure(r.error)
  }

  /** Cells parsed before and the outcome of parsing the rest. */
  function Prepend(cells: seq<CellView>, r: Result<seq<CellView>>): Result<seq<CellView>> {
    if r.Success? then Success(cells + r.value) else r
  }

  /** How parsing goes on after the cells so far. */
  lemma Resumes(cells: seq<CellView>, rest: seq<byte>, i: nat, count: nat)
    ensures var cell := ParseCell(rest, i, count);
            Prepend(cells, ParseCells(rest, i, count)) ==
              if i >= count then Success(cells)
              else if i >= MAX_CONTRACT_CELLS_COUNT then Failure(InvalidContract)
              else if cell.Failure? then Failure(cell.error)
              else if |rest| <= |cell.value.Encode()| then Success(cells + [cell.value])
              else Prepend(cells + [cell.value], ParseCells(rest[|cell.value.Encode()|..], i + 1, count))
    ensures cells == [] ==> Prepend(cells, ParseCells(rest, i, count)) == ParseCells(rest, i, count)
  {
    hide ParseCell, CellView.Encode;
    assert cells + [] == cells;
    var all := ParseCells(rest, i, count);
    if all.Success? {
      assert [] + all.value == all.value;
    }
    if i < count && i < MAX_CONTRACT_CELLS_COUNT && ParseCell(rest, i, count).Success? {
      var cell := ParseCell(rest, i, count).value;
      ParsedCellEncodes(rest, i, count);
      var others := ParseCells(rest[|cell.Encode()|..], i + 1, count);
      if others.Success? {
        AppendAssoc(cells, [cell], others.value);
      }
    }
  }

  /** Reads the header off a stream. */
  method ReadHeader(src: ByteStream) returns (r: Result<Header>)
    requires src.Valid()
    modifies src
    ensures src.Valid() && r == old(ParseHeader(src.Rest()))
    ensures r.Success? ==> src.Rest() == old(src.Rest())[r.value.size..]
  {
    hide PlainFlags, RefSize;
    var firstByte :- src.ReadByte();
    var _ :- Validate(PlainFlags(firstByte), InvalidContract);
    var _ :- Validate(RefSize(firstByte) == 1, InvalidContract);
    var offsetSize :- src.ReadByte();
    var _ :- Validate(offsetSize != 0 && offsetSize <= 8, InvalidContract);
    var cellsCount :- src.ReadByte();
    var rootsCount :- src.ReadByte();
    var _ :- Validate(rootsCount == 1, InvalidContract);
    var _ :- SkipSizes(src, offsetSize);
    r := Success(Header(offsetSize, cellsCount, 6 + offsetSize));
  }

  /** The absent count, the total size and the root index are not used. */
  method SkipSizes(src: ByteStream, offsetSize: nat) returns (r: Result<()>)
    requires src.Valid()
    modifies src
    ensures src.Valid() && r == Validate(|old(src.Rest())| >= 2 + offsetSize, EndOfStream)
    ensures r.Success? ==> src.Rest() == old(src.Rest())[2 + offsetSize..]
  {
    var _ :- src.ReadByte();
    var _ :- src.ReadData(offsetSize);
    var _ :- src.ReadData(1);
    r := Success(());
  }
}
