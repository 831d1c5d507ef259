/**
 Cells: descriptor bytes, data and references (src/cell.c). Section 3.1.4 of the TVM whitepaper
 describes the layout.
 */
module Cells {
  import opened Bits
  import opened Outcomes

  const MAX_REFERENCES_COUNT := 4
  const MAX_CONTRACT_CELLS_COUNT := 16
  const HASH_SIZE := 32
  const PRUNED_BRANCH_D1: byte := 0x28
  const PRUNED_BRANCH_DATA_SIZE := 36

  /** The bytes a cell is made of. */
  datatype CellView = CellView(d1: byte, d2: byte, data: seq<byte>, refs: seq<byte>) {

    predicate Pruned() {
      d1 == PRUNED_BRANCH_D1
    }

    /** The sizes the descriptors announce are the sizes there are. */
    predicate Shaped() {
      |data| == DataSize(d2) && |refs| == RefsCount(d1)
    }

    function Encode(): seq<byte> {
      [d1, d2] + data + refs
    }

    /** What the parser accepts as cell number index of count. */
    ghost predicate Valid(index: nat, count: nat) {
      && Shaped()
      && !WithHashes(d1)
      && (Exotic(d1) ==> Pruned())
      && (Pruned() ==> |data| == PRUNED_BRANCH_DATA_SIZE)
      && |refs| <= MAX_REFERENCES_COUNT
      && forall k | 0 <= k < |refs| :: index < refs[k] <= count
    }
  }

  function DataSize(d2: byte): (n: nat)
    ensures n <= 128
  {
    d2 / 2 + d2 % 2
  }

  function RefsCount(d1: byte): (n: nat)
    ensures n <= 7
  {
    d1 % 8
  }

  predicate WithHashes(d1: byte) {
    d1 / 16 % 2 == 1
  }

  predicate Exotic(d1: byte) {
    d1 / 8 % 2 == 1
  }

  // Parsing one cell.

  predicate AcceptedD1(d1: byte) {
    && !WithHashes(d1)
    && (Exotic(d1) ==> d1 == PRUNED_BRANCH_D1)
    && RefsCount(d1) <= MAX_REFERENCES_COUNT
  }

  /** The descriptors are acceptable and the references, as far as there are any, point forward. */
  predicate Accepted(stream: seq<byte>, index: nat, count: nat) {
    && |stream| >= 2
    && AcceptedD1(stream[0])
    && (stream[0] == PRUNED_BRANCH_D1 ==> DataSize(stream[1]) == PRUNED_BRANCH_DATA_SIZE)
    && RefsAccepted(stream, 2 + DataSize(stream[1]), RefsCount(stream[0]), index, count)
  }

  /** The n bytes from at on are there, and are references of cell number index of count. */
  predicate RefsAccepted(stream: seq<byte>, at: nat, n: nat, index: nat, count: nat) {
    n > 0 ==> at + n <= |stream| && forall k | at <= k < at + n :: index < stream[k] <= count
  }

  /** Reads a cell off the front of the stream. */
  function ParseCell(stream: seq<byte>, index: nat, count: nat): (r: Result<CellView>)
  {
    if !Accepted(stream, index, count) then Failure(InvalidCell)
    else
      var size, rc := DataSize(stream[1]), RefsCount(stream[0]);
      if |stream| < 2 + size + rc then Failure(EndOfStream)
      else Success(CellView(stream[0], stream[1], stream[2..2 + size], stream[2 + size..2 + size + rc]))
  }

  lemma AcceptedSize(stream: seq<byte>, index: nat, count: nat)
    ensures var cell := ParseCell(stream, index, count);
            if !Accepted(stream, index, count) then cell == Failure(InvalidCell)
            else var size := 2 + DataSize(stream[1]) + RefsCount(stream[0]);
                 if size > |stream| then cell == Failure(EndOfStream)
                 else cell.Success? && |cell.value.Encode()| == size
  {}

  /** What is parsed is valid and is what the stream starts with. */
  lemma ParsedCellEncodes(stream: seq<byte>, index: nat, count: nat)
    requires ParseCell(stream, index, count).Success?
    ensures var cell := ParseCell(stream, index, count).value;
            cell.Valid(index, count) && |cell.Encode()| <= |stream| && cell.Encode() == stream[..|cell.Encode()|]
  {}

  /** Every valid cell parses back from its encoding, whatever follows. */
  lemma EncodedCellParses(cell: CellView, rest: seq<byte>, index: nat, count: nat)
    requires cell.Valid(index, count)
    ensures ParseCell(cell.Encode() + rest, index, count) == Success(cell)
  {
    var s := cell.Encode() + rest;
    assert s[0] == cell.d1 && s[1] == cell.d2;
    assert s[2..2 + |cell.data|] == cell.data;
    assert s[2 + |cell.data|..2 + |cell.data| + |cell.refs|] == cell.refs;
  }

  /** An ordinary cell with references to cells behind it. */
  lemma OrdinaryIsValid(c: CellView, index: nat, count: nat)
    requires c.d1 == |c.refs| <= MAX_REFERENCES_COUNT && |c.data| == DataSize(c.d2)
    requires forall k | 0 <= k < |c.refs| :: index < c.refs[k] <= count
    ensures c.Valid(index, count) && !c.Pruned()
  {
    hide DataSize;
  }

  // The layout, in bytes.

  /** The first descriptor byte of an ordinary cell is its level, times 32, and its number of references. */
  lemma OrdinaryLayout(level: nat, d2: byte, data: seq<byte>, refs: seq<byte>, rest: seq<byte>, index: nat, count: nat)
    requires level < 8 && |refs| <= 4 && |data| == (d2 + 1) / 2
    requires forall k | 0 <= k < |refs| :: index < refs[k] <= count
    ensures ParseCell([32 * level + |refs|, d2] + data + refs + rest, index, count)
         == Success(CellView(32 * level + |refs|, d2, data, refs))
  {
    var d1: byte := 32 * level + |refs|;
    OrdinaryBits(level, |refs|);
    hide WithHashes, Exotic, RefsCount;
    ParsedParts(d1, d2, data, refs, rest);
  }

  lemma OrdinaryBits(level: nat, n: nat)
    requires level < 8 && n <= 4
    ensures RefsCount(32 * level + n) == n && !WithHashes(32 * level + n) && !Exotic(32 * level + n)
  {
    DivModUnique(32 * level + n, 8, 4 * level, n);
    DivModUnique(32 * level + n, 16, 2 * level, n);
  }

  lemma ParsedParts(d1: byte, d2: byte, data: seq<byte>, refs: seq<byte>, rest: seq<byte>)
    ensures var s, at := [d1, d2] + data + refs + rest, 2 + |data|;
            && s[0] == d1 && s[1] == d2 && s[2..at] == data && s[at..at + |refs|] == refs
            && forall k | 0 <= k < |refs| :: s[at + k] == refs[k]
  {}

  /** A pruned cell is 0x28, an announced size of 36 bytes, and these. */
  lemma PrunedLayout(d2: byte, data: seq<byte>, rest: seq<byte>, index: nat, count: nat)
    requires (d2 == 71 || d2 == 72) && |data| == 36
    ensures ParseCell([0x28, d2] + data + rest, index, count) == Success(CellView(0x28, d2, data, []))
  {
    ParsedParts(0x28, d2, data, [], rest);
    assert [0x28, d2] + data + [] + rest == [0x28, d2] + data + rest;
  }

  /** Other first descriptor bytes are refused: hashes stored, other exotic cells, more than four references. */
  lemma RefusedDescriptor(stream: seq<byte>, index: nat, count: nat)
    requires stream != [] && stream[0] != 0x28
    requires stream[0] % 32 > 4
    ensures ParseCell(stream, index, count) == Failure(InvalidCell)
  {
    var d1, q, r := stream[0], stream[0] / 32, stream[0] % 32;
    DivModUnique(d1, 16, 2 * q + r / 16, r % 16);
    DivModUnique(d1, 8, 4 * q + r / 8, r % 8);
  }

  /** References have to lead to later cells, and at most one place behind the declared ones. */
  lemma RefusedReference(d1: byte, d2: byte, data: seq<byte>, refs: seq<byte>, rest: seq<byte>, index: nat, count: nat,
                         k: nat)
    requires |data| == DataSize(d2) && |refs| == RefsCount(d1) && k < |refs|
    requires refs[k] as int <= index || refs[k] as int > count
    ensures ParseCell([d1, d2] + data + refs + rest, index, count) == Failure(InvalidCell)
  {
    hide DataSize, RefsCount;
    ParsedParts(d1, d2, data, refs, rest);
    var s, at := [d1, d2] + data + refs + rest, 2 + |data|;
    assert s[at + k] == refs[k];
  }

  /** A pruned cell of another size is refused. */
  lemma RefusedPruned(d2: byte, rest: seq<byte>, index: nat, count: nat)
    requires (d2 + 1) / 2 != 36
    ensures ParseCell([0x28, d2] + rest, index, count) == Failure(InvalidCell)
  {
    var s := [0x28, d2] + rest;
    assert s[0] == 0x28 && s[1] == d2;
  }

  // Cells in memory.

  /** A cell slot: empty, or a pointer into a buffer and the bytes the buffer had from there on. */
  datatype Cell = NoCell | Cell(mem: array<byte>, begin: nat, length: nat)

  ghost predicate Loaded(cell: Cell)
    reads if cell.Cell? then {cell.mem} else {}
  {
    && cell.Cell?
    && cell.begin + 2 <= cell.mem.Length
    && cell.begin + 2 + DataSize(cell.mem[cell.begin + 1]) + RefsCount(cell.mem[cell.begin]) <= cell.mem.Length
  }

  /** The descriptors, data and references a pointer points at. */
  function View(cell: Cell): (v: CellView)
    requires Loaded(cell)
    reads if cell.Cell? then {cell.mem} else {}
    ensures v.Shaped()
  {
    var d1, d2 := cell.mem[cell.begin], cell.mem[cell.begin + 1];
    var at := cell.begin + 2 + DataSize(d2);
    CellView(d1, d2, cell.mem[cell.begin + 2..at], cell.mem[at..at + RefsCount(d1)])
  }

  /** Checks a cell and gives the number of bytes it takes. */
  method DeserializeCell(cell: Cell, index: nat, count: nat) returns (r: Result<nat>)
    requires cell.Cell? && cell.begin + cell.length <= cell.mem.Length
    ensures var stream := cell.mem[cell.begin..cell.begin + cell.length];
            r == if Accepted(stream, index, count)
                 then Success(2 + DataSize(stream[1]) + RefsCount(stream[0])) else Failure(InvalidCell)
  {
    var _ :- Validate(cell.length > 0, InvalidCell);
    var d1 := cell.mem[cell.begin];
    var _ :- Validate(!WithHashes(d1), InvalidCell);
    var _ :- Validate(!Exotic(d1) || d1 == PRUNED_BRANCH_D1, InvalidCell);
    var _ :- Validate(RefsCount(d1) <= MAX_REFERENCES_COUNT, InvalidCell);
    var _ :- Validate(cell.length > 1, InvalidCell);
    var dataSize := DataSize(cell.mem[cell.begin + 1]);
    var _ :- Validate(d1 != PRUNED_BRANCH_D1 || dataSize == PRUNED_BRANCH_DATA_SIZE, InvalidCell);
    var ok := CheckRefs(cell, 2 + dataSize, RefsCount(d1), index, count);
    var _ :- Validate(ok, InvalidCell);
    r := Success(2 + dataSize + RefsCount(d1));
  }

  method CheckRefs(cell: Cell, at: nat, refsCount: nat, index: nat, count: nat) returns (ok: bool)
    requires cell.Cell? && cell.begin + cell.length <= cell.mem.Length
    ensures var stream := cell.mem[cell.begin..cell.begin + cell.length];
            ok <==> RefsAccepted(stream, at, refsCount, index, count)
  {
    ghost var stream := cell.mem[cell.begin..cell.begin + cell.length];
    for i := 0 to refsCount
      invariant RefsAccepted(stream, at, i, index, count)
    {
      if cell.length <= at + i {
        return false;
      }
      assert stream[at + i] == cell.mem[cell.begin + at + i];
      if !(index < cell.mem[cell.begin + at + i] <= count) {
        return false;
      }
    }
    ok := true;
  }

  // The bits a cell denotes.

  /** Bits without their completion tag: the last 1 and the zeros behind it. */
  function Untagged(bits: seq<bool>): (payload: seq<bool>)
    ensures |payload| <= |bits| && payload == bits[..|payload|]
  {
    if bits == [] then []
    else if bits[|bits| - 1] then bits[..|bits| - 1]
    else Untagged(bits[..|bits| - 1])
  }

  ghost predicate HasTag(bits: seq<bool>) {
    exists i | 0 <= i < |bits| :: bits[i]
  }

  function Payload(d2: byte, data: seq<byte>): seq<bool> {
    if d2 % 2 == 0 then BitsOf(data) else Untagged(BitsOf(data))
  }

  lemma {:induction false} UntaggedOf(bits: seq<bool>, n: nat)
    ensures Untagged(bits + [true] + Zeros(n)) == bits
  {
    var s := bits + [true] + Zeros(n);
    if n > 0 {
      assert s[..|s| - 1] == bits + [true] + Zeros(n - 1);
      UntaggedOf(bits, n - 1);
    }
  }

  lemma {:induction false} TagSplits(bits: seq<bool>)
    requires HasTag(bits)
    ensures |Untagged(bits)| < |bits|
    ensures bits == Untagged(bits) + [true] + Zeros(|bits| - |Untagged(bits)| - 1)
  {
    var n := |bits| - 1;
    if bits[n] {
      assert bits == bits[..n] + [true] + Zeros(0);
    } else {
      var i :| 0 <= i < |bits| && bits[i];
      assert bits[..n][i];
      TagSplits(bits[..n]);
      var u := Untagged(bits[..n]);
      assert bits == bits[..n] + [false];
      assert Zeros(n - |u| - 1) + [false] == Zeros(n - |u|);
    }
  }

  lemma {:induction false} UntaggedZeros(bits: seq<bool>, n: nat)
    ensures Untagged(bits + Zeros(n)) == Untagged(bits)
  {
    var s := bits + Zeros(n);
    if n == 0 {
      assert s == bits;
    } else {
      assert s[..|s| - 1] == bits + Zeros(n - 1);
      UntaggedZeros(bits, n - 1);
    }
  }

  lemma {:induction false} NoTagNoBits(bits: seq<bool>)
    requires !HasTag(bits)
    ensures Untagged(bits) == []
  {
    if bits != [] {
      NoTagNoBits(bits[..|bits| - 1]);
    }
  }

  /** The number of data bits of a cell: scans the bytes, then the bits, from the end. */
  method BitLen(cell: CellView) returns (bitLen: nat)
    requires cell.Shaped()
    ensures bitLen == |Payload(cell.d2, cell.data)|
  {
    var i := |cell.data|;
    bitLen := 8 * i;
    if cell.d2 % 2 == 0 {
      return;
    }
    assert cell.data[..i] == cell.data;
    while i > 0
      invariant i <= |cell.data| && bitLen == 8 * i
      invariant Untagged(BitsOf(cell.data)) == Untagged(BitsOf(cell.data[..i]))
    {
      ghost var front := cell.data[..i];
      assert front[..i - 1] == cell.data[..i - 1];
      if cell.data[i - 1] == 0 {
        ToBitsZero(8);
        UntaggedZeros(BitsOf(cell.data[..i - 1]), 8);
        bitLen := bitLen - 8;
      } else {
        var skip := LowestOne(cell.data[i - 1]);
        SkipTag(BitsOf(cell.data[..i - 1]), ToBits(cell.data[i - 1], 8), skip);
        bitLen := bitLen - skip;
        return;
      }
      i := i - 1;
    }
    assert cell.data[..0] == [];
  }

  /** How many bits the lowest 1 and the zeros under it are. */
  method LowestOne(b: byte) returns (skip: nat)
    requires b != 0
    ensures 1 <= skip <= 8
    ensures ToBits(b, 8)[8 - skip] && ToBits(b, 8)[8 - skip + 1..] == Zeros(skip - 1)
  {
    hide ToBits, Pow2;
    skip := 1;
    NothingLow(b);
    while Shr(b, skip - 1) % 2 == 0
      invariant 1 <= skip <= 8
      invariant ToBits(b, 8)[8 - skip + 1..] == Zeros(skip - 1)
      decreases 8 - skip
    {
      BitAt(b, skip - 1);
      if skip == 8 {
        assert ToBits(b, 8) == [ToBits(b, 8)[0]] + ToBits(b, 8)[1..] == Zeros(8);
        Pow2Values();
        ToBitsZero(8);
        ToBitsInjective(8, b, 0);
      }
      assert ToBits(b, 8)[8 - skip..] == [false] + ToBits(b, 8)[8 - skip + 1..];
      skip := skip + 1;
    }
    BitAt(b, skip - 1);
  }

  lemma NothingLow(b: byte)
    ensures ToBits(b, 8)[8..] == Zeros(0)
  {}

  lemma BitAt(b: byte, k: nat)
    requires k < 8
    ensures ToBits(b, 8)[7 - k] <==> Shr(b, k) % 2 == 1
  {
    hide Shr;
    ToBitsSplit(b, 8 - k, k);
  }

  lemma SkipTag(front: seq<bool>, last: seq<bool>, skip: nat)
    requires |last| == 8 && 1 <= skip <= 8 && last[8 - skip] && last[8 - skip + 1..] == Zeros(skip - 1)
    ensures |Untagged(front + last)| == |front| + 8 - skip
  {
    UntaggedOf(front + last[..8 - skip], skip - 1);
    assert front + last == front + last[..8 - skip] + [true] + Zeros(skip - 1);
  }
}
