/** The global cell table and its hash and depth slots (src/contract.c, src/cell.c, src/message.c). */
module BocContexts {
  import opened Bits
  import opened Outcomes
  import opened Seqs
  import opened Cells
  import opened CellHash
  import opened BocFormat
  import opened ByteStreams
  import opened SliceWriter

  const MAX_PUBLIC_KEY_CELL_DATA_SIZE := 36
  const HASHES_BUFFER_SIZE := 512
  const HASH_BUFFER_SIZE := 266

  /** What the hash and depth slots of a cleared context hold. */
  function ClearSlots(): (slots: seq<Node>)
    ensures |slots| == MAX_CONTRACT_CELLS_COUNT && forall i | 0 <= i < |slots| :: slots[i].depth == 0
  {
    seq(MAX_CONTRACT_CELLS_COUNT, _ => Node(seq(HASH_SIZE, _ => 0), 0))
  }

  /** The pointer points at this cell. */
  ghost predicate PointsAt(cell: Cell, v: CellView)
    reads if cell.Cell? then {cell.mem} else {}
  {
    Loaded(cell) && View(cell) == v
  }

  lemma PointsAtEncoding(cell: Cell, v: CellView)
    requires cell.Cell? && v.Shaped() && cell.begin + |v.Encode()| <= cell.mem.Length
    requires cell.mem[cell.begin..cell.begin + |v.Encode()|] == v.Encode()
    ensures PointsAt(cell, v)
  {
    hide DataSize, RefsCount;
    var at := cell.begin + 2 + |v.data|;
    EncodingParts(cell.mem[..], v, cell.begin, cell.begin + 2, at, at + |v.refs|);
    assert cell.mem[..][cell.begin + 2..at] == cell.mem[cell.begin + 2..at];
    assert cell.mem[..][at..at + |v.refs|] == cell.mem[at..at + |v.refs|];
  }

  lemma EncodingParts(m: seq<byte>, v: CellView, b: nat, i: nat, j: nat, k: nat)
    requires i == b + 2 && j == i + |v.data| && k == j + |v.refs| && k <= |m| && m[b..k] == v.Encode()
    ensures m[b] == v.d1 && m[b + 1] == v.d2 && m[i..j] == v.data && m[j..k] == v.refs
  {
    var s, n := v.Encode(), |v.data|;
    assert m[b] == m[b..k][0] && m[b + 1] == m[b..k][1];
    assert v.data == s[2..2 + n] && v.refs == s[2 + n..2 + n + |v.refs|];
    SliceInside(m, b, k, s, 2, 2 + n, i, j);
    SliceInside(m, b, k, s, 2 + n, 2 + n + |v.refs|, j, k);
  }

  /** The nodes in a buffer of hashes and a buffer of depths. */
  function NodesIn(hashes: seq<byte>, depths: seq<byte>): (nodes: seq<Node>)
    requires |hashes| == HASH_SIZE * |depths|
    ensures |nodes| == |depths|
  {
    seq(|depths|, i requires 0 <= i < |depths| => Node(hashes[HASH_SIZE * i..HASH_SIZE * i + HASH_SIZE], depths[i]))
  }

  /** The table with the planted data in its public key cell. */
  function Plant(table: seq<CellView>, index: nat, data: seq<byte>): (planted: seq<CellView>)
    ensures |planted| == |table|
  {
    if 0 < index < |table| && !table[index].Pruned() && |table[index].data| <= |data|
    then table[index := table[index].(data := data[..|table[index].data|])]
    else table
  }

  /** What the parser guarantees of a table: sizes as announced, and references to later slots. */
  ghost predicate Parsed(table: seq<CellView>) {
    forall i | 0 <= i < |table| ::
      && table[i].Shaped()
      && (table[i].Pruned() ==> PrunedData(table[i].data))
      && |table[i].refs| <= MAX_REFERENCES_COUNT
      && forall k | 0 <= k < |table[i].refs| :: i < table[i].refs[k]
  }

  lemma PlantedParsed(table: seq<CellView>, index: nat, data: seq<byte>)
    requires Parsed(table)
    ensures Parsed(Plant(table, index, data))
    ensures forall i | 0 <= i < |table| :: Plant(table, index, data)[i].refs == table[i].refs
  {}

  /** Parsed cells refer forward if they refer to slots at all. */
  lemma ForwardWhen(table: seq<CellView>, planted: seq<CellView>, count: nat)
    requires Parsed(planted) && count <= |planted| == |table| <= MAX_CONTRACT_CELLS_COUNT
    requires forall i | 0 <= i < |table| :: planted[i].refs == table[i].refs
    ensures Forward(planted[..count], MAX_CONTRACT_CELLS_COUNT)
            <==> forall i | 0 <= i < count :: InSlots(table[i].refs)
  {
    if Forward(planted[..count], MAX_CONTRACT_CELLS_COUNT) {
      forall i | 0 <= i < count
        ensures InSlots(table[i].refs)
      {
        assert planted[..count][i].refs == table[i].refs;
      }
    }
  }

  ghost predicate InSlots(refs: seq<byte>) {
    forall k | 0 <= k < |refs| :: refs[k] < MAX_CONTRACT_CELLS_COUNT
  }

  /** One slot written. */
  lemma NodeWritten(hashes: seq<byte>, hashes': seq<byte>, depths: seq<byte>, i: nat, node: Node)
    requires |hashes| == HASH_SIZE * |depths| && i < |depths| && Copied(hashes, hashes', HASH_SIZE * i, node.hash)
    ensures |hashes'| == |hashes| && NodesIn(hashes', depths[i := node.depth]) == NodesIn(hashes, depths)[i := node]
  {
    var nodes, nodes' := NodesIn(hashes, depths)[i := node], NodesIn(hashes', depths[i := node.depth]);
    forall j | 0 <= j < |depths|
      ensures nodes'[j] == nodes[j]
    {
      SlotKept(hashes, hashes', HASH_SIZE * i, HASH_SIZE * j, node.hash);
    }
  }

  lemma SlotKept(hashes: seq<byte>, hashes': seq<byte>, at: nat, from: nat, hash: Hash)
    requires Copied(hashes, hashes', at, hash) && from + HASH_SIZE <= |hashes|
    requires from + HASH_SIZE <= at || from == at || at + HASH_SIZE <= from
    ensures hashes'[from..from + HASH_SIZE] == if from == at then hash else hashes[from..from + HASH_SIZE]
  {}

  class BocContext {
    const sha: Sha256
    const cells: array<Cell>
    const hashes: array<byte>
    const cellDepth: array<byte>
    const publicKeyCellData: array<byte>
    var cellsCount: nat
    var publicKeyCellIndex: nat
    var publicKeyLabelSizeBits: nat
    /** The cells the counted slots point at. */
    ghost var table: seq<CellView>

    constructor (sha: Sha256)
      ensures Valid() && this.sha == sha
      ensures IsClear()
      ensures fresh(cells) && fresh(hashes) && fresh(cellDepth) && fresh(publicKeyCellData)
      ensures Memory() == {}
    {
      this.sha := sha;
      cells := new Cell[MAX_CONTRACT_CELLS_COUNT](_ => NoCell);
      hashes := new byte[HASHES_BUFFER_SIZE](_ => 0);
      cellDepth := new byte[MAX_CONTRACT_CELLS_COUNT](_ => 0);
      publicKeyCellData := new byte[MAX_PUBLIC_KEY_CELL_DATA_SIZE](_ => 0);
      cellsCount, publicKeyCellIndex, publicKeyLabelSizeBits := 0, 0, 0;
      table := [];
      new;
      ClearNodes();
    }

    /** The buffers the cells point into. */
    ghost function Memory(): set<object>
      reads this, cells
    {
      set i | 0 <= i < cells.Length && cells[i].Cell? :: cells[i].mem
    }

    /** Buffer sizes, separate buffers, and cells that are where the table says. */
    ghost predicate Valid()
      reads this, cells, Memory()
    {
      && cells.Length == MAX_CONTRACT_CELLS_COUNT
      && hashes.Length == HASHES_BUFFER_SIZE
      && cellDepth.Length == MAX_CONTRACT_CELLS_COUNT
      && publicKeyCellData.Length == MAX_PUBLIC_KEY_CELL_DATA_SIZE
      && hashes != cellDepth && hashes != publicKeyCellData && cellDepth != publicKeyCellData
      && hashes !in Memory() && cellDepth !in Memory() && publicKeyCellData !in Memory()
      && |table| == cellsCount <= MAX_CONTRACT_CELLS_COUNT
      && forall i | 0 <= i < cellsCount :: PointsAt(cells[i], table[i])
    }

    /** The cells as they enter the hashes. */
    ghost function Table(): (t: seq<CellView>)
      reads this, publicKeyCellData
      ensures |t| == |table|
    {
      Plant(table, publicKeyCellIndex, publicKeyCellData[..])
    }

    /** What the hash and depth slots hold. */
    ghost function Nodes(): (nodes: seq<Node>)
      requires hashes.Length == HASHES_BUFFER_SIZE && cellDepth.Length == MAX_CONTRACT_CELLS_COUNT
      reads hashes, cellDepth
      ensures |nodes| == MAX_CONTRACT_CELLS_COUNT
    {
      NodesIn(hashes[..], cellDepth[..])
    }

    /** The stream reads a buffer that is none of the context's own. */
    ghost predicate Reads(src: ByteStream)
      reads src
    {
      src.Valid() && src.data != hashes && src.data != cellDepth && src.data != publicKeyCellData
    }

    /** The outcome is that of the parse, and the table is what was parsed. */
    ghost predicate Filled(r: Result<()>, parsed: Result<seq<CellView>>)
      reads this
    {
      if parsed.Success? then r.Success? && table == parsed.value else r == Failure(parsed.error)
    }

    /** Fills the table from a stream; the cells point into the stream's buffer. */
    method DeserializeCellsTree(src: ByteStream) returns (r: Result<()>)
      requires Valid() && Reads(src)
      modifies cells, this`cellsCount, this`table, src
      ensures Valid() && Memory() <= old(Memory()) + {src.data}
      ensures Filled(r, old(ParseBoc(src.Rest())))
    {
      hide ParseHeader, ParseCells, PointsAt;
      ghost var boc := src.Rest();
      var header := ReadHeader(src);
      if header.Failure? {
        return Failure(header.error);
      }
      cellsCount, table := 0, [];
      r := FillTable(src, header.value.cellsCount);
    }

    /** The loop over the cells. */
    method FillTable(src: ByteStream, count: nat) returns (r: Result<()>)
      requires Valid() && Reads(src) && cellsCount == 0
      modifies cells, this`cellsCount, this`table, src
      ensures Valid() && Memory() <= old(Memory()) + {src.data}
      ensures Filled(r, old(ParseCells(src.Rest(), 0, count)))
    {
      ghost var all := ParseCells(src.Rest(), 0, count);
      Resumes(table, src.Rest(), 0, count);
      r := Success(());
      var i, more := 0, count > 0;
      assert all == Outlook(src, 0, count);
      assert count == 0 ==> all == Success(table);
      hide *;
      while more
        invariant Valid() && Memory() <= old(Memory()) + {src.data}
        invariant 0 <= i <= count
        invariant more ==> r.Success? && i < count && Reads(src) && cellsCount == i && all == Outlook(src, i, count)
        invariant !more ==> Filled(r, all)
        decreases count - i, more
      {
        r, more := AddNext(src, i, count);
        i := i + 1;
      }
    }

    /** What the table will be if parsing goes on from cell i. */
    ghost function Outlook(src: ByteStream, i: nat, count: nat): Result<seq<CellView>>
      requires src.Valid()
      reads this, src, src.data
    {
      Prepend(table, ParseCells(src.Rest(), i, count))
    }

    /** One turn of the loop. */
    method AddNext(src: ByteStream, i: nat, count: nat) returns (r: Result<()>, more: bool)
      requires Valid() && Reads(src) && cellsCount == i < count
      modifies cells, this`cellsCount, this`table, src
      ensures Valid() && Memory() <= old(Memory()) + {src.data}
      ensures more ==> r.Success? && i + 1 < count && Reads(src) && cellsCount == i + 1
                       && Outlook(src, i + 1, count) == old(Outlook(src, i, count))
      ensures !more ==> Filled(r, old(Outlook(src, i, count)))
    {
      hide ParseCell, ParseCells, Valid, Memory;
      Resumes(table, src.Rest(), i, count);
      if i >= MAX_CONTRACT_CELLS_COUNT {
        return Failure(InvalidContract), false;
      }
      r := AddCell(src, i, count);
      more := r.Success? && i + 1 < count && src.offset < src.dataSize;
      if r.Success? {
        Resumes(table, src.Rest(), i + 1, count);
        assert src.offset < src.dataSize <==> src.Rest() != [];
      }
    }

    /** The cell at the cursor becomes the next cell of the table. */
    method AddCell(src: ByteStream, i: nat, count: nat) returns (r: Result<()>)
      requires Valid() && Reads(src) && cellsCount == i < MAX_CONTRACT_CELLS_COUNT
      modifies cells, this`cellsCount, this`table, src
      ensures Valid() && Reads(src) && Memory() <= old(Memory()) + {src.data}
      ensures r == WithoutValue(old(ParseCell(src.Rest(), i, count)))
      ensures r.Success? ==> cellsCount == i + 1
      ensures r.Success? ==> var cell := old(ParseCell(src.Rest(), i, count)).value;
                && table == old(table) + [cell]
                && |cell.Encode()| <= |old(src.Rest())| && src.Rest() == old(src.Rest())[|cell.Encode()|..]
    {
      hide ParseCell, Accepted, DataSize, RefsCount, PointsAt;
      ghost var stream := src.Rest();
      var cell := Cell(src.data, src.offset, src.dataSize - src.offset);
      AcceptedSize(stream, i, count);
      var size :- DeserializeCell(cell, i, count);
      cells[i] := cell;
      var _ :- src.ReadData(size);
      ghost var v := ParseCell(stream, i, count).value;
      ParsedCellEncodes(stream, i, count);
      StreamPoints(src, cell, v, stream);
      CountCell(i, v);
      r := Success(());
    }

    /** The pointer points at what the stream started with. */
    lemma StreamPoints(src: ByteStream, cell: Cell, v: CellView, stream: seq<byte>)
      requires cell.Cell? && cell.mem == src.data && src.dataSize <= src.data.Length && cell.begin <= src.dataSize
      requires stream == src.data[cell.begin..src.dataSize] && v.Shaped()
      requires |v.Encode()| <= |stream| && v.Encode() == stream[..|v.Encode()|]
      ensures PointsAt(cell, v)
    {
      SliceOfSlice(src.data[..], cell.begin, src.dataSize, 0, |v.Encode()|);
      PointsAtEncoding(cell, v);
    }

    /** Counts the cell in the next slot. */
    method CountCell(i: nat, ghost v: CellView)
      requires Valid() && cellsCount == i < MAX_CONTRACT_CELLS_COUNT && PointsAt(cells[i], v)
      modifies this`cellsCount, this`table
      ensures Valid() && cellsCount == i + 1 && table == old(table) + [v]
    {
      hide PointsAt;
      cellsCount, table := i + 1, table + [v];
    }

    /** Planted data, if any, is no longer than the buffer it is in. */
    ghost predicate PlantFits()
      reads this
    {
      0 < publicKeyCellIndex < |table| ==> |table[publicKeyCellIndex].data| <= MAX_PUBLIC_KEY_CELL_DATA_SIZE
    }

    /** Computes hash and depth of one cell from those its references point at. */
    method CalcCellHash(index: nat) returns (r: Result<()>)
      requires Valid() && Parsed(table) && PlantFits() && index < cellsCount
      modifies hashes, cellDepth
      ensures Valid()
      ensures r == Validate(InSlots(table[index].refs), InvalidCell)
      ensures r.Success? ==>
                Nodes() == old(Nodes()[index := Step(sha, Table()[index], Nodes()[index].depth, Nodes())])
    {
      var cell := View(cells[index]);
      ghost var nodes := Nodes();
      if cell.Pruned() {
        WriteNode(index, PrunedNode(cell.data));
        return Success(());
      }
      r := HashOrdinary(index, cell);
    }

    /** Writes a hash and a depth into a slot. */
    method WriteNode(index: nat, node: Node)
      requires Valid() && index < MAX_CONTRACT_CELLS_COUNT
      modifies hashes, cellDepth
      ensures Valid() && Nodes() == old(Nodes())[index := node]
    {
      hide PointsAt;
      ghost var h, d := hashes[..], cellDepth[..];
      Copy(hashes, HASH_SIZE * index, node.hash);
      cellDepth[index] := node.depth;
      NodeWritten(h, hashes[..], d, index, node);
    }

    method HashOrdinary(index: nat, cell: CellView) returns (r: Result<()>)
      requires Valid() && Parsed(table) && PlantFits() && index < cellsCount && cell == table[index] && !cell.Pruned()
      modifies hashes, cellDepth
      ensures Valid()
      ensures r == Validate(InSlots(cell.refs), InvalidCell)
      ensures r.Success? ==>
                Nodes() == old(Nodes()[index := Step(sha, Table()[index], Nodes()[index].depth, Nodes())])
    {
      ghost var h, d := hashes[..], cellDepth[..];
      var data := if publicKeyCellIndex != 0 && index == publicKeyCellIndex
                  then publicKeyCellData[..|cell.data|] else cell.data;
      assert Table()[index] == cell.(data := data);
      hide Preimage, NodesOf, NodesIn, DepthOver, Table, Copied;
      var ok, hash := HashPreimage(index, cell.(data := data));
      if !ok {
        return Failure(InvalidCell);
      }
      Copy(hashes, HASH_SIZE * index, hash);
      NodeWritten(h, hashes[..], d, index, Node(hash, cellDepth[index]));
      r := Success(());
    }

    /** Assembles the buffer that is hashed, and hashes it. */
    method HashPreimage(index: nat, cell: CellView) returns (ok: bool, hash: Hash)
      requires hashes.Length == HASHES_BUFFER_SIZE && cellDepth.Length == MAX_CONTRACT_CELLS_COUNT
      requires hashes != cellDepth
      requires index < MAX_CONTRACT_CELLS_COUNT && cell.Shaped() && |cell.refs| <= MAX_REFERENCES_COUNT
      requires forall k | 0 <= k < |cell.refs| :: index < cell.refs[k]
      modifies cellDepth
      ensures ok <==> InSlots(cell.refs)
      ensures ok ==> var kids := NodesOf(cell.refs, old(Nodes()));
                && hash == sha(Preimage(cell.d1, cell.d2, cell.data, kids))
                && cellDepth[..] == old(cellDepth[..])[index := DepthOver(old(cellDepth[index]), kids)]
    {
      hash := seq(HASH_SIZE, _ => 0);
      var buffer := new byte[HASH_BUFFER_SIZE](_ => 0);
      ok := FillBuffer(buffer, index, cell);
      if ok {
        hash := sha(buffer[..PreimageSize(cell)]);
      }
    }

    /** The buffer holds the preimage, and the depth of the cell is above its children's. */
    static ghost predicate BufferFilled(buffer: seq<byte>, cell: CellView, nodes: seq<Node>, index: nat,
                                    depths: seq<byte>, depths': seq<byte>)
      requires InSlots(cell.refs) && |nodes| == |depths| == MAX_CONTRACT_CELLS_COUNT && index < |depths|
    {
      var kids := NodesOf(cell.refs, nodes);
      && |buffer| >= PreimageSize(cell)
      && buffer[..PreimageSize(cell)] == Preimage(cell.d1, cell.d2, cell.data, kids)
      && depths' == depths[index := DepthOver(depths[index], kids)]
    }

    static lemma BufferFilledIs(buffer: seq<byte>, cell: CellView, nodes: seq<Node>, index: nat,
                            depths: seq<byte>, depths': seq<byte>, kids: seq<Node>, end: nat)
      requires InSlots(cell.refs) && |nodes| == |depths| == MAX_CONTRACT_CELLS_COUNT && index < |depths|
      requires kids == NodesOf(cell.refs, nodes) && end == PreimageSize(cell) <= |buffer|
      requires buffer[..end] == [cell.d1 % 32, cell.d2] + cell.data + DepthBytes(kids) + HashBytes(kids)
      requires depths' == depths[index := DepthOver(depths[index], kids)]
      ensures BufferFilled(buffer, cell, nodes, index, depths, depths')
    {}

    static function PreimageSize(cell: CellView): nat {
      2 + |cell.data| + 2 * |cell.refs| + HASH_SIZE * |cell.refs|
    }

    method FillBuffer(buffer: array<byte>, index: nat, cell: CellView) returns (ok: bool)
      requires hashes.Length == HASHES_BUFFER_SIZE && cellDepth.Length == MAX_CONTRACT_CELLS_COUNT
      requires hashes != cellDepth
      requires index < MAX_CONTRACT_CELLS_COUNT && |cell.data| <= 128 && |cell.refs| <= MAX_REFERENCES_COUNT
      requires forall k | 0 <= k < |cell.refs| :: index < cell.refs[k]
      requires buffer.Length == HASH_BUFFER_SIZE && buffer != hashes && buffer != cellDepth
      modifies buffer, cellDepth
      ensures ok <==> InSlots(cell.refs)
      ensures ok ==> BufferFilled(buffer[..], cell, old(Nodes()), index, old(cellDepth[..]), cellDepth[..])
    {
      buffer[0], buffer[1] := cell.d1 % 32, cell.d2;
      assert buffer[..2] == [cell.d1 % 32, cell.d2];
      hide NodesOf, NodesIn, HashBytes, DepthBytes, DepthOver, Preimage, BufferFilled;
      ghost var nodes, depths := Nodes(), cellDepth[..];
      var offset := 2;
      Append(buffer, offset, cell.data);
      offset := offset + |cell.data|;
      ok := WriteDepths(buffer, offset, cell.refs, index);
      if ok {
        ghost var kids := NodesOf(cell.refs, nodes);
        offset := offset + 2 * |cell.refs|;
        WriteHashes(buffer, offset, cell.refs, depths);
        BufferFilledIs(buffer[..], cell, nodes, index, depths, cellDepth[..], kids, offset + HASH_SIZE * |cell.refs|);
      }
    }

    /** Copies bytes behind what a buffer holds already. */
    static method Append(buffer: array<byte>, at: nat, bytes: seq<byte>)
      requires at + |bytes| <= buffer.Length
      modifies buffer
      ensures buffer[..at + |bytes|] == old(buffer[..at]) + bytes
    {
      ghost var before := buffer[..];
      Copy(buffer, at, bytes);
      assert buffer[..at + |bytes|] == buffer[..][..at + |bytes|] == before[..at] + bytes;
    }

    /** The bytes and the depth of the cell after some children. */
    static ghost predicate DepthsWritten(bytes: seq<byte>, front: seq<byte>, kids: seq<Node>, index: nat,
                                         depths: seq<byte>, depths': seq<byte>)
    {
      && index < |depths| && bytes == front + DepthBytes(kids)
      && depths' == depths[index := DepthOver(depths[index], kids)]
    }

    /** Writes the depths of the children and raises the depth of the cell above them. */
    method WriteDepths(buffer: array<byte>, at: nat, refs: seq<byte>, index: nat) returns (ok: bool)
      requires hashes.Length == HASHES_BUFFER_SIZE && cellDepth.Length == MAX_CONTRACT_CELLS_COUNT
      requires at + 2 * |refs| <= buffer.Length && buffer != cellDepth && buffer != hashes
      requires index < MAX_CONTRACT_CELLS_COUNT && forall k | 0 <= k < |refs| :: index < refs[k]
      modifies buffer, cellDepth
      ensures ok <==> InSlots(refs)
      ensures ok ==> DepthsWritten(buffer[..at + 2 * |refs|], old(buffer[..at]), NodesOf(refs, old(Nodes())), index,
                                   old(cellDepth[..]), cellDepth[..])
    {
      ghost var nodes, depths, front := Nodes(), cellDepth[..], buffer[..at];
      ghost var kids: seq<Node> := [];
      NoDepths(front, index, depths);
      hide DepthsWritten, NodesOf, DepthBytes, HashBytes, DepthOver, Deeper;
      assert NodesOf(refs[..0], nodes) == [] by { NoKids(refs, nodes); }
      for child := 0 to |refs|
        invariant InSlots(refs[..child]) && kids == NodesOf(refs[..child], nodes)
        invariant DepthsWritten(buffer[..at + 2 * child], front, kids, index, depths, cellDepth[..])
      {
        if refs[child] >= MAX_CONTRACT_CELLS_COUNT {
          return false;
        }
        kids := NextKid(refs, child, nodes, kids);
        WriteDepth(buffer, at + 2 * child, refs[child], index, front, kids, depths);
      }
      assert refs[..|refs|] == refs;
      ok := true;
    }

    /** Writes the depth of one child. */
    method WriteDepth(buffer: array<byte>, at: nat, ref: byte, index: nat, ghost front: seq<byte>,
                      ghost kids: seq<Node>, ghost depths: seq<byte>)
      requires cellDepth.Length == MAX_CONTRACT_CELLS_COUNT == |depths| && buffer != cellDepth
      requires at + 2 <= buffer.Length && index < MAX_CONTRACT_CELLS_COUNT && index != ref < MAX_CONTRACT_CELLS_COUNT
      requires kids != [] && kids[|kids| - 1].depth == depths[ref]
      requires DepthsWritten(buffer[..at], front, kids[..|kids| - 1], index, depths, cellDepth[..])
      modifies buffer, cellDepth
      ensures DepthsWritten(buffer[..at + 2], front, kids, index, depths, cellDepth[..])
    {
      hide DepthsWritten, DepthBytes, DepthOver, Deeper;
      ghost var before, depths' := buffer[..at], cellDepth[..];
      OtherDepth(before, front, kids[..|kids| - 1], index, depths, depths', ref);
      var childDepth := cellDepth[ref];
      cellDepth[index] := Deeper(cellDepth[index], childDepth);
      Append(buffer, at, [0, childDepth]);
      NextDepth(before, front, kids, index, depths, depths', childDepth);
    }

    static lemma NoKids(refs: seq<byte>, nodes: seq<Node>)
      ensures NodesOf(refs[..0], nodes) == []
    {}

    static lemma NoDepths(front: seq<byte>, index: nat, depths: seq<byte>)
      requires index < |depths|
      ensures DepthsWritten(front, front, [], index, depths, depths)
    {}

    /** Only the depth of the cell itself has changed. */
    static lemma OtherDepth(bytes: seq<byte>, front: seq<byte>, kids: seq<Node>, index: nat, depths: seq<byte>,
                            depths': seq<byte>, i: nat)
      requires DepthsWritten(bytes, front, kids, index, depths, depths') && i != index && i < |depths|
      ensures |depths'| == |depths| && depths'[i] == depths[i]
    {}

    static lemma NextDepth(bytes: seq<byte>, front: seq<byte>, kids: seq<Node>, index: nat, depths: seq<byte>,
                           depths': seq<byte>, depth: byte)
      requires kids != [] && depth == kids[|kids| - 1].depth
      requires DepthsWritten(bytes, front, kids[..|kids| - 1], index, depths, depths')
      ensures index < |depths'|
      ensures var depths'' := depths'[index := Deeper(depths'[index], depth)];
              DepthsWritten(bytes + [0, depth], front, kids, index, depths, depths'')
    {
      AppendAssoc(front, DepthBytes(kids[..|kids| - 1]), [0, depth]);
    }

    static lemma NextKid(refs: seq<byte>, child: nat, nodes: seq<Node>, kids: seq<Node>) returns (more: seq<Node>)
      requires child < |refs| && refs[child] < |nodes| == MAX_CONTRACT_CELLS_COUNT
      requires InSlots(refs[..child]) && kids == NodesOf(refs[..child], nodes)
      ensures InSlots(refs[..child + 1]) && more == kids + [nodes[refs[child]]] == NodesOf(refs[..child + 1], nodes)
      ensures forall stored :: DepthOver(stored, more) == Deeper(DepthOver(stored, kids), nodes[refs[child]].depth)
      ensures DepthBytes(more) == DepthBytes(kids) + [0, nodes[refs[child]].depth]
      ensures HashBytes(more) == HashBytes(kids) + nodes[refs[child]].hash
    {
      more := kids + [nodes[refs[child]]];
      assert more[..|more| - 1] == kids;
      assert refs[..child + 1] == refs[..child] + [refs[child]];
    }

    /** Writes the hashes of the children; their depths do not matter. */
    method WriteHashes(buffer: array<byte>, at: nat, refs: seq<byte>, ghost depths: seq<byte>)
      requires hashes.Length == HASHES_BUFFER_SIZE && |depths| == MAX_CONTRACT_CELLS_COUNT
      requires at + HASH_SIZE * |refs| <= buffer.Length && buffer != hashes && InSlots(refs)
      modifies buffer
      ensures buffer[..at + HASH_SIZE * |refs|]
           == old(buffer[..at]) + HashBytes(NodesOf(refs, NodesIn(hashes[..], depths)))
    {
      ghost var nodes := NodesIn(hashes[..], depths);
      ghost var kids: seq<Node> := [];
      for child := 0 to |refs|
        invariant InSlots(refs[..child]) && kids == NodesOf(refs[..child], nodes)
        invariant buffer[..at + HASH_SIZE * child] == old(buffer[..at]) + HashBytes(kids)
      {
        hide HashBytes, DepthBytes, DepthOver, NodesOf, NodesIn;
        ghost var front := HashBytes(kids);
        kids := NextKid(refs, child, nodes, kids);
        var hash := HashAt(refs[child], depths);
        Append(buffer, at + HASH_SIZE * child, hash);
        AppendAssoc(old(buffer[..at]), front, hash);
      }
      assert refs[..|refs|] == refs;
    }

    function HashAt(i: nat, ghost depths: seq<byte>): (hash: Hash)
      requires hashes.Length == HASHES_BUFFER_SIZE && i < |depths| == MAX_CONTRACT_CELLS_COUNT
      reads hashes
      ensures hash == NodesIn(hashes[..], depths)[i].hash
    {
      assert hashes[..][HASH_SIZE * i..HASH_SIZE * i + HASH_SIZE] == hashes[HASH_SIZE * i..HASH_SIZE * i + HASH_SIZE];
      hashes[HASH_SIZE * i..HASH_SIZE * i + HASH_SIZE]
    }

    /**
     The backward loop over cells count - 1, ..., 0. It fails exactly when one of them refers
     behind the slots; otherwise every slot holds the node of the tree it is the root of.
     */
    method HashFrom(count: nat) returns (r: Result<()>)
      requires Valid() && Parsed(table) && PlantFits() && count <= cellsCount
      modifies hashes, cellDepth
      ensures Valid() && Hashed(r, count, old(Nodes()))
    {
      ghost var t, before := Table()[..count], Nodes();
      r := Success(());
      HashingStarts(t, before);
      hide *;
      var i := count;
      while i > 0 && r.Success?
        invariant 0 <= i <= count && Valid() && table == old(table) && Hashing(r, t, before, i)
      {
        i := i - 1;
        r := HashNext(i, t, before);
      }
      HashingEnds(r, t, before, i);
    }

    /** The state of the loop before cell i - 1. */
    ghost predicate Hashing(r: Result<()>, t: seq<CellView>, before: seq<Node>, i: nat)
      requires Valid() && Parsed(table)
      reads this, cells, Memory(), publicKeyCellData, hashes, cellDepth
    {
      && i <= |t| <= |table| && t == Table()[..|t|] && |before| == MAX_CONTRACT_CELLS_COUNT
      && if r.Failure? then r.error == InvalidCell && !Forward(t, MAX_CONTRACT_CELLS_COUNT)
         else (forall j | i <= j < |t| :: InSlots(table[j].refs))
              && (Forward(t, MAX_CONTRACT_CELLS_COUNT) ==> Evaluated(sha, t, before, Nodes(), i))
    }

    lemma HashingStarts(t: seq<CellView>, before: seq<Node>)
      requires Valid() && Parsed(table) && |t| <= |table| && t == Table()[..|t|] && before == Nodes()
      ensures Hashing(Success(()), t, before, |t|)
    {
      if Forward(t, MAX_CONTRACT_CELLS_COUNT) {
        EvaluatedNothing(sha, t, before);
      }
    }

    lemma HashingEnds(r: Result<()>, t: seq<CellView>, before: seq<Node>, i: nat)
      requires Valid() && Parsed(table) && Hashing(r, t, before, i) && (i == 0 || r.Failure?)
      ensures Hashed(r, |t|, before)
    {
      hide Evaluated;
      PlantedParsed(table, publicKeyCellIndex, publicKeyCellData[..]);
      ForwardWhen(table, Table(), |t|);
    }

    /** One turn of the loop. */
    method HashNext(i: nat, ghost t: seq<CellView>, ghost before: seq<Node>) returns (r: Result<()>)
      requires Valid() && Parsed(table) && PlantFits() && Hashing(Success(()), t, before, i + 1)
      modifies hashes, cellDepth
      ensures Valid() && Hashing(r, t, before, i)
    {
      hide Forward, Evaluated, Step, InSlots;
      ghost var nodes := Nodes();
      PlantedParsed(table, publicKeyCellIndex, publicKeyCellData[..]);
      ForwardWhen(table, Table(), |t|);
      r := CalcCellHash(i);
      if r.Success? && Forward(t, MAX_CONTRACT_CELLS_COUNT) {
        EvaluatedStep(sha, t, before, nodes, i);
      }
    }

    ghost predicate Hashed(r: Result<()>, count: nat, before: seq<Node>)
      requires hashes.Length == HASHES_BUFFER_SIZE && cellDepth.Length == MAX_CONTRACT_CELLS_COUNT
      requires count <= |table| && |before| == MAX_CONTRACT_CELLS_COUNT
      reads this, publicKeyCellData, hashes, cellDepth
    {
      if Forward(Table()[..count], MAX_CONTRACT_CELLS_COUNT)
      then r.Success? && Evaluated(sha, Table()[..count], before, Nodes(), 0)
      else r == Failure(InvalidCell)
    }

    /** Hashes the whole table, from the last cell to the root. */
    method PreparePayloadHash() returns (r: Result<()>)
      requires Valid() && Parsed(table) && PlantFits()
      modifies hashes, cellDepth
      ensures Valid() && Hashed(r, cellsCount, old(Nodes()))
    {
      r := HashFrom(cellsCount);
    }

    /** Clears the whole context. */
    method Clear()
      requires Valid()
      modifies this, cells, hashes, cellDepth, publicKeyCellData
      ensures Valid() && IsClear() && Memory() == {}
    {
      forall i | 0 <= i < cells.Length { cells[i] := NoCell; }
      forall i | 0 <= i < hashes.Length { hashes[i] := 0; }
      forall i | 0 <= i < cellDepth.Length { cellDepth[i] := 0; }
      forall i | 0 <= i < publicKeyCellData.Length { publicKeyCellData[i] := 0; }
      cellsCount, publicKeyCellIndex, publicKeyLabelSizeBits, table := 0, 0, 0, [];
      ClearNodes();
    }

    /** No cells, and all hash and depth slots zero. */
    ghost predicate IsClear()
      reads this, hashes, cellDepth
    {
      && hashes.Length == HASHES_BUFFER_SIZE && cellDepth.Length == MAX_CONTRACT_CELLS_COUNT
      && cellsCount == 0 && publicKeyCellIndex == 0 && Nodes() == ClearSlots()
    }

    lemma ClearNodes()
      requires hashes.Length == HASHES_BUFFER_SIZE && cellDepth.Length == MAX_CONTRACT_CELLS_COUNT
      requires forall i | 0 <= i < hashes.Length :: hashes[i] == 0
      requires forall i | 0 <= i < cellDepth.Length :: cellDepth[i] == 0
      ensures Nodes() == ClearSlots()
    {
      forall i | 0 <= i < MAX_CONTRACT_CELLS_COUNT
        ensures Nodes()[i] == ClearSlots()[i]
      {
        assert hashes[..][HASH_SIZE * i..HASH_SIZE * i + HASH_SIZE] == seq(HASH_SIZE, _ => 0);
      }
    }
  }
}
