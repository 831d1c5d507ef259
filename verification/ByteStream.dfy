/** Reading a buffer front to back (src/byte_stream.c). */
module ByteStreams {
  import opened Bits
  import opened Outcomes

  class ByteStream {
    const data: array<byte>
    const dataSize: nat
    var offset: nat

    constructor (data: array<byte>, dataSize: nat)
      ensures this.data == data && this.dataSize == dataSize && offset == 0
    {
      this.data, this.dataSize, offset := data, dataSize, 0;
    }

    ghost predicate Valid()
      reads this
    {
      offset <= dataSize <= data.Length
    }

    /** The bytes still to be read. */
    function Rest(): seq<byte>
      requires Valid()
      reads this, data
    {
      data[offset..dataSize]
    }

    method ReadData(size: nat) returns (r: Result<seq<byte>>)
      requires Valid()
      modifies this
      ensures Valid()
      ensures r == if size <= old(|Rest()|) then Success(old(Rest())[..size]) else Failure(EndOfStream)
      ensures offset == old(offset) + if r.Success? then size else 0
      ensures r.Success? ==> Rest() == old(Rest())[size..]
    {
      var _ :- Validate(dataSize - offset >= size, EndOfStream);
      var bytes := data[offset..offset + size];
      assert Rest()[..size] == bytes && Rest()[size..] == data[offset + size..dataSize];
      offset := offset + size;
      r := Success(bytes);
    }

    method ReadByte() returns (r: Result<byte>)
      requires Valid()
      modifies this
      ensures Valid()
      ensures r == if old(Rest()) != [] then Success(old(Rest())[0]) else Failure(EndOfStream)
      ensures offset == old(offset) + if r.Success? then 1 else 0
      ensures r.Success? ==> Rest() == old(Rest())[1..]
    {
      var bytes :- ReadData(1);
      r := Success(bytes[0]);
    }
  }
}
