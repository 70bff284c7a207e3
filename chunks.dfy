/** The chunk record (length | type | data | crc) and the reader that
    decodes one record at a cursor, src/parse/parsePNG.go lines 18-23 and 45-63. */
module Chunks {
  import opened Outcomes
  import opened Bytes

  /** The value of a chunk: what the Go `Chunk` struct holds once populated. */
  datatype ChunkValue = ChunkValue(Length: nat, CType: seq<byte>, Data: seq<byte>, Crc32: seq<byte>)
  {
    /** A record that can be laid out in a buffer: a 32-bit length that
        matches the data, a 4-byte type and a 4-byte check value. */
    predicate WellFormed() {
      Length < TWO_32 && |Data| == Length && |CType| == 4 && |Crc32| == 4
    }

    /** Bytes the record occupies in the buffer. */
    function Size(): nat {
      12 + Length
    }
  }

  /** The on-disk layout of one record: length (big endian), type, data, crc. */
  function Serialize(c: ChunkValue): (b: seq<byte>)
    ensures c.WellFormed() ==> |b| == c.Size()
  {
    Uint32Bytes(c.Length) + c.CType + c.Data + c.Crc32
  }

  /** The record at cursor `ptr`, or OutOfRange when one of the reads that
      Populate does would run past the end of the buffer. */
  function ChunkAt(buf: seq<byte>, ptr: nat): (r: Result<ChunkValue>)
    ensures r.Err? ==> r.error == OutOfRange
    ensures r.Ok? <==> ptr + 4 <= |buf| && ptr + 12 + Uint32Of(buf[ptr..ptr + 4]) <= |buf|
    ensures r.Ok? ==> r.value.WellFormed() && r.value.Length == Uint32Of(buf[ptr..ptr + 4])
    ensures r.Ok? ==> ptr + r.value.Size() <= |buf|
  {
    if ptr + 4 > |buf| then Err(OutOfRange)
    else
      var len := Uint32Of(buf[ptr..ptr + 4]);
      if ptr + 12 + len > |buf| then Err(OutOfRange)
      else Ok(ChunkValue(len, buf[ptr + 4..ptr + 8], buf[ptr + 8..ptr + 8 + len], buf[ptr + 8 + len..ptr + 12 + len]))
  }

  /** The record read at `ptr` is exactly the bytes from `ptr` to
      `ptr + Size()`: length, type, data and crc sit side by side with no
      gap and no overlap. */
  lemma ChunkAtLayout(buf: seq<byte>, ptr: nat)
    requires ChunkAt(buf, ptr).Ok?
    ensures buf[ptr..ptr + ChunkAt(buf, ptr).value.Size()] == Serialize(ChunkAt(buf, ptr).value)
  {
    var c := ChunkAt(buf, ptr).value;
    DecodeThenEncode(buf[ptr..ptr + 4]);
    assert buf[ptr..ptr + c.Size()] == buf[ptr..ptr + 4] + c.CType + c.Data + c.Crc32;
  }

  /** Wherever the bytes of a well-formed record stand in a buffer, the
      reader reads that record there. */
  lemma ChunkAtFromLayout(buf: seq<byte>, ptr: nat, c: ChunkValue)
    requires c.WellFormed() && ptr + c.Size() <= |buf|
    requires buf[ptr..ptr + c.Size()] == Serialize(c)
    ensures ChunkAt(buf, ptr) == Ok(c)
  {
    var len := Uint32Bytes(c.Length);
    SplitSlice(buf, ptr, ptr + 8 + c.Length, ptr + c.Size(), len + c.CType + c.Data, c.Crc32);
    SplitSlice(buf, ptr, ptr + 8, ptr + 8 + c.Length, len + c.CType, c.Data);
    SplitSlice(buf, ptr, ptr + 4, ptr + 8, len, c.CType);
    EncodeThenDecode(c.Length);
  }

  /** Reading a well-formed record back from anywhere in a buffer gives the
      record: ChunkAt inverts Serialize. */
  lemma ChunkAtSerialize(pre: seq<byte>, c: ChunkValue, post: seq<byte>)
    requires c.WellFormed()
    ensures ChunkAt(pre + Serialize(c) + post, |pre|) == Ok(c)
  {
    var buf := pre + Serialize(c) + post;
    assert buf[|pre|..|pre| + c.Size()] == Serialize(c);
    ChunkAtFromLayout(buf, |pre|, c);
  }

  /** The Go `Chunk` struct, populated in place by Populate. */
  class Chunk {
    var Length: nat
    var CType: seq<byte>
    var Data: seq<byte>
    var Crc32: seq<byte>

    /** The data field holds exactly Length bytes. */
    predicate Valid()
      reads this
    {
      |Data| == Length
    }

    function Value(): ChunkValue
      reads this
    {
      ChunkValue(Length, CType, Data, Crc32)
    }

    /** A zero-valued chunk, as `var c Chunk` declares it. */
    constructor ()
      ensures Valid()
      ensures Value() == ChunkValue(0, [], [], [])
    {
      Length, CType, Data, Crc32 := 0, [], [], [];
    }

    /** Populate reads the record at `ptr` into this chunk and returns the
        cursor just past it, `ptr + 12 + Length`. A read past the end of the
        buffer, which panics in Go, returns OutOfRange with the cursor and
        the chunk unchanged. */
    method Populate(buf: seq<byte>, ptr: nat) returns (next: nat, err: Outcome)
      modifies this
      ensures err.Pass? <==> ChunkAt(buf, ptr).Ok?
      ensures err.Pass? ==> Value() == ChunkAt(buf, ptr).value && Valid()
      ensures err.Pass? ==> next == ptr + 12 + Length && next <= |buf|
      ensures err.Fail? ==> err.error == OutOfRange && next == ptr && Value() == old(Value())
    {
      if ptr + 4 > |buf| {
        return ptr, Fail(OutOfRange);
      }
      var len := UInt32ToInt(buf[ptr..ptr + 4]);
      if len.Err? {
        // The slice always has four bytes, so the decode error return of
        // lines 50-52 cannot happen.
        assert false;
      }
      if ptr + 12 + len.value > |buf| {
        return ptr, Fail(OutOfRange);
      }
      Length := len.value;
      CType := buf[ptr + 4..ptr + 8];
      Data := buf[ptr + 8..ptr + 8 + Length];
      next := ptr + 12 + Length;
      Crc32 := buf[next - 4..next];
      err := Pass;
    }
  }
}
