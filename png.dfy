/** The PNG record, its chunk list, and the chunk walk of ParseMain,
    src/parse/parsePNG.go lines 25-35, 120-122 and 142-157. */
module Png {
  import opened Outcomes
  import opened Bytes
  import opened Chunks
  import opened Ihdr

  /** The walk starts past the 8-byte signature, which it does not check. */
  const SIGNATURE_LENGTH: nat := 8

  /** The chunk type "IEND" in ASCII. */
  const IEND: seq<byte> := [0x49, 0x45, 0x4E, 0x44]

  /** The chunks a walk read, in file order, and how it ended: Pass once an
      IEND chunk was read, Fail when a read ran past the buffer. */
  datatype Walk = Walk(chunks: seq<ChunkValue>, status: Outcome)

  /** The chunk walk from cursor `ptr`: read a chunk, keep it, stop after an
      IEND chunk, otherwise continue at the cursor just past it. */
  function ChunksFrom(buf: seq<byte>, ptr: nat): (w: Walk)
    decreases |buf| - ptr
    ensures w.status.Fail? ==> w.status.error == OutOfRange
  {
    match ChunkAt(buf, ptr)
    case Err(e) => Walk([], Fail(e))
    case Ok(c) =>
      if c.CType == IEND then Walk([c], Pass)
      else
        var rest := ChunksFrom(buf, ptr + c.Size());
        Walk([c] + rest.chunks, rest.status)
  }

  /** A walk that succeeds ends with an IEND record. */
  lemma {:induction false} WalkEndsWithIEND(buf: seq<byte>, ptr: nat)
    ensures var w := ChunksFrom(buf, ptr);
      w.status.Pass? ==> |w.chunks| > 0 && w.chunks[|w.chunks| - 1].CType == IEND
    decreases |buf| - ptr
  {
    if ChunkAt(buf, ptr).Ok? {
      var c := ChunkAt(buf, ptr).value;
      var next := ptr + c.Size();
      WalkOn(buf, ptr, next, c);
      if c.CType != IEND {
        WalkEndsWithIEND(buf, next);
      }
    }
  }

  /** No record before the last one of a walk is IEND, and a walk that fails
      read no IEND record at all. */
  lemma {:induction false} WalkIENDOnlyLast(buf: seq<byte>, ptr: nat)
    ensures var w := ChunksFrom(buf, ptr);
      forall i :: 0 <= i < |w.chunks| && (w.status.Fail? || i < |w.chunks| - 1) ==> w.chunks[i].CType != IEND
    decreases |buf| - ptr
  {
    if ChunkAt(buf, ptr).Ok? {
      var c := ChunkAt(buf, ptr).value;
      var next := ptr + c.Size();
      WalkOn(buf, ptr, next, c);
      if c.CType != IEND {
        WalkIENDOnlyLast(buf, next);
      }
    }
  }

  /** Every record a walk reads is well formed. */
  lemma {:induction false} WalkWellFormed(buf: seq<byte>, ptr: nat)
    ensures var w := ChunksFrom(buf, ptr);
      forall i :: 0 <= i < |w.chunks| ==> w.chunks[i].WellFormed()
    decreases |buf| - ptr
  {
    if ChunkAt(buf, ptr).Ok? {
      var c := ChunkAt(buf, ptr).value;
      var next := ptr + c.Size();
      WalkOn(buf, ptr, next, c);
      if c.CType != IEND {
        WalkWellFormed(buf, next);
      }
    }
  }

  /** A walk that succeeds ends with an IEND record and no record before
      it is IEND; a walk that fails read no IEND record at all; every record
      read is well formed. */
  lemma WalkShape(buf: seq<byte>, ptr: nat)
    ensures var w := ChunksFrom(buf, ptr);
      && (w.status.Pass? ==> |w.chunks| > 0 && w.chunks[|w.chunks| - 1].CType == IEND)
      && (forall i :: 0 <= i < |w.chunks| && (w.status.Fail? || i < |w.chunks| - 1) ==> w.chunks[i].CType != IEND)
      && (forall i :: 0 <= i < |w.chunks| ==> w.chunks[i].WellFormed())
  {
    WalkEndsWithIEND(buf, ptr);
    WalkIENDOnlyLast(buf, ptr);
    WalkWellFormed(buf, ptr);
  }

  /** Bytes taken by a list of records. */
  function Span(cs: seq<ChunkValue>): nat {
    if cs == [] then 0 else cs[0].Size() + Span(cs[1..])
  }

  /** The layout of a list of records, one after the other. */
  function SerializeAll(cs: seq<ChunkValue>): (b: seq<byte>)
  {
    if cs == [] then [] else Serialize(cs[0]) + SerializeAll(cs[1..])
  }

  lemma SpanCons(c: ChunkValue, rest: seq<ChunkValue>)
    ensures Span([c] + rest) == c.Size() + Span(rest)
  {
    assert ([c] + rest)[1..] == rest;
  }

  lemma SerializeAllCons(c: ChunkValue, rest: seq<ChunkValue>)
    ensures SerializeAll([c] + rest) == Serialize(c) + SerializeAll(rest)
  {
    assert ([c] + rest)[1..] == rest;
  }

  /** One record followed by a list of records, each where it belongs, is
      the layout of the longer list. */
  lemma ConsLayout(buf: seq<byte>, lo: nat, mid: nat, hi: nat, c: ChunkValue, rest: seq<ChunkValue>)
    requires mid == lo + c.Size() && hi == mid + Span(rest) && hi <= |buf|
    requires buf[lo..mid] == Serialize(c) && buf[mid..hi] == SerializeAll(rest)
    ensures hi == lo + Span([c] + rest)
    ensures buf[lo..hi] == SerializeAll([c] + rest)
  {
    SpanCons(c, rest);
    SerializeAllCons(c, rest);
    ConcatSlices(buf, lo, mid, hi, Serialize(c), SerializeAll(rest));
  }

  /** One step of a walk: the record at `ptr` and the walk after it. */
  lemma WalkStep(buf: seq<byte>, ptr: nat)
    requires ChunkAt(buf, ptr).Ok?
    ensures ChunkAt(buf, ptr).value.CType == IEND ==>
      ChunksFrom(buf, ptr) == Walk([ChunkAt(buf, ptr).value], Pass)
    ensures ChunkAt(buf, ptr).value.CType != IEND ==>
      ChunksFrom(buf, ptr) == Walk([ChunkAt(buf, ptr).value] + ChunksFrom(buf, ptr + ChunkAt(buf, ptr).value.Size()).chunks,
                                   ChunksFrom(buf, ptr + ChunkAt(buf, ptr).value.Size()).status)
  {
  }

  /** Reading at `ptr` and then at each following cursor yields the records
      of `cs`, in order. */
  predicate BackToBack(buf: seq<byte>, ptr: nat, cs: seq<ChunkValue>)
    decreases |cs|
  {
    cs == [] ||
    (ChunkAt(buf, ptr) == Ok(cs[0]) && BackToBack(buf, ptr + cs[0].Size(), cs[1..]))
  }

  /** Records read back to back fill exactly the slice of their total
      size, each one serialized at its place. */
  lemma {:induction false} BackToBackLayout(buf: seq<byte>, ptr: nat, cs: seq<ChunkValue>)
    requires ptr <= |buf| && BackToBack(buf, ptr, cs)
    ensures ptr + Span(cs) <= |buf| && buf[ptr..ptr + Span(cs)] == SerializeAll(cs)
    decreases |cs|
  {
    if cs != [] {
      var c := cs[0];
      assert cs == [c] + cs[1..];
      ChunkAtLayout(buf, ptr);
      BackToBackLayout(buf, ptr + c.Size(), cs[1..]);
      ConsLayout(buf, ptr, ptr + c.Size(), ptr + c.Size() + Span(cs[1..]), c, cs[1..]);
    }
  }

  /** The records of a walk are read back to back from its start. */
  lemma BackToBackCons(buf: seq<byte>, ptr: nat, next: nat, c: ChunkValue, rest: seq<ChunkValue>)
    requires ChunkAt(buf, ptr) == Ok(c) && next == ptr + c.Size() && BackToBack(buf, next, rest)
    ensures BackToBack(buf, ptr, [c] + rest)
  {
    assert ([c] + rest)[1..] == rest;
  }

  lemma {:induction false} WalkBackToBack(buf: seq<byte>, ptr: nat)
    ensures BackToBack(buf, ptr, ChunksFrom(buf, ptr).chunks)
    decreases |buf| - ptr
  {
    if ChunkAt(buf, ptr).Ok? {
      var c := ChunkAt(buf, ptr).value;
      var next := ptr + c.Size();
      WalkOn(buf, ptr, next, c);
      if c.CType != IEND {
        WalkBackToBack(buf, next);
        BackToBackCons(buf, ptr, next, c, ChunksFrom(buf, next).chunks);
      } else {
        BackToBackCons(buf, ptr, next, c, []);
        assert [c] + [] == [c];
      }
    }
  }

  /** A walk that reaches IEND has read the bytes from `ptr` on exactly
      once: its records, laid out one after the other, are those bytes. */
  lemma WalkCovers(buf: seq<byte>, ptr: nat)
    requires ChunksFrom(buf, ptr).status.Pass?
    ensures ptr + Span(ChunksFrom(buf, ptr).chunks) <= |buf|
    ensures buf[ptr..ptr + Span(ChunksFrom(buf, ptr).chunks)] == SerializeAll(ChunksFrom(buf, ptr).chunks)
  {
    WalkBackToBack(buf, ptr);
    assert ChunkAt(buf, ptr).Ok?;
    BackToBackLayout(buf, ptr, ChunksFrom(buf, ptr).chunks);
  }

  lemma {:induction false} SerializeAllLength(cs: seq<ChunkValue>)
    requires forall i :: 0 <= i < |cs| ==> cs[i].WellFormed()
    ensures |SerializeAll(cs)| == Span(cs)
    decreases |cs|
  {
    if cs != [] {
      SerializeAllLength(cs[1..]);
    }
  }

  /** Well-formed records laid out from `ptr` on are read back to back. */
  lemma {:induction false} LayoutBackToBack(buf: seq<byte>, ptr: nat, cs: seq<ChunkValue>)
    requires forall i :: 0 <= i < |cs| ==> cs[i].WellFormed()
    requires ptr + Span(cs) <= |buf| && buf[ptr..ptr + Span(cs)] == SerializeAll(cs)
    ensures BackToBack(buf, ptr, cs)
    decreases |cs|
  {
    if cs != [] {
      var c, rest := cs[0], cs[1..];
      assert cs == [c] + rest;
      SpanCons(c, rest);
      SerializeAllCons(c, rest);
      SplitSlice(buf, ptr, ptr + c.Size(), ptr + c.Size() + Span(rest), Serialize(c), SerializeAll(rest));
      ChunkAtFromLayout(buf, ptr, c);
      LayoutBackToBack(buf, ptr + c.Size(), rest);
    }
  }

  /** Records read back to back, of which only the last is IEND, are what
      the walk reads. */
  lemma {:induction false} BackToBackWalk(buf: seq<byte>, ptr: nat, cs: seq<ChunkValue>)
    requires |cs| > 0 && cs[|cs| - 1].CType == IEND
    requires forall i :: 0 <= i < |cs| - 1 ==> cs[i].CType != IEND
    requires BackToBack(buf, ptr, cs)
    ensures ChunksFrom(buf, ptr) == Walk(cs, Pass)
    decreases |cs|
  {
    var c := cs[0];
    var next := ptr + c.Size();
    WalkOn(buf, ptr, next, c);
    if |cs| > 1 {
      var rest := cs[1..];
      assert BackToBack(buf, next, rest);
      assert forall i :: 0 <= i < |rest| - 1 ==> rest[i].CType == cs[i + 1].CType;
      BackToBackWalk(buf, next, rest);
      assert cs == [c] + rest;
    }
  }

  /** A list of well-formed records that ends with its only IEND record,
      laid out anywhere in a buffer, is walked back record for record. */
  lemma WalkRoundTrip(pre: seq<byte>, cs: seq<ChunkValue>, post: seq<byte>)
    requires |cs| > 0 && cs[|cs| - 1].CType == IEND
    requires forall i :: 0 <= i < |cs| - 1 ==> cs[i].CType != IEND
    requires forall i :: 0 <= i < |cs| ==> cs[i].WellFormed()
    ensures ChunksFrom(pre + SerializeAll(cs) + post, |pre|) == Walk(cs, Pass)
  {
    var buf := pre + SerializeAll(cs) + post;
    SerializeAllLength(cs);
    assert buf[|pre|..|pre| + Span(cs)] == SerializeAll(cs);
    LayoutBackToBack(buf, |pre|, cs);
    BackToBackWalk(buf, |pre|, cs);
  }

  /** What ParseMain holds after the walk: the header fields, the chunks it
      appended, and whether the walk reached IEND. */
  datatype Document = Document(header: Header, chunks: seq<ChunkValue>, status: Outcome)

  /** The walk of ParseMain: the first chunk at offset 8 is the header; its
      validation result is ignored; the loop then reads chunks until IEND.
      A read past the buffer stops everything. */
  function Parse(buf: seq<byte>): (d: Document)
    ensures d.status.Fail? ==> d.status.error == OutOfRange
    ensures d.status.Pass? ==> |d.chunks| >= 2 && d.chunks[|d.chunks| - 1].CType == IEND
    ensures d.status.Pass? ==> forall i :: 1 <= i < |d.chunks| - 1 ==> d.chunks[i].CType != IEND
    ensures ChunkAt(buf, SIGNATURE_LENGTH).Ok? <==> |d.chunks| > 0
    ensures |d.chunks| > 0 ==>
      d.chunks[0] == ChunkAt(buf, SIGNATURE_LENGTH).value && d.header == IHDRStep(ZeroHeader, d.chunks[0]).0
  {
    match ChunkAt(buf, SIGNATURE_LENGTH)
    case Err(e) => Document(ZeroHeader, [], Fail(e))
    case Ok(hdr) =>
      var w := ChunksFrom(buf, SIGNATURE_LENGTH + hdr.Size());
      WalkShape(buf, SIGNATURE_LENGTH + hdr.Size());
      Document(IHDRStep(ZeroHeader, hdr).0, [hdr] + w.chunks, w.status)
  }

  /** A buffer whose first record cannot be read parses to nothing. */
  lemma ParseStops(buf: seq<byte>)
    requires ChunkAt(buf, SIGNATURE_LENGTH).Err?
    ensures Parse(buf) == Document(ZeroHeader, [], Fail(OutOfRange))
  {
  }

  /** A buffer whose first record can be read parses to that record's
      header fields, the record, and the walk from just past it. */
  lemma ParseGoesOn(buf: seq<byte>, next: nat, c: ChunkValue)
    requires ChunkAt(buf, SIGNATURE_LENGTH) == Ok(c) && next == SIGNATURE_LENGTH + 12 + c.Length
    ensures Parse(buf) == Document(IHDRStep(ZeroHeader, c).0, [c] + ChunksFrom(buf, next).chunks, ChunksFrom(buf, next).status)
  {
    assert next == SIGNATURE_LENGTH + c.Size();
  }

  /** A PNG file of a signature, a valid 800 x 600 header, one data chunk
      and an empty IEND chunk parses into those three chunks, with the
      header fields read from the first. */
  lemma SampleFile(sig: seq<byte>, ihdrCrc: seq<byte>, payload: seq<byte>, idatCrc: seq<byte>, iendCrc: seq<byte>)
    requires |sig| == SIGNATURE_LENGTH && |ihdrCrc| == 4 && |idatCrc| == 4 && |iendCrc| == 4
    requires |payload| < TWO_32
    ensures
      var n := Header(800, 600, 8, 6, 0, 0, 0);
      var ihdr := ChunkValue(13, [0x49, 0x48, 0x44, 0x52], IHDRData(n), ihdrCrc);
      var idat := ChunkValue(|payload|, [0x49, 0x44, 0x41, 0x54], payload, idatCrc);
      var iend := ChunkValue(0, IEND, [], iendCrc);
      Parse(sig + Serialize(ihdr) + Serialize(idat) + Serialize(iend)) == Document(n, [ihdr, idat, iend], Pass)
  {
    var n := Header(800, 600, 8, 6, 0, 0, 0);
    var ihdr := ChunkValue(13, [0x49, 0x48, 0x44, 0x52], IHDRData(n), ihdrCrc);
    var idat := ChunkValue(|payload|, [0x49, 0x44, 0x41, 0x54], payload, idatCrc);
    var iend := ChunkValue(0, IEND, [], iendCrc);
    var rest := [idat, iend];
    assert rest[1..] == [iend];
    assert SerializeAll([iend][1..]) == [];
    assert SerializeAll(rest) == Serialize(idat) + Serialize(iend);
    var buf := sig + Serialize(ihdr) + Serialize(idat) + Serialize(iend);
    assert buf == sig + Serialize(ihdr) + SerializeAll(rest);
    ChunkAtSerialize(sig, ihdr, SerializeAll(rest));
    assert buf == (sig + Serialize(ihdr)) + SerializeAll(rest) + [];
    WalkRoundTrip(sig + Serialize(ihdr), rest, []);
    ValidHeaderRoundTrip(ZeroHeader, n, [0x49, 0x48, 0x44, 0x52], ihdrCrc);
  }

  /** The records of a list of Go chunk pointers. */
  function Values(cs: seq<Chunk>): seq<ChunkValue>
    reads cs
  {
    if cs == [] then [] else Values(cs[..|cs| - 1]) + [cs[|cs| - 1].Value()]
  }

  lemma ValuesAppend(cs: seq<Chunk>, c: Chunk)
    ensures Values(cs + [c]) == Values(cs) + [c.Value()]
  {
    assert (cs + [c])[..|cs|] == cs;
  }

  /** The walk at a readable record: it stops there on IEND and goes on
      from the cursor just past the record otherwise. */
  lemma WalkOn(buf: seq<byte>, ptr: nat, next: nat, c: ChunkValue)
    requires ChunkAt(buf, ptr) == Ok(c) && next == ptr + ChunkAt(buf, ptr).value.Size()
    ensures c.CType == IEND ==> ChunksFrom(buf, ptr) == Walk([c], Pass)
    ensures c.CType != IEND ==> ChunksFrom(buf, ptr) == Walk([c] + ChunksFrom(buf, next).chunks, ChunksFrom(buf, next).status)
  {
    WalkStep(buf, ptr);
  }

  /** Splitting a walk at a record whose own walk goes on past one more
      record moves the split one record further. */
  lemma SplitAdvance(whole: Walk, here: Walk, after: Walk, acc: seq<ChunkValue>, c: ChunkValue)
    requires whole == Walk(acc + here.chunks, here.status)
    requires here == Walk([c] + after.chunks, after.status)
    ensures whole == Walk(acc + [c] + after.chunks, after.status)
  {
    assert acc + ([c] + after.chunks) == acc + [c] + after.chunks;
  }

  /** Splitting a walk at a record whose own walk ends there leaves the
      records read so far and that record. */
  lemma SplitEnd(whole: Walk, here: Walk, acc: seq<ChunkValue>, c: ChunkValue)
    requires whole == Walk(acc + here.chunks, here.status)
    requires here == Walk([c], Pass)
    ensures whole == Walk(acc + [c], Pass)
  {
  }

  /** The walk from `start`, split at `ptr` into the records read so far and
      the walk from `ptr`, moves on by one record: it ends there on IEND and
      goes on from the following record otherwise. */
  lemma WalkAdvance(buf: seq<byte>, start: nat, ptr: nat, next: nat, acc: seq<ChunkValue>, c: ChunkValue)
    requires ChunkAt(buf, ptr) == Ok(c) && next == ptr + ChunkAt(buf, ptr).value.Size()
    requires ChunksFrom(buf, start) == Walk(acc + ChunksFrom(buf, ptr).chunks, ChunksFrom(buf, ptr).status)
    ensures c.CType == IEND ==> ChunksFrom(buf, start) == Walk(acc + [c], Pass)
    ensures c.CType != IEND ==>
      ChunksFrom(buf, start) == Walk(acc + [c] + ChunksFrom(buf, next).chunks, ChunksFrom(buf, next).status)
  {
    WalkOn(buf, ptr, next, c);
    if c.CType == IEND {
      SplitEnd(ChunksFrom(buf, start), ChunksFrom(buf, ptr), acc, c);
    } else {
      SplitAdvance(ChunksFrom(buf, start), ChunksFrom(buf, ptr), ChunksFrom(buf, next), acc, c);
    }
  }

  /** A record that cannot be read at `ptr` ends the walk from `start` with
      the records read so far. */
  lemma WalkStops(buf: seq<byte>, start: nat, ptr: nat, acc: seq<ChunkValue>)
    requires ChunkAt(buf, ptr).Err?
    requires ChunksFrom(buf, start) == Walk(acc + ChunksFrom(buf, ptr).chunks, ChunksFrom(buf, ptr).status)
    ensures ChunksFrom(buf, start) == Walk(acc, Fail(OutOfRange))
  {
    assert acc + [] == acc;
  }

  /** The Go `PNG` struct: seven header fields, the chunk list and a chunk
      count that nothing updates. */
  class PNG {
    var Width: int
    var Height: int
    var BitDepth: int
    var ColorType: int
    var CompressionMethod: int
    var FilterMethod: int
    var InterlaceMethod: int
    var chunks: seq<Chunk>
    var NumberOfChunks: int

    function Fields(): Header
      reads this
    {
      Header(Width, Height, BitDepth, ColorType, CompressionMethod, FilterMethod, InterlaceMethod)
    }

    /** A zero-valued record, as `var png PNG` declares it. */
    constructor ()
      ensures Fields() == ZeroHeader && chunks == [] && NumberOfChunks == 0
    {
      Width, Height, BitDepth, ColorType := 0, 0, 0, 0;
      CompressionMethod, FilterMethod, InterlaceMethod := 0, 0, 0;
      chunks, NumberOfChunks := [], 0;
    }

    /** parseIHDR: validate the header chunk, writing each field as it goes. */
    method ParseIHDR(iHDR: Chunk) returns (err: Outcome)
      requires iHDR.Valid()
      modifies this
      ensures (Fields(), err) == IHDRStep(old(Fields()), iHDR.Value())
      ensures chunks == old(chunks) && NumberOfChunks == old(NumberOfChunks)
    {
      if iHDR.Length != IHDR_LENGTH {
        return Fail(BadIHDRLength);
      }
      var tmp := iHDR.Data;

      var r := UInt32ToInt(tmp[0..4]);
      Width := if r.Ok? then r.value else 0;
      if r.Err? || Width <= 0 {
        return Fail(BadWidth);
      }

      r := UInt32ToInt(tmp[4..8]);
      Height := if r.Ok? then r.value else 0;
      if r.Err? || Height <= 0 {
        return Fail(BadHeight);
      }

      BitDepth := tmp[8];
      ColorType := tmp[9];

      if tmp[10] != 0 {
        return Fail(BadCompression);
      }
      CompressionMethod := tmp[10];

      if tmp[11] != 0 {
        return Fail(BadFilter);
      }
      FilterMethod := tmp[11];

      if tmp[12] != 0 {
        return Fail(BadInterlace);
      }
      InterlaceMethod := tmp[12];

      return Pass;
    }

    /** Add appends one chunk at the end of the list. */
    method Add(c: Chunk)
      modifies this
      ensures chunks == old(chunks) + [c]
      ensures Fields() == old(Fields()) && NumberOfChunks == old(NumberOfChunks)
    {
      chunks := chunks + [c];
    }
  }

  /** The body of ParseMain's `for` loop: populate a fresh chunk at `ptr`
      and append it. A chunk that cannot be read is not appended. */
  method AddChunkAt(png: PNG, buf: seq<byte>, ptr: nat) returns (c: Chunk, next: nat, status: Outcome)
    modifies png
    ensures status.Pass? <==> ChunkAt(buf, ptr).Ok?
    ensures status.Pass? ==>
      && c.Value() == ChunkAt(buf, ptr).value && next == ptr + ChunkAt(buf, ptr).value.Size()
      && Values(png.chunks) == old(Values(png.chunks)) + [c.Value()]
    ensures status.Fail? ==> status.error == OutOfRange && Values(png.chunks) == old(Values(png.chunks))
    ensures png.Fields() == old(png.Fields()) && png.NumberOfChunks == old(png.NumberOfChunks)
  {
    c := new Chunk();
    next, status := c.Populate(buf, ptr);
    if status.Pass? {
      ghost var before := png.chunks;
      png.Add(c);
      ValuesAppend(before, c);
    }
  }

  /** The `for` loop of ParseMain: add the chunk at the cursor, stop after
      IEND. It appends exactly the records the walk reads. */
  method WalkChunks(png: PNG, buf: seq<byte>, ptr: nat) returns (status: Outcome)
    modifies png
    ensures Values(png.chunks) == old(Values(png.chunks)) + ChunksFrom(buf, ptr).chunks
    ensures status == ChunksFrom(buf, ptr).status
    ensures png.Fields() == old(png.Fields()) && png.NumberOfChunks == old(png.NumberOfChunks)
  {
    ghost var acc: seq<ChunkValue> := [];
    var at := ptr;
    while true
      invariant Values(png.chunks) == old(Values(png.chunks)) + acc
      invariant ChunksFrom(buf, ptr) == Walk(acc + ChunksFrom(buf, at).chunks, ChunksFrom(buf, at).status)
      invariant png.Fields() == old(png.Fields()) && png.NumberOfChunks == old(png.NumberOfChunks)
      decreases |buf| - at
    {
      var c, next;
      c, next, status := AddChunkAt(png, buf, at);
      if status.Fail? {
        WalkStops(buf, ptr, at, acc);
        return;
      }
      ghost var cv := c.Value();
      WalkAdvance(buf, ptr, at, next, acc, cv);
      acc := acc + [cv];
      at := next;
      if c.CType == IEND {
        break;
      }
    }
    status := Pass;
  }

  /** ParseMain without its I/O: populate the header chunk at offset 8,
      parse it (ignoring its error), append it, then walk the rest. It
      builds exactly the document Parse describes. */
  method ParseChunks(buf: seq<byte>) returns (png: PNG, status: Outcome)
    ensures fresh(png)
    ensures png.Fields() == Parse(buf).header
    ensures Values(png.chunks) == Parse(buf).chunks
    ensures status == Parse(buf).status
    ensures png.NumberOfChunks == 0
  {
    png := new PNG();
    var ihdr := new Chunk();
    var ptr;
    ptr, status := ihdr.Populate(buf, SIGNATURE_LENGTH);
    if status.Fail? {
      ParseStops(buf);
      return;
    }
    ParseGoesOn(buf, ptr, ihdr.Value());
    var _ := png.ParseIHDR(ihdr);
    png.Add(ihdr);
    ValuesAppend([], ihdr);
    status := WalkChunks(png, buf, ptr);
  }
}
