/** Validation of the IHDR header chunk, src/parse/parsePNG.go lines 65-118.
    parseIHDR writes each field into the PNG record before (or without)
    checking it and returns at the first failed check, so a failure leaves
    the fields written so far in place. IHDRStep states that step as a
    function of the old header fields and the chunk. */
module Ihdr {
  import opened Outcomes
  import opened Bytes
  import opened Chunks

  const IHDR_LENGTH: nat := 13

  /** The seven header fields of the Go `PNG` struct. */
  datatype Header = Header(
    Width: int, Height: int, BitDepth: int, ColorType: int,
    CompressionMethod: int, FilterMethod: int, InterlaceMethod: int)

  /** The zero value of the fields, before any header is parsed. */
  const ZeroHeader := Header(0, 0, 0, 0, 0, 0, 0)

  /** The new header fields and the error parseIHDR returns. */
  function IHDRStep(h: Header, c: ChunkValue): (Header, Outcome)
    requires |c.Data| == c.Length
  {
    if c.Length != IHDR_LENGTH then (h, Fail(BadIHDRLength))
    else
      var d := c.Data;
      var w := UInt32ToInt(d[0..4]).value;
      if w <= 0 then (h.(Width := w), Fail(BadWidth))
      else
        var ht := UInt32ToInt(d[4..8]).value;
        var h1 := h.(Width := w, Height := ht);
        if ht <= 0 then (h1, Fail(BadHeight))
        else
          var h2 := h1.(BitDepth := d[8], ColorType := d[9]);
          if d[10] != 0 then (h2, Fail(BadCompression))
          else
            var h3 := h2.(CompressionMethod := d[10]);
            if d[11] != 0 then (h3, Fail(BadFilter))
            else
              var h4 := h3.(FilterMethod := d[11]);
              if d[12] != 0 then (h4, Fail(BadInterlace))
              else (h4.(InterlaceMethod := d[12]), Pass)
  }

  /** The 13 data bytes of a header: width and height big endian, then the
      five one-byte fields. */
  function IHDRData(h: Header): (d: seq<byte>)
    requires 0 <= h.Width < TWO_32 && 0 <= h.Height < TWO_32
    requires 0 <= h.BitDepth < 256 && 0 <= h.ColorType < 256
    requires 0 <= h.CompressionMethod < 256 && 0 <= h.FilterMethod < 256 && 0 <= h.InterlaceMethod < 256
    ensures |d| == IHDR_LENGTH
  {
    Uint32Bytes(h.Width) + Uint32Bytes(h.Height)
      + [h.BitDepth, h.ColorType, h.CompressionMethod, h.FilterMethod, h.InterlaceMethod]
  }

  /** A chunk whose length is not 13 is rejected and no field is written. */
  lemma LengthRejected(h: Header, c: ChunkValue)
    requires |c.Data| == c.Length && c.Length != IHDR_LENGTH
    ensures IHDRStep(h, c) == (h, Fail(BadIHDRLength))
  {
  }

  /** parseIHDR succeeds exactly when the length is 13, width and height are
      non-zero and compression, filter and interlace are all 0; then all
      seven fields are the decoded header, whose encoding is the chunk data. */
  lemma {:induction false} AcceptedExactly(h: Header, c: ChunkValue)
    requires |c.Data| == c.Length
    ensures IHDRStep(h, c).1.Pass? <==>
      c.Length == IHDR_LENGTH && c.Data[0..4] != [0, 0, 0, 0] && c.Data[4..8] != [0, 0, 0, 0]
      && c.Data[10] == 0 && c.Data[11] == 0 && c.Data[12] == 0
    ensures IHDRStep(h, c).1.Pass? ==>
      var n := IHDRStep(h, c).0;
      && n.Width > 0 && n.Height > 0
      && n.CompressionMethod == 0 && n.FilterMethod == 0 && n.InterlaceMethod == 0
      && IHDRData(n) == c.Data
  {
    if c.Length == IHDR_LENGTH {
      var d := c.Data;
      Uint32OfInjective(d[0..4], [0, 0, 0, 0]);
      Uint32OfInjective(d[4..8], [0, 0, 0, 0]);
      if IHDRStep(h, c).1.Pass? {
        var n := IHDRStep(h, c).0;
        assert d == d[0..4] + d[4..8] + [d[8], d[9], d[10], d[11], d[12]];
        assert IHDRData(n) == Uint32Bytes(Uint32Of(d[0..4])) + Uint32Bytes(Uint32Of(d[4..8]))
          + [d[8], d[9], d[10], d[11], d[12]];
        DecodeThenEncode(d[0..4]);
        DecodeThenEncode(d[4..8]);
      }
    }
  }

  /** The check order and the writes before each check: on a failure of a
      13-byte header, exactly the fields assigned before the failing check
      hold their new values and the others keep their old ones. */
  lemma PartialWrites(h: Header, c: ChunkValue)
    requires |c.Data| == c.Length == IHDR_LENGTH
    ensures
      var d := c.Data;
      var w := Uint32Of(d[0..4]);
      var ht := Uint32Of(d[4..8]);
      var (n, e) := IHDRStep(h, c);
      && (e == Fail(BadWidth) <==> w == 0)
      && (e == Fail(BadWidth) ==> n == h.(Width := 0))
      && (e == Fail(BadHeight) <==> w != 0 && ht == 0)
      && (e == Fail(BadHeight) ==> n == h.(Width := w, Height := 0))
      && (e == Fail(BadCompression) <==> w != 0 && ht != 0 && d[10] != 0)
      && (e == Fail(BadCompression) ==> n == h.(Width := w, Height := ht, BitDepth := d[8], ColorType := d[9]))
      && (e == Fail(BadFilter) <==> w != 0 && ht != 0 && d[10] == 0 && d[11] != 0)
      && (e == Fail(BadFilter) ==>
            n == h.(Width := w, Height := ht, BitDepth := d[8], ColorType := d[9], CompressionMethod := 0))
      && (e == Fail(BadInterlace) <==> w != 0 && ht != 0 && d[10] == 0 && d[11] == 0 && d[12] != 0)
      && (e == Fail(BadInterlace) ==>
            n == h.(Width := w, Height := ht, BitDepth := d[8], ColorType := d[9], CompressionMethod := 0,
                    FilterMethod := 0))
  {
  }

  /** The header chunk built from fields that pass every check is accepted,
      and the fields read back are the ones it was built from. */
  lemma {:induction false} ValidHeaderRoundTrip(h: Header, n: Header, ctype: seq<byte>, crc: seq<byte>)
    requires 0 < n.Width < TWO_32 && 0 < n.Height < TWO_32
    requires 0 <= n.BitDepth < 256 && 0 <= n.ColorType < 256
    requires n.CompressionMethod == 0 && n.FilterMethod == 0 && n.InterlaceMethod == 0
    ensures IHDRStep(h, ChunkValue(IHDR_LENGTH, ctype, IHDRData(n), crc)) == (n, Pass)
  {
    var d := IHDRData(n);
    assert d[0..4] == Uint32Bytes(n.Width);
    assert d[4..8] == Uint32Bytes(n.Height);
    EncodeThenDecode(n.Width);
    EncodeThenDecode(n.Height);
  }

  /** Interlace method 1 (Adam7), which the comment and the error text at
      src/parse/parsePNG.go:109-111 call supported, is rejected: the check
      admits only 0. */
  lemma {:induction false} InterlaceOneRejected(h: Header, n: Header, ctype: seq<byte>, crc: seq<byte>)
    requires 0 < n.Width < TWO_32 && 0 < n.Height < TWO_32
    requires 0 <= n.BitDepth < 256 && 0 <= n.ColorType < 256
    requires n.CompressionMethod == 0 && n.FilterMethod == 0 && n.InterlaceMethod == 1
    ensures IHDRStep(h, ChunkValue(IHDR_LENGTH, ctype, IHDRData(n), crc)).1 == Fail(BadInterlace)
  {
    var d := IHDRData(n);
    assert d[0..4] == Uint32Bytes(n.Width);
    assert d[4..8] == Uint32Bytes(n.Height);
    EncodeThenDecode(n.Width);
    EncodeThenDecode(n.Height);
  }

  /** The sample header of 800 x 600 pixels, 8-bit RGBA, no interlace, is
      accepted and read back field for field. */
  lemma SampleHeader(h: Header, ctype: seq<byte>, crc: seq<byte>)
    ensures
      var n := Header(800, 600, 8, 6, 0, 0, 0);
      IHDRStep(h, ChunkValue(13, ctype, IHDRData(n), crc)) == (n, Pass)
  {
    ValidHeaderRoundTrip(h, Header(800, 600, 8, 6, 0, 0, 0), ctype, crc);
  }
}
