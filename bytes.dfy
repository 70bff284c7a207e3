/** Big-endian 32-bit decoding of byte buffers. */
module Bytes {
  import opened Outcomes

  type byte = b: int | 0 <= b < 256

  const TWO_32: int := 0x1_0000_0000

  /** The unsigned value of four bytes, most significant first. */
  function Uint32Of(b: seq<byte>): (n: nat)
    requires |b| == 4
    ensures n < TWO_32
  {
    (b[0] as int) * 0x100_0000 + (b[1] as int) * 0x1_0000 + (b[2] as int) * 0x100 + b[3]
  }

  /** The `width` low-order bytes of `n`, most significant first. */
  function BigEndianBytes(n: nat, width: nat): (b: seq<byte>)
    ensures |b| == width
  {
    if width == 0 then [] else BigEndianBytes(n / 0x100, width - 1) + [n % 0x100]
  }

  /** The four big-endian bytes of the low 32 bits of `n` (the inverse of
      Uint32Of below 2^32). */
  function Uint32Bytes(n: nat): (b: seq<byte>)
    ensures |b| == 4
  {
    BigEndianBytes(n, 4)
  }

  /** The four bytes of Uint32Bytes, one by one. */
  lemma Uint32BytesAre(n: nat)
    requires n < TWO_32
    ensures Uint32Bytes(n) == [n / 0x100_0000, n / 0x1_0000 % 0x100, n / 0x100 % 0x100, n % 0x100]
  {
    var q1 := n / 0x100;
    var q2 := q1 / 0x100;
    var q3 := q2 / 0x100;
    assert BigEndianBytes(n, 4) == BigEndianBytes(q1, 3) + [n % 0x100];
    assert BigEndianBytes(q1, 3) == BigEndianBytes(q2, 2) + [q1 % 0x100];
    assert BigEndianBytes(q2, 2) == BigEndianBytes(q3, 1) + [q2 % 0x100];
    assert BigEndianBytes(q3, 1) == BigEndianBytes(q3 / 0x100, 0) + [q3 % 0x100];
    assert q2 == n / 0x1_0000;
    assert q3 == n / 0x100_0000;
  }

  lemma EncodeThenDecode(n: nat)
    requires n < TWO_32
    ensures Uint32Of(Uint32Bytes(n)) == n
  {
    Uint32BytesAre(n);
    var q := n / 0x100;
    var q2 := q / 0x100;
    assert n == q * 0x100 + n % 0x100;
    assert q == q2 * 0x100 + q % 0x100;
    assert q2 == (q2 / 0x100) * 0x100 + q2 % 0x100;
    assert n / 0x1_0000 == q2;
    assert n / 0x100_0000 == q2 / 0x100;
  }

  lemma DecodeThenEncode(b: seq<byte>)
    requires |b| == 4
    ensures Uint32Bytes(Uint32Of(b)) == b
  {
    var n := Uint32Of(b);
    Uint32BytesAre(n);
    assert n / 0x100 == (b[0] as int) * 0x1_0000 + (b[1] as int) * 0x100 + b[2];
    assert n / 0x1_0000 == (b[0] as int) * 0x100 + b[1];
    assert n / 0x100_0000 == b[0];
  }

  /** Uint32Of is one-to-one on 4-byte buffers. */
  lemma Uint32OfInjective(a: seq<byte>, b: seq<byte>)
    requires |a| == 4 && |b| == 4
    ensures Uint32Of(a) == Uint32Of(b) <==> a == b
  {
    if Uint32Of(a) == Uint32Of(b) {
      DecodeThenEncode(a);
      DecodeThenEncode(b);
    }
  }

  /** Two adjacent slices of a buffer make up the slice that spans both. */
  lemma ConcatSlices(buf: seq<byte>, lo: nat, mid: nat, hi: nat, s1: seq<byte>, s2: seq<byte>)
    requires lo <= mid <= hi <= |buf|
    requires buf[lo..mid] == s1 && buf[mid..hi] == s2
    ensures buf[lo..hi] == s1 + s2
  {
    assert buf[lo..hi] == buf[lo..mid] + buf[mid..hi];
  }

  /** A slice that holds two sequences back to back splits into them. */
  lemma SplitSlice(buf: seq<byte>, lo: nat, mid: nat, hi: nat, s1: seq<byte>, s2: seq<byte>)
    requires lo <= mid <= hi <= |buf| && |s1| == mid - lo
    requires buf[lo..hi] == s1 + s2
    ensures buf[lo..mid] == s1 && buf[mid..hi] == s2
  {
    assert buf[lo..mid] == buf[lo..hi][..mid - lo];
    assert buf[mid..hi] == buf[lo..hi][mid - lo..];
  }

  /** uInt32ToInt: the guard rejects an empty buffer and one longer than four
      bytes; binary.BigEndian.Uint32 then reads four bytes, so a buffer of one
      to three bytes is an out-of-range read (a panic in Go). Only a 4-byte
      buffer decodes, and the result is exactly its big-endian value. */
  function UInt32ToInt(buf: seq<byte>): (r: Result<nat>)
    ensures |buf| == 0 || |buf| > 4 ==> r == Err(InvalidBuffer)
    ensures 0 < |buf| < 4 ==> r == Err(OutOfRange)
    ensures r.Ok? <==> |buf| == 4
    ensures r.Ok? ==> r.value < TWO_32 && Uint32Bytes(r.value) == buf
  {
    if |buf| == 0 || |buf| > 4 then Err(InvalidBuffer)
    else if |buf| < 4 then Err(OutOfRange)
    else DecodeThenEncode(buf); Ok(Uint32Of(buf))
  }
}
