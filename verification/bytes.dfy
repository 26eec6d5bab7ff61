/** Little-endian integer fields of a byte buffer, as `struct.unpack` reads
    them with the formats `<H`, `<h` and `<I`, and the matching encoders. */
module Bytes {

  type byte = b: int | 0 <= b < 256

  /** The smaller of two positions: a read of a buffer stops at its end. */
  function Min(a: int, b: int): int {
    if a <= b then a else b
  }

  /** Unsigned 16-bit little-endian field at `p`. */
  function U16At(data: seq<byte>, p: nat): (v: nat)
    requires p + 2 <= |data|
    ensures v < 0x1_0000
  {
    data[p] as int + 256 * (data[p + 1] as int)
  }

  /** The low byte of a `<H` field is the byte at `p`, the high byte the next. */
  lemma U16Bytes(data: seq<byte>, p: nat)
    requires p + 2 <= |data|
    ensures U16At(data, p) % 256 == data[p] && U16At(data, p) / 256 == data[p + 1]
  {
  }

  /** Signed (two's complement) 16-bit little-endian field at `p`. */
  function I16At(data: seq<byte>, p: nat): (v: int)
    requires p + 2 <= |data|
    ensures -0x8000 <= v < 0x8000
    ensures (if v < 0 then v + 0x1_0000 else v) == U16At(data, p)
  {
    var u := U16At(data, p);
    if u < 0x8000 then u else u - 0x1_0000
  }

  /** Unsigned 32-bit little-endian field at `p`. */
  function U32At(data: seq<byte>, p: nat): (v: nat)
    requires p + 4 <= |data|
    ensures v < 0x1_0000_0000
  {
    U16At(data, p) + 0x1_0000 * U16At(data, p + 2)
  }

  /** A `<I` field splits into its low and high `<H` halves. */
  lemma U32Halves(data: seq<byte>, p: nat)
    requires p + 4 <= |data|
    ensures U32At(data, p) % 0x1_0000 == U16At(data, p) && U32At(data, p) / 0x1_0000 == U16At(data, p + 2)
  {
  }

  /** The two bytes `struct.pack("<H", v)` writes. */
  function LE16(v: nat): (s: seq<byte>)
    requires v < 0x1_0000
    ensures |s| == 2 && U16At(s, 0) == v
  {
    [v % 256, v / 256]
  }

  /** The two bytes `struct.pack("<h", v)` writes. */
  function LE16Signed(v: int): (s: seq<byte>)
    requires -0x8000 <= v < 0x8000
    ensures |s| == 2 && I16At(s, 0) == v
  {
    LE16(if v < 0 then v + 0x1_0000 else v)
  }

  /** The four bytes `struct.pack("<I", v)` writes. */
  function LE32(v: nat): (s: seq<byte>)
    requires v < 0x1_0000_0000
    ensures |s| == 4 && U32At(s, 0) == v
  {
    LE16(v % 0x1_0000) + LE16(v / 0x1_0000)
  }

  lemma FieldsIn(pre: seq<byte>, mid: seq<byte>, post: seq<byte>)
    requires |mid| == 4
    ensures U16At(pre + mid + post, |pre|) == U16At(mid, 0)
    ensures U32At(pre + mid + post, |pre|) == U32At(mid, 0)
  {
    var d := pre + mid + post;
    assert d[|pre|] == mid[0] && d[|pre| + 1] == mid[1];
    assert d[|pre| + 2] == mid[2] && d[|pre| + 3] == mid[3];
  }

  /** A two-byte field placed after `pre` reads back from its position. */
  lemma Field16In(pre: seq<byte>, mid: seq<byte>, post: seq<byte>)
    requires |mid| == 2
    ensures U16At(pre + mid + post, |pre|) == U16At(mid, 0)
    ensures I16At(pre + mid + post, |pre|) == I16At(mid, 0)
  {
    var d := pre + mid + post;
    assert d[|pre|] == mid[0] && d[|pre| + 1] == mid[1];
  }
}
