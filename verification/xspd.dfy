/** The XSPD block reader and its model-section decoder (xspd.py), as pure
    functions over the block's bytes. The decoder's cursor is passed in and
    returned explicitly; it moves the way a read on an in-memory stream
    moves: never backwards, never past the end. */
module Xspd {

  import opened Results
  import opened Bytes
  import opened Mesh
  import opened Records

  /** The ways decoding stops. `ShortRead`: a `struct.unpack` of fewer bytes
      than its format needs. `EmptyPadding`: a padding read that returned no
      bytes at all (`int('', 16)` raises). `NonZeroPadding`: a padding byte
      that is not zero (the `assert`). `NoSuchModel`: the requested model index
      is not among the decoded ones. */
  datatype Error = BadTag | ShortRead | EmptyPadding | NonZeroPadding | NoSuchModel

  /** The ASCII tag "XSPD". */
  const Tag: seq<byte> := [0x58, 0x53, 0x50, 0x44]
  /** Fixed offset, from the block start, of the model count. */
  const ModelSection: nat := 0x810
  // Record sizes, in bytes: a model record's fixed header is 0x68 (0x48 of
  // unknown data, then counts and padding), a vertex or normal record is 8
  // (three i16 components and a u16 group sentinel), a face record is 20 (a
  // normal record, four u16 vertex indices, a u16 texture id and 2 unused
  // bytes), an extended-data entry is 0x20.
  const VertexDivisor: real := 4096.0
  /** Normals are stored pointing the opposite way, hence the negative divisor. */
  const NormalDivisor: real := -4096.0

  // ---------------------------------------------------------------------
  // The block

  /** The block at `offset` in a file: the tag, a u32 length L, and L more
      bytes; a file that ends early yields a shorter block. */
  function ReadBlock(file: seq<byte>, offset: nat): (r: Result<seq<byte>, Error>)
    ensures r.Ok? <==> offset + 8 <= |file| && file[offset..offset + 4] == Tag
    ensures (offset + 4 > |file| || file[offset..offset + 4] != Tag) ==> r == Err(BadTag)
    ensures r.Ok? ==>
              && |r.value| == Min(8 + U32At(file, offset + 4), |file| - offset)
              && r.value[..4] == Tag
              && forall i :: 0 <= i < |r.value| ==> r.value[i] == file[offset + i]
  {
    if offset + 4 > |file| || file[offset..offset + 4] != Tag then Err(BadTag)
    else if offset + 8 > |file| then Err(ShortRead)
    else
      var block := file[offset..Min(offset + 8 + U32At(file, offset + 4), |file|)];
      assert |block| >= 8;
      assert forall k :: 0 <= k < 4 ==> block[..4][k] == file[offset..offset + 4][k];
      Ok(block)
  }

  /** A block written as tag, length and payload reads back whole, wherever it
      sits in the file. */
  lemma BlockRoundTrip(pre: seq<byte>, payload: seq<byte>, post: seq<byte>)
    requires |payload| < 0x1_0000_0000
    ensures ReadBlock(pre + (Tag + LE32(|payload|) + payload) + post, |pre|)
            == Ok(Tag + LE32(|payload|) + payload)
  {
    var block := Tag + LE32(|payload|) + payload;
    var file := pre + block + post;
    assert file[|pre|..|pre| + 4] == Tag;
    assert file[|pre| + 4..|pre| + 8] == LE32(|payload|);
    FieldsIn(pre + Tag, LE32(|payload|), payload + post);
    assert pre + Tag + LE32(|payload|) + (payload + post) == file;
    assert file[|pre|..|pre| + |block|] == block;
  }

  // ---------------------------------------------------------------------
  // Cursor reads

  /** A `read(n)` whose bytes are thrown away. */
  function Skip(data: seq<byte>, cur: nat, n: nat): (c: nat)
    ensures cur <= |data| ==> c == Min(cur + n, |data|)
    ensures cur > |data| ==> c == cur
  {
    if cur >= |data| then cur else Min(cur + n, |data|)
  }

  function ReadU16(data: seq<byte>, cur: nat): (r: Result<(nat, nat), Error>)
    ensures r.Ok? <==> cur + 2 <= |data|
    ensures r.Ok? ==> r.value == (U16At(data, cur), cur + 2)
  {
    if cur + 2 <= |data| then Ok((U16At(data, cur), cur + 2)) else Err(ShortRead)
  }

  function ReadU32(data: seq<byte>, cur: nat): (r: Result<(nat, nat), Error>)
    ensures r.Ok? <==> cur + 4 <= |data|
    ensures r.Ok? ==> r.value == (U32At(data, cur), cur + 4)
  {
    if cur + 4 <= |data| then Ok((U32At(data, cur), cur + 4)) else Err(ShortRead)
  }

  predicate AllZero(data: seq<byte>, from: nat, to: nat)
    requires from <= to <= |data|
  {
    forall i :: from <= i < to ==> data[i] == 0
  }

  /** The padding check `int(read(n).hex(), 16) == 0`: it fails on an empty
      read and on any nonzero byte, and passes a short all-zero read. */
  function ReadZeros(data: seq<byte>, cur: nat, n: nat): (r: Result<nat, Error>)
    requires n > 0
    ensures r.Ok? <==> cur < |data| && AllZero(data, cur, Min(cur + n, |data|))
    ensures r.Ok? ==> r.value == Min(cur + n, |data|)
    ensures cur >= |data| ==> r == Err(EmptyPadding)
    ensures cur < |data| && !AllZero(data, cur, Min(cur + n, |data|)) ==> r == Err(NonZeroPadding)
  {
    var stop := Skip(data, cur, n);
    if stop == cur then Err(EmptyPadding)
    else if !AllZero(data, cur, stop) then Err(NonZeroPadding)
    else Ok(stop)
  }

  // ---------------------------------------------------------------------
  // Vertex, normal and face records

  /** The three i16 components of the record at `p`, each divided by `divisor`. */
  function RecordVec(data: seq<byte>, p: nat, divisor: real): Vec3
    requires p + 6 <= |data| && divisor != 0.0
  {
    Vec3(I16At(data, p) as real / divisor,
         I16At(data, p + 2) as real / divisor,
         I16At(data, p + 4) as real / divisor)
  }

  /** The u16 group sentinel of the record at `p`. */
  function Sentinel(data: seq<byte>, p: nat): nat
    requires p + 8 <= |data|
  {
    U16At(data, p + 6)
  }

  /** `_read_vertex` (divisor 4096) and `_read_normal` (divisor -4096): the
      record is tagged with the current group, and the counter moves on when
      the sentinel read after it is zero. */
  function ReadPoint(data: seq<byte>, cur: nat, group: nat, divisor: real): (r: Result<(Point, nat, nat), Error>)
    requires divisor != 0.0
    ensures r.Ok? <==> cur + 8 <= |data|
    ensures r.Ok? ==> r.value.0.group == group && r.value.1 == cur + 8
    ensures r.Ok? ==> r.value.2 == group + (if Sentinel(data, cur) == 0 then 1 else 0)
  {
    if cur + 6 > |data| then Err(ShortRead)
    else
      var p := Point(RecordVec(data, cur, divisor), group);
      if cur + 8 > |data| then Err(ShortRead)
      else Ok((p, cur + 8, if U16At(data, cur + 6) == 0 then group + 1 else group))
  }

  /** The eight bytes of a vertex or normal record with raw components
      `x`, `y`, `z` and group sentinel `sentinel`. */
  function PointRecord(x: int, y: int, z: int, sentinel: nat): (b: seq<byte>)
    requires -0x8000 <= x < 0x8000 && -0x8000 <= y < 0x8000 && -0x8000 <= z < 0x8000
    requires sentinel < 0x1_0000
    ensures |b| == 8
  {
    LE16Signed(x) + LE16Signed(y) + LE16Signed(z) + LE16(sentinel)
  }

  /** A record written by `PointRecord` reads back wherever it sits: its raw
      components divided by the divisor, the current group, and a group
      counter bumped exactly when the sentinel is zero. */
  lemma PointRecordReadBack(pre: seq<byte>, x: int, y: int, z: int, sentinel: nat, post: seq<byte>,
                            group: nat, divisor: real)
    requires -0x8000 <= x < 0x8000 && -0x8000 <= y < 0x8000 && -0x8000 <= z < 0x8000
    requires sentinel < 0x1_0000 && divisor != 0.0
    ensures ReadPoint(pre + PointRecord(x, y, z, sentinel) + post, |pre|, group, divisor)
            == Ok((Point(Vec3(x as real / divisor, y as real / divisor, z as real / divisor), group),
                   |pre| + 8, if sentinel == 0 then group + 1 else group))
  {
    var a, b, c, d := LE16Signed(x), LE16Signed(y), LE16Signed(z), LE16(sentinel);
    var data := pre + PointRecord(x, y, z, sentinel) + post;
    assert data == pre + a + (b + c + d + post);
    Field16In(pre, a, b + c + d + post);
    assert data == (pre + a) + b + (c + d + post);
    Field16In(pre + a, b, c + d + post);
    assert data == (pre + a + b) + c + (d + post);
    Field16In(pre + a + b, c, d + post);
    assert data == (pre + a + b + c) + d + post;
    Field16In(pre + a + b + c, d, post);
  }

  /** A raw vertex component of 4096 is 1.0, and a raw normal component of
      4096 is -1.0. */
  lemma ScaleExample()
    ensures ReadPoint(PointRecord(4096, 0, -4096, 1), 0, 0, VertexDivisor).value.0.r == Vec3(1.0, 0.0, -1.0)
    ensures ReadPoint(PointRecord(4096, 0, -4096, 1), 0, 0, NormalDivisor).value.0.r == Vec3(-1.0, 0.0, 1.0)
  {
    var rec := PointRecord(4096, 0, -4096, 1);
    assert rec == [] + rec + [];
    PointRecordReadBack([], 4096, 0, -4096, 1, [], 0, VertexDivisor);
    PointRecordReadBack([], 4096, 0, -4096, 1, [], 0, NormalDivisor);
  }

  /** True when `n` records of `stride` bytes starting at `start` leave at least
      `need` bytes for the last one. */
  predicate Fits(len: nat, start: nat, stride: nat, need: nat, n: nat) {
    n == 0 || start + stride * (n - 1) + need <= len
  }

  /** The number of zero sentinels among the first `n` records of a run of
      `stride`-byte records starting at `start`. */
  function ZeroSentinels(data: seq<byte>, start: nat, stride: nat, n: nat): nat
    requires Fits(|data|, start, stride, 8, n)
    decreases n
  {
    if n == 0 then 0
    else
      assert stride * (n - 1) == stride + stride * (n - 2) || n == 1;
      (if Sentinel(data, start) == 0 then 1 else 0) + ZeroSentinels(data, start + stride, stride, n - 1)
  }

  /** Counting one more record adds one exactly when its sentinel is zero. */
  lemma {:induction false} ZeroSentinelsStep(data: seq<byte>, start: nat, stride: nat, n: nat)
    requires Fits(|data|, start, stride, 8, n + 1)
    ensures Fits(|data|, start, stride, 8, n)
    ensures ZeroSentinels(data, start, stride, n + 1)
            == ZeroSentinels(data, start, stride, n) + (if Sentinel(data, start + stride * n) == 0 then 1 else 0)
    decreases n
  {
    if n > 0 {
      assert stride * n == stride + stride * (n - 1);
      ZeroSentinelsStep(data, start + stride, stride, n - 1);
    }
  }

  /** A run of points read from `base` on holds, in order, the vector of each
      8-byte record, tagged with `group` plus the number of zero sentinels
      before it. */
  predicate PointRun(data: seq<byte>, base: nat, group: nat, divisor: real, ps: seq<Point>)
    requires Fits(|data|, base, 8, 8, |ps|) && divisor != 0.0
  {
    forall i :: 0 <= i < |ps| ==>
      ps[i] == Point(RecordVec(data, base + 8 * i, divisor), group + ZeroSentinels(data, base, 8, i))
  }

  /** A point record in front of a run extends the run, the run's group
      moving on by the record's sentinel. */
  lemma PointRunCons(data: seq<byte>, base: nat, group: nat, divisor: real, p: Point, ps: seq<Point>)
    requires divisor != 0.0 && base + 8 <= |data| && Fits(|data|, base + 8, 8, 8, |ps|)
    requires p == Point(RecordVec(data, base, divisor), group)
    requires PointRun(data, base + 8, group + (if Sentinel(data, base) == 0 then 1 else 0), divisor, ps)
    ensures Fits(|data|, base, 8, 8, |ps| + 1)
    ensures PointRun(data, base, group, divisor, [p] + ps)
  {
    var g := group + (if Sentinel(data, base) == 0 then 1 else 0);
    forall i | 0 <= i < |ps| + 1
      ensures ([p] + ps)[i] == Point(RecordVec(data, base + 8 * i, divisor), group + ZeroSentinels(data, base, 8, i))
    {
      if i > 0 {
        assert ([p] + ps)[i] == ps[i - 1];
        assert base + 8 + 8 * (i - 1) == base + 8 * i;
        assert group + ZeroSentinels(data, base, 8, i) == g + ZeroSentinels(data, base + 8, 8, i - 1);
      }
    }
  }

  /** A run of `count` vertex or normal records (xspd.py:98-99, 107-108). */
  function ReadPoints(data: seq<byte>, cur: nat, count: nat, group: nat, divisor: real)
    : (r: Result<(seq<Point>, nat, nat), Error>)
    requires divisor != 0.0
    decreases count
    ensures r.Ok? <==> Fits(|data|, cur, 8, 8, count)
    ensures r.Ok? ==>
              && |r.value.0| == count
              && r.value.1 == cur + 8 * count
              && r.value.2 == group + ZeroSentinels(data, cur, 8, count)
    ensures r.Ok? ==> PointRun(data, cur, group, divisor, r.value.0)
  {
    if count == 0 then Ok(([], cur, group))
    else
      var first :- ReadPoint(data, cur, group, divisor);
      var rest :- ReadPoints(data, first.1, count - 1, first.2, divisor);
      PointRunCons(data, cur, group, divisor, first.0, rest.0);
      Ok(([first.0] + rest.0, rest.1, rest.2))
  }

  /** Group ids along a run of vertex or normal records: the first record
      gets the starting group, and each record after it gets its predecessor's
      group, plus one when the predecessor's sentinel is zero. */
  lemma PointGroupsStep(data: seq<byte>, cur: nat, count: nat, group: nat, divisor: real, i: nat)
    requires divisor != 0.0
    requires ReadPoints(data, cur, count, group, divisor).Ok?
    requires i + 1 < count
    ensures var ps := ReadPoints(data, cur, count, group, divisor).value.0;
            && ps[0].group == group
            && ps[i + 1].group == ps[i].group + (if Sentinel(data, cur + 8 * i) == 0 then 1 else 0)
  {
    var ps := ReadPoints(data, cur, count, group, divisor).value.0;
    assert ps[i].group == group + ZeroSentinels(data, cur, 8, i);
    assert ps[i + 1].group == group + ZeroSentinels(data, cur, 8, i + 1);
    ZeroSentinelsStep(data, cur, 8, i);
  }

  /** The face record at `p` tagged with `group`: the embedded normal, the four
      raw u16 vertex indices at +8 and the u16 texture id at +16. */
  function FaceAt(data: seq<byte>, p: nat, group: nat): Face
    requires p + 18 <= |data|
  {
    Face((U16At(data, p + 8), U16At(data, p + 10), U16At(data, p + 12), U16At(data, p + 14)),
         Point(RecordVec(data, p, NormalDivisor), group), group, U16At(data, p + 16))
  }

  /** `_read_face`: a normal record, then the face fields; the face takes the
      group of its normal, and two trailing bytes are skipped. */
  function ReadFace(data: seq<byte>, cur: nat, group: nat): (r: Result<(Face, nat, nat), Error>)
    ensures r.Ok? <==> cur + 18 <= |data|
    ensures r.Ok? ==>
              && r.value.0 == FaceAt(data, cur, group)
              && r.value.0.group == r.value.0.norm.group
              && r.value.1 == Min(cur + 20, |data|)
              && r.value.2 == group + (if Sentinel(data, cur) == 0 then 1 else 0)
  {
    var n :- ReadPoint(data, cur, group, NormalDivisor);
    var p := n.1;
    if p + 8 > |data| then Err(ShortRead)
    else
      var verts := (U16At(data, p), U16At(data, p + 2), U16At(data, p + 4), U16At(data, p + 6));
      if p + 10 > |data| then Err(ShortRead)
      else
        var texture := U16At(data, p + 8);
        Ok((Face(verts, n.0, n.0.group, texture), Skip(data, p + 10, 2), n.2))
  }

  /** A run of faces read from `base` on holds, in order, the face of each
      20-byte record, tagged with `group` plus the number of zero sentinels
      before it. */
  predicate FaceRun(data: seq<byte>, base: nat, group: nat, fs: seq<Face>)
    requires Fits(|data|, base, 20, 18, |fs|)
  {
    forall i :: 0 <= i < |fs| ==> fs[i] == FaceAt(data, base + 20 * i, group + ZeroSentinels(data, base, 20, i))
  }

  /** A face record in front of a run extends the run, the run's group moving
      on by the sentinel of the face's normal. */
  lemma FaceRunCons(data: seq<byte>, base: nat, group: nat, f: Face, fs: seq<Face>)
    requires base + 18 <= |data| && Fits(|data|, base + 20, 20, 18, |fs|)
    requires f == FaceAt(data, base, group)
    requires FaceRun(data, base + 20, group + (if Sentinel(data, base) == 0 then 1 else 0), fs)
    ensures Fits(|data|, base, 20, 18, |fs| + 1)
    ensures FaceRun(data, base, group, [f] + fs)
  {
    var g := group + (if Sentinel(data, base) == 0 then 1 else 0);
    forall i | 0 <= i < |fs| + 1
      ensures ([f] + fs)[i] == FaceAt(data, base + 20 * i, group + ZeroSentinels(data, base, 20, i))
    {
      if i > 0 {
        assert ([f] + fs)[i] == fs[i - 1];
        assert base + 20 + 20 * (i - 1) == base + 20 * i;
        assert group + ZeroSentinels(data, base, 20, i) == g + ZeroSentinels(data, base + 20, 20, i - 1);
      }
    }
  }

  /** A run of `count` face records (xspd.py:115-116). Only the last record
      may lack its two trailing unused bytes. */
  function ReadFaces(data: seq<byte>, cur: nat, count: nat, group: nat): (r: Result<(seq<Face>, nat, nat), Error>)
    requires cur <= |data|
    decreases count
    ensures r.Ok? <==> Fits(|data|, cur, 20, 18, count)
    ensures r.Ok? ==>
              && |r.value.0| == count
              && r.value.1 == Min(cur + 20 * count, |data|)
              && r.value.2 == group + ZeroSentinels(data, cur, 20, count)
    ensures r.Ok? ==> FaceRun(data, cur, group, r.value.0)
  {
    if count == 0 then Ok(([], cur, group))
    else
      var first :- ReadFace(data, cur, group);
      var rest :- ReadFaces(data, first.1, count - 1, first.2);
      assert count > 1 ==> first.1 == cur + 20;
      FaceRunCons(data, cur, group, first.0, rest.0);
      var fs := [first.0] + rest.0;
      Ok((fs, rest.1, rest.2))
  }

  /** Group ids along a run of face records, stepping as for vertices. */
  lemma FaceGroupsStep(data: seq<byte>, cur: nat, count: nat, group: nat, i: nat)
    requires cur <= |data|
    requires ReadFaces(data, cur, count, group).Ok?
    requires i + 1 < count
    ensures var fs := ReadFaces(data, cur, count, group).value.0;
            && fs[0].group == group
            && fs[i + 1].group == fs[i].group + (if Sentinel(data, cur + 20 * i) == 0 then 1 else 0)
  {
    var fs := ReadFaces(data, cur, count, group).value.0;
    assert fs[i].group == group + ZeroSentinels(data, cur, 20, i);
    assert fs[i + 1].group == group + ZeroSentinels(data, cur, 20, i + 1);
    ZeroSentinelsStep(data, cur, 20, i);
  }

  // ---------------------------------------------------------------------
  // Model records

  /** The counts in a model record's header. */
  datatype Header = Header(vertexCount: nat, faceCount: nat, ed1: nat, ed2: nat, ed3: nat)

  /** The header fields of the model record at `p`: the vertex count after the
      unknown 0x48 bytes, the face count after 8 padding bytes, and the three
      extended counts after 4 more. */
  function HeaderAt(data: seq<byte>, p: nat): Header
    requires p + 0x62 <= |data|
  {
    Header(U32At(data, p + 0x48), U32At(data, p + 0x54),
           U16At(data, p + 0x5C), U16At(data, p + 0x5E), U16At(data, p + 0x60))
  }

  /** The three padding regions of the header at `p` hold only zeros, as far
      as the data reaches. */
  predicate PaddingZero(data: seq<byte>, p: nat)
    requires p + 0x62 <= |data|
  {
    && AllZero(data, p + 0x4C, p + 0x54)
    && AllZero(data, p + 0x58, p + 0x5C)
    && AllZero(data, p + 0x62, Min(p + 0x68, |data|))
  }

  /** Lines 71-91 of the decoder: the fixed header of one model record. */
  function ReadHeader(data: seq<byte>, cur: nat): (r: Result<(Header, nat), Error>)
    ensures r.Ok? <==> cur + 0x62 < |data| && PaddingZero(data, cur)
    ensures r.Ok? ==> r.value == (HeaderAt(data, cur), Min(cur + 0x68, |data|))
    ensures cur + 0x68 <= |data| && !PaddingZero(data, cur) ==> r == Err(NonZeroPadding)
  {
    var c0 := Skip(data, cur, 0x48);
    var vc :- ReadU32(data, c0);
    var c1 :- ReadZeros(data, vc.1, 8);
    var fc :- ReadU32(data, c1);
    var c2 :- ReadZeros(data, fc.1, 4);
    if c2 + 6 > |data| then Err(ShortRead)
    else
      var ed := (U16At(data, c2), U16At(data, c2 + 2), U16At(data, c2 + 4));
      var c3 :- ReadZeros(data, c2 + 6, 6);
      Ok((Header(vc.0, fc.0, ed.0, ed.1, ed.2), c3))
  }

  /** Bytes a model record with header `h` spans. */
  function RecordSize(h: Header): nat {
    0x68 + 2 * 8 * h.vertexCount + 20 * h.faceCount
    + 0x20 * (h.ed1 + h.ed2 + h.ed3)
  }

  /** The model record at `p` decodes: its header is readable with zero
      padding, and its vertex, normal and face runs fit in the data (only a
      record with no vertices and no faces may end inside its header padding). */
  predicate WellFormedRecord(data: seq<byte>, p: nat) {
    && p + 0x62 < |data|
    && PaddingZero(data, p)
    && var h := HeaderAt(data, p);
       && Fits(|data|, p + 0x68, 8, 8, 2 * h.vertexCount)
       && Fits(|data|, p + 0x68 + 2 * 8 * h.vertexCount, 20, 18, h.faceCount)
  }

  /** Where the record after the one at `p` starts. */
  function NextRecord(data: seq<byte>, p: nat): nat {
    if WellFormedRecord(data, p) then Min(p + RecordSize(HeaderAt(data, p)), |data|) else p
  }

  /** The model decoded from a record body at `base` with header `h`: vertex
      i, normal i and face i come from the i-th record of their run, each
      tagged with the number of zero sentinels before it in that run, and the
      group count is left at its default of 0. */
  predicate RecordContents(data: seq<byte>, base: nat, h: Header, m: Model)
    requires Fits(|data|, base, 8, 8, 2 * h.vertexCount)
    requires Fits(|data|, base + 2 * 8 * h.vertexCount, 20, 18, h.faceCount)
  {
    var vc := h.vertexCount;
    && |m.verts| == vc && |m.norms| == vc && |m.faces| == h.faceCount
    && m.groups == 0
    && PointRun(data, base, 0, VertexDivisor, m.verts)
    && PointRun(data, base + 8 * vc, 0, NormalDivisor, m.norms)
    && FaceRun(data, base + 2 * 8 * vc, 0, m.faces)
  }

  /** Two back-to-back runs of `n` 8-byte records fit exactly when the one run
      of `2 * n` records does. */
  lemma FitsTwice(len: nat, start: nat, n: nat)
    requires start <= len
    ensures Fits(len, start, 8, 8, 2 * n) <==>
              Fits(len, start, 8, 8, n) && start + 8 * n <= len && Fits(len, start + 8 * n, 8, 8, n)
  {
    if n > 0 {
      assert 8 * (2 * n - 1) + 8 == 16 * n;
      assert 8 * (n - 1) + 8 == 8 * n;
    }
  }

  /** The vertex run and then the normal run of a record body, both of
      `count` records and each with the group counter reset to 0. */
  function ReadPointRuns(data: seq<byte>, cur: nat, count: nat): (r: Result<(seq<Point>, seq<Point>), Error>)
    requires cur <= |data|
    ensures r.Ok? <==> Fits(|data|, cur, 8, 8, 2 * count)
    ensures r.Ok? ==>
              && |r.value.0| == count && |r.value.1| == count
              && cur + 2 * 8 * count <= |data|
              && PointRun(data, cur, 0, VertexDivisor, r.value.0)
              && PointRun(data, cur + 8 * count, 0, NormalDivisor, r.value.1)
  {
    FitsTwice(|data|, cur, count);
    var vs :- ReadPoints(data, cur, count, 0, VertexDivisor);
    var ns :- ReadPoints(data, vs.1, count, 0, NormalDivisor);
    Ok((vs.0, ns.0))
  }

  /** The body of one model record: the vertex run, the normal run and the face
      run, each with the group counter reset to 0, then the skipped extended
      data (xspd.py:93-123). */
  function ReadBody(data: seq<byte>, cur: nat, h: Header): (r: Result<(Model, nat), Error>)
    requires cur <= |data|
    ensures r.Ok? <==>
              && Fits(|data|, cur, 8, 8, 2 * h.vertexCount)
              && Fits(|data|, cur + 2 * 8 * h.vertexCount, 20, 18, h.faceCount)
    ensures r.Ok? ==> RecordContents(data, cur, h, r.value.0)
    ensures r.Ok? ==> r.value.1 == Min(cur + RecordSize(h) - 0x68, |data|)
  {
    match ReadPointRuns(data, cur, h.vertexCount)
    case Err(e) => Err(e)
    case Ok(pts) =>
      match ReadFaces(data, cur + 2 * 8 * h.vertexCount, h.faceCount, 0)
      case Err(e) => Err(e)
      case Ok(fs) =>
        var m := NewModel(pts.0, pts.1, fs.0);
        BodyContents(data, cur, h, m);
        Ok((m, Skip(data, fs.1, 0x20 * (h.ed1 + h.ed2 + h.ed3))))
  }

  /** Three runs of the right lengths, read back to back from `cur`, make up
      the contents of a record body. */
  lemma BodyContents(data: seq<byte>, cur: nat, h: Header, m: Model)
    requires Fits(|data|, cur, 8, 8, 2 * h.vertexCount)
    requires Fits(|data|, cur + 2 * 8 * h.vertexCount, 20, 18, h.faceCount)
    requires |m.verts| == h.vertexCount && |m.norms| == h.vertexCount && |m.faces| == h.faceCount
    requires m.groups == 0
    requires PointRun(data, cur, 0, VertexDivisor, m.verts)
    requires PointRun(data, cur + 8 * h.vertexCount, 0, NormalDivisor, m.norms)
    requires FaceRun(data, cur + 2 * 8 * h.vertexCount, 0, m.faces)
    ensures RecordContents(data, cur, h, m)
  {
  }

  /** One model record (xspd.py:71-124): it decodes exactly when it is well
      formed, and the next record starts right after its extended data. */
  function ReadModelRecord(data: seq<byte>, cur: nat): (r: Result<(Model, nat), Error>)
    ensures r.Ok? <==> WellFormedRecord(data, cur)
    ensures r.Ok? ==> r.value.1 == NextRecord(data, cur)
    ensures r.Ok? ==> RecordContents(data, cur + 0x68, HeaderAt(data, cur), r.value.0)
    ensures cur + 0x68 <= |data| && !PaddingZero(data, cur) ==> r == Err(NonZeroPadding)
  {
    var hd :- ReadHeader(data, cur);
    ReadBody(data, hd.1, hd.0)
  }

  // ---------------------------------------------------------------------
  // The model section

  /** Decoding one model record, as a reader for a run of records. */
  function RecordReader(data: seq<byte>): nat -> Result<(Model, nat), Error> {
    (p: nat) => ReadModelRecord(data, p)
  }

  function NextOf(data: seq<byte>): nat -> nat {
    (p: nat) => NextRecord(data, p)
  }

  function WellFormedOf(data: seq<byte>): nat -> bool {
    (p: nat) => WellFormedRecord(data, p)
  }

  /** Where the `i`-th of consecutive model records starting at `p` begins. */
  function RecordStart(data: seq<byte>, p: nat, i: nat): nat {
    Walk(NextOf(data), p, i)
  }

  /** The `n` consecutive records from `p` are all well formed exactly when
      each of them is. */
  lemma RecordsWellFormedEach(data: seq<byte>, p: nat, n: nat)
    ensures AllAlong(WellFormedOf(data), NextOf(data), p, n) ==>
              forall i :: 0 <= i < n ==> WellFormedRecord(data, RecordStart(data, p, i))
    ensures (forall i :: 0 <= i < n ==> WellFormedRecord(data, RecordStart(data, p, i))) ==>
              AllAlong(WellFormedOf(data), NextOf(data), p, n)
  {
    var ok, step := WellFormedOf(data), NextOf(data);
    AllAlongEach(ok, step, p, n);
    if forall i :: 0 <= i < n ==> WellFormedRecord(data, RecordStart(data, p, i)) {
      forall i | 0 <= i < n
        ensures ok(Walk(step, p, i))
      {
        assert WellFormedRecord(data, RecordStart(data, p, i));
      }
    }
  }

  /** Offset of the first model record. */
  const FirstRecord: nat := ModelSection + 4

  /** The model count stored at 0x810. */
  function ModelCount(block: seq<byte>): nat
    requires FirstRecord <= |block|
  {
    U32At(block, ModelSection)
  }

  /** `read_models()`: every model of the block, in record order. The loop
      reads the count stored at 0x810 and then that many consecutive records;
      it fails exactly when one of them is malformed. */
  function DecodeAll(block: seq<byte>): (r: Result<seq<Model>, Error>)
    ensures r.Ok? ==> FirstRecord <= |block|
    ensures r.Ok? ==>
              forall i :: 0 <= i < ModelCount(block) ==> WellFormedRecord(block, RecordStart(block, FirstRecord, i))
    ensures FirstRecord <= |block| &&
            (forall i :: 0 <= i < ModelCount(block) ==> WellFormedRecord(block, RecordStart(block, FirstRecord, i)))
            ==> r.Ok?
    ensures r.Ok? ==>
              && |r.value| == ModelCount(block)
  {
    if FirstRecord > |block| then Err(ShortRead)
    else
      var read, ok, step := RecordReader(block), WellFormedOf(block), NextOf(block);
      RecordsWellFormedEach(block, FirstRecord, ModelCount(block));
      RunReadsEach(read, ok, step, FirstRecord, 0, ModelCount(block));
      var run :- ReadRun(read, FirstRecord, 0, ModelCount(block), None);
      Ok(run.0)
  }

  /** Model i of the block is the record that starts where model i - 1 ended
      (the first at 0x814). */
  lemma DecodeAllRecords(block: seq<byte>)
    ensures DecodeAll(block).Ok? ==>
              var ms := DecodeAll(block).value;
              forall i {:trigger ms[i]} :: 0 <= i < |ms| ==>
                ReadModelRecord(block, RecordStart(block, FirstRecord, i))
                == Ok((ms[i], RecordStart(block, FirstRecord, i + 1)))
  {
    if FirstRecord <= |block| {
      var read, ok, step := RecordReader(block), WellFormedOf(block), NextOf(block);
      RunReadsEach(read, ok, step, FirstRecord, 0, ModelCount(block));
    }
  }

  /** `read_models(n)`: model `n` alone, after decoding every record. */
  function DecodeOne(block: seq<byte>, n: int): (r: Result<Model, Error>)
    ensures DecodeAll(block).Err? ==> r == Err(DecodeAll(block).error)
    ensures DecodeAll(block).Ok? ==>
              r == if 0 <= n < |DecodeAll(block).value| then Ok(DecodeAll(block).value[n]) else Err(NoSuchModel)
  {
    if FirstRecord > |block| then Err(ShortRead)
    else ReadOne(RecordReader(block), FirstRecord, ModelCount(block), n, NoSuchModel)
  }

  /** A block declaring one model whose record is well formed, with three
      vertices and one face, decodes to exactly one model with three
      vertices, three normals and one face. */
  lemma OneModelScenario(block: seq<byte>)
    requires FirstRecord <= |block| && ModelCount(block) == 1
    requires WellFormedRecord(block, FirstRecord)
    requires HeaderAt(block, FirstRecord).vertexCount == 3 && HeaderAt(block, FirstRecord).faceCount == 1
    ensures DecodeAll(block).Ok? && |DecodeAll(block).value| == 1
    ensures var m := DecodeAll(block).value[0];
            |m.verts| == 3 && |m.norms| == 3 && |m.faces| == 1 && m.groups == 0
  {
    assert RecordStart(block, FirstRecord, 0) == FirstRecord;
    DecodeAllRecords(block);
    var ms := DecodeAll(block).value;
    assert ReadModelRecord(block, FirstRecord) == Ok((ms[0], RecordStart(block, FirstRecord, 1)));
  }
}
