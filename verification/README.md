# hptools core in Dafny

This project models the core of hptools, a set of Python tools that pull 3D models and images out of
the data files of the PlayStation Harry Potter games. It covers four parts:

- **The XSPD block reader and its model-section decoder** (`xspd.py`). This is a forward,
  cursor-based little-endian parser over the block's bytes:
  - it checks the `XSPD` tag and works out the block's extent from a u32 length;
  - it reads a model count at offset 0x810;
  - each model record has a fixed header with three zero-padding checks, followed by runs of vertex,
    normal and face records and a skipped extended-data region;
  - vertex-group ids are inferred from a per-record sentinel.
- **The mesh value types and their text output** (`model.py`). This covers `Model.__repr__` and the
  line layout of `save_obj`: 1-based face references, quads for group 0 with the corner order
  0, 1, 3, 2, and triangles otherwise.
- **The pose transform** (`anims.py`). `Frame.apply_to_model` maps every vertex through its group's
  subframe as `v·R + T`. This part also covers the `Frame`, `Subframe` and `NewSubframe` records,
  including the quaternion reordering.
- **The 15-bit image unpacker** (`img.py`). This covers `bit_selector`, the per-pixel channel split of
  `convert_IMG`, and the row split of `linear_to_image_array`.

Everything is pure functions over immutable values, plus two methods: the pixel loop and the image
conversion. Python exceptions become the `Err` case of a `Result`.

`BytesIO` reads are modelled exactly:

- A discarded `read(n)` stops at the end of the data.
- A `struct.unpack` of too few bytes fails.
- The padding check `int(read(n).hex(), 16) == 0` fails on an empty read and on any nonzero byte, and
  passes a short read of zeros.

Vertex and normal components are exact quotients of 16-bit integers by ±4096, so they are modelled as
`real`. The library's rotation matrix, which comes from a quaternion, is a parameter `dcm`.

On these points the model follows the code as written:

- **Group count.** A decoded model's group count is 0, the constructor default. The decoder never
  passes one.
- **Short block.** A block that runs past the end of the file is read short rather than rejected.
- **Face indices.** Face vertex indices are not range-checked.
- **Quad or triangle.** Whether a face is written as a quad or a triangle depends only on its group
  being 0.
- **Padding size.** The padding after the extended counts is a fixed 6 bytes.
- **Record size.** A model record spans `0x68 + 16·vertex_count + 20·face_count + 0x20·(ed1+ed2+ed3)`
  bytes, because both a vertex run and a normal run of 8-byte records are read.

Modules:

| module | content |
|---|---|
| `Results` | `Result` and `Option` |
| `Bytes` | little-endian fields and their encoders |
| `Decimal` | decimal text of naturals |
| `Mesh` | `model.py` |
| `Records` | runs of variable-size records read back to back, generic in the record reader |
| `Xspd` | `xspd.py` |
| `Anims` | `anims.py` |
| `Img` | `img.py` |

## Model

| member | source | states |
|---|---|---|
| Bytes.I16At | xspd.py:132 | a `<h` field is the two's-complement reading of the `<H` field at the same place, in -32768..32767 |
| Bytes.U16Bytes | xspd.py:138 | a `<H` field is its first byte plus 256 times its second |
| Bytes.U32Halves | xspd.py:50 | a `<I` field is its low `<H` half plus 2^16 times its high half |
| Xspd.ReadBlock | xspd.py:41-55 | the block reads exactly when the tag is `XSPD` and a length follows; otherwise it fails, a missing or wrong tag with BadTag; it is the file's bytes from the offset, 8 + L long, cut short by the end of the file |
| Xspd.BlockRoundTrip | xspd.py:46-55 | a block written as tag, length and payload reads back whole wherever it sits in a file |
| Xspd.ReadZeros | xspd.py:77-91 | a padding check passes exactly when at least one byte is read and every byte read is zero; it fails with EmptyPadding on an empty read and NonZeroPadding on a nonzero byte |
| Xspd.ReadPoint | xspd.py:131-158 | a vertex or normal record reads when 8 bytes remain; it keeps the current group and bumps the counter exactly when its sentinel is zero |
| Xspd.PointRecordReadBack | xspd.py:131-158 | an encoded record decodes to its raw components divided by ±4096, tagged with the current group, and the cursor advances 8 |
| Xspd.ScaleExample | xspd.py:135-136 | raw 4096 is 1.0 as a vertex component and -1.0 as a normal component |
| Xspd.ReadPoints | xspd.py:94-108 | a run of n records reads exactly when all n fit; it yields n points, where point i comes from the i-th 8-byte record and is tagged with the number of zero sentinels before it |
| Xspd.ZeroSentinelsStep | xspd.py:138-140 | counting one more record raises the group by one exactly when that record's sentinel is zero |
| Xspd.PointGroupsStep | xspd.py:94-108 | group ids of a vertex or normal run start at the reset value, and each id is its predecessor's plus 1 when the predecessor's sentinel is zero, else plus 0 |
| Xspd.ReadFace | xspd.py:160-171 | a face record reads when its 18 used bytes are present; the face carries the four raw u16 indices, the next u16 as texture and its embedded normal's group; 2 trailing bytes are skipped |
| Xspd.ReadFaces | xspd.py:110-116 | a run of face records reads exactly when all fit (the last may lack its 2 unused bytes); face i comes from the i-th 20-byte record, with the group reset to 0 at the run's start |
| Xspd.FaceGroupsStep | xspd.py:110-116 | face group ids start at 0 and step by 0 or 1, driven by the previous face's sentinel |
| Xspd.ReadHeader | xspd.py:72-91 | the record header reads exactly when at least 0x63 bytes remain from its start, so that the final 6-byte padding read gets at least one byte, and all three padding regions are zero (the final padding may be cut short by the end of the data); otherwise it fails, NonZeroPadding for a nonzero padding byte |
| Xspd.ReadPointRuns | xspd.py:94-108 | the vertex run and then the normal run of count records each read exactly when 2·count 8-byte records fit; the normals start right after the vertices, and both runs restart the group at 0 |
| Xspd.ReadBody | xspd.py:93-120 | the vertex, normal and face runs decode exactly when they fit; vertices, normals and faces match their records one for one; group count 0; the extended data is skipped |
| Xspd.ReadModelRecord | xspd.py:71-124 | a model record decodes exactly when it is well formed; the next record starts 0x68 + 16·vc + 20·fc + 0x20·(ed1+ed2+ed3) bytes on, cut at the end of the data |
| Records.RunReadsEach | xspd.py:67-124 | the model loop succeeds exactly when each of the count records, each starting where the previous one ended, is well formed; model i is the record read at the i-th such start |
| Records.RunSelects | xspd.py:122-129 | keeping only model n runs the same reads as keeping all; it fails with the same error and otherwise keeps only model n, when n is among those read |
| Xspd.DecodeAll | xspd.py:57-129 | `read_models()` succeeds exactly when the count at 0x810 can be read and every one of the count chained records is well formed; it returns exactly count models |
| Xspd.DecodeAllRecords | xspd.py:67-124 | model i is the model decoded from the record that starts where model i-1's record ended, the first at 0x814 |
| Records.ReadOne | xspd.py:122-129 | reading only record n gives the run's error when a read fails, record n of the full run when it exists, and the `missing` error otherwise |
| Xspd.DecodeOne | xspd.py:122-129 | `read_models(n)` fails as `read_models()` does; otherwise it returns model n when 0 <= n < count, and fails with NoSuchModel when n is out of range |
| Xspd.OneModelScenario | xspd.py:62-129 | a block declaring one well-formed model with 3 vertices and 1 face decodes to one model with 3 vertices, 3 normals and 1 face |
| Mesh.NewModel | model.py:26-33 | the constructor stores the three lists unchanged and sets the group count to 0 |
| Mesh.Repr | model.py:35-40 | the repr text gives back the vertex, normal and face counts when parsed |
| Mesh.FaceRefs | model.py:59-72 | a group-0 face gives the four 1-based references in the order 0, 1, 3, 2; any other face gives the triangle 0, 1, 2; every reference is one of the stored corners plus 1 |
| Mesh.FaceText | model.py:61-72 | a face line parses back to exactly its references, each written as `i//i` |
| Mesh.VertexLines | model.py:47-51 | one vertex line per vertex, in order |
| Mesh.NormalLines | model.py:52-56 | one normal line per normal, in order |
| Mesh.FaceLines | model.py:57-72 | one face line per face, in order |
| Mesh.ObjDocument | model.py:74-81 | the file is the vertices heading, the vertex lines, a blank line and the normals heading, the normal lines, a blank line and the faces heading, then the face lines, each face line parsing back to that face's references |
| Anims.MakeFrame | anims.py:15-19 | a frame stores its index and subframes, and its group count is the number of subframes |
| Anims.ReorderRoundTrip | anims.py:66-68 | reordering (w, x, y, z) to (x, y, z, w) is a permutation: storing the result back gives the input, and the other way round |
| Anims.NewSubframe | anims.py:58-72 | a new-style subframe holds the reordered quaternion, with group, translation and index as given |
| Anims.RowTimes | anims.py:36 | multiplying by the identity matrix leaves a row vector unchanged |
| Anims.RowTimesLinear | anims.py:36 | the row vector product is linear |
| Anims.PoseVerticesEach | anims.py:30-49 | the loop fails with GroupOutOfRange when a vertex it reaches has no subframe, and with MissingNormal when the normals run out first; otherwise vertex i is `v_i·R + T` for its group's subframe and keeps its group |
| Anims.ApplyToModel | anims.py:21-50 | posing succeeds exactly when all reached groups have subframes and there are at least as many normals as vertices; the result has as many vertices as the input, each posed by its group's subframe; its normals list is the posed vertices; faces and group count are carried over |
| Anims.ApplyToModelCorrected | anims.py:43-50 | the same posing with normal i rotated (not translated) by vertex i's subframe; it fails exactly when the code as written does |
| Anims.RestPose | anims.py:30-50 | with identity rotations and zero translations, vertices are unchanged and corrected normals keep their directions |
| Anims.NormalsLostWitness | anims.py:43-49 | as written, a model's normal (0, 1, 0) comes back as its vertex (1, 0, 0) in the rest pose, where the corrected version keeps it |
| Img.BitSelector | img.py:27-33 | the field is below 2^(end-start+1); it fails for a negative start or a negative width |
| Img.ShrDiv | img.py:30 | Python's `>>` by k is floor division by 2^k, for negative numbers too |
| Img.LowBitsMod | img.py:30 | the low k bits of a number are its remainder modulo 2^k, for negative numbers too |
| Img.BitAndMask | img.py:30 | AND with the mask 2^k - 1 keeps exactly the low k bits |
| Img.BitSelectorIsMask | img.py:30 | on non-negative numbers the field is the shift ANDed with the mask |
| Img.BitSelectorArith | img.py:27-33 | the field of width w at `start` is the floor quotient by 2^start modulo 2^w |
| Img.BitSelectorExamples | test/test_img.py:6-10 | bits 0-3, 4-5 and 8-11 of 0b111100101000 are 8, 2 and 15 |
| Img.BitSelectorNormalised | img.py:31-32 | the normalised field lies in [0, 1] and times the field's maximum gives the field back; an empty field fails |
| Img.Channel | img.py:68-70 | a 5-bit channel scales to the integer within one half of 255·v/31, in 0..255 |
| Img.ChannelNearest | img.py:68-70 | that integer is unique, so the rounding has no ties |
| Img.ChannelOrder | img.py:68-70 | 0 maps to 0, 31 to 255, and the scale is strictly increasing |
| Img.FieldsSelect | img.py:68-73 | `bit_selector` over bits 0-4, 5-9, 10-14 and 15 gives red, green, blue and the discard bit |
| Img.FieldsNormalised | img.py:68-70 | the three normalised colour fields are the fields divided by 31 |
| Img.SplitPack | img.py:68-73 | packing three 5-bit channels and the discard bit and splitting again gives them back |
| Img.PackSplit | img.py:68-73 | splitting a 16-bit word into bits 0-4, 5-9, 10-14 and 15 and packing again gives the word back |
| Img.AlphaMask | img.py:57-58 | the alpha value is 255 when the discard bit (bit 15) is set, else 0 |
| Img.AlphaAsWritten | img.py:73 | as written, the alpha value is 255 times (2·discard bit + top bit of blue) |
| Img.AlphaBits | img.py:73 | bits 14-15 of a 16-bit word are blue's top bit and the discard bit |
| Img.AlphaAsWrittenWitness | img.py:73 | as written, the word 0x8000 gives alpha 510 and the word 0x4000 gives 255 |
| Img.Pixel | img.py:66-74 | a pixel has 3 channels, or 4 with alpha; red, green and blue are the integers within one half of 255/31 times bits 0-4, 5-9 and 10-14; with alpha, the fourth channel is 255 times bits 14-15, one of 0, 255, 510 and 765; the colours lie in 0..255 |
| Img.PixelCorrected | img.py:57-58 | the pixel with the discard-bit alpha: the same colours as the pixel as written, and alpha 255 exactly when bit 15 is set, else 0, so every channel lies in 0..255 |
| Img.AlphaAgreement | img.py:73 | the alpha value as written equals the discard-bit alpha exactly on the words below 0x4000 |
| Img.PixelRounds | img.py:68-70 | each colour of a pixel is within one half of 255 times the normalised field, as `convert_IMG` computes it |
| Img.ConvertPixels | img.py:64-74 | the loop succeeds exactly when the data has even length, yielding one pixel per little-endian word, in order, each with the as-written alpha; odd length fails |
| Img.SplitRowsFlatten | img.py:24 | the rows joined back together give the pixel list |
| Img.SplitRowsWidth | img.py:24 | w·h pixels split into h rows of exactly w |
| Img.RowAt | img.py:24 | with w·h pixels, row i is the w pixels starting at i·w |
| Img.LinearToImage | img.py:19-25 | a height below 2 gives one row holding every pixel; a failure means the rows differ in length |
| Img.LinearToImageShape | img.py:19-25 | w·h pixels form h rows of w that join back to the pixels |
| Img.LinearToImageNeedsSize | img.py:19-25 | a non-empty pixel list splits into h >= 2 equal rows only when it holds exactly w·h pixels |
| Img.LinearToImageExample | test/test_img.py:12-18 | six pixels at width 2 and height 3 become the rows [1, 2], [3, 4], [5, 6] |
| Img.ConvertImage | img.py:48-78 | odd-length data fails; 2·w·h bytes succeed; the image mode is RGBA with alpha, else RGB; its rows join back to one pixel per word, in order, each with the as-written alpha |

## Left out

- `find_offset` (xspd.py:12-25) is not modelled. It is file I/O. It also never re-reads its buffer, so it
  loops forever when the tag is not in the first 4 MiB.
- File access is not modelled. This covers `XSPD.__init__`, `read_IMG`, the file write of `save_obj` and
  `convert_fullscreen`/`convert_LOAD`. The block reader works on the file's bytes instead.
- The `verbose` printing of `read_models` is left out.
- The float text of vertex and normal lines in `save_obj` is left out. Those lines carry their vector.
- The quaternion-to-matrix conversion (scipy `Rotation.from_quat`/`as_dcm`) is a foreign library. It is
  the parameter `dcm`, and any normalisation it does is not modelled.
- `OldSubframe` is not modelled. It references an undefined name, so constructing one always raises.
- `Image.fromarray` is not modelled. The model stops at the mode and the rows handed to it.
- The `uint8` conversion in `linear_to_image_array` is not modelled. The colours always lie in 0..255,
  but the as-written alpha value 510 or 765 does not fit a byte. The model's rows keep that value
  unconverted; numpy, depending on its version, would either reject it or wrap it.
- `linear_to_image_array` is modelled for a non-negative width only. A negative width would make numpy
  index from the end.
- Img.Channel: the source rounds a float64. The model uses exact reals. The result stays the same
  because 255·v/31 is always at least 1/62 away from a half-integer.
- Img.ConvertPixels: pixel words are read little-endian. The source uses native byte order.
- Anims.ApplyToModel: `v.dot(R) + T` (anims.py:36-37) is float64 arithmetic on a float64 translation
  (anims.py:56). The model computes it over exact reals, so rounding of the posed coordinates is not
  modelled; the same holds for Anims.Transform, Anims.RowTimes and Anims.ApplyToModelCorrected.
- Img.BitSelectorNormalised: img.py:32 returns the float64 nearest to the field over 2^w - 1. The model
  returns the exact quotient, so "value times the field's maximum gives the field back" holds for the
  model's real and not necessarily for that float.
- Anims.NewSubframe: `Rot.from_quat` (anims.py:70) raises ValueError on a quaternion of norm zero. The
  model stores any quaternion and never fails, because the rotation library is outside the model.

## Findings

| source | as written | input that shows it | evidently intended | confidence | as-written member | corrected member |
|---|---|---|---|---|---|---|
| anims.py:49 | `newnorms.append(newvert)` puts each posed vertex into the normals list; the rotated normal is computed and dropped | one vertex (1, 0, 0) with normal (0, 1, 0), identity rotation, zero translation: the normal comes back as (1, 0, 0) | `newnorms.append(newnorm)`: normal i rotated by its vertex's subframe | high, not executed | Anims.NormalsLostWitness | Anims.ApplyToModelCorrected |
| img.py:73 | the alpha value is taken from bits 14-15, so blue's top bit leaks into it and values 510 and 765 occur | the word 0x8000 gives alpha 510; the word 0x4000 (only blue's top bit set) gives 255 | the discard bit alone (bit 15), as the docstring describes, giving 0 or 255 | medium, not executed | Img.AlphaAsWrittenWitness | Img.PixelCorrected |
