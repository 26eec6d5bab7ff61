/** The 15-bit image unpacker of img.py: bit-field selection, the per-pixel
    channel split of `convert_IMG`, and the row split of
    `linear_to_image_array`. Pixel words are 16-bit little-endian; bits 0-4
    are red, 5-9 green, 10-14 blue, and bit 15 is the discard bit. */
module Img {

  import opened Results
  import opened Bytes

  // ---------------------------------------------------------------------
  // Bit fields

  function Pow2(k: nat): (r: nat)
    ensures r >= 1
  {
    if k == 0 then 1 else 2 * Pow2(k - 1)
  }

  /** The powers of two the pixel fields use. */
  lemma Pow2Table()
    ensures Pow2(0) == 1 && Pow2(1) == 2 && Pow2(2) == 4 && Pow2(4) == 16 && Pow2(5) == 32
    ensures Pow2(8) == 256 && Pow2(10) == 1024 && Pow2(14) == 0x4000 && Pow2(15) == 0x8000
  {
    assert Pow2(3) == 8 && Pow2(6) == 64 && Pow2(7) == 128;
    assert Pow2(9) == 512 && Pow2(11) == 2048 && Pow2(12) == 4096 && Pow2(13) == 8192;
  }

  /** Python's `&` on non-negative integers, bit by bit from the lowest. */
  function BitAnd(a: nat, b: nat): (r: nat)
    ensures r <= a && r <= b
  {
    if a == 0 || b == 0 then 0
    else 2 * BitAnd(a / 2, b / 2) + (if a % 2 == 1 && b % 2 == 1 then 1 else 0)
  }

  lemma MulMonotone(d: nat, x: int, y: int)
    requires x <= y
    ensures d * x <= d * y
  {
  }

  /** Division with remainder determines quotient and remainder. */
  lemma DivModUnique(a: int, d: nat, q: int, r: nat)
    requires d > 0 && r < d && a == d * q + r
    ensures a / d == q && a % d == r
  {
    var q', r' := a / d, a % d;
    if q' > q {
      MulMonotone(d, q + 1, q');
      assert false;
    } else if q' < q {
      MulMonotone(d, q' + 1, q);
      assert false;
    }
  }

  /** The lowest bit of a mask of ones is one, and the rest is the shorter mask. */
  lemma MaskStep(a: nat, p: nat)
    requires a > 0 && p >= 1
    ensures BitAnd(a, 2 * p - 1) == 2 * BitAnd(a / 2, p - 1) + a % 2
  {
    assert (2 * p - 1) / 2 == p - 1 && (2 * p - 1) % 2 == 1;
  }

  /** Halving and then dividing by p is dividing by 2p; the remainder modulo
      2p is the lowest bit plus twice the remainder of the half modulo p. */
  lemma HalveStep(a: int, p: nat)
    requires p >= 1
    ensures a / (2 * p) == (a / 2) / p
    ensures a % (2 * p) == 2 * ((a / 2) % p) + a % 2
  {
    var h := a / 2;
    var q, s := h / p, h % p;
    assert h == p * q + s;
    assert a == (2 * p) * q + (2 * s + a % 2);
    DivModUnique(a, 2 * p, q, 2 * s + a % 2);
  }

  /** Python's `n >> k`: k halvings, each rounding down. */
  function Shr(n: int, k: nat): (r: int)
    ensures n >= 0 ==> r >= 0
    decreases k
  {
    if k == 0 then n else Shr(n / 2, k - 1)
  }

  /** Python's `n & (2**k - 1)`: the lowest k bits of n, taken in two's
      complement when n is negative. */
  function LowBits(n: int, k: nat): (r: nat)
    ensures r < Pow2(k)
    decreases k
  {
    if k == 0 then 0 else 2 * LowBits(n / 2, k - 1) + n % 2
  }

  /** Shifting right by k is floor division by 2^k. */
  lemma {:induction false} ShrDiv(n: int, k: nat)
    ensures Shr(n, k) == n / Pow2(k)
    decreases k
  {
    if k > 0 {
      ShrDiv(n / 2, k - 1);
      HalveStep(n, Pow2(k - 1));
    }
  }

  /** The lowest k bits are the floor remainder modulo 2^k. */
  lemma {:induction false} LowBitsMod(n: int, k: nat)
    ensures LowBits(n, k) == n % Pow2(k)
    decreases k
  {
    if k > 0 {
      LowBitsMod(n / 2, k - 1);
      HalveStep(n, Pow2(k - 1));
    }
  }

  /** Masking with 2^k - 1 keeps the lowest k bits: `a & (2**k - 1)` is
      `LowBits(a, k)`. */
  lemma {:induction false} BitAndMask(a: nat, k: nat)
    ensures BitAnd(a, Pow2(k) - 1) == LowBits(a, k)
  {
    if k > 0 {
      var p := Pow2(k - 1);
      BitAndMask(a / 2, k - 1);
      if a > 0 {
        MaskStep(a, p);
      } else {
        assert BitAnd(a / 2, p - 1) == 0;
      }
    }
  }

  /** Why `bit_selector` raises. */
  datatype SelectError =
    | NegativeShift  // `>>` by a negative start
    | FloatMask      // end < start - 1 makes the mask a float, which `&` refuses
    | ZeroWidth      // normalising an empty field divides by zero

  /** `bit_selector(number, start, end)`: bits `start..end` of `number`, i.e.
      `(number >> start) & (2**(end - start + 1) - 1)`. Python's `>>` floors
      and its `&` with a mask of k ones is the remainder modulo 2^k even for
      negative numbers, which Dafny's `/` and `%` by a positive divisor are. */
  function BitSelector(number: int, start: int, end: int): (r: Result<nat, SelectError>)
    ensures r.Ok? <==> 0 <= start && start <= end + 1
    ensures start < 0 ==> r == Err(NegativeShift)
    ensures r.Ok? ==> r.value < Pow2(end - start + 1)
  {
    if start < 0 then Err(NegativeShift)
    else if end - start + 1 < 0 then Err(FloatMask)
    else Ok(LowBits(Shr(number, start), end - start + 1))
  }

  /** On a non-negative number the field is the shifted number ANDed with the
      mask, as the source computes it. */
  lemma BitSelectorIsMask(number: nat, start: nat, end: int)
    requires start <= end + 1
    ensures BitSelector(number, start, end) == Ok(BitAnd(Shr(number, start), Pow2(end - start + 1) - 1))
  {
    BitAndMask(Shr(number, start), end - start + 1);
  }

  /** The field is the floor quotient by 2^start taken modulo 2^width, for
      negative numbers too. */
  lemma BitSelectorArith(number: int, start: nat, width: nat)
    ensures BitSelector(number, start, start + width - 1) == Ok((number / Pow2(start)) % Pow2(width))
  {
    ShrDiv(number, start);
    LowBitsMod(Shr(number, start), width);
  }

  /** The three cases of the unit test: bits 0-3, 4-5 and 8-11 of 0b111100101000. */
  lemma BitSelectorExamples()
    ensures BitSelector(0xF28, 0, 3) == Ok(8)
    ensures BitSelector(0xF28, 4, 5) == Ok(2)
    ensures BitSelector(0xF28, 8, 11) == Ok(15)
  {
    Pow2Table();
  }

  lemma Fraction(v: nat, t: nat)
    requires 0 < t && v <= t
    ensures 0.0 <= v as real / t as real <= 1.0
    ensures (v as real / t as real) * t as real == v as real
  {
  }

  /** `bit_selector(number, start, end, normalise=True)`: the field divided by
      its largest value, a fraction in [0, 1]. */
  function BitSelectorNormalised(number: int, start: int, end: int): (r: Result<real, SelectError>)
    ensures r.Ok? <==> 0 <= start && start <= end
    ensures start >= 0 && start == end + 1 ==> r == Err(ZeroWidth)
    ensures r.Ok? ==> 0.0 <= r.value <= 1.0
    ensures r.Ok? ==> r.value * (Pow2(end - start + 1) - 1) as real == BitSelector(number, start, end).value as real
  {
    var v :- BitSelector(number, start, end);
    var top := Pow2(end - start + 1) - 1;
    if top == 0 then Err(ZeroWidth)
    else
      Fraction(v, top);
      Ok(v as real / top as real)
  }

  // ---------------------------------------------------------------------
  // Pixels

  /** `int(round(v / 31 * 255))` for a 5-bit channel value: the integer
      nearest to 255 v / 31. The distance is always below one half, so no
      tie arises and the rounding mode does not matter. */
  function Channel(v: nat): (c: nat)
    requires v < 32
    ensures c <= 255
    ensures (c as real) - 0.5 < (v as real) * 255.0 / 31.0 < (c as real) + 0.5
  {
    var c := (510 * v + 31) / 62;
    assert 62 * c <= 510 * v + 31 < 62 * c + 62;
    assert 62 * c - 31 != 510 * v;
    assert (v as real) * 255.0 / 31.0 == (510 * v) as real / 62.0;
    c
  }

  /** Any integer within one half of 255 v / 31 is `Channel(v)`. */
  lemma ChannelNearest(v: nat, k: int)
    requires v < 32
    requires (k as real) - 0.5 < (v as real) * 255.0 / 31.0 < (k as real) + 0.5
    ensures k == Channel(v)
  {
  }

  /** The channel scale keeps black black and white white, and distinct
      channel values stay distinct. */
  lemma ChannelOrder(v: nat, w: nat)
    requires v < w < 32
    ensures Channel(0) == 0 && Channel(31) == 255
    ensures Channel(v) < Channel(w)
  {
  }

  /** The discard bit as an alpha value: 255 when bit 15 is set, else 0. */
  function AlphaMask(word: nat): (a: nat)
    requires word < 0x1_0000
    ensures a == if word >= 0x8000 then 255 else 0
  {
    Discard(word) * 255
  }

  /** The alpha value as written at img.py:73: bits 14-15 times 255, which
      are the discard bit and the top bit of blue. */
  function AlphaAsWritten(word: nat): (a: nat)
    requires word < 0x1_0000
    ensures a == 255 * (2 * Discard(word) + Blue(word) / 16)
    ensures a in {0, 255, 510, 765}
  {
    AlphaBits(word);
    var v := BitSelector(word, 14, 15).value;
    assert v == 0 || v == 1 || v == 2 || v == 3;
    v * 255
  }

  /** Bits 14-15 of a 16-bit word are blue's top bit and the discard bit. */
  lemma AlphaBits(word: nat)
    requires word < 0x1_0000
    ensures BitSelector(word, 14, 15) == Ok(2 * Discard(word) + Blue(word) / 16)
  {
    Pow2Table();
    BitSelectorArith(word, 14, 2);
    var q, r := word / 0x4000, word % 0x4000;
    assert q < 4;
    DivModUnique(q, 4, 0, q);
    DivModUnique(word, 0x8000, q / 2, 0x4000 * (q % 2) + r);
    DivModUnique(q / 2, 2, 0, q / 2);
    DivModUnique(word, 1024, 16 * q + r / 1024, r % 1024);
    DivModUnique(16 * q + r / 1024, 32, q / 2, 16 * (q % 2) + r / 1024);
    DivModUnique(16 * (q % 2) + r / 1024, 16, q % 2, r / 1024);
  }

  /** As written, alpha takes the top bit of blue as well: a word with only
      the discard bit set gives alpha 510, which does not fit a byte, and a
      word with only blue's top bit set is opaque although its discard bit
      is clear. */
  lemma AlphaAsWrittenWitness()
    ensures AlphaAsWritten(0x8000) == 510 && AlphaMask(0x8000) == 255
    ensures AlphaAsWritten(0x4000) == 255 && AlphaMask(0x4000) == 0
  {
    assert Discard(0x8000) == 1 && Blue(0x8000) == 0;
    assert Discard(0x4000) == 0 && Blue(0x4000) == 16;
  }

  /** Red, green and blue of a word: bits 0-4, 5-9 and 10-14; and the
      discard bit, bit 15. */
  function Red(word: nat): nat {
    word % 32
  }

  function Green(word: nat): nat {
    (word / 32) % 32
  }

  function Blue(word: nat): nat {
    (word / 1024) % 32
  }

  function Discard(word: nat): nat {
    (word / 0x8000) % 2
  }

  /** The four fields are what `bit_selector` picks out of the word. */
  lemma FieldsSelect(word: nat)
    ensures BitSelector(word, 0, 4) == Ok(Red(word))
    ensures BitSelector(word, 5, 9) == Ok(Green(word))
    ensures BitSelector(word, 10, 14) == Ok(Blue(word))
    ensures BitSelector(word, 15, 15) == Ok(Discard(word))
  {
    Pow2Table();
    BitSelectorArith(word, 0, 5);
    BitSelectorArith(word, 5, 5);
    BitSelectorArith(word, 10, 5);
    BitSelectorArith(word, 15, 1);
  }

  /** The word built from three 5-bit channels and the discard bit. */
  function Pack(r: nat, g: nat, b: nat, d: nat): (word: nat)
    requires r < 32 && g < 32 && b < 32 && d < 2
    ensures word < 0x1_0000
  {
    r + 32 * g + 1024 * b + 0x8000 * d
  }

  /** Packing then splitting gives the fields back. */
  lemma SplitPack(r: nat, g: nat, b: nat, d: nat)
    requires r < 32 && g < 32 && b < 32 && d < 2
    ensures var w := Pack(r, g, b, d);
            Red(w) == r && Green(w) == g && Blue(w) == b && Discard(w) == d
  {
    var w := Pack(r, g, b, d);
    DivModUnique(w, 32, g + 32 * b + 1024 * d, r);
    DivModUnique(g + 32 * b + 1024 * d, 32, b + 32 * d, g);
    DivModUnique(w, 1024, b + 32 * d, r + 32 * g);
    DivModUnique(b + 32 * d, 32, d, b);
    DivModUnique(w, 0x8000, d, r + 32 * g + 1024 * b);
  }

  /** Splitting then packing gives the word back: the three channels and the
      discard bit cover a 16-bit word without overlap. */
  lemma PackSplit(word: nat)
    requires word < 0x1_0000
    ensures Red(word) < 32 && Green(word) < 32 && Blue(word) < 32 && Discard(word) < 2
    ensures Pack(Red(word), Green(word), Blue(word), Discard(word)) == word
  {
    var r, q1 := word % 32, word / 32;
    var g, q2 := q1 % 32, q1 / 32;
    var b, d := q2 % 32, q2 / 32;
    assert word == 32 * q1 + r;
    assert q1 == 32 * q2 + g;
    assert q2 == 32 * d + b;
    assert word == r + 32 * g + 1024 * b + 0x8000 * d;
    DivModUnique(word, 1024, q2, r + 32 * g);
    DivModUnique(word, 0x8000, d, r + 32 * g + 1024 * b);
  }

  /** The normalised fields are the colour fields over their top value 31. */
  lemma FieldsNormalised(word: nat)
    ensures BitSelectorNormalised(word, 0, 4) == Ok(Red(word) as real / 31.0)
    ensures BitSelectorNormalised(word, 5, 9) == Ok(Green(word) as real / 31.0)
    ensures BitSelectorNormalised(word, 10, 14) == Ok(Blue(word) as real / 31.0)
  {
    Pow2Table();
    DivModUnique(word, 1, word, 0);
    FieldNormalised(word, 0);
    FieldNormalised(word, 5);
    FieldNormalised(word, 10);
  }

  /** The normalised 5-bit field at `start`, in closed form. */
  lemma FieldNormalised(word: nat, start: nat)
    ensures BitSelectorNormalised(word, start, start + 4) == Ok(((word / Pow2(start)) % 32) as real / 31.0)
  {
    Pow2Table();
    BitSelectorArith(word, start, 5);
    NormalisedField(word, start, (word / Pow2(start)) % 32);
  }

  /** A normalised 5-bit field is the field over 31. */
  lemma NormalisedField(word: nat, start: nat, v: nat)
    requires BitSelector(word, start, start + 4) == Ok(v)
    ensures BitSelectorNormalised(word, start, start + 4) == Ok(v as real / 31.0)
  {
    Pow2Table();
    var top := Pow2(start + 4 - start + 1) - 1;
    assert top == 31;
    assert BitSelectorNormalised(word, start, start + 4) == Ok(v as real / top as real);
    assert top as real == 31.0;
    assert v as real / top as real == v as real / 31.0;
  }

  /** One pixel of `convert_IMG` as written: red, green and blue scaled to
      0-255 by rounding, then, when `alpha` is set, 255 times bits 14-15. */
  function Pixel(word: nat, alpha: bool): (p: seq<int>)
    requires word < 0x1_0000
    ensures |p| == if alpha then 4 else 3
    ensures forall c :: 0 <= c < 3 ==> 0 <= p[c] <= 255
    ensures (p[0] as real) - 0.5 < (Red(word) as real) * 255.0 / 31.0 < (p[0] as real) + 0.5
    ensures (p[1] as real) - 0.5 < (Green(word) as real) * 255.0 / 31.0 < (p[1] as real) + 0.5
    ensures (p[2] as real) - 0.5 < (Blue(word) as real) * 255.0 / 31.0 < (p[2] as real) + 0.5
    ensures alpha ==> p[3] == 255 * BitSelector(word, 14, 15).value
    ensures alpha ==> p[3] in {0, 255, 510, 765}
  {
    PackSplit(word);
    var rgb := [Channel(Red(word)), Channel(Green(word)), Channel(Blue(word))];
    if alpha then rgb + [AlphaAsWritten(word)] else rgb
  }

  /** The pixel with the alpha value the discard-bit mask is meant to give:
      the same colours, and 255 or 0 by bit 15 alone. */
  function PixelCorrected(word: nat, alpha: bool): (p: seq<int>)
    requires word < 0x1_0000
    ensures |p| == if alpha then 4 else 3
    ensures forall c :: 0 <= c < |p| ==> 0 <= p[c] <= 255
    ensures p[..3] == Pixel(word, alpha)[..3]
    ensures alpha ==> p[3] == if word >= 0x8000 then 255 else 0
  {
    var rgb := Pixel(word, false);
    if alpha then rgb + [AlphaMask(word)] else rgb
  }

  /** The alpha value as written agrees with the discard-bit mask exactly on
      the words below 0x4000, where bits 14 and 15 are both clear. */
  lemma AlphaAgreement(word: nat)
    requires word < 0x1_0000
    ensures AlphaAsWritten(word) == AlphaMask(word) <==> word < 0x4000
  {
    AlphaBits(word);
    Pow2Table();
    BitSelectorArith(word, 14, 2);
    var q := word / 0x4000;
    assert q < 4;
    DivModUnique(q, 4, 0, q);
    assert 2 * Discard(word) + Blue(word) / 16 == q;
    assert word < 0x4000 <==> q == 0;
  }

  /** Each colour of a pixel is the rounding of 255 times the normalised
      field, as `convert_IMG` computes it. */
  lemma PixelRounds(word: nat, alpha: bool)
    requires word < 0x1_0000
    ensures var p := Pixel(word, alpha);
            && (p[0] as real) - 0.5 < 255.0 * BitSelectorNormalised(word, 0, 4).value < (p[0] as real) + 0.5
            && (p[1] as real) - 0.5 < 255.0 * BitSelectorNormalised(word, 5, 9).value < (p[1] as real) + 0.5
            && (p[2] as real) - 0.5 < 255.0 * BitSelectorNormalised(word, 10, 14).value < (p[2] as real) + 0.5
  {
    FieldsNormalised(word);
  }

  /** Why converting an image raises. */
  datatype ImgError =
    | OddLength  // the last word is a single byte
    | Ragged     // the rows of the split differ in length

  /** The pixel loop of `convert_IMG`: one pixel per little-endian 16-bit
      word, in order. */
  method ConvertPixels(data: seq<byte>, alpha: bool) returns (r: Result<seq<seq<int>>, ImgError>)
    ensures r.Ok? <==> |data| % 2 == 0
    ensures r.Err? ==> r.error == OddLength
    ensures r.Ok? ==>
              && |r.value| == |data| / 2
              && forall i :: 0 <= i < |r.value| ==> r.value[i] == Pixel(U16At(data, 2 * i), alpha)
  {
    var pixels: seq<seq<int>> := [];
    while 2 * |pixels| < |data|
      invariant 2 * |pixels| <= |data|
      invariant forall j :: 0 <= j < |pixels| ==> pixels[j] == Pixel(U16At(data, 2 * j), alpha)
      decreases |data| - 2 * |pixels|
    {
      var i := 2 * |pixels|;
      if i + 2 > |data| {
        return Err(OddLength);
      }
      pixels := pixels + [Pixel(U16At(data, i), alpha)];
    }
    return Ok(pixels);
  }

  // ---------------------------------------------------------------------
  // Rows

  /** `np.split(pixels, [w, 2w, ..., (h-1)w])` for h >= 1: the first row
      takes the first w pixels (or all when fewer remain), and the remaining
      h - 1 rows split the rest; the last row takes whatever is left. */
  function SplitRows<T>(pixels: seq<T>, w: nat, h: nat): (rows: seq<seq<T>>)
    requires h >= 1
    ensures |rows| == h
    decreases h
  {
    if h == 1 then [pixels]
    else
      var m := Min(w, |pixels|);
      [pixels[..m]] + SplitRows(pixels[m..], w, h - 1)
  }

  predicate SameLength<T>(rows: seq<seq<T>>) {
    forall k :: 0 <= k < |rows| ==> |rows[k]| == |rows[0]|
  }

  /** `linear_to_image_array(pixels, (w, h))`: the pixel list split into rows,
      which must all have the same length to form an array. A height below 2
      gives no cut and so a single row. */
  function LinearToImage<T>(pixels: seq<T>, w: nat, h: int): (r: Result<seq<seq<T>>, ImgError>)
    ensures r.Ok? ==> |r.value| == if h <= 1 then 1 else h
    ensures h <= 1 ==> r == Ok([pixels])
    ensures r.Err? ==> r.error == Ragged
  {
    var rows := SplitRows(pixels, w, if h <= 1 then 1 else h);
    if SameLength(rows) then Ok(rows) else Err(Ragged)
  }

  lemma MulSucc(a: nat, b: nat)
    ensures a * (b + 1) == a * b + a && (b + 1) * a == b * a + a
  {
  }

  /** The rows joined back together. */
  function Flatten<T>(rows: seq<seq<T>>): (s: seq<T>)
    ensures |rows| > 0 ==> s == rows[0] + Flatten(rows[1..])
  {
    if |rows| == 0 then [] else rows[0] + Flatten(rows[1..])
  }

  /** Splitting loses and reorders nothing: the rows joined back together
      are the pixel list, whatever the width and height. */
  lemma {:induction false} SplitRowsFlatten<T>(pixels: seq<T>, w: nat, h: nat)
    requires h >= 1
    ensures Flatten(SplitRows(pixels, w, h)) == pixels
    decreases h
  {
    var rows := SplitRows(pixels, w, h);
    if h == 1 {
      assert rows[1..] == [];
      assert pixels + [] == pixels;
    } else {
      var m := Min(w, |pixels|);
      SplitRowsFlatten(pixels[m..], w, h - 1);
      assert rows[1..] == SplitRows(pixels[m..], w, h - 1);
      assert pixels[..m] + pixels[m..] == pixels;
    }
  }

  /** w·h pixels split into rows of exactly w. */
  lemma {:induction false} SplitRowsWidth<T>(pixels: seq<T>, w: nat, h: nat)
    requires h >= 1 && |pixels| == w * h
    ensures forall i :: 0 <= i < h ==> |SplitRows(pixels, w, h)[i]| == w
    decreases h
  {
    if h > 1 {
      MulSucc(w, h - 1);
      var rest := pixels[w..];
      SplitRowsWidth(rest, w, h - 1);
      assert SplitRows(pixels, w, h) == [pixels[..w]] + SplitRows(rest, w, h - 1);
    }
  }

  /** The products `RowAt` steps through. */
  lemma RowArith(w: nat, h: nat, i: nat)
    requires 1 <= h && i < h
    ensures w * h == w * (h - 1) + w
    ensures i * w + w <= w * h
    ensures i > 0 ==> (i - 1) * w + w == i * w
  {
    MulSucc(w, h - 1);
    if i > 0 {
      MulSucc(w, i - 1);
    }
    assert i * w <= (h - 1) * w by {
      MulMonotone(w, i, h - 1);
    }
  }

  /** Where row i of a width-w image starts in the pixel list. */
  function RowStart(w: nat, i: nat): nat {
    i * w
  }

  /** With w·h pixels, row i is the run of w pixels from i·w. */
  lemma {:induction false} RowAt<T>(pixels: seq<T>, w: nat, h: nat, i: nat)
    requires h >= 1 && |pixels| == w * h && i < h
    ensures RowStart(w, i) + w <= |pixels|
    ensures SplitRows(pixels, w, h)[i] == pixels[RowStart(w, i) .. RowStart(w, i) + w]
    decreases i
  {
    RowArith(w, h, i);
    var rows := SplitRows(pixels, w, h);
    if i == 0 {
      assert rows[0] == pixels[..w];
    } else {
      var rest := pixels[w..];
      var a := (i - 1) * w;
      RowAt(rest, w, h - 1, i - 1);
      assert rows[i] == SplitRows(rest, w, h - 1)[i - 1] == rest[a .. a + w];
      assert rest[a .. a + w] == pixels[i * w .. i * w + w];
    }
  }

  /** w·h pixels form an image of h rows of w which, joined back together,
      give the pixels in order. */
  lemma LinearToImageShape<T>(pixels: seq<T>, w: nat, h: nat)
    requires h >= 1 && |pixels| == w * h
    ensures LinearToImage(pixels, w, h).Ok?
    ensures var rows := LinearToImage(pixels, w, h).value;
            && |rows| == h
            && (forall i :: 0 <= i < h ==> |rows[i]| == w)
            && Flatten(rows) == pixels
  {
    var rows := SplitRows(pixels, w, h);
    SplitRowsWidth(pixels, w, h);
    SplitRowsFlatten(pixels, w, h);
    assert SameLength(rows);
  }

  /** Conversely, a non-empty pixel list split into h >= 2 rows of equal
      length holds exactly w·h pixels. */
  lemma {:induction false} SplitRowsNeedsSize<T>(pixels: seq<T>, w: nat, h: nat)
    requires h >= 2 && |pixels| > 0
    requires SameLength(SplitRows(pixels, w, h))
    ensures |pixels| == w * h
    decreases h
  {
    var rows := SplitRows(pixels, w, h);
    var m := Min(w, |pixels|);
    var rest := pixels[m..];
    var tail := SplitRows(rest, w, h - 1);
    assert rows == [pixels[..m]] + tail;
    assert |rows[0]| == m;
    assert forall k :: 0 <= k < |tail| ==> |tail[k]| == m by {
      forall k | 0 <= k < |tail|
        ensures |tail[k]| == m
      {
        assert tail[k] == rows[k + 1];
      }
    }
    if h == 2 {
      assert tail == [rest];
      assert |tail[0]| == m;
    } else {
      assert SameLength(tail);
      SplitRowsNeedsSize(rest, w, h - 1);
      assert |tail[0]| == Min(w, |rest|);
    }
    assert m == w;
    assert w * h == w + w * (h - 1);
  }

  lemma LinearToImageNeedsSize<T>(pixels: seq<T>, w: nat, h: int)
    requires h >= 2 && |pixels| > 0
    requires LinearToImage(pixels, w, h).Ok?
    ensures |pixels| == w * h
  {
    SplitRowsNeedsSize(pixels, w, h);
  }

  /** The second unit test: six pixels at width 2 and height 3. */
  lemma LinearToImageExample()
    ensures LinearToImage([1, 2, 3, 4, 5, 6], 2, 3) == Ok([[1, 2], [3, 4], [5, 6]])
  {
    var p := [1, 2, 3, 4, 5, 6];
    assert p[..2] == [1, 2] && p[2..] == [3, 4, 5, 6];
    assert p[2..][..2] == [3, 4] && p[2..][2..] == [5, 6];
    assert SplitRows(p[2..][2..], 2, 1) == [[5, 6]];
    assert SplitRows(p[2..], 2, 2) == [[3, 4]] + [[5, 6]];
    var rows := SplitRows(p, 2, 3);
    assert rows == [[1, 2]] + [[3, 4], [5, 6]];
    assert SameLength(rows);
    assert LinearToImage(p, 2, 3) == Ok(rows);
    assert rows == [[1, 2], [3, 4], [5, 6]];
  }

  // ---------------------------------------------------------------------
  // Whole images

  /** An image as handed to the imaging library: its mode and its rows of
      pixels. */
  datatype Image = Image(mode: string, rows: seq<seq<seq<int>>>)

  /** `convert_IMG(data, (w, h), alpha)` up to the imaging library: the pixel
      loop, then the row split. */
  method ConvertImage(data: seq<byte>, w: nat, h: int, alpha: bool) returns (r: Result<Image, ImgError>)
    ensures |data| % 2 == 1 ==> r == Err(OddLength)
    ensures h >= 1 && |data| == 2 * (w * h) ==> r.Ok?
    ensures r.Ok? ==>
              && r.value.mode == (if alpha then "RGBA" else "RGB")
              && |r.value.rows| == (if h <= 1 then 1 else h)
              && |Flatten(r.value.rows)| == |data| / 2
              && forall i :: 0 <= i < |data| / 2 ==> Flatten(r.value.rows)[i] == Pixel(U16At(data, 2 * i), alpha)
  {
    var pixels :- ConvertPixels(data, alpha);
    SplitRowsFlatten(pixels, w, if h <= 1 then 1 else h);
    if h >= 1 && |data| == 2 * (w * h) {
      LinearToImageShape(pixels, w, h);
    }
    var rows :- LinearToImage(pixels, w, h);
    return Ok(Image(if alpha then "RGBA" else "RGB", rows));
  }
}
