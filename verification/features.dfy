/** The colour-histogram feature extractor (`process_image` in both ia.py and
    server.py): an RGB image becomes a vector of `blocks`^3 reals, the share of
    its pixels that fall into each cell of a `blocks` x `blocks` x `blocks`
    partition of the RGB cube. */
module Features {
  import opened Wrappers
  import opened Arith

  /** One colour channel value, as PIL reports it for an RGB image. */
  type Channel = x: int | 0 <= x < 256

  datatype Pixel = Pixel(r: Channel, g: Channel, b: Channel)

  /** A decoded image: its PIL mode name and its pixels in `getdata()` order. */
  datatype Image = Image(mode: string, pixels: seq<Pixel>)

  /** A feature vector: one real per histogram cell. */
  type Vec = seq<real>

  /** Exceptions that escape the extractor and its callers uncaught. */
  datatype Fault =
    | ZeroDivision   // `x/pixel_count` on an RGB image without pixels
    | ReadFailed     // `open(image_path)`, which sits outside the `try`

  const RGB: string := "RGB"

  /** The default of the `blocks` parameter; no caller overrides it. */
  const DEFAULT_BLOCKS: nat := 4

  /** Number of histogram cells, the length of every feature vector. */
  function Cells(blocks: nat): nat {
    blocks * blocks * blocks
  }

  /** The bucket of one channel value: the channel range 0..255 is cut into
      `blocks` sub-ranges of width 256/blocks and `k` is the one holding `p`. */
  function Bucket(p: Channel, blocks: nat): (k: nat)
    requires blocks > 0
    ensures k < blocks
  {
    p * blocks / 256
  }

  /** Bucket `k` covers exactly the channel values `p` with
      k * 256/blocks <= p < (k + 1) * 256/blocks. */
  lemma BucketRange(p: Channel, blocks: nat, k: nat)
    requires blocks > 0
    ensures Bucket(p, blocks) == k <==> k * 256 <= p * blocks < (k + 1) * 256
  {
    var n := p * blocks;
    if k * 256 <= n < (k + 1) * 256 {
      DivModOf(n, 256, k, n - k * 256);
    }
  }

  /** ia.py and server.py compute the bucket as `int(p/(256/blocks))` with true
      (real) division; over exact reals that is the integer quotient above,
      for every positive `blocks`. */
  lemma BucketIsTruncatedQuotient(p: Channel, blocks: nat)
    requires blocks > 0
    ensures Bucket(p, blocks) == ((p as real) / (256.0 / blocks as real)).Floor
  {
    var n := p * blocks;
    var x := (p as real) / (256.0 / blocks as real);
    assert x == (n as real) / 256.0;
    var q := n / 256;
    var m := n % 256;
    assert n == q * 256 + m && 0 <= m < 256;
    assert x == q as real + (m as real) / 256.0;
    FloorOfFraction(q, m as real / 256.0);
  }

  /** Adding a fraction in [0, 1) to an integer does not move its floor. */
  lemma FloorOfFraction(q: int, f: real)
    requires 0.0 <= f < 1.0
    ensures (q as real + f).Floor == q
  {
  }

  /** The combined histogram index of a pixel:
      r-bucket + g-bucket * blocks + b-bucket * blocks^2. */
  function CellIndex(px: Pixel, blocks: nat): (idx: nat)
    requires blocks > 0
    ensures idx < Cells(blocks)
  {
    MixedRadix(Bucket(px.r, blocks), Bucket(px.g, blocks), Bucket(px.b, blocks), blocks)
  }

  /** The three digits `r`, `g`, `b` read in base `blocks`. */
  function MixedRadix(r: nat, g: nat, b: nat, blocks: nat): (idx: nat)
    requires r < blocks && g < blocks && b < blocks
    ensures idx < Cells(blocks)
  {
    MixedRadixBound(r, g, b, blocks);
    r + g * blocks + b * blocks * blocks
  }

  lemma MixedRadixBound(r: nat, g: nat, b: nat, blocks: nat)
    requires r < blocks && g < blocks && b < blocks
    ensures 0 <= r + g * blocks + b * blocks * blocks < Cells(blocks)
  {
    var sq := blocks * blocks;
    MulLe(0, g, blocks);
    MulLe(0, b, sq);
    assert r + g * blocks < sq by {
      MulLe(g, blocks - 1, blocks);
      Distrib(blocks, -1, blocks);
    }
    assert b * sq + sq <= blocks * sq by {
      MulLe(b, blocks - 1, sq);
      Distrib(blocks, -1, sq);
    }
    assert b * blocks * blocks == b * sq;
    assert Cells(blocks) == blocks * sq;
  }

  /** The index keeps all three buckets: each one can be read back from it,
      so two pixels share a cell exactly when they share all three buckets. */
  lemma CellIndexDecodes(px: Pixel, blocks: nat)
    requires blocks > 0
    ensures CellIndex(px, blocks) % blocks == Bucket(px.r, blocks)
    ensures CellIndex(px, blocks) / blocks % blocks == Bucket(px.g, blocks)
    ensures CellIndex(px, blocks) / (blocks * blocks) == Bucket(px.b, blocks)
  {
    var r, g, b := Bucket(px.r, blocks), Bucket(px.g, blocks), Bucket(px.b, blocks);
    assert CellIndex(px, blocks) == r + g * blocks + b * blocks * blocks;
    MixedRadixDecode(r, g, b, blocks);
  }

  lemma MixedRadixDecode(r: nat, g: nat, b: nat, blocks: nat)
    requires r < blocks && g < blocks && b < blocks
    ensures (r + g * blocks + b * blocks * blocks) % blocks == r
    ensures (r + g * blocks + b * blocks * blocks) / blocks % blocks == g
    ensures (r + g * blocks + b * blocks * blocks) / (blocks * blocks) == b
  {
    var idx := r + g * blocks + b * blocks * blocks;
    var sq := blocks * blocks;
    var lo := r + g * blocks;
    var hi := g + b * blocks;
    assert idx == hi * blocks + r by {
      Distrib(g, b * blocks, blocks);
    }
    assert idx == b * sq + lo by {
      assert b * blocks * blocks == b * sq;
    }
    assert lo < sq by {
      MulLe(g, blocks - 1, blocks);
      Distrib(blocks, -1, blocks);
    }
    DivModOf(idx, blocks, hi, r);
    DivModOf(hi, blocks, b, g);
    DivModOf(idx, sq, b, lo);
  }

  lemma {:induction false} CellIndexInjective(p1: Pixel, p2: Pixel, blocks: nat)
    requires blocks > 0
    ensures CellIndex(p1, blocks) == CellIndex(p2, blocks) <==>
      Bucket(p1.r, blocks) == Bucket(p2.r, blocks) &&
      Bucket(p1.g, blocks) == Bucket(p2.g, blocks) &&
      Bucket(p1.b, blocks) == Bucket(p2.b, blocks)
  {
    CellIndexDecodes(p1, blocks);
    CellIndexDecodes(p2, blocks);
  }

  /** With the default four blocks there are 64 cells and black lands in
      the first one. */
  lemma BlackIsFirstCell()
    ensures Cells(DEFAULT_BLOCKS) == 64
    ensures CellIndex(Pixel(0, 0, 0), DEFAULT_BLOCKS) == 0
  {
  }

  /** With the default four blocks 255 falls in bucket 3 of every channel,
      so white lands in the last cell, 63. */
  lemma WhiteIsLastCell()
    ensures Bucket(255, DEFAULT_BLOCKS) == 3
    ensures CellIndex(Pixel(255, 255, 255), DEFAULT_BLOCKS) == 63
  {
  }

  /** The cell index of every pixel, in pixel order. */
  function CellIndices(pixels: seq<Pixel>, blocks: nat): (s: seq<nat>)
    requires blocks > 0
    ensures |s| == |pixels|
    ensures forall j :: 0 <= j < |pixels| ==> s[j] == CellIndex(pixels[j], blocks)
  {
    seq(|pixels|, j requires 0 <= j < |pixels| => CellIndex(pixels[j], blocks))
  }

  function Sum(c: seq<nat>): nat {
    if |c| == 0 then 0 else c[0] + Sum(c[1..])
  }

  function RealSum(v: seq<real>): real {
    if |v| == 0 then 0.0 else v[0] + RealSum(v[1..])
  }

  lemma {:induction false} SumIncrement(c: seq<nat>, i: nat)
    requires i < |c|
    ensures Sum(c[i := c[i] + 1]) == Sum(c) + 1
    decreases |c|
  {
    if i > 0 {
      assert c[i := c[i] + 1][1..] == c[1..][i - 1 := c[i] + 1];
      SumIncrement(c[1..], i - 1);
    } else {
      assert c[i := c[i] + 1][1..] == c[1..];
    }
  }

  lemma {:induction false} SumZeros(n: nat)
    ensures Sum(seq(n, _ => 0)) == 0
  {
    if n > 0 {
      assert seq(n, _ => 0)[1..] == seq(n - 1, _ => 0);
      SumZeros(n - 1);
    }
  }

  /** The histogram counters after the `for pixel in image.getdata()` loop:
      one counter per cell, together counting every pixel once. */
  function Counts(pixels: seq<Pixel>, blocks: nat): (c: seq<nat>)
    requires blocks > 0
    ensures |c| == Cells(blocks)
    ensures Sum(c) == |pixels|
    decreases |pixels|
  {
    if |pixels| == 0 then
      SumZeros(Cells(blocks));
      seq(Cells(blocks), _ => 0)
    else
      var c0 := Counts(pixels[..|pixels| - 1], blocks);
      var idx := CellIndex(pixels[|pixels| - 1], blocks);
      SumIncrement(c0, idx);
      c0[idx := c0[idx] + 1]
  }

  /** Each counter holds the number of pixels whose index is its cell. */
  lemma {:induction false} CountsAreCellSizes(pixels: seq<Pixel>, blocks: nat)
    requires blocks > 0
    ensures forall i :: 0 <= i < Cells(blocks) ==>
              Counts(pixels, blocks)[i] == multiset(CellIndices(pixels, blocks))[i]
    decreases |pixels|
  {
    if |pixels| > 0 {
      var init := pixels[..|pixels| - 1];
      CountsAreCellSizes(init, blocks);
      assert CellIndices(pixels, blocks) ==
             CellIndices(init, blocks) + [CellIndex(pixels[|pixels| - 1], blocks)];
    }
  }

  /** `[x/pixel_count for x in feature]`. */
  function Normalize(c: seq<nat>, total: nat): (v: Vec)
    requires total > 0
    ensures |v| == |c|
    ensures forall i :: 0 <= i < |c| ==> v[i] == c[i] as real / total as real
    ensures forall i :: 0 <= i < |v| ==> v[i] >= 0.0
    ensures RealSum(v) == Sum(c) as real / total as real
    decreases |c|
  {
    if |c| == 0 then []
    else
      var rest := Normalize(c[1..], total);
      DivAdd(c[0] as real, Sum(c[1..]) as real, total as real);
      [c[0] as real / total as real] + rest
  }

  lemma DivAdd(a: real, b: real, t: real)
    requires t > 0.0
    ensures a / t + b / t == (a + b) / t
  {
  }

  lemma DivSelf(t: real)
    requires t > 0.0
    ensures t / t == 1.0
  {
  }

  /** The shape of what ia.py's `process_image` returns: one non-negative
      entry per cell, the entries summing to one. */
  ghost predicate IsFeatureVector(v: Vec, blocks: nat) {
    && |v| == Cells(blocks)
    && (forall i :: 0 <= i < |v| ==> v[i] >= 0.0)
    && RealSum(v) == 1.0
  }

  /** `v` is the normalised colour histogram of `pixels`: a feature vector
      whose entry `i` is the share of pixels falling in cell `i`. */
  ghost predicate IsHistogramOf(v: Vec, pixels: seq<Pixel>, blocks: nat)
    requires blocks > 0
  {
    && IsFeatureVector(v, blocks)
    && |pixels| > 0
    && forall i :: 0 <= i < Cells(blocks) ==>
         v[i] == multiset(CellIndices(pixels, blocks))[i] as real / |pixels| as real
  }

  /** `process_image(image, blocks)`: `Success(None)` for a non-RGB image,
      `Failure(ZeroDivision)` for an RGB image without pixels, otherwise the
      normalised histogram. */
  function ProcessImage(img: Image, blocks: nat): (r: Result<Option<Vec>, Fault>)
    requires blocks > 0
    ensures r.Success? && r.value.None? <==> img.mode != RGB
    ensures r.Failure? <==> img.mode == RGB && |img.pixels| == 0
    ensures r.Failure? ==> r.error == ZeroDivision
    ensures r.Success? && r.value.Some? ==>
      && IsFeatureVector(r.value.value, blocks)
      && forall i :: 0 <= i < Cells(blocks) ==>
           r.value.value[i] ==
           multiset(CellIndices(img.pixels, blocks))[i] as real / |img.pixels| as real
  {
    if img.mode != RGB then Success(None)
    else if |img.pixels| == 0 then Failure(ZeroDivision)
    else
      var c := Counts(img.pixels, blocks);
      CountsAreCellSizes(img.pixels, blocks);
      var v := Normalize(c, |img.pixels|);
      assert RealSum(v) == 1.0 by {
        var t := |img.pixels| as real;
        assert RealSum(v) == t / t;
        DivSelf(t);
      }
      Success(Some(v))
  }

  /** The extractor as ia.py and server.py write it: a counter list updated in place
      by one loop over the pixels, then divided by the pixel count. */
  method ProcessImageLoop(img: Image, blocks: nat) returns (r: Result<Option<Vec>, Fault>)
    requires blocks > 0
    ensures r == ProcessImage(img, blocks)
  {
    if img.mode != RGB {
      return Success(None);
    }
    var feature: seq<nat> := seq(Cells(blocks), _ => 0);
    var pixelCount: nat := 0;
    while pixelCount < |img.pixels|
      invariant pixelCount <= |img.pixels|
      invariant feature == Counts(img.pixels[..pixelCount], blocks)
    {
      var pixel := img.pixels[pixelCount];
      var idx := CellIndex(pixel, blocks);
      assert img.pixels[..pixelCount + 1][..pixelCount] == img.pixels[..pixelCount];
      feature := feature[idx := feature[idx] + 1];
      pixelCount := pixelCount + 1;
    }
    assert img.pixels[..pixelCount] == img.pixels;
    if pixelCount == 0 {
      return Failure(ZeroDivision);
    }
    r := Success(Some(Normalize(feature, pixelCount)));
    assert r == ProcessImage(img, blocks);
  }
}
