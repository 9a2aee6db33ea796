/**
 * Image-to-tensor preprocessing: an interleaved RGBA raster of W x H pixels is
 * repacked into a channel-major (N = 1, C = 3, H, W) float tensor, each red,
 * green and blue byte divided by 255 and the alpha byte dropped.
 */
module Preprocessing {
  import opened Raster
  import opened Options
  import Arith

  /** Edge length of the square canvas the image is drawn into before inference. */
  const MODEL_INPUT_SIZE: nat := 1036

  /** Channels the tensor keeps: red, green, blue. */
  const CHANNELS: nat := 3

  /** Offset of the red byte of pixel (h, w) in an interleaved RGBA buffer of row width W. */
  function PixelOffset(h: nat, w: nat, W: nat): nat {
    (h * W + w) * 4
  }

  /** Slot that channel c of pixel (h, w) occupies in the channel-major tensor. */
  function WriteIndex(c: nat, h: nat, w: nat, H: nat, W: nat): nat {
    c * (H * W) + h * W + w
  }

  /** Byte j of the raster scaled from [0, 255] to [0, 1]. */
  function Scaled(img: Image, j: nat): (v: real)
    requires img.Valid() && j < |img.data|
    ensures 0.0 <= v <= 1.0
  {
    img.data[j] as real / 255.0
  }

  /** The plane of channel c, pixels in row-major order (p = h * W + w). */
  function Plane(img: Image, c: nat): (plane: seq<real>)
    requires img.Valid() && c < CHANNELS
    ensures |plane| == img.height * img.width
    ensures forall p :: 0 <= p < |plane| ==> plane[p] == Scaled(img, p * 4 + c)
  {
    seq(img.height * img.width, p requires 0 <= p < img.height * img.width => Scaled(img, p * 4 + c))
  }

  /** The input tensor: the red plane, then the green plane, then the blue plane. */
  function Preprocess(img: Image): (t: seq<real>)
    requires img.Valid()
    ensures |t| == CHANNELS * img.height * img.width
    ensures forall k :: 0 <= k < |t| ==> 0.0 <= t[k] <= 1.0
  {
    Plane(img, 0) + Plane(img, 1) + Plane(img, 2)
  }

  /**
   * `preprocess` on a canvas region of the given size: reading the pixels of
   * a region with a zero width or height throws, any other region gives the
   * tensor.
   */
  function PreprocessCanvas(img: Image): (r: Result<seq<real>, ImageError>)
    requires img.Valid()
    ensures r.Err? <==> img.width == 0 || img.height == 0
    ensures r.Ok? ==> |r.value| == CHANNELS * img.height * img.width > 0
    ensures r.Ok? ==> forall k :: 0 <= k < |r.value| ==> 0.0 <= r.value[k] <= 1.0
    ensures r.Ok? ==> r.value == Preprocess(img)
  {
    if img.width == 0 || img.height == 0 then Err(IndexSizeError)
    else
      Arith.MulMonotone(1, img.height, img.width);
      Ok(Preprocess(img))
  }

  /** Slot c * (H * W) + p of the tensor holds byte 4p + c of the raster over 255. */
  lemma TensorAt(img: Image, c: nat, p: nat)
    requires img.Valid()
    requires c < CHANNELS && p < img.height * img.width
    ensures c * (img.height * img.width) + p < |Preprocess(img)|
    ensures p * 4 + c < |img.data|
    ensures Preprocess(img)[c * (img.height * img.width) + p] == img.data[p * 4 + c] as real / 255.0
  {
    var n := img.height * img.width;
    assert Plane(img, c)[p] == Scaled(img, p * 4 + c);
    if c == 0 {
      assert c * n + p == p;
    } else if c == 1 {
      assert c * n + p == n + p;
    } else {
      assert c * n + p == n + n + p;
    }
  }

  /** Channel-major layout: channel c of pixel (h, w) is its byte over 255, at WriteIndex(c, h, w). */
  lemma PreprocessLayout(img: Image, c: nat, h: nat, w: nat)
    requires img.Valid()
    requires c < CHANNELS && h < img.height && w < img.width
    ensures WriteIndex(c, h, w, img.height, img.width) < |Preprocess(img)|
    ensures PixelOffset(h, w, img.width) + c < |img.data|
    ensures Preprocess(img)[WriteIndex(c, h, w, img.height, img.width)]
         == img.data[PixelOffset(h, w, img.width) + c] as real / 255.0
  {
    var p := h * img.width + w;
    Arith.RowMajorBound(h, w, img.height, img.width);
    TensorAt(img, c, p);
  }

  /**
   * Every byte the loop reads lies inside the buffer: the highest read is the
   * blue byte of the last pixel, two below the end. The alpha byte of a pixel
   * sits one above its blue byte and is never read (see AlphaIgnored).
   */
  lemma ReadsInBounds(img: Image, c: nat, h: nat, w: nat)
    requires img.Valid()
    requires c < CHANNELS && h < img.height && w < img.width
    ensures 0 <= PixelOffset(h, w, img.width) + c <= |img.data| - 2
    ensures (PixelOffset(h, w, img.width) + c) % 4 != 3
  {
    Arith.RowMajorBound(h, w, img.height, img.width);
  }

  /** Plane c < 3 reads no alpha byte: rasters that agree off the alpha bytes give the same plane. */
  lemma PlaneAlphaFree(a: Image, b: Image, c: nat)
    requires a.Valid() && b.Valid()
    requires a.width == b.width && a.height == b.height
    requires forall j :: 0 <= j < |a.data| && j % 4 != 3 ==> a.data[j] == b.data[j]
    requires c < CHANNELS
    ensures Plane(a, c) == Plane(b, c)
  {
    var pa, pb := Plane(a, c), Plane(b, c);
    forall p | 0 <= p < |pa|
      ensures pa[p] == pb[p]
    {
      Arith.DivModOf(p * 4 + c, p, c, 4);
    }
  }

  /** The tensor does not depend on alpha: rasters that differ only in alpha bytes give the same tensor. */
  lemma AlphaIgnored(a: Image, b: Image)
    requires a.Valid() && b.Valid()
    requires a.width == b.width && a.height == b.height
    requires forall j :: 0 <= j < |a.data| && j % 4 != 3 ==> a.data[j] == b.data[j]
    ensures Preprocess(a) == Preprocess(b)
  {
    PlaneAlphaFree(a, b, 0);
    PlaneAlphaFree(a, b, 1);
    PlaneAlphaFree(a, b, 2);
  }

  /** The write map is injective: distinct (channel, row, column) triples get distinct slots. */
  lemma WriteIndexInjective(c1: nat, h1: nat, w1: nat, c2: nat, h2: nat, w2: nat, H: nat, W: nat)
    requires c1 < CHANNELS && h1 < H && w1 < W
    requires c2 < CHANNELS && h2 < H && w2 < W
    requires WriteIndex(c1, h1, w1, H, W) == WriteIndex(c2, h2, w2, H, W)
    ensures c1 == c2 && h1 == h2 && w1 == w2
  {
    Arith.RowMajorBound(h1, w1, H, W);
    Arith.RowMajorBound(h2, w2, H, W);
    Arith.DecompositionUnique(c1, h1 * W + w1, c2, h2 * W + w2, H * W);
    Arith.DecompositionUnique(h1, w1, h2, w2, W);
  }

  /** The write map covers the tensor: every slot below 3 * H * W is written by some triple. */
  lemma WriteIndexCovers(k: nat, H: nat, W: nat)
    requires k < CHANNELS * H * W
    ensures exists c: nat, h: nat, w: nat :: c < CHANNELS && h < H && w < W && WriteIndex(c, h, w, H, W) == k
  {
    var n := H * W;
    assert k < CHANNELS * n;
    Arith.Split(k, CHANNELS, n);
    var c, p := k / n, k % n;
    Arith.Split(p, H, W);
    var h, w := p / W, p % W;
    assert WriteIndex(c, h, w, H, W) == c * n + (h * W + w);
  }

  /** The tensor handed to the model has shape [1, 3, 1036, 1036]. */
  lemma ModelInputShape(img: Image)
    requires img.Valid()
    requires img.width == MODEL_INPUT_SIZE && img.height == MODEL_INPUT_SIZE
    ensures |Preprocess(img)| == 1 * CHANNELS * MODEL_INPUT_SIZE * MODEL_INPUT_SIZE == 3219888
  {
  }

  /** Pixel p of all three planes of t (each plane n slots long) holds its scaled bytes. */
  ghost predicate PixelFilled(t: seq<real>, img: Image, n: nat, p: nat)
    requires img.Valid() && n == img.height * img.width && |t| == CHANNELS * n && p < n
  {
    t[p] == Scaled(img, p * 4) && t[n + p] == Scaled(img, p * 4 + 1) && t[2 * n + p] == Scaled(img, p * 4 + 2)
  }

  /** The first m pixels of all three planes of t hold their scaled bytes. */
  ghost predicate Filled(t: seq<real>, img: Image, m: nat)
    requires img.Valid()
  {
    var n := img.height * img.width;
    && |t| == CHANNELS * n
    && m <= n
    && forall p :: 0 <= p < m ==> PixelFilled(t, img, n, p)
  }

  /** A buffer with every pixel of every plane filled is the tensor. */
  lemma FilledIsPreprocess(t: seq<real>, img: Image)
    requires img.Valid()
    requires Filled(t, img, img.height * img.width)
    ensures t == Preprocess(img)
  {
    var n := img.height * img.width;
    var want := Preprocess(img);
    forall k | 0 <= k < |t|
      ensures t[k] == want[k]
    {
      if k < n {
        assert PixelFilled(t, img, n, k);
        assert want[k] == Plane(img, 0)[k];
      } else if k < 2 * n {
        assert PixelFilled(t, img, n, k - n);
        assert want[k] == Plane(img, 1)[k - n];
      } else {
        assert PixelFilled(t, img, n, k - 2 * n);
        assert want[k] == Plane(img, 2)[k - 2 * n];
      }
    }
  }

  /** Writing the three samples of pixel q extends a filled prefix by one pixel. */
  lemma FillStep(t: seq<real>, img: Image, q: nat)
    requires img.Valid() && Filled(t, img, q) && q < img.height * img.width
    ensures var n := img.height * img.width;
      Filled(t[q := Scaled(img, q * 4)][n + q := Scaled(img, q * 4 + 1)][2 * n + q := Scaled(img, q * 4 + 2)], img, q + 1)
  {
    var n := img.height * img.width;
    var t' := t[q := Scaled(img, q * 4)][n + q := Scaled(img, q * 4 + 1)][2 * n + q := Scaled(img, q * 4 + 2)];
    forall p | 0 <= p < q + 1
      ensures PixelFilled(t', img, n, p)
    {
      if p < q {
        assert PixelFilled(t, img, n, p);
      }
    }
  }

  /** The inner loop of `preprocess`: fills the three planes for every pixel of row h. */
  method FillRow(out: array<real>, img: Image, h: nat)
    requires img.Valid() && h < img.height
    requires Filled(out[..], img, h * img.width)
    modifies out
    ensures Filled(out[..], img, (h + 1) * img.width)
  {
    var H, W := img.height, img.width;
    var n := H * W;
    var w := 0;
    var q := h * W;
    while w < W
      invariant 0 <= w <= W
      invariant q == h * W + w
      invariant Filled(out[..], img, q)
    {
      Arith.RowMajorBound(h, w, H, W);
      var i := q * 4;
      var r := img.data[i] as real / 255.0;
      var g := img.data[i + 1] as real / 255.0;
      var b := img.data[i + 2] as real / 255.0;
      assert r == Scaled(img, q * 4) && g == Scaled(img, q * 4 + 1) && b == Scaled(img, q * 4 + 2);
      ghost var before := out[..];
      FillStep(before, img, q);
      out[q] := r;
      out[n + q] := g;
      out[2 * n + q] := b;
      assert out[..] == before[q := r][n + q := g][2 * n + q := b];
      w, q := w + 1, q + 1;
    }
    assert q == (h + 1) * W;
  }

  /** The nested loop of `preprocess`, filling a fresh float buffer row by row. */
  method PreprocessFill(img: Image) returns (t: seq<real>)
    requires img.Valid()
    ensures |t| == CHANNELS * img.height * img.width
    ensures t == Preprocess(img)
  {
    var out := new real[CHANNELS * (img.height * img.width)];
    var h := 0;
    while h < img.height
      invariant 0 <= h <= img.height
      invariant Filled(out[..], img, h * img.width)
    {
      FillRow(out, img, h);
      h := h + 1;
    }
    t := out[..];
    FilledIsPreprocess(t, img);
  }
}
