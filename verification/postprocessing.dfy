/**
 * Tensor-to-depth-image postprocessing: one pass finds the smallest and the
 * largest raw depth value, a second pass writes 255 * (v - min) / (max - min)
 * into the red, green and blue bytes of each pixel and makes it opaque.
 */
module Postprocessing {
  import opened Raster
  import opened Options

  /** The reals extended with the two infinities the scan starts from. */
  datatype Extended = NegInf | Finite(value: real) | PosInf

  /** `v < e` on the extended reals. */
  predicate Below(v: real, e: Extended) {
    match e
    case NegInf => false
    case Finite(m) => v < m
    case PosInf => true
  }

  /** `v > e` on the extended reals. */
  predicate Above(v: real, e: Extended) {
    match e
    case NegInf => true
    case Finite(m) => v > m
    case PosInf => false
  }

  /** The running minimum and maximum of the scan. */
  datatype Bounds = Bounds(lo: Extended, hi: Extended)

  /** One iteration of the scan: each bound is replaced when v strictly beats it. */
  function ScanStep(b: Bounds, v: real): Bounds {
    Bounds(if Below(v, b.lo) then Finite(v) else b.lo,
           if Above(v, b.hi) then Finite(v) else b.hi)
  }

  /**
   * The scan, started from (+infinity, -infinity). An empty tensor leaves both
   * infinities in place; otherwise both bounds are finite, are values of the
   * tensor, and enclose every value.
   */
  function Scan(s: seq<real>): (b: Bounds)
    ensures |s| == 0 ==> b == Bounds(PosInf, NegInf)
    ensures |s| > 0 ==> b.lo.Finite? && b.hi.Finite?
    ensures |s| > 0 ==> b.lo.value in s && b.hi.value in s
    ensures |s| > 0 ==> forall k :: 0 <= k < |s| ==> b.lo.value <= s[k] <= b.hi.value
    decreases |s|
  {
    if |s| == 0 then Bounds(PosInf, NegInf)
    else
      var init := s[..|s| - 1];
      assert forall k :: 0 <= k < |init| ==> init[k] == s[k];
      ScanStep(Scan(init), s[|s| - 1])
  }

  /** The first loop of `postprocess`, over the raw output buffer. */
  method FindRange(data: seq<real>) returns (lo: Extended, hi: Extended)
    ensures Bounds(lo, hi) == Scan(data)
    ensures |data| == 0 ==> lo == PosInf && hi == NegInf
    ensures |data| > 0 ==> lo.Finite? && hi.Finite? && lo.value in data && hi.value in data
    ensures |data| > 0 ==> forall k :: 0 <= k < |data| ==> lo.value <= data[k] <= hi.value
  {
    lo, hi := PosInf, NegInf;
    var i := 0;
    while i < |data|
      invariant 0 <= i <= |data|
      invariant Bounds(lo, hi) == Scan(data[..i])
    {
      if Below(data[i], lo) { lo := Finite(data[i]); }
      if Above(data[i], hi) { hi := Finite(data[i]); }
      assert data[..i + 1][..i] == data[..i];
      i := i + 1;
    }
    assert data[..i] == data;
  }

  /** `255 * ((v - min) / range)`; `postprocess` divides without checking the range. */
  function Normalize(v: real, lo: real, range: real): real
    requires range != 0.0
  {
    255.0 * ((v - lo) / range)
  }

  /**
   * Storing a finite number into a clamped byte array: clamp to [0, 255] and
   * round to the nearest integer, ties to even.
   */
  function ToUint8Clamp(x: real): (b: int)
    ensures IsByte(b)
    ensures x <= 0.0 ==> b == 0
    ensures x >= 255.0 ==> b == 255
    ensures 0.0 <= x <= 255.0 ==> -0.5 <= b as real - x <= 0.5
  {
    if x <= 0.0 then 0
    else if x >= 255.0 then 255
    else
      var f := x.Floor;
      if f as real + 0.5 < x then f + 1
      else if x < f as real + 0.5 then f
      else if f % 2 == 0 then f
      else f + 1
  }

  /**
   * The byte the red, green and blue channels of a pixel with raw value v
   * receive. When max == min every value equals min, so `postprocess` computes
   * 0 / 0, which is NaN, and a clamped byte array stores NaN as 0.
   */
  function GreyByte(v: real, b: Bounds): (g: int)
    ensures IsByte(g)
  {
    match b
    case Bounds(Finite(lo), Finite(hi)) =>
      if hi - lo == 0.0 then 0 else ToUint8Clamp(Normalize(v, lo, hi - lo))
    // infinite bounds come only from an empty tensor, which writes no pixel
    case _ => 0
  }

  /**
   * Byte j of the output image. Pixels past the end of the tensor are never
   * written and keep the zero a fresh image starts with; writes past the end
   * of the image are dropped by the typed array.
   */
  function PixelByte(s: seq<real>, b: Bounds, j: nat): (x: int)
    ensures IsByte(x)
  {
    var i := j / 4;
    if i < |s| then (if j % 4 == 3 then 255 else GreyByte(s[i], b)) else 0
  }

  /**
   * The postprocessed depth image of the given dimensions. Creating an image
   * with a zero dimension throws; otherwise the first min(|s|, width * height)
   * pixels are grey and opaque.
   */
  function Postprocess(s: seq<real>, height: nat, width: nat): (r: Result<Image, ImageError>)
    ensures r.Ok? <==> width > 0 && height > 0
    ensures r.Ok? ==> r.value.Valid() && r.value.width == width && r.value.height == height
    ensures r.Ok? ==> forall i :: 0 <= i < |s| && i < width * height ==>
      && r.value.data[4 * i] == r.value.data[4 * i + 1] == r.value.data[4 * i + 2]
      && r.value.data[4 * i + 3] == 255
  {
    if width == 0 || height == 0 then Err(IndexSizeError)
    else
      var b := Scan(s);
      var data := seq(width * height * 4, j requires 0 <= j => PixelByte(s, b, j));
      assert forall i :: 0 <= i < |s| && i < width * height ==>
        (4 * i) / 4 == i && (4 * i + 1) / 4 == i && (4 * i + 2) / 4 == i && (4 * i + 3) / 4 == i;
      Ok(Image(width, height, data))
  }

  /** With a positive range, min maps to 0, max to 255, and [min, max] into [0, 255]. */
  lemma NormalizeRange(v: real, lo: real, hi: real)
    requires lo < hi
    ensures Normalize(lo, lo, hi - lo) == 0.0
    ensures Normalize(hi, lo, hi - lo) == 255.0
    ensures lo <= v <= hi ==> 0.0 <= Normalize(v, lo, hi - lo) <= 255.0
  {
    var range := hi - lo;
    assert (hi - lo) / range == 1.0;
    if lo <= v <= hi {
      assert 0.0 <= (v - lo) / range <= 1.0 by {
        assert (v - lo) <= range;
      }
    }
  }

  /** With a positive range the normalisation is strictly increasing. */
  lemma NormalizeMonotone(v1: real, v2: real, lo: real, range: real)
    requires range > 0.0
    ensures v1 < v2 <==> Normalize(v1, lo, range) < Normalize(v2, lo, range)
    ensures v1 <= v2 <==> Normalize(v1, lo, range) <= Normalize(v2, lo, range)
  {
    var a, b := (v1 - lo) / range, (v2 - lo) / range;
    assert a * range == v1 - lo && b * range == v2 - lo;
    if v1 < v2 {
      assert a < b;
    } else {
      assert b <= a;
    }
  }

  /** Storing into a clamped byte array preserves order. */
  lemma ToUint8ClampMonotone(x: real, y: real)
    requires x <= y
    ensures ToUint8Clamp(x) <= ToUint8Clamp(y)
  {
    if 0.0 < x && y < 255.0 {
      var fx, fy := x.Floor, y.Floor;
      assert fx <= fy;
      if fx < fy {
        assert ToUint8Clamp(x) <= fx + 1 <= fy <= ToUint8Clamp(y);
      }
    }
  }

  /** An integral value in [0, 255] is stored exactly. */
  lemma ToUint8ClampExact(n: int)
    requires IsByte(n)
    ensures ToUint8Clamp(n as real) == n
  {
    if 0 < n < 255 {
      assert (n as real).Floor == n;
    }
  }

  /** Red byte of pixel i, where `postprocess` writes the normalised value of s[i]. */
  lemma PostprocessPixel(s: seq<real>, height: nat, width: nat, i: nat)
    requires Postprocess(s, height, width).Ok?
    requires i < |s| && i < width * height
    ensures 4 * i + 3 < |Postprocess(s, height, width).value.data|
    ensures Postprocess(s, height, width).value.data[4 * i] == GreyByte(s[i], Scan(s))
  {
    assert (4 * i) / 4 == i && (4 * i) % 4 == 0;
  }

  /** When the tensor has exactly one value per pixel, every pixel is grey and opaque. */
  lemma PostprocessGreyOpaque(s: seq<real>, height: nat, width: nat)
    requires width > 0 && height > 0
    requires |s| == height * width
    ensures Postprocess(s, height, width).Ok?
    ensures var img := Postprocess(s, height, width).value;
      forall i :: 0 <= i < width * height ==>
        && img.data[4 * i] == img.data[4 * i + 1] == img.data[4 * i + 2]
        && img.data[4 * i + 3] == 255
  {
    assert width * height == height * width;
  }

  /** Pixels the tensor does not reach keep the zero a fresh image starts with, alpha included. */
  lemma PostprocessUnwritten(s: seq<real>, height: nat, width: nat, j: nat)
    requires Postprocess(s, height, width).Ok?
    requires |s| * 4 <= j < width * height * 4
    ensures Postprocess(s, height, width).value.data[j] == 0
  {
    assert j / 4 >= |s|;
  }

  /** With a positive range, the minimum becomes byte 0 and the maximum byte 255. */
  lemma GreyByteExtremes(lo: real, hi: real)
    requires lo < hi
    ensures GreyByte(lo, Bounds(Finite(lo), Finite(hi))) == 0
    ensures GreyByte(hi, Bounds(Finite(lo), Finite(hi))) == 255
  {
    NormalizeRange(lo, lo, hi);
    ToUint8ClampExact(0);
    ToUint8ClampExact(255);
  }

  /** When the range is positive, pixels holding the minimum are black and those holding the maximum white. */
  lemma PostprocessExtremes(s: seq<real>, height: nat, width: nat, i: nat)
    requires Postprocess(s, height, width).Ok?
    requires i < |s| && i < width * height
    requires Scan(s).lo.value < Scan(s).hi.value
    ensures s[i] == Scan(s).lo.value ==> Postprocess(s, height, width).value.data[4 * i] == 0
    ensures s[i] == Scan(s).hi.value ==> Postprocess(s, height, width).value.data[4 * i] == 255
  {
    PostprocessPixel(s, height, width, i);
    GreyByteExtremes(Scan(s).lo.value, Scan(s).hi.value);
  }

  /** Under bounds lo <= hi, a larger raw value never gets a smaller grey byte. */
  lemma GreyByteMonotone(v1: real, v2: real, lo: real, hi: real)
    requires lo <= hi && v1 <= v2
    ensures GreyByte(v1, Bounds(Finite(lo), Finite(hi))) <= GreyByte(v2, Bounds(Finite(lo), Finite(hi)))
  {
    if hi - lo != 0.0 {
      NormalizeMonotone(v1, v2, lo, hi - lo);
      ToUint8ClampMonotone(Normalize(v1, lo, hi - lo), Normalize(v2, lo, hi - lo));
    }
  }

  /** The output is a monotone image of the tensor: a larger raw value never gives a darker pixel. */
  lemma PostprocessMonotone(s: seq<real>, height: nat, width: nat, i: nat, k: nat)
    requires Postprocess(s, height, width).Ok?
    requires i < |s| && i < width * height
    requires k < |s| && k < width * height
    requires s[i] <= s[k]
    ensures Postprocess(s, height, width).value.data[4 * i] <= Postprocess(s, height, width).value.data[4 * k]
  {
    PostprocessPixel(s, height, width, i);
    PostprocessPixel(s, height, width, k);
    var b := Scan(s);
    GreyByteMonotone(s[i], s[k], b.lo.value, b.hi.value);
  }

  /** A flat tensor (max == min) divides 0 by 0 for every pixel, and the image comes out black. */
  lemma PostprocessFlat(s: seq<real>, height: nat, width: nat, i: nat)
    requires Postprocess(s, height, width).Ok?
    requires i < |s| && i < width * height
    requires forall k :: 0 <= k < |s| ==> s[k] == s[0]
    ensures Postprocess(s, height, width).value.data[4 * i] == 0
  {
    PostprocessPixel(s, height, width, i);
    var b := Scan(s);
    assert b.lo.value == s[0] == b.hi.value;
  }
}
