/**
 * Depth-driven displacement of the viewer's plane mesh: each vertex (x, y) of
 * a plane centred on the origin is mapped to texture coordinates (u, v), then
 * to a pixel of the depth image, whose red byte sets the vertex's z.
 */
module DepthViewer {
  import opened Raster
  import opened Options
  import Arith

  /** Depth range, in scene units, that bytes 0..255 are spread over. */
  const DISPLACEMENT_SCALE: real := 50.0

  /** Subdivisions of the plane along each edge. */
  const PLANE_SEGMENTS: nat := 100

  /** The plane is half the colour image's size along each axis. */
  const PLANE_SCALE: real := 0.5

  /** A position of the plane geometry. */
  datatype Vertex = Vertex(x: real, y: real, z: real)

  /** Plane extent along one axis for a colour image of the given pixel size. */
  function PlaneSize(colorSize: nat): real {
    colorSize as real * PLANE_SCALE
  }

  /** Horizontal texture coordinate of plane abscissa x. */
  function U(x: real, planeWidth: real): real
    requires planeWidth != 0.0
  {
    x / planeWidth + 0.5
  }

  /** Vertical raster coordinate of plane ordinate y: plane y grows upwards, raster rows downwards. */
  function V(y: real, planeHeight: real): real
    requires planeHeight != 0.0
  {
    1.0 - (y / planeHeight + 0.5)
  }

  /** Pixel column or row that a coordinate in [0, 1) falls into. */
  function PixelCoord(t: real, size: nat): int {
    (t * size as real).Floor
  }

  /** Offset of the red byte of pixel (px, py) in an RGBA buffer of the given width. */
  function PixelIndex(px: nat, py: nat, width: nat): nat {
    (py * width + px) * 4
  }

  /** The z offset a red byte asks for: mid-grey sits on the undisplaced plane. */
  function Displacement(red: int): real {
    (red as real / 255.0 - 0.5) * DISPLACEMENT_SCALE
  }

  /**
   * The red byte of the depth pixel under plane point (x, y), or None when the
   * pixel falls outside the depth image. A colour image with a zero dimension
   * makes the viewer divide by a zero plane size; the infinite or NaN
   * coordinate that results fails the guard.
   */
  function Sample(x: real, y: real, colorWidth: nat, colorHeight: nat, depth: Image): (r: Option<int>)
    requires depth.Valid()
    ensures r.Some? ==> IsByte(r.value)
    ensures r.Some? ==> colorWidth > 0 && colorHeight > 0 && depth.width > 0 && depth.height > 0
  {
    if colorWidth == 0 || colorHeight == 0 then None
    else
      var px := PixelCoord(U(x, PlaneSize(colorWidth)), depth.width);
      var py := PixelCoord(V(y, PlaneSize(colorHeight)), depth.height);
      if 0 <= px < depth.width && 0 <= py < depth.height then
        Arith.RowMajorBound(py, px, depth.height, depth.width);
        Some(depth.data[PixelIndex(px, py, depth.width)])
      else None
  }

  /** One iteration of the viewer's displacement loop: only z is ever written, and only when the guard holds. */
  function DisplaceVertex(p: Vertex, colorWidth: nat, colorHeight: nat, depth: Image): (q: Vertex)
    requires depth.Valid()
    ensures q.x == p.x && q.y == p.y
    ensures q == p || -DISPLACEMENT_SCALE / 2.0 <= q.z <= DISPLACEMENT_SCALE / 2.0
    ensures Sample(p.x, p.y, colorWidth, colorHeight, depth).None? ==> q == p
    ensures Sample(p.x, p.y, colorWidth, colorHeight, depth).Some? ==>
      q.z == Displacement(Sample(p.x, p.y, colorWidth, colorHeight, depth).value)
  {
    match Sample(p.x, p.y, colorWidth, colorHeight, depth)
    case Some(red) =>
      DisplacementRange(red, red);
      p.(z := Displacement(red))
    case None => p
  }

  /** The whole loop: every vertex displaced on its own. */
  function DisplaceAll(vs: seq<Vertex>, colorWidth: nat, colorHeight: nat, depth: Image): (ws: seq<Vertex>)
    requires depth.Valid()
    ensures |ws| == |vs|
    ensures forall i :: 0 <= i < |vs| ==> ws[i].x == vs[i].x && ws[i].y == vs[i].y
  {
    seq(|vs|, i requires 0 <= i < |vs| => DisplaceVertex(vs[i], colorWidth, colorHeight, depth))
  }

  /** A byte's displacement lies in [-25, 25], black and white give the ends, and it is increasing. */
  lemma DisplacementRange(r1: int, r2: int)
    requires IsByte(r1) && IsByte(r2)
    ensures -DISPLACEMENT_SCALE / 2.0 <= Displacement(r1) <= DISPLACEMENT_SCALE / 2.0
    ensures Displacement(0) == -25.0 && Displacement(255) == 25.0
    ensures r1 <= r2 <==> Displacement(r1) <= Displacement(r2)
  {
  }

  /** u maps the plane's width [-planeWidth/2, planeWidth/2] onto [0, 1], left edge to 0, right edge to 1. */
  lemma UCoversWidth(x: real, planeWidth: real)
    requires planeWidth > 0.0
    ensures U(-planeWidth / 2.0, planeWidth) == 0.0 && U(planeWidth / 2.0, planeWidth) == 1.0
    ensures 0.0 <= U(x, planeWidth) <= 1.0 <==> -planeWidth / 2.0 <= x <= planeWidth / 2.0
    ensures 0.0 <= U(x, planeWidth) < 1.0 <==> -planeWidth / 2.0 <= x < planeWidth / 2.0
  {
    Arith.QuotientOrder(x, planeWidth, -0.5);
    Arith.QuotientOrder(x, planeWidth, 0.5);
    Arith.QuotientOrder(-planeWidth / 2.0, planeWidth, -0.5);
    Arith.QuotientOrder(planeWidth / 2.0, planeWidth, 0.5);
  }

  /** v flips the plane's height: the top edge is raster row 0, the bottom edge 1, and v falls as y rises. */
  lemma VFlipsHeight(y: real, y': real, planeHeight: real)
    requires planeHeight > 0.0
    ensures V(planeHeight / 2.0, planeHeight) == 0.0 && V(-planeHeight / 2.0, planeHeight) == 1.0
    ensures 0.0 <= V(y, planeHeight) <= 1.0 <==> -planeHeight / 2.0 <= y <= planeHeight / 2.0
    ensures 0.0 <= V(y, planeHeight) < 1.0 <==> -planeHeight / 2.0 < y <= planeHeight / 2.0
    ensures y < y' <==> V(y', planeHeight) < V(y, planeHeight)
  {
    Arith.QuotientOrder(y, planeHeight, -0.5);
    Arith.QuotientOrder(y, planeHeight, 0.5);
    Arith.QuotientOrder(-planeHeight / 2.0, planeHeight, -0.5);
    Arith.QuotientOrder(planeHeight / 2.0, planeHeight, 0.5);
    Arith.QuotientOrder(y', planeHeight, y / planeHeight);
    assert y / planeHeight * planeHeight == y;
  }

  /** On a positive size, the pixel coordinate of t is in range exactly when t is in [0, 1). */
  lemma PixelCoordInRange(t: real, size: nat)
    requires size > 0
    ensures 0 <= PixelCoord(t, size) < size <==> 0.0 <= t < 1.0
  {
    var n := size as real;
    var z := t * n;
    Arith.ScaleOrder(0.0, t, n);
    Arith.ScaleOrder(t, 1.0, n);
    assert z.Floor >= 0 <==> z >= 0.0;
    assert z.Floor < size <==> z < n;
  }

  /** Whenever the guard holds, the red byte read lies in [0, width * height * 4 - 4]. */
  lemma PixelIndexInBounds(px: int, py: int, width: nat, height: nat)
    requires 0 <= px < width && 0 <= py < height
    ensures 0 <= PixelIndex(px, py, width) <= width * height * 4 - 4
  {
    Arith.RowMajorBound(py, px, height, width);
  }

  /**
   * With every size positive, a vertex is sampled exactly when it lies in the
   * half-open plane [-planeWidth/2, planeWidth/2) x (-planeHeight/2, planeHeight/2]:
   * the right column and the bottom row map one pixel past the image.
   */
  lemma SampledIff(x: real, y: real, colorWidth: nat, colorHeight: nat, depth: Image)
    requires depth.Valid()
    requires colorWidth > 0 && colorHeight > 0 && depth.width > 0 && depth.height > 0
    ensures Sample(x, y, colorWidth, colorHeight, depth).Some? <==>
      && -PlaneSize(colorWidth) / 2.0 <= x < PlaneSize(colorWidth) / 2.0
      && -PlaneSize(colorHeight) / 2.0 < y <= PlaneSize(colorHeight) / 2.0
  {
    var pw, ph := PlaneSize(colorWidth), PlaneSize(colorHeight);
    UCoversWidth(x, pw);
    VFlipsHeight(y, y, ph);
    PixelCoordInRange(U(x, pw), depth.width);
    PixelCoordInRange(V(y, ph), depth.height);
  }

  /** Vertices on the right edge (u = 1) or the bottom edge (v = 1) are left where they are. */
  lemma EdgeVerticesUntouched(p: Vertex, colorWidth: nat, colorHeight: nat, depth: Image)
    requires depth.Valid()
    requires colorWidth > 0 && colorHeight > 0
    requires p.x == PlaneSize(colorWidth) / 2.0 || p.y == -PlaneSize(colorHeight) / 2.0
    ensures DisplaceVertex(p, colorWidth, colorHeight, depth) == p
  {
    if depth.width > 0 && depth.height > 0 {
      SampledIff(p.x, p.y, colorWidth, colorHeight, depth);
    }
  }

  /** Only red bytes are read: depth images that agree on red give the same vertex. */
  lemma OnlyRedRead(p: Vertex, colorWidth: nat, colorHeight: nat, a: Image, b: Image)
    requires a.Valid() && b.Valid()
    requires a.width == b.width && a.height == b.height
    requires forall j :: 0 <= j < |a.data| && j % 4 == 0 ==> a.data[j] == b.data[j]
    ensures DisplaceVertex(p, colorWidth, colorHeight, a) == DisplaceVertex(p, colorWidth, colorHeight, b)
  {
    if colorWidth > 0 && colorHeight > 0 {
      var px := PixelCoord(U(p.x, PlaneSize(colorWidth)), a.width);
      var py := PixelCoord(V(p.y, PlaneSize(colorHeight)), a.height);
      if 0 <= px < a.width && 0 <= py < a.height {
        PixelIndexInBounds(px, py, a.width, a.height);
        Arith.DivModOf(PixelIndex(px, py, a.width), py * a.width + px, 0, 4);
      }
    }
  }

  /** Displacing twice is displacing once: z is derived from x and y, which are never written. */
  lemma DisplaceIdempotent(p: Vertex, colorWidth: nat, colorHeight: nat, depth: Image)
    requires depth.Valid()
    ensures var q := DisplaceVertex(p, colorWidth, colorHeight, depth);
      DisplaceVertex(q, colorWidth, colorHeight, depth) == q
  {
  }

  /** Loop order does not matter: displacing a concatenation displaces each part on its own. */
  lemma DisplaceAllAppend(vs: seq<Vertex>, ws: seq<Vertex>, colorWidth: nat, colorHeight: nat, depth: Image)
    requires depth.Valid()
    ensures DisplaceAll(vs + ws, colorWidth, colorHeight, depth)
         == DisplaceAll(vs, colorWidth, colorHeight, depth) + DisplaceAll(ws, colorWidth, colorHeight, depth)
  {
    var l := DisplaceAll(vs + ws, colorWidth, colorHeight, depth);
    var r := DisplaceAll(vs, colorWidth, colorHeight, depth) + DisplaceAll(ws, colorWidth, colorHeight, depth);
    forall i | 0 <= i < |l|
      ensures l[i] == r[i]
    {
      if i < |vs| {
        assert (vs + ws)[i] == vs[i];
      } else {
        assert (vs + ws)[i] == ws[i - |vs|];
      }
    }
  }

  /** The viewer's displacement loop over the position buffer, calling setZ where the guard holds. */
  method DisplacePositions(positions: seq<Vertex>, colorWidth: nat, colorHeight: nat, depth: Image)
    returns (out: seq<Vertex>)
    requires depth.Valid()
    ensures out == DisplaceAll(positions, colorWidth, colorHeight, depth)
    ensures forall i :: 0 <= i < |out| ==> out[i].x == positions[i].x && out[i].y == positions[i].y
  {
    out := positions;
    var i := 0;
    while i < |positions|
      invariant 0 <= i <= |positions|
      invariant |out| == |positions|
      invariant forall k :: 0 <= k < i ==> out[k] == DisplaceVertex(positions[k], colorWidth, colorHeight, depth)
      invariant forall k :: i <= k < |out| ==> out[k] == positions[k]
    {
      var sample := Sample(out[i].x, out[i].y, colorWidth, colorHeight, depth);
      if sample.Some? {
        out := out[i := out[i].(z := Displacement(sample.value))];
      }
      i := i + 1;
    }
  }
}
