# DepthViewer core, modelled in Dafny

DepthViewer turns a photograph into a pseudo-3D view. A depth model
estimates a per-pixel depth map. A subdivided plane is then displaced along z
by that map, so rotating the camera gives a parallax effect. This project
models the three pure computations around inference and rendering, and proves
properties about them:

- **Tensor preprocessing** (`Preprocessing`). An interleaved RGBA canvas
  buffer of W x H pixels becomes the channel-major `[1, 3, H, W]` float tensor
  the model takes. Each red, green and blue byte is divided by 255 and the
  alpha byte is dropped. `Preprocess` is the reference definition.
  `PreprocessFill` is the nested loop of `preprocess` filling a buffer in place, one row at a time, and
  it is proved equal to `Preprocess`.
- **Tensor postprocessing** (`Postprocessing`). One scan finds the minimum and
  maximum of the raw depth output, starting from +infinity and -infinity. A
  second pass writes `255 * (v - min) / (max - min)` into red, green and blue
  and sets alpha to 255. Storing into the clamped byte array of an image is
  modelled exactly: clamp to [0, 255], then round to nearest with ties to even.
- **Depth-driven vertex displacement** (`DepthViewer`). Each plane vertex
  (x, y) is mapped to `u = x / planeWidth + 0.5` and the flipped
  `v = 1 - (y / planeHeight + 0.5)`. These become the pixel
  `(floor(u * w), floor(v * h))` of the depth image. If that pixel is inside
  the image, its red byte sets `z = (byte / 255 - 0.5) * 50`. Otherwise the
  vertex is left alone.

The arithmetic is over `real`, bytes are `int` in [0, 255], and rasters are the
`Raster.Image` datatype (`width`, `height`, row-major RGBA `data`).
`Arith` holds the row-major index facts the proofs share.

Three behaviours of the code are easy to get wrong, and the model follows
the code in each:

- A flat output (`max == min`) might be expected to give a uniform mid-grey
  image. The code computes `0 / 0`, which is NaN. A clamped byte array stores
  NaN as 0, so the image comes out black with opaque alpha (`PostprocessFlat`).
- `preprocess` itself has no size check. Its `getImageData` call throws for a
  zero width or height, and `PreprocessCanvas` returns that error.
- Vertices outside the raster are not set to `z = 0`. The code leaves `z` as
  it was. The flat plane starts at 0, so the two coincide on a fresh
  geometry. The model keeps whatever `z` the input vertex has.

## Model

| member | source | states |
|---|---|---|
| Preprocessing.Scaled | src/lib/depth-generator.ts:42-44 | a byte divided by 255 lies in [0, 1] |
| Preprocessing.Preprocess | src/lib/depth-generator.ts:33-37 | the reference tensor, built as the red, green and blue planes (`Plane`) one after another, has exactly 3 * H * W entries (N = 1, C = 3), each in [0, 1] |
| Preprocessing.PreprocessCanvas | src/lib/depth-generator.ts:30-37 | fails exactly when a dimension is 0 (`getImageData` throws); otherwise it gives the non-empty tensor of 3 * H * W values in [0, 1] |
| Preprocessing.TensorAt | src/lib/depth-generator.ts:46-48 | slot c * H * W + p holds pixel p of plane c, so the planes are laid out red, green, blue |
| Preprocessing.PreprocessLayout | src/lib/depth-generator.ts:39-48 | channel-major layout: `out[c*H*W + h*W + w] == data[(h*W + w)*4 + c] / 255` for every c < 3, h < H, w < W |
| Preprocessing.ReadsInBounds | src/lib/depth-generator.ts:39-44 | every read `data[i + c]` with `i = (h*W + w)*4` and c < 3 is in [0, 4HW - 2], and it is never an alpha byte |
| Preprocessing.AlphaIgnored | src/lib/depth-generator.ts:41-44 | rasters that differ only in their alpha bytes give the same tensor |
| Preprocessing.PlaneAlphaFree | src/lib/depth-generator.ts:41-44 | each of the red, green and blue planes is the same for rasters that differ only in their alpha bytes |
| Preprocessing.WriteIndexInjective | src/lib/depth-generator.ts:46-48 | the write map (c, h, w) to c*H*W + h*W + w is injective, so no slot is written twice |
| Preprocessing.WriteIndexCovers | src/lib/depth-generator.ts:37-49 | every slot of the 3*H*W buffer is the image of some (c, h, w), so every slot is written |
| Preprocessing.ModelInputShape | src/lib/depth-generator.ts:100-102 | a 1036 x 1036 canvas gives the 3,219,888 floats of a [1, 3, 1036, 1036] tensor |
| Preprocessing.FilledIsPreprocess | src/lib/depth-generator.ts:39-51 | a buffer whose three planes are filled for all H * W pixels is the tensor |
| Preprocessing.FillStep | src/lib/depth-generator.ts:46-48 | writing the three samples of pixel q extends the filled prefix to q + 1 pixels |
| Preprocessing.FillRow | src/lib/depth-generator.ts:40-49 | the inner loop over the columns of row h extends the filled prefix from h * W to (h + 1) * W pixels |
| Preprocessing.PreprocessFill | src/lib/depth-generator.ts:30-52 | the nested fill loop returns exactly `Preprocess` of the raster |
| Postprocessing.Scan | src/lib/depth-generator.ts:58-63 | an empty output leaves (+inf, -inf); otherwise both bounds are finite, both occur in the output, and they enclose every value |
| Postprocessing.FindRange | src/lib/depth-generator.ts:58-63 | the scan loop returns the same bounds: attained, enclosing, and infinite only for an empty output |
| Postprocessing.ToUint8Clamp | src/lib/depth-generator.ts:72-74 | a stored byte is in [0, 255], saturates at both ends, and is within 1/2 of any in-range value |
| Postprocessing.ToUint8ClampMonotone | src/lib/depth-generator.ts:72-74 | storing into the clamped byte array preserves order |
| Postprocessing.ToUint8ClampExact | src/lib/depth-generator.ts:72-75 | an integer in [0, 255], 255 included, is stored unchanged |
| Postprocessing.NormalizeRange | src/lib/depth-generator.ts:64-70 | with range > 0, min maps to 0, max maps to 255, and [min, max] maps into [0, 255] |
| Postprocessing.NormalizeMonotone | src/lib/depth-generator.ts:70 | with range > 0 the normalisation is strictly increasing, in both directions of the iff |
| Postprocessing.GreyByte | src/lib/depth-generator.ts:64-74 | the grey value written to a pixel is a byte |
| Postprocessing.GreyByteExtremes | src/lib/depth-generator.ts:64-72 | with range > 0 the minimum becomes byte 0 and the maximum byte 255 |
| Postprocessing.PixelByte | src/lib/depth-generator.ts:69-76 | every byte of the output image is in [0, 255] |
| Postprocessing.Postprocess | src/lib/depth-generator.ts:54-78 | fails exactly when a dimension is 0 (ImageData throws); otherwise it gives a valid width x height image in which every pixel the tensor reaches has R == G == B and alpha 255 |
| Postprocessing.GreyByteMonotone | src/lib/depth-generator.ts:70-74 | under bounds lo <= hi, a larger raw value never gets a smaller grey byte |
| Postprocessing.PostprocessPixel | src/lib/depth-generator.ts:69-72 | the red byte of pixel i is the grey byte of output value i under the scanned bounds |
| Postprocessing.PostprocessGreyOpaque | src/lib/depth-generator.ts:66-76 | when the output has height * width values, every pixel of the image is grey and opaque |
| Postprocessing.PostprocessUnwritten | src/lib/depth-generator.ts:66-76 | pixels beyond the end of the output are never written and stay 0, alpha included |
| Postprocessing.PostprocessExtremes | src/lib/depth-generator.ts:58-72 | with max > min, pixels holding the minimum are black (0) and pixels holding the maximum are white (255) |
| Postprocessing.PostprocessMonotone | src/lib/depth-generator.ts:69-74 | a larger raw value never gives a darker pixel |
| Postprocessing.PostprocessFlat | src/lib/depth-generator.ts:64-72 | a flat output divides 0 by 0 for every pixel, and its red bytes come out 0 |
| DepthViewer.Sample | src/components/depth-viewer-3d.tsx:109-117 | a sample exists only for positive colour and depth sizes, and it is a byte |
| DepthViewer.DisplaceVertex | src/components/depth-viewer-3d.tsx:108-121 | x and y are unchanged; z is unchanged when the guard fails and is the red byte's displacement, within [-25, 25], when it holds |
| DepthViewer.DisplaceAll | src/components/depth-viewer-3d.tsx:108-121 | the vertex count is preserved and no vertex's x or y changes |
| DepthViewer.DisplacePositions | src/components/depth-viewer-3d.tsx:108-121 | the in-order loop with `setZ` computes `DisplaceAll`, each vertex from its own (x, y) |
| DepthViewer.DisplacementRange | src/components/depth-viewer-3d.tsx:117-118 | with scale 50 a byte's displacement is in [-25, 25]; 0 gives -25 and 255 gives 25; and it is increasing in the byte, as an iff |
| DepthViewer.UCoversWidth | src/components/depth-viewer-3d.tsx:103-109 | u sends the left edge to 0 and the right edge to 1; u is in [0, 1] iff x is in [-planeWidth/2, planeWidth/2]; u is in [0, 1) iff x is in [-planeWidth/2, planeWidth/2) |
| DepthViewer.VFlipsHeight | src/components/depth-viewer-3d.tsx:104-110 | v sends the top edge to 0 (raster row 0) and the bottom edge to 1; v is in [0, 1] iff y is on the plane; v is strictly decreasing in y |
| DepthViewer.PixelCoordInRange | src/components/depth-viewer-3d.tsx:112-115 | for a positive size, `0 <= floor(t * size) < size` iff t is in [0, 1) |
| DepthViewer.PixelIndexInBounds | src/components/depth-viewer-3d.tsx:115-116 | whenever the guard holds, `(py*w + px)*4` is in [0, w*h*4 - 4], so the red read is in bounds |
| DepthViewer.SampledIff | src/components/depth-viewer-3d.tsx:109-115 | with positive sizes, a vertex is sampled iff x is in [-planeWidth/2, planeWidth/2) and y is in (-planeHeight/2, planeHeight/2] |
| DepthViewer.EdgeVerticesUntouched | src/components/depth-viewer-3d.tsx:112-115 | vertices on the right edge (u = 1) or the bottom edge (v = 1) fail the guard and keep their z |
| DepthViewer.OnlyRedRead | src/components/depth-viewer-3d.tsx:116-117 | depth images that agree on their red bytes displace every vertex identically; G, B and A are never read |
| DepthViewer.DisplaceIdempotent | src/components/depth-viewer-3d.tsx:108-121 | displacing an already displaced vertex changes nothing |
| DepthViewer.DisplaceAllAppend | src/components/depth-viewer-3d.tsx:108-121 | displacing a concatenation displaces each part separately, so the loop order does not matter |

## Left out

- `getSession` is left out. It covers lazy ONNX Runtime session creation, the browser and runtime checks, and the network model fetch. These are foreign calls and I/O.
- `generateDepthMap` is left out. It covers image loading, canvas `drawImage` resizing (the filter is not visible), inference, and PNG encoding with `toBlob`. Only its tensor shape is stated, in `ModelInputShape`.
- Float32 storage of the tensor values is left out. The tensor is over reals, so `Preprocess` does not model float rounding of `byte / 255`.
- IEEE infinities and NaN in the model's output are left out. The output tensor is a sequence of finite reals. The only NaN the code can produce from finite values (0 / 0 when max == min) is modelled.
- Floating-point vertex coordinates are left out. x, y, `u`, `v` and the products `u * width` are exact reals, so rounding at `floor` is not modelled.
- `postprocess` reads height and width from the output's `dims` triple `[1, H', W']`. The model takes the two dimensions as separate parameters.
- `ImageData`'s size limit (a `RangeError` for very large images) is left out. Only the zero-dimension `IndexSizeError` is modelled.
- `THREE.PlaneGeometry` vertex generation is left out because the library is not visible. The vertex grid is an input. `PLANE_SEGMENTS` appears only as a constant.
- `computeVertexNormals` is left out: library internals, lighting only.
- Scene, camera, `OrbitControls` limits (`MAX_VIEW_ANGLE`), renderer, animation loop, resize handling, texture loading, blurred background and disposal are left out. These are rendering plumbing.
- `src/components/image-uploader.tsx` (React state, file pickers, toasts), `src/app/page.tsx` (layout) and `src/components/icons/depth-viewer-logo.tsx` (static SVG) are left out. They are user interface, not computation.
