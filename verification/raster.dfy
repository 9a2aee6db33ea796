/** The RGBA pixel buffers a 2D canvas hands out (`ImageData`). */
module Raster {

  /** A value an 8-bit unsigned channel can hold. */
  predicate IsByte(b: int) {
    0 <= b <= 255
  }

  /** Why a canvas refused to create or read an image: a width or height of 0. */
  datatype ImageError = IndexSizeError

  /** An RGBA raster: row-major, four bytes per pixel (red, green, blue, alpha). */
  datatype Image = Image(width: nat, height: nat, data: seq<int>) {

    /** The buffer has exactly four bytes per pixel and every entry is a byte. */
    predicate Valid() {
      && |data| == width * height * 4
      && forall j :: 0 <= j < |data| ==> IsByte(data[j])
    }
  }
}
