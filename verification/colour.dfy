/** RGB pixels as the renderer stores them: three unsigned bytes. */
module Colour {

  /** An `unsigned char` / `GLubyte` channel value. */
  newtype byte = x: int | 0 <= x < 256

  datatype Pixel = Pixel(r: byte, g: byte, b: byte)

  /** The colour every freshly allocated buffer is painted with. */
  const Magenta: Pixel := Pixel(255, 0, 255)

  /** True when every pixel of s is col. */
  predicate AllEqual(s: seq<Pixel>, col: Pixel) {
    forall k :: 0 <= k < |s| ==> s[k] == col
  }
}
