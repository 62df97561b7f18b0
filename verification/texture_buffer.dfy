/** The pixel canvas of src/texture_buffer.h: a width-by-height buffer of
    RGB pixels, stored row-major, with a flag telling the presentation layer
    that it must be uploaded again. */
module TextureBuffer {
  import opened Colour
  import opened RowMajor

  /** The buffer s after a bounds-checked write of p at (x, y): the one
      pixel is replaced when (x, y) lies on the canvas, and nothing changes
      otherwise. */
  function Plot(s: seq<Pixel>, w: int, h: int, x: int, y: int, p: Pixel): seq<Pixel>
    requires 0 <= w && 0 <= h && |s| == w * h
  {
    if InGrid(w, h, x, y) then
      IndexInBounds(w, h, x, y);
      s[Index(w, x, y) := p]
    else
      s
  }

  /** The pixel at column x of row y of a w-by-h buffer. */
  function PixelAt(s: seq<Pixel>, w: int, h: int, x: int, y: int): Pixel
    requires |s| == w * h && InGrid(w, h, x, y)
  {
    IndexInBounds(w, h, x, y);
    s[Index(w, x, y)]
  }

  /** Reading any pixel back after a write: the written coordinate holds p,
      every other coordinate holds what it held before; a write off the
      canvas therefore changes no pixel at all. */
  lemma PlotReadBack(s: seq<Pixel>, w: int, h: int, x: int, y: int, p: Pixel, x': int, y': int)
    requires 0 <= w && 0 <= h && |s| == w * h && InGrid(w, h, x', y')
    ensures |Plot(s, w, h, x, y, p)| == |s|
    ensures PixelAt(Plot(s, w, h, x, y, p), w, h, x', y')
            == if x' == x && y' == y then p else PixelAt(s, w, h, x', y')
  {
    var i, i' := Index(w, x, y), Index(w, x', y');
    IndexInBounds(w, h, x', y');
    if InGrid(w, h, x, y) {
      IndexInBounds(w, h, x, y);
      IndexInjective(w, h, x, y, x', y');
      assert Plot(s, w, h, x, y, p) == s[i := p];
      assert PixelAt(Plot(s, w, h, x, y, p), w, h, x', y') == s[i := p][i'];
    } else {
      assert Plot(s, w, h, x, y, p) == s;
    }
  }

  /** The buffer s after every pixel has been painted col. */
  function Cleared(s: seq<Pixel>, col: Pixel): seq<Pixel> {
    seq(|s|, _ => col)
  }

  /** Clearing twice with one colour gives the buffer that clearing once gives. */
  lemma ClearIdempotent(s: seq<Pixel>, col: Pixel)
    ensures AllEqual(Cleared(s, col), col) && |Cleared(s, col)| == |s|
    ensures Cleared(Cleared(s, col), col) == Cleared(s, col)
  {
  }

  class TextureBuffer {
    var glTexId: nat
    var glTexUnit: nat
    var glTexInit: bool
    var updatedThisFrame: bool
    var width: int
    var height: int
    var data: array<Pixel>

    /** The buffer holds exactly one pixel per cell of the canvas. */
    ghost predicate Valid()
      reads this
    {
      0 <= width && 0 <= height && data.Length == width * height
    }

    /** `textureBuffer_init`: zero every field, allocate width * height
        pixels and paint them magenta. */
    constructor Init(width: int, height: int)
      requires 0 <= width && 0 <= height
      ensures Valid() && fresh(data)
      ensures this.width == width && this.height == height
      ensures data.Length == width * height && AllEqual(data[..], Magenta)
      ensures glTexId == 0 && glTexUnit == 0 && !glTexInit && !updatedThisFrame
    {
      glTexId, glTexUnit := 0, 0;
      glTexInit, updatedThisFrame := false, false;
      this.width, this.height := width, height;
      MulNonNegative(width, height);
      data := new Pixel[width * height];
      new;
      Clear(Magenta);
    }

    /** `textureBuffer_clear`: paint every pixel col, row by row. */
    method Clear(col: Pixel)
      requires Valid()
      modifies data
      ensures data[..] == Cleared(old(data[..]), col)
      ensures AllEqual(data[..], col)
    {
      var h := 0;
      ghost var filled := 0;
      while h < height
        invariant 0 <= h <= height && filled == h * width && filled <= data.Length
        invariant forall k :: 0 <= k < filled ==> data[k] == col
      {
        RowFits(width, height, h);
        var w := 0;
        while w < width
          invariant 0 <= w <= width && filled + width <= data.Length
          invariant forall k :: 0 <= k < filled + w ==> data[k] == col
        {
          IndexInBounds(width, height, w, h);
          data[w + h * width] := col;
          w := w + 1;
        }
        NextRow(h, width);
        filled := filled + width;
        h := h + 1;
      }
      assert height * width == width * height;
      assert AllEqual(data[..], col);
    }

    /** `textureBuffer_reset` (buffer part): take the new dimensions,
        reallocate the buffer to width * height pixels and paint them
        magenta; the GL bookkeeping and the dirty flag are left alone. */
    method Reset(width: int, height: int)
      requires 0 <= width && 0 <= height
      modifies this
      ensures Valid() && fresh(data)
      ensures this.width == width && this.height == height
      ensures data.Length == width * height && AllEqual(data[..], Magenta)
      ensures glTexId == old(glTexId) && glTexUnit == old(glTexUnit)
      ensures glTexInit == old(glTexInit) && updatedThisFrame == old(updatedThisFrame)
    {
      this.width, this.height := width, height;
      MulNonNegative(width, height);
      data := new Pixel[width * height];
      Clear(Magenta);
    }

    /** `textureBuffer_setPixel`: a bounds-checked write. Off the canvas it
        does nothing; on it, it replaces the one pixel at x + y * width and
        marks the buffer as updated this frame. */
    method SetPixel(x: int, y: int, p: Pixel)
      requires Valid()
      modifies this`updatedThisFrame, data
      ensures data[..] == Plot(old(data[..]), width, height, x, y, p)
      ensures updatedThisFrame == (old(updatedThisFrame) || InGrid(width, height, x, y))
      ensures InGrid(width, height, x, y) ==>
                0 <= Index(width, x, y) < data.Length && data[Index(width, x, y)] == p
      ensures forall k :: 0 <= k < data.Length && k != Index(width, x, y) ==> data[k] == old(data[k])
      ensures !InGrid(width, height, x, y) ==> data[..] == old(data[..])
    {
      if x < 0 || x >= width || y < 0 || y >= height {
        return;
      }
      IndexInBounds(width, height, x, y);
      data[x + y * width] := p;
      updatedThisFrame := true;
    }
  }
}
