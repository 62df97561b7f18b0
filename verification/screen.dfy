/** The window-sized texture of src/main.c: the screen dimensions are kept
    at multiples of 4 (OpenGL mis-displays textures whose rows are not), the
    texture buffer follows them and is painted magenta, and a fixed 64-by-64
    check image marks its diagonal. */
module Screen {
  import opened Colour
  import opened RowMajor

  /** Screen dimensions are aligned to multiples of this. */
  const RoundTo: int := 4

  const CheckImageWidth: int := 64
  const CheckImageHeight: int := 64

  /** `a % RoundTo` as C computes it on int: the remainder of division
      truncated toward zero, so it takes the sign of the dividend. */
  function CRem(a: int): (r: int)
    ensures -RoundTo < r < RoundTo && (a - r) % RoundTo == 0
    ensures r == 0 <==> a % RoundTo == 0
    ensures a >= 0 ==> r >= 0
    ensures a <= 0 ==> r <= 0
  {
    if a >= 0 then a % RoundTo else -((-a) % RoundTo)
  }

  /** The alignment rule `update_tex_data` applies to one dimension: a
      requested size that differs from the current one and is not a
      multiple of 4 is pushed past the next multiple of 4 in the direction
      of the change; any other request is kept as it is. */
  function Align(requested: int, current: int): (r: int)
    ensures r == requested <==> requested == current || requested % RoundTo == 0
    ensures r != requested ==> r % RoundTo == 0
  {
    var c := CRem(requested);
    if requested != current && c != 0 then
      if requested > current then requested + (RoundTo - c)
      else requested - c
    else
      requested
  }

  /** A size that grows to an unaligned value is rounded up to the next
      multiple of 4. */
  lemma AlignRoundsUp(requested: int, current: int)
    requires 0 <= requested && current < requested && requested % RoundTo != 0
    ensures Align(requested, current) % RoundTo == 0
    ensures requested < Align(requested, current) < requested + RoundTo
  {
    assert CRem(requested) == requested % RoundTo;
  }

  /** A size that shrinks to an unaligned value is rounded down to the
      previous multiple of 4, which is never negative. */
  lemma AlignRoundsDown(requested: int, current: int)
    requires 0 <= requested < current && requested % RoundTo != 0
    ensures Align(requested, current) % RoundTo == 0
    ensures requested - RoundTo < Align(requested, current) < requested
    ensures 0 <= Align(requested, current)
  {
    assert CRem(requested) == requested % RoundTo;
  }

  /** Requests of no size or more stay non-negative. */
  lemma AlignNonNegative(requested: int, current: int)
    requires 0 <= requested
    ensures 0 <= Align(requested, current)
  {
    if requested != current && requested % RoundTo != 0 && requested < current {
      AlignRoundsDown(requested, current);
    }
  }

  /** Aligning again to the size just set changes nothing. */
  lemma AlignStable(requested: int, current: int)
    ensures Align(Align(requested, current), Align(requested, current)) == Align(requested, current)
  {
  }

  /** With C's truncating `%`, an unaligned negative request is not rounded
      as the rule intends: growing skips the nearest multiple of 4 above it,
      and shrinking moves it up toward zero instead of down. */
  lemma AlignNegative(requested: int, current: int)
    requires requested < 0 && requested != current && requested % RoundTo != 0
    ensures Align(requested, current) % RoundTo == 0
    ensures current < requested ==>
              requested + RoundTo < Align(requested, current) < requested + 2 * RoundTo
    ensures requested < current ==>
              requested < Align(requested, current) < requested + RoundTo
  {
    assert CRem(requested) == -((-requested) % RoundTo);
  }

  /** The program's global screen state: SCR_WIDTH, SCR_HEIGHT, TEX_DATA and
      checkImage. */
  class Globals {
    var scrWidth: int
    var scrHeight: int
    var texData: array<Pixel>
    var checkImage: array3<byte>

    ghost predicate Valid()
      reads this
    {
      0 <= scrWidth && 0 <= scrHeight && texData.Length == scrWidth * scrHeight
      && checkImage.Length0 == CheckImageHeight && checkImage.Length1 == CheckImageWidth
      && checkImage.Length2 == 3
    }

    /** Static storage before `main` runs: zero sizes, no texture data, and
        a zeroed check image. */
    constructor ()
      ensures Valid() && fresh(texData) && fresh(checkImage)
      ensures scrWidth == 0 && scrHeight == 0 && texData.Length == 0
      ensures forall i, j, c :: 0 <= i < CheckImageHeight && 0 <= j < CheckImageWidth && 0 <= c < 3
                ==> checkImage[i, j, c] == 0
    {
      scrWidth, scrHeight := 0, 0;
      texData := new Pixel[0];
      checkImage := new byte[CheckImageHeight, CheckImageWidth, 3]((i, j, c) => 0);
    }

    /** `update_tex_data`: align the requested size, make it the screen
        size, and replace the texture with a magenta one of that size. */
    method UpdateTexData(width: int, height: int)
      requires 0 <= width && 0 <= height
      requires checkImage.Length0 == CheckImageHeight && checkImage.Length1 == CheckImageWidth
      requires checkImage.Length2 == 3
      modifies this
      ensures Valid() && fresh(texData)
      ensures scrWidth == Align(width, old(scrWidth))
      ensures scrHeight == Align(height, old(scrHeight))
      ensures texData.Length == scrWidth * scrHeight && AllEqual(texData[..], Magenta)
      ensures checkImage == old(checkImage)
    {
      var w := Align(width, scrWidth);
      var h := Align(height, scrHeight);
      AlignNonNegative(width, scrWidth);
      AlignNonNegative(height, scrHeight);
      scrWidth, scrHeight := w, h;
      MulNonNegative(w, h);
      var tex := new Pixel[w * h];
      texData := tex;

      var row := 0;
      ghost var filled := 0;
      while row < h
        invariant texData == tex && scrWidth == w && scrHeight == h
        invariant checkImage == old(checkImage)
        invariant 0 <= row <= h && filled == row * w && filled <= tex.Length
        invariant forall k :: 0 <= k < filled ==> tex[k] == Magenta
      {
        RowFits(w, h, row);
        var col := 0;
        while col < w
          invariant texData == tex && scrWidth == w && scrHeight == h
          invariant checkImage == old(checkImage)
          invariant 0 <= col <= w && filled + w <= tex.Length
          invariant forall k :: 0 <= k < filled + col ==> tex[k] == Magenta
        {
          IndexInBounds(w, h, col, row);
          tex[col + row * w] := Magenta;
          col := col + 1;
        }
        NextRow(row, w);
        filled := filled + w;
        row := row + 1;
      }
      assert h * w == w * h;
    }

    /** `makeCheckImage`: red and blue full everywhere, green full on the
        diagonal only. */
    method MakeCheckImage()
      requires checkImage.Length0 == CheckImageHeight && checkImage.Length1 == CheckImageWidth
      requires checkImage.Length2 == 3
      modifies checkImage
      ensures forall i, j :: 0 <= i < CheckImageHeight && 0 <= j < CheckImageWidth ==>
                checkImage[i, j, 0] == 255 && checkImage[i, j, 2] == 255
                && checkImage[i, j, 1] == (if i == j then 255 else 0)
    {
      var i := 0;
      while i < CheckImageHeight
        invariant 0 <= i <= CheckImageHeight
        invariant forall a, b :: 0 <= a < i && 0 <= b < CheckImageWidth ==>
                    checkImage[a, b, 0] == 255 && checkImage[a, b, 2] == 255
                    && checkImage[a, b, 1] == (if a == b then 255 else 0)
      {
        var j := 0;
        while j < CheckImageWidth
          invariant 0 <= j <= CheckImageWidth
          invariant forall a, b :: 0 <= a < i && 0 <= b < CheckImageWidth ==>
                      checkImage[a, b, 0] == 255 && checkImage[a, b, 2] == 255
                      && checkImage[a, b, 1] == (if a == b then 255 else 0)
          invariant forall b :: 0 <= b < j ==>
                      checkImage[i, b, 0] == 255 && checkImage[i, b, 2] == 255
                      && checkImage[i, b, 1] == (if i == b then 255 else 0)
        {
          checkImage[i, j, 0] := 255;
          checkImage[i, j, 1] := if i == j then 255 else 0;
          checkImage[i, j, 2] := 255;
          j := j + 1;
        }
        i := i + 1;
      }
    }
  }
}
