/** Images as 2-D pixel arrays indexed [x, y], with Go's bounds-checked reads and writes, and the
    pixel-level meaning of a rendered number. */
module Raster {
  import opened Glyphs

  /** One pixel. The channels are carried along unchanged and never inspected. */
  datatype Color = NRGBA(r: bv8, g: bv8, b: bv8, a: bv8)

  /** The zero colour: what a fresh image holds and what a read outside the bounds returns. */
  const Transparent: Color := NRGBA(0, 0, 0, 0)

  predicate InBounds(img: array2<Color>, x: int, y: int) {
    0 <= x < img.Length0 && 0 <= y < img.Length1
  }

  /** img.At(x, y): the pixel inside the bounds, Transparent outside them. */
  function At(img: array2<Color>, x: int, y: int): Color
    reads img
  {
    if InBounds(img, x, y) then img[x, y] else Transparent
  }

  /** img.Set(x, y, c): a write outside the bounds is dropped. */
  method Set(img: array2<Color>, x: int, y: int, c: Color)
    modifies img
    ensures forall i, j :: InBounds(img, i, j) ==>
              img[i, j] == if i == x && j == y then c else old(img[i, j])
  {
    if InBounds(img, x, y) {
      img[x, y] := c;
    }
  }

  /** Horizontal slot i of a rendered number: the columns its i-th digit is copied into. */
  predicate InSlot(i: nat, x: int) {
    i * GlyphSize <= x < (i + 1) * GlyphSize
  }

  /** Column x of the output belongs to slot x / 100, at offset x % 100 within it, and to no
      other slot: the digits' slots are disjoint. */
  lemma SlotOf(i: nat, x: nat)
    ensures InSlot(i, x) <==> x / GlyphSize == i
    ensures InSlot(i, x) ==> x % GlyphSize == x - i * GlyphSize
  {
  }

  /** Pixel (xOff, yOff) of rectangle r of the atlas, counted from its Min corner. */
  function CellPixel(atlas: array2<Color>, r: Rect, xOff: int, yOff: int): Color
    reads atlas
  {
    At(atlas, r.minX + xOff, r.minY + yOff)
  }

  /** What pixel (x, y) of the image of the digit string sval holds: the atlas pixel at offset
      (x % 100, y) in the cell of the digit whose slot holds column x. */
  function GlyphPixel(atlas: array2<Color>, sval: string, x: nat, y: nat): Color
    requires x / GlyphSize < |sval| && sval[x / GlyphSize] in Alphabet
    reads atlas
  {
    CellPixel(atlas, CellRect(IndexOf(sval[x / GlyphSize]).value), x % GlyphSize, y)
  }

  /** image is the rendering of the digit string sval: (100 * |sval| - 1) x 99 pixels, each the
      GlyphPixel of its position. */
  ghost predicate Shows(atlas: array2<Color>, sval: string, image: array2<Color>)
    reads atlas, image
  {
    && image.Length0 == GlyphSize * |sval| - 1
    && image.Length1 == GlyphSize - 1
    && forall x, y :: InBounds(image, x, y) ==>
         x / GlyphSize < |sval| && sval[x / GlyphSize] in Alphabet &&
         image[x, y] == GlyphPixel(atlas, sval, x, y)
  }

  /** The rendering of a digit string is unique: two images that both show sval over the same
      atlas agree in size and in every pixel. */
  lemma ShowsIsDeterministic(atlas: array2<Color>, sval: string, a: array2<Color>, b: array2<Color>)
    requires Shows(atlas, sval, a) && Shows(atlas, sval, b)
    ensures a.Length0 == b.Length0 && a.Length1 == b.Length1
    ensures forall x, y :: InBounds(a, x, y) ==> a[x, y] == b[x, y]
  {
  }
}
