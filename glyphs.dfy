/** The glyph atlas layout: which rectangle of the source image holds which character. */
module Glyphs {

  /** Side of one square glyph cell, in pixels. */
  const GlyphSize: nat := 100
  /** Number of glyph cells per row of the atlas. */
  const AtlasColumns: nat := 3
  /** The characters the atlas holds, in the order they appear (left to right, top to bottom). */
  const Alphabet: seq<char> := ['1', '2', '3', '4', '5', '6', '7', '8', '9', ',', '0', '.']

  /** The four numbers of a Go image.Rectangle: Min = (minX, minY), Max = (maxX, maxY). */
  datatype Rect = Rect(minX: int, minY: int, maxX: int, maxY: int)
  {
    /** The pixels the glyph copy loop reads: both corners included. */
    predicate Covers(x: int, y: int) {
      minX <= x <= maxX && minY <= y <= maxY
    }
  }

  /** The cell of the i-th alphabet character: column i % 3, row i / 3. */
  function CellRect(i: nat): Rect {
    var x0 := i % AtlasColumns * GlyphSize;
    var y0 := i / AtlasColumns * GlyphSize;
    Rect(x0, y0, x0 + GlyphSize - 1, y0 + GlyphSize - 1)
  }

  /** The cell number of atlas pixel (x, y), for pixels within the atlas's three columns. */
  function CellAt(x: int, y: int): (i: nat)
    requires 0 <= x < AtlasColumns * GlyphSize && 0 <= y
    ensures i % AtlasColumns == x / GlyphSize
  {
    y / GlyphSize * AtlasColumns + x / GlyphSize
  }

  /** A pixel lies in the cell of i exactly when it lies inside the three columns and CellAt
      names i: every pixel of the grid is in one cell, and no pixel is in two. */
  lemma CellRectCovers(i: nat, x: int, y: int)
    ensures CellRect(i).Covers(x, y) <==>
            0 <= x < AtlasColumns * GlyphSize && 0 <= y && CellAt(x, y) == i
  {
  }

  /** Cells of different characters share no pixel. */
  lemma CellsDisjoint(i: nat, j: nat, x: int, y: int)
    requires i != j
    ensures !(CellRect(i).Covers(x, y) && CellRect(j).Covers(x, y))
  {
  }

  /** Position of c in the alphabet, if it is there. */
  function IndexOf(c: char): (r: Option<nat>)
    ensures r.Some? <==> c in Alphabet
    ensures r.Some? ==> r.value < |Alphabet| && Alphabet[r.value] == c
  {
    if c in Alphabet then Some(FirstIndex(Alphabet, c)) else None
  }

  function FirstIndex(s: seq<char>, c: char): (k: nat)
    requires c in s
    ensures k < |s| && s[k] == c
  {
    if s[0] == c then 0 else 1 + FirstIndex(s[1..], c)
  }

  datatype Option<T> = None | Some(value: T)

  /** No character appears twice in the alphabet, and every decimal digit appears in it. */
  lemma AlphabetWellFormed()
    ensures forall i, j :: 0 <= i < j < |Alphabet| ==> Alphabet[i] != Alphabet[j]
    ensures forall c :: '0' <= c <= '9' ==> c in Alphabet
  {
  }

  /** The rectangle map as the controller's constructor fills it: one entry per alphabet
      character, holding that character's cell. */
  method BuildRects() returns (rects: map<char, Rect>)
    ensures rects.Keys == set c | c in Alphabet
    ensures forall i :: 0 <= i < |Alphabet| ==> rects[Alphabet[i]] == CellRect(i)
  {
    AlphabetWellFormed();
    rects := map[];
    for i := 0 to |Alphabet|
      invariant rects.Keys == set k | 0 <= k < i :: Alphabet[k]
      invariant forall k :: 0 <= k < i ==> rects[Alphabet[k]] == CellRect(k)
    {
      var ch := Alphabet[i];
      var x0 := i % AtlasColumns * GlyphSize;
      var x1 := x0 + GlyphSize - 1;
      var row := i / AtlasColumns;
      var y0 := row * GlyphSize;
      var y1 := y0 + GlyphSize - 1;
      rects := rects[ch := Rect(x0, y0, x1, y1)];
    }
    assert (set k | 0 <= k < |Alphabet| :: Alphabet[k]) == set c | c in Alphabet;
  }
}
