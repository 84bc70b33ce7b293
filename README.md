# webcounter in Dafny

A model of the core of `webcounter`, a visit counter served over HTTP. Each request names a
counter through its URL path. A GET returns the counter's current value and then increments
it. The value comes back either as plain text or as an image, composed from digit glyphs cut
out of a fixed atlas image. A DELETE forgets the counter.

The model has six modules, one per part of `webcounter.go`:

- `Glyphs` (glyphs.dfy): the 12-character alphabet `1 2 3 4 5 6 7 8 9 , 0 .` and its layout in
  the atlas. Character i gets the 100 x 100 cell at column `i % 3` and row `i / 3`.
  `BuildRects` is the loop in `New` that fills the rectangle map.
- `Decimal` (decimal.dfy): the decimal text of a count, as `strconv.Itoa` writes it for a
  non-negative value.
- `Counts` (counts.dfy): the counter map as a value. It defines what one `Get` or one
  `Delete` does to the map, and what a run of `Get`s returns.
- `Raster` (raster.dfy): pixels, Go's bounds-checked `At` and `Set`, and the pixel-by-pixel
  meaning of a rendered number (`GlyphPixel`, `Shows`).
- `Routing` (routing.dfy): `strings.Trim` of the path, the split at the first `.`,
  `strings.TrimSuffix`, the method dispatch of `ServeHTTP` (`Route`), and `render`'s choice of
  format from the suffix.
- `WebCounter` (webcounter.dfy): the `Controller` class. Its fields are `counts`, `rects` and
  `img`. Its methods are `Get`, `Delete`, `NumToImage` (with its two copy loops as
  `CopyGlyph` and `CopyColumn`), `Render` and `ServeHTTP`.

`Get` and `Delete` update the `counts` map field in place. Their contracts tie the new map to
`Counts.AfterGet` and `Counts.AfterDelete`. The lemmas about runs of requests are stated over
those functions. `NumToImage` fills a fresh `array2` with the nested `xOff`/`yOff` loops. Its
contract says that every pixel of the result is the atlas pixel that `GlyphPixel` names.

Three behaviours of the code worth knowing:

- The suffix is the text after the **first** `.` (`strings.Index`, webcounter.go:133), not
  after the last one. So `/x.tar.gz` has id `x` and suffix `tar.gz`.
- The 404 check for an empty path or `favicon.ico` comes before the method check. So it
  answers 404 whatever the method, POST included.
- The first GET of a new id returns 0, not 1. The HTTP tests in webcounter_test.go expect 1.

## Model

| member | source | states |
|---|---|---|
| `Glyphs.BuildRects` | webcounter.go:76-84 | the map built in `New` has exactly the 12 alphabet characters as keys, and character i maps to `CellRect(i)` |
| `Glyphs.CellAt` | webcounter.go:78-80 | the cell number of an atlas pixel has column `x / 100`, that is, its remainder by 3 |
| `Glyphs.CellRectCovers` | webcounter.go:77-83 | a pixel lies in the cell of i exactly when it is inside the three 100-pixel columns and its cell number is i: every grid pixel lies in exactly one cell |
| `Glyphs.CellsDisjoint` | webcounter.go:77-83 | the cells of two different characters share no pixel |
| `Glyphs.AlphabetWellFormed` | webcounter.go:22 | the 12 characters are pairwise distinct, and every decimal digit is among them |
| `Glyphs.IndexOf` | webcounter.go:38 | a character has a position in the alphabet exactly when it is in it, and that position holds the character |
| `Decimal.Itoa` | webcounter.go:35 | the decimal text is non-empty, all digits, and has no leading zero unless the value is 0 |
| `Decimal.AtoiItoa` | webcounter.go:35 | reading the decimal text back as a number gives the original value |
| `Decimal.ItoaLength` | webcounter.go:35-36 | the text has D characters exactly when the value has D decimal digits: `10^(D-1) <= n < 10^D` when D > 1, and `n < 10` when D = 1 |
| `Counts.AfterGet` | webcounter.go:91-92 | after a Get, the id holds its old count (0 if unseen) plus one, it is a key, and every other id keeps its count |
| `Counts.AfterDelete` | webcounter.go:100 | after a Delete, the id is absent and reads as 0, and every other id keeps its count |
| `Counts.GetsCountUp` | webcounter.go:89-95 | n successive Gets of an id return c, c+1, ..., c+n-1, where c is the count before them; they leave c+n stored and every other id unchanged |
| `Counts.DeleteRestarts` | webcounter.go:89-102 | after a Delete, whatever the earlier count, n successive Gets return 0, 1, ..., n-1 |
| `Raster.Set` | webcounter.go:46 | a write inside the image changes exactly that pixel, and a write outside it changes nothing |
| `Raster.SlotOf` | webcounter.go:46 | output column x belongs to slot `x / 100` at offset `x % 100` and to no other slot, so the slots of different digits are disjoint |
| `Raster.ShowsIsDeterministic` | webcounter.go:34-51 | two images that both render the same digits from the same atlas have equal size and equal pixels, so rendering a value twice gives identical images |
| `Routing.TrimLeftSlashes` | webcounter.go:127 | the result is a suffix of the input; everything cut off is `/`; the result does not start with `/` |
| `Routing.TrimRightSlashes` | webcounter.go:127 | the result is a prefix of the input; everything cut off is `/`; the result does not end with `/` |
| `Routing.TrimIsSlice` | webcounter.go:127 | the trimmed path is the part of the path between a leading run and a trailing run of `/`, and it neither starts nor ends with `/` |
| `Routing.TrimAround` | webcounter.go:127 | runs of `/` around a path with no `/` at its ends are exactly what the trim removes |
| `Routing.IndexDot` | webcounter.go:133 | the result is -1 exactly when there is no `.`; otherwise it is the position of the first `.` |
| `Routing.TrimSuffix` | webcounter.go:137 | when the text ends with the suffix, the result followed by the suffix is the text; otherwise the text is unchanged |
| `Routing.SplitAtFirstDot` | webcounter.go:132-138 | with a `.`, the id is exactly the text before the first `.` and the suffix is everything after it; with no `.`, the id is the whole trimmed path and the suffix is empty |
| `Routing.NotFoundExactly` | webcounter.go:127-131 | the request is a 404 exactly when the trimmed path is empty or `favicon.ico`, whatever the method |
| `Routing.DispatchByMethod` | webcounter.go:139-147 | for any other path, GET counts the parsed id with its suffix, DELETE resets the same id, and every other method is a 400, each in both directions |
| `Routing.FormatOf` | webcounter.go:110-123 | `txt` selects text; `jpg` and `jpeg` select JPEG; `gif` selects GIF; every other suffix, the empty one included, selects PNG, each in both directions |
| `Routing.RouteOfIdAndSuffix` | webcounter.go:127-147 | a path made of slash runs around `id.suffix`, with no `.` in the id, routes to that id and suffix, whatever the runs: the id may be empty (`/.txt` counts the empty id) and may contain `/` (`/a/b.txt` counts `a/b`), and the suffix keeps any further dots; GET counts, DELETE resets, and any other method is a 400 |
| `Routing.TrimOfIdAndSuffix` | webcounter.go:127 | trimming such a path leaves exactly `id.suffix` |
| `Routing.SplitOfIdAndSuffix` | webcounter.go:132-138 | when the id has no `.`, the split of `id.suffix` gives back exactly that id and that suffix |
| `WebCounter.EveryDigitHasGlyph` | webcounter.go:38-41 | every character of the decimal text of a count is in the alphabet, so the lookup never misses and the panic cannot happen |
| `WebCounter.Controller.constructor` | webcounter.go:71-86 | a new controller has no counters, keeps the given atlas, and holds one cell rectangle per alphabet character |
| `WebCounter.Controller.Get` | webcounter.go:89-95 | returns the stored count (0 for an unseen id) and stores that value plus one; only `counts` changes, and the controller invariant is kept |
| `WebCounter.Controller.Delete` | webcounter.go:98-102 | removes the entry for the id; only `counts` changes, and the controller invariant is kept |
| `WebCounter.Controller.NumToImage` | webcounter.go:34-51 | the result is a fresh image of width `100 * D - 1` and height 99, and each pixel (x, y) is the atlas pixel at (r.minX + x % 100, r.minY + y), where r is the cell of digit x / 100; the rectangle lookup always succeeds |
| `WebCounter.Controller.CopyGlyph` | webcounter.go:43-48 | the `xOff` loop writes the cell's pixels into slot i and leaves every pixel outside that slot as it was |
| `WebCounter.Controller.CopyColumn` | webcounter.go:44-47 | the `yOff` loop writes one column of the cell into one output column; writes below the last row are dropped, and every other pixel stays as it was |
| `WebCounter.Controller.Render` | webcounter.go:109-124 | status 200 with the content type of the suffix's format; the body is the decimal text of the count for `txt`, and otherwise a fresh image that shows the count |
| `WebCounter.Controller.ServeHTTP` | webcounter.go:126-148 | a 404 or 400 leaves the counters unchanged; a GET applies one `Get` to the parsed id and replies with the pre-increment count in the suffix's format; a DELETE applies one `Delete` and replies 200 with no body |

## Left out

- `loadSourceImage` (webcounter.go:54-68) fetches the atlas over HTTP and decodes it. That is network I/O and a foreign decoder, so the constructor takes the decoded atlas as a parameter.
- The JPEG, GIF and PNG encoders and the writes to the `http.ResponseWriter` are foreign code and I/O. A reply carries the status, the content type, and either the text body or the unencoded image.
- Colour-model conversion in `NRGBA.Set` and `img.At` is not modelled. A pixel is an opaque `NRGBA` value that is copied unchanged.
- The atlas is taken to be an NRGBA image, so a read outside its bounds returns the transparent zero colour. In Go the atlas has whatever image type `image.Decode` returns (webcounter.go:45), and an out-of-range read returns that type's zero value (for a paletted image, its first palette entry; for a grey image, opaque black). The model does not capture those other zero values, which matter only when the atlas is smaller than the 300 x 400 grid of cells.
- The `sync.Mutex` embedded in `Controller` (webcounter.go:30, 90-93, 99-101) is not modelled. Each of `Get` and `Delete` is one sequential, atomic step. Behaviour under concurrent requests is therefore not captured beyond that.
- Counts are unbounded `nat`. Go's `int` overflow after 2^63 - 1 requests is not modelled.
- wcserver/main.go (flag parsing, `ListenAndServe`, the pprof listener) is bootstrap and is not part of this model.
- webcounter_test.go exercises the server over HTTP. Its expectations (a first count of 1, separate counts per Referer) do not match `webcounter.go`, so no property is taken from it.
