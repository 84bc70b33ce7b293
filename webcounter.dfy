/** The web-counter service: the counter map, the glyph rectangles and the atlas image, with the
    operations a request runs against them. */
module WebCounter {
  import opened Glyphs
  import opened Decimal
  import opened Counts
  import opened Raster
  import opened Routing

  /** What a reply carries after its header. */
  datatype Body =
    | Empty
    | Plain(text: string)           // written with fmt.Fprintf(w, "%d", count)
    | Picture(image: array2<Color>) // handed to the JPEG, GIF or PNG encoder

  /** An HTTP reply: status code, Content-type header ("" when none is set) and body. */
  datatype Reply = Reply(status: nat, contentType: string, body: Body)

  const StatusOK: nat := 200
  const StatusBadRequest: nat := 400
  const StatusNotFound: nat := 404

  /** Every character of the decimal text of a count has a glyph in the atlas. */
  lemma EveryDigitHasGlyph(n: nat)
    ensures forall k :: 0 <= k < |Itoa(n)| ==> Itoa(n)[k] in Alphabet
  {
  }

  class Controller {
    var counts: CountMap
    var rects: map<char, Rect>
    const img: array2<Color>

    /** The rectangle map holds exactly the cell of every alphabet character. */
    ghost predicate Valid()
      reads this
    {
      rects.Keys == (set c | c in Alphabet) &&
      forall i :: 0 <= i < |Alphabet| ==> rects[Alphabet[i]] == CellRect(i)
    }

    /** New, given the atlas image that loadSourceImage would fetch: no counters yet, and one
        rectangle per alphabet character. */
    constructor (atlas: array2<Color>)
      ensures Valid()
      ensures img == atlas && counts == map[]
    {
      img := atlas;
      counts := map[];
      new;
      rects := BuildRects();
    }

    /** Return the stored count of id (0 for an id never seen) and store one more. */
    method Get(id: string) returns (count: nat)
      requires Valid()
      modifies this`counts
      ensures Valid()
      ensures count == CountOf(old(counts), id)
      ensures counts == AfterGet(old(counts), id)
    {
      count := if id in counts then counts[id] else 0;
      counts := counts[id := count + 1];
    }

    /** Forget the count of id. */
    method Delete(id: string)
      requires Valid()
      modifies this`counts
      ensures Valid()
      ensures counts == AfterDelete(old(counts), id)
    {
      counts := counts - {id};
    }

    /** The image of val: a fresh (100 * D - 1) x 99 buffer, D the number of digits, whose pixel
        (x, y) is the atlas pixel at offset (x % 100, y) in the cell of digit x / 100. The
        glyph lookup always succeeds, so the panic for a missing rectangle cannot happen. */
    method NumToImage(val: nat) returns (counterImage: array2<Color>)
      requires Valid()
      ensures fresh(counterImage)
      ensures Shows(img, Itoa(val), counterImage)
    {
      var sval := Itoa(val);
      EveryDigitHasGlyph(val);
      counterImage := new Color[GlyphSize * |sval| - 1, GlyphSize - 1]((x, y) => Transparent);
      for i := 0 to |sval|
        invariant forall x, y :: InBounds(counterImage, x, y) ==>
                    counterImage[x, y] == if x < i * GlyphSize then GlyphPixel(img, sval, x, y) else Transparent
      {
        // Every character of the decimal text is a digit, and every digit has a rectangle.
        assert sval[i] in rects;
        var rect := rects[sval[i]];
        assert rect == CellRect(IndexOf(sval[i]).value);
        CopyGlyph(counterImage, i, rect);
        forall x, y | InBounds(counterImage, x, y) && InSlot(i, x)
          ensures counterImage[x, y] == GlyphPixel(img, sval, x, y)
        {
          SlotOf(i, x);
        }
      }
    }

    /** The xOff loop of numToImage for digit i: copies the glyph cell rect into slot i of the
        output, and nothing else. */
    method CopyGlyph(counterImage: array2<Color>, i: nat, rect: Rect)
      requires rect.maxX == rect.minX + GlyphSize - 1 && rect.maxY == rect.minY + GlyphSize - 1
      requires counterImage != img && counterImage.Length1 < GlyphSize
      modifies counterImage
      ensures forall x, y :: InBounds(counterImage, x, y) ==>
                counterImage[x, y] ==
                  if InSlot(i, x) then CellPixel(img, rect, x - i * GlyphSize, y) else old(counterImage[x, y])
    {
      var xOff := 0;
      while xOff + rect.minX <= rect.maxX
        invariant 0 <= xOff <= GlyphSize
        invariant forall x, y :: InBounds(counterImage, x, y) ==>
                    counterImage[x, y] ==
                      if i * GlyphSize <= x < i * GlyphSize + xOff then CellPixel(img, rect, x - i * GlyphSize, y)
                      else old(counterImage[x, y])
      {
        CopyColumn(counterImage, i * GlyphSize, xOff, rect);
        xOff := xOff + 1;
      }
    }

    /** The yOff loop of numToImage: copies column xOff of the glyph cell rect into column
        slotX + xOff of the output; a write below the last row is dropped. */
    method CopyColumn(counterImage: array2<Color>, slotX: nat, xOff: nat, rect: Rect)
      requires rect.maxY == rect.minY + GlyphSize - 1
      requires counterImage != img && counterImage.Length1 < GlyphSize
      modifies counterImage
      ensures forall x, y :: InBounds(counterImage, x, y) ==>
                counterImage[x, y] ==
                  if x == slotX + xOff then CellPixel(img, rect, xOff, y) else old(counterImage[x, y])
    {
      var yOff := 0;
      while yOff + rect.minY <= rect.maxY
        invariant 0 <= yOff <= GlyphSize
        invariant forall x, y :: InBounds(counterImage, x, y) ==>
                    counterImage[x, y] ==
                      if x == slotX + xOff && y < yOff then CellPixel(img, rect, xOff, y) else old(counterImage[x, y])
      {
        var pixel := At(img, rect.minX + xOff, rect.minY + yOff);
        Set(counterImage, xOff + slotX, yOff, pixel);
        yOff := yOff + 1;
      }
    }

    /** render: the Content-type the suffix selects, and as body the decimal text of count for
        "txt", the image of count otherwise. */
    method Render(count: nat, suffix: string) returns (reply: Reply)
      requires Valid()
      ensures reply.status == StatusOK
      ensures reply.contentType == ContentType(FormatOf(suffix))
      ensures FormatOf(suffix) == Text ==> reply.body == Plain(Itoa(count))
      ensures FormatOf(suffix) != Text ==>
                reply.body.Picture? && fresh(reply.body.image) && Shows(img, Itoa(count), reply.body.image)
    {
      match suffix
      case "txt" =>
        reply := Reply(StatusOK, "text/plain", Plain(Itoa(count)));
      case "jpg" =>
        var image := NumToImage(count);
        reply := Reply(StatusOK, "image/jpeg", Picture(image));
      case "jpeg" =>
        var image := NumToImage(count);
        reply := Reply(StatusOK, "image/jpeg", Picture(image));
      case "gif" =>
        var image := NumToImage(count);
        reply := Reply(StatusOK, "image/gif", Picture(image));
      case _ =>
        var image := NumToImage(count);
        reply := Reply(StatusOK, "image/png", Picture(image));
    }

    /** ServeHTTP: 404 or 400 leave the counters alone; GET counts id once and renders the
        count it got back; DELETE forgets id and replies 200 with no body. */
    method ServeHTTP(verb: string, path: string) returns (reply: Reply)
      requires Valid()
      modifies this`counts
      ensures Route(verb, path) == NotFound ==>
                reply == Reply(StatusNotFound, "", Empty) && counts == old(counts)
      ensures Route(verb, path) == BadRequest ==>
                reply == Reply(StatusBadRequest, "", Empty) && counts == old(counts)
      ensures Route(verb, path).Count? ==>
                var id := Route(verb, path).id;
                var suffix := Route(verb, path).suffix;
                && counts == AfterGet(old(counts), id)
                && reply.status == StatusOK
                && reply.contentType == ContentType(FormatOf(suffix))
                && (FormatOf(suffix) == Text ==> reply.body == Plain(Itoa(CountOf(old(counts), id))))
                && (FormatOf(suffix) != Text ==>
                      reply.body.Picture? && fresh(reply.body.image) &&
                      Shows(img, Itoa(CountOf(old(counts), id)), reply.body.image))
      ensures Route(verb, path).Reset? ==>
                counts == AfterDelete(old(counts), Route(verb, path).id) &&
                reply == Reply(StatusOK, "", Empty)
    {
      match Route(verb, path)
      case NotFound =>
        reply := Reply(StatusNotFound, "", Empty);
      case BadRequest =>
        reply := Reply(StatusBadRequest, "", Empty);
      case Count(id, suffix) =>
        var count := Get(id);
        reply := Render(count, suffix);
      case Reset(id) =>
        Delete(id);
        reply := Reply(StatusOK, "", Empty);
    }
  }
}
