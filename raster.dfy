/**
 * Pixel grids and the compositing step of the converter: `fillTransparentWhite`
 * in main.go, which paints every fully transparent pixel white and copies
 * every other pixel as it is.
 */
module Raster {
  import opened Base

  /** A colour with 8-bit red, green, blue and alpha channels (Go's color.RGBA). */
  datatype Color = RGBA(r: byte, g: byte, b: byte, a: byte)

  /** Opaque white, the colour painted over fully transparent pixels. */
  const White: Color := RGBA(255, 255, 255, 255)

  /** The zero colour: what a newly allocated RGBA image holds and what `At` yields outside the bounds. */
  const Transparent: Color := RGBA(0, 0, 0, 0)

  /**
   * The per-pixel rule of `fillTransparentWhite`: a fully transparent pixel
   * becomes opaque white, any other pixel is kept, not blended with white.
   * Go compares the 16-bit alpha returned by `RGBA()`; for an image with
   * 8-bit channels it is zero exactly when the 8-bit alpha is.
   */
  function OntoWhite(c: Color): (d: Color)
    ensures d.a != 0
    ensures c.a == 0 ==> d == White
    ensures c.a != 0 ==> d == c
  {
    if c.a == 0 then White else c
  }

  /** Go's image.Rectangle: the half-open box [minX, maxX) x [minY, maxY). */
  datatype Rectangle = Rect(minX: int, minY: int, maxX: int, maxY: int) {
    predicate WellFormed() {
      minX <= maxX && minY <= maxY
    }

    function Dx(): nat
      requires WellFormed()
    {
      maxX - minX
    }

    function Dy(): nat
      requires WellFormed()
    {
      maxY - minY
    }

    /** Go's `image.Point.In`. */
    predicate Contains(x: int, y: int) {
      minX <= x < maxX && minY <= y < maxY
    }
  }

  /**
   * An image as a value, the way the PNG decoder hands it over and the JPEG
   * encoder reads it (Go's image.Image: `Bounds` and `At`). Row j holds the
   * pixels whose y coordinate is bounds.minY + j.
   */
  datatype Picture = Picture(bounds: Rectangle, rows: seq<seq<Color>>) {
    predicate Valid() {
      && bounds.WellFormed()
      && |rows| == bounds.Dy()
      && forall j :: 0 <= j < |rows| ==> |rows[j]| == bounds.Dx()
    }

    /** The colour at (x, y); outside the bounds, the zero colour. */
    function At(x: int, y: int): Color
      requires Valid()
    {
      if bounds.Contains(x, y) then rows[y - bounds.minY][x - bounds.minX] else Transparent
    }
  }

  type Image = p: Picture | p.Valid() witness Picture(Rect(0, 0, 0, 0), [])

  /** No pixel inside the bounds is fully transparent. */
  ghost predicate NoFullyTransparent(img: Image) {
    forall x, y :: img.bounds.Contains(x, y) ==> img.At(x, y).a != 0
  }

  /** What `fillTransparentWhite` is meant to produce from `img`, as a value. */
  function Composite(img: Image): (out: Image)
    ensures out.bounds == img.bounds
    ensures NoFullyTransparent(out)
  {
    Picture(img.bounds, seq(|img.rows|, j requires 0 <= j < |img.rows| =>
      seq(|img.rows[j]|, i requires 0 <= i < |img.rows[j]| => OntoWhite(img.rows[j][i]))))
  }

  /**
   * Pixel by pixel, inside the bounds: a fully transparent pixel becomes
   * opaque white and any other pixel is copied.
   */
  lemma CompositeAt(img: Image)
    ensures forall x, y :: img.bounds.Contains(x, y) ==> Composite(img).At(x, y) == OntoWhite(img.At(x, y))
    ensures forall x, y :: img.bounds.Contains(x, y) && img.At(x, y).a == 0 ==> Composite(img).At(x, y) == White
  {
  }

  /** Two images with the same bounds and the same colour at every point inside them are the same image. */
  lemma SameImage(p: Image, q: Image)
    requires p.bounds == q.bounds
    requires forall x, y :: p.bounds.Contains(x, y) ==> p.At(x, y) == q.At(x, y)
    ensures p == q
  {
    var b := p.bounds;
    forall j | 0 <= j < |p.rows|
      ensures p.rows[j] == q.rows[j]
    {
      forall i | 0 <= i < |p.rows[j]|
        ensures p.rows[j][i] == q.rows[j][i]
      {
        assert b.Contains(b.minX + i, b.minY + j);
        assert p.At(b.minX + i, b.minY + j) == q.At(b.minX + i, b.minY + j);
      }
    }
  }

  /** On an image without fully transparent pixels the transform is the identity. */
  lemma CompositeKeepsOpaque(img: Image)
    requires NoFullyTransparent(img)
    ensures Composite(img) == img
  {
    CompositeAt(img);
    SameImage(Composite(img), img);
  }

  /** Compositing twice changes nothing more than compositing once. */
  lemma CompositeIdempotent(img: Image)
    ensures Composite(Composite(img)) == Composite(img)
  {
    CompositeKeepsOpaque(Composite(img));
  }

  /**
   * Composite leaves a pixel as it was exactly when that pixel is not fully
   * transparent.
   */
  lemma CompositeChangesOnlyClearPixels(img: Image, x: int, y: int)
    requires img.bounds.Contains(x, y)
    ensures Composite(img).At(x, y) == img.At(x, y) <==> img.At(x, y).a != 0
  {
    CompositeAt(img);
  }

  /** Go's image.RGBA: a pixel buffer allocated once for its bounds and written in place by `Set`. */
  class RGBA {
    const rect: Rectangle
    const pix: array2<Color>

    ghost predicate Valid()
      reads this
    {
      rect.WellFormed() && pix.Length0 == rect.Dy() && pix.Length1 == rect.Dx()
    }

    /** `image.NewRGBA(r)`: every pixel starts as the zero colour. */
    constructor (r: Rectangle)
      requires r.WellFormed()
      ensures Valid() && rect == r && fresh(pix)
      ensures forall x, y :: At(x, y) == Transparent
    {
      rect := r;
      pix := new Color[r.Dy(), r.Dx()]((j, i) => Transparent);
    }

    function At(x: int, y: int): Color
      requires Valid()
      reads this, pix
    {
      if rect.Contains(x, y) then pix[y - rect.minY, x - rect.minX] else Transparent
    }

    /** Writes one pixel; a point outside the bounds is ignored. */
    method Set(x: int, y: int, c: Color)
      requires Valid()
      modifies pix
      ensures forall px, py :: At(px, py) == if px == x && py == y && rect.Contains(x, y) then c else old(At(px, py))
    {
      if rect.Contains(x, y) {
        pix[y - rect.minY, x - rect.minX] := c;
      }
    }

    /** The image as a value, as an image.Image reader such as the JPEG encoder sees it. */
    function Snapshot(): (p: Image)
      requires Valid()
      reads this, pix
      ensures p.bounds == rect
      ensures forall x, y :: p.At(x, y) == At(x, y)
    {
      Picture(rect, seq(pix.Length0, j requires 0 <= j < pix.Length0 reads pix =>
        seq(pix.Length1, i requires 0 <= i < pix.Length1 reads pix => pix[j, i])))
    }
  }

  /**
   * `fillTransparentWhite`: allocates a new RGBA image with the bounds of
   * `img`, walks it row by row, and writes opaque white where the source is
   * fully transparent and the source colour elsewhere. `img` is a value and
   * the method modifies nothing that existed before it ran.
   */
  method FillTransparentWhite(img: Image) returns (newImg: RGBA)
    ensures fresh(newImg) && fresh(newImg.pix) && newImg.Valid()
    ensures newImg.rect == img.bounds
    ensures newImg.Snapshot() == Composite(img)
  {
    var bounds := img.bounds;
    newImg := new RGBA(bounds);
    var white := White;
    var y := bounds.minY;
    while y < bounds.maxY
      invariant bounds.minY <= y <= bounds.maxY
      invariant forall px, py :: bounds.Contains(px, py) ==>
        newImg.At(px, py) == if py < y then OntoWhite(img.At(px, py)) else Transparent
    {
      var x := bounds.minX;
      while x < bounds.maxX
        invariant bounds.minX <= x <= bounds.maxX
        invariant forall px, py :: bounds.Contains(px, py) ==>
          newImg.At(px, py) == if py < y || (py == y && px < x) then OntoWhite(img.At(px, py)) else Transparent
      {
        var c := img.At(x, y);
        if c.a == 0 {
          newImg.Set(x, y, white);
        } else {
          newImg.Set(x, y, c);
        }
        x := x + 1;
      }
      y := y + 1;
    }
    CompositeAt(img);
    SameImage(newImg.Snapshot(), Composite(img));
  }
}
