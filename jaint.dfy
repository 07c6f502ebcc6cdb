/**
 * The editor session: the active resolution, the bitmap being edited and the
 * paint colour, and the handlers that change them (start-up, New, Open, a
 * click on the canvas, typing in the colour field) together with the redraw
 * each of them ends with.
 */
module Editor {
  import opened Wrappers
  import opened Graphics
  import opened Sprite
  import opened Bitmaps
  import opened JaintRules

  /** A loaded image: its size in pixels and the colour its pixel reader reports. */
  datatype Image = Image(width: nat, height: nat, pixel: (int, int) -> Color)

  /**
   * The table an import of image builds at the given side: each cell inside both
   * the grid and the image takes the image's pixel, every other cell stays white.
   * Image pixels beyond the grid are dropped; nothing is rescaled.
   */
  function Imported(image: Image, side: nat): (m: map<Cell, Color>)
    ensures forall p :: p in m <==> InGrid(side, side, p)
    ensures forall p :: p in m && p.0 < image.width && p.1 < image.height ==> m[p] == image.pixel(p.0, p.1)
    ensures forall p :: p in m && (image.width <= p.0 || image.height <= p.1) ==> m[p] == White
  {
    map p | p in Cells(side, side) ::
      if p.0 < image.width && p.1 < image.height then image.pixel(p.0, p.1) else White
  }

  /** An image whose size is a supported resolution is imported whole, pixel for pixel. */
  lemma ImportOfSupportedSize(image: Image, d: SpriteDimensions)
    requires image.width == image.height == Side(d)
    ensures NearestResolution(image.width, image.height) == d
    ensures forall p :: p in Imported(image, Side(d)) ==> Imported(image, Side(d))[p] == image.pixel(p.0, p.1)
  {
    NearestResolutionOfSupportedSize(d);
  }

  /** The absolute value of a real, as Math.abs on a double. */
  function AbsReal(r: real): real {
    if r < 0.0 then -r else r
  }

  /**
   * The resolution choice of open_existing, on the average of the two sides:
   * x16, replaced by x32 when the average is strictly nearer 32 than 16, then by
   * x64 when it is strictly nearer 64 than 32. Doubles hold every sum and half
   * of these sizes exactly, so the comparisons on reals equal the integer rule.
   */
  method ChooseResolution(width: nat, height: nat) returns (d: SpriteDimensions)
    ensures d == NearestResolution(width, height)
  {
    d := x16;
    var average := (width + height) as real / 2.0;
    if AbsReal(average - 32.0) < AbsReal(average - 16.0) {
      d := x32;
    }
    if AbsReal(average - 64.0) < AbsReal(average - 32.0) {
      d := x64;
    }
  }

  /**
   * The copy loop of open_existing: every pixel of the image is set on a blank
   * bitmap, column by column; pixels beyond the grid are ignored by SetPixel.
   */
  method CopyPixels(bitmap: Bitmap, image: Image)
    requires bitmap.Complete() && bitmap.width == bitmap.height
    requires bitmap.colourMatrix == Blank(bitmap.width, bitmap.height)
    modifies bitmap
    ensures bitmap.Complete() && bitmap.width == old(bitmap.width) && bitmap.height == old(bitmap.height)
    ensures bitmap.colourMatrix == Imported(image, bitmap.width)
  {
    var side := bitmap.width;
    for x := 0 to image.width
      invariant bitmap.Complete() && bitmap.width == bitmap.height == side
      invariant forall p :: p in bitmap.colourMatrix ==>
                  bitmap.colourMatrix[p] == if p.0 < x && p.1 < image.height then image.pixel(p.0, p.1) else White
    {
      CopyColumn(bitmap, image, x);
    }
  }

  /** One pass of the inner loop: column x of the image is set cell by cell. */
  method CopyColumn(bitmap: Bitmap, image: Image, x: int)
    requires bitmap.Complete()
    requires forall p :: p in bitmap.colourMatrix ==>
               bitmap.colourMatrix[p] == if p.0 < x && p.1 < image.height then image.pixel(p.0, p.1) else White
    modifies bitmap
    ensures bitmap.Complete() && bitmap.width == old(bitmap.width) && bitmap.height == old(bitmap.height)
    ensures forall p :: p in bitmap.colourMatrix ==>
              bitmap.colourMatrix[p] == if p.0 <= x && p.1 < image.height then image.pixel(p.0, p.1) else White
  {
    for y := 0 to image.height
      invariant bitmap.Complete() && bitmap.width == old(bitmap.width) && bitmap.height == old(bitmap.height)
      invariant forall p :: p in bitmap.colourMatrix ==>
                  bitmap.colourMatrix[p] ==
                    if (p.0 < x && p.1 < image.height) || (p.0 == x && p.1 < y) then image.pixel(p.0, p.1)
                    else White
    {
      bitmap.SetPixel(x, y, image.pixel(x, y));
    }
  }

  class Jaint {
    var spriteDimensions: SpriteDimensions
    var imageBitmap: Bitmap
    var paintColour: Color

    /** Between events the bitmap is valid and sized by the active resolution. */
    ghost predicate Valid()
      reads this, imageBitmap
    {
      imageBitmap.Valid() && imageBitmap.width == Side(spriteDimensions)
    }

    /**
     * start: black paint, the 16x16 radio button selected, and a fresh bitmap of
     * that size.
     */
    constructor Start()
      ensures Valid() && fresh(imageBitmap)
      ensures spriteDimensions == x16 && paintColour == Black
      ensures imageBitmap.colourMatrix == Blank(16, 16)
    {
      paintColour := Black;
      spriteDimensions := x16;
      imageBitmap := new Bitmap(x16);
    }

    /** update: clear the whole canvas, then render the bitmap onto it. */
    method Update(canvasWidth: real, canvasHeight: real) returns (frame: seq<Command>)
      requires Valid()
      ensures Covers(imageBitmap.colourMatrix, imageBitmap.width, imageBitmap.height)
      ensures frame == [ClearRect(0.0, 0.0, canvasWidth, canvasHeight)]
                       + Painting(imageBitmap.colourMatrix, imageBitmap.width, imageBitmap.height,
                                  canvasWidth, canvasHeight)
    {
      var fills := imageBitmap.Render(canvasWidth, canvasHeight);
      frame := [ClearRect(0.0, 0.0, canvasWidth, canvasHeight)] + fills;
    }

    /**
     * create_new: replace the bitmap by a fresh all-white one of the active
     * resolution, then redraw.
     */
    method CreateNew(canvasWidth: real, canvasHeight: real) returns (frame: seq<Command>)
      modifies this
      ensures Valid() && fresh(imageBitmap)
      ensures spriteDimensions == old(spriteDimensions) && paintColour == old(paintColour)
      ensures imageBitmap.colourMatrix == Blank(Side(spriteDimensions), Side(spriteDimensions))
      ensures Covers(imageBitmap.colourMatrix, imageBitmap.width, imageBitmap.height)
      ensures frame == [ClearRect(0.0, 0.0, canvasWidth, canvasHeight)]
                       + Painting(imageBitmap.colourMatrix, imageBitmap.width, imageBitmap.height,
                                  canvasWidth, canvasHeight)
    {
      imageBitmap := new Bitmap(spriteDimensions);
      frame := Update(canvasWidth, canvasHeight);
    }

    /**
     * open_existing: pick the nearest supported resolution for the image, start
     * a fresh bitmap of it, copy the image's pixels into it cell by cell, redraw.
     */
    method OpenExisting(image: Image, canvasWidth: real, canvasHeight: real) returns (frame: seq<Command>)
      modifies this
      ensures Valid() && fresh(imageBitmap)
      ensures spriteDimensions == NearestResolution(image.width, image.height)
      ensures paintColour == old(paintColour)
      ensures imageBitmap.colourMatrix == Imported(image, Side(spriteDimensions))
      ensures Covers(imageBitmap.colourMatrix, imageBitmap.width, imageBitmap.height)
      ensures frame == [ClearRect(0.0, 0.0, canvasWidth, canvasHeight)]
                       + Painting(imageBitmap.colourMatrix, imageBitmap.width, imageBitmap.height,
                                  canvasWidth, canvasHeight)
    {
      spriteDimensions := ChooseResolution(image.width, image.height);
      // create_new redraws the blank grid; the final redraw below paints over it.
      var _ := CreateNew(canvasWidth, canvasHeight);
      CopyPixels(imageBitmap, image);
      frame := Update(canvasWidth, canvasHeight);
    }

    /** A click on the canvas paints the cell under it, then the canvas is redrawn. */
    method Click(px: real, py: real, canvasWidth: real, canvasHeight: real) returns (frame: seq<Command>)
      requires Valid()
      modifies imageBitmap
      ensures Valid()
      ensures imageBitmap.colourMatrix
              == Replace(old(imageBitmap.colourMatrix),
                         (CellIndex(px, canvasWidth, Side(spriteDimensions)),
                          CellIndex(py, canvasHeight, Side(spriteDimensions))),
                         paintColour)
      ensures Covers(imageBitmap.colourMatrix, imageBitmap.width, imageBitmap.height)
      ensures frame == [ClearRect(0.0, 0.0, canvasWidth, canvasHeight)]
                       + Painting(imageBitmap.colourMatrix, imageBitmap.width, imageBitmap.height,
                                  canvasWidth, canvasHeight)
    {
      imageBitmap.HandleMouseClick(px, py, paintColour, canvasWidth, canvasHeight);
      frame := Update(canvasWidth, canvasHeight);
    }

    /**
     * A key typed in the colour field: unless the text has exactly six
     * characters nothing happens; otherwise the text is parsed as a web colour
     * (web stands for Color.web, None for the exception it throws) and becomes
     * the paint colour.
     */
    method ColourTyped(text: string, web: string -> Option<Color>)
      modifies this`paintColour
      ensures |text| != 6 ==> paintColour == old(paintColour)
      ensures |text| == 6 && web(text).Some? ==> paintColour == web(text).value
      ensures |text| == 6 && web(text).None? ==> paintColour == old(paintColour)
    {
      if |text| != 6 {
        return;
      }
      var parsed := web(text);
      if parsed.Some? {
        paintColour := parsed.value;
      }
    }
  }
}
