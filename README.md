# Jaint sprite editor core, in Dafny

Jaint is a small JavaFX sprite editor. The user edits a square sprite of 16, 32 or 64
pixels per side. The sprite is held in a `Bitmap`: a table from integer cell
coordinates to colours, filled with opaque white when it is created. Clicking
on the canvas paints the cell under the pointer with the current paint colour.
The canvas is redrawn as one filled rectangle per cell. The controller (`Jaint`)
holds three session fields:

- the active resolution;
- the bitmap;
- the paint colour.

These are its operations:

- *New* replaces the bitmap with a blank one.
- *Open* picks the supported resolution nearest to an imported image's size and
  copies the image's pixels into a fresh bitmap.
- *Save* picks the image format from the last dot-separated piece of the file
  name.
- Typing a six-character hex code into the colour field sets the paint colour.

The model is split into these modules:

- `Wrappers`: `Option`, which models operations that throw.
- `Graphics`: colours and the two drawing commands, clearing a rectangle and
  filling one.
- `Sprite`: the `SpriteDimensions` enumeration and its side length.
- `Bitmaps`, modelling `Bitmap.java`:
  - a `Bitmap` class whose `colourMatrix` map is updated in place;
  - `Replace`, which models `java.util.Map.replace`;
  - `CellIndex`, the cell arithmetic of a click, including Java's saturating `(int)` cast;
  - `Painting`, the specification of what `render` draws, with lemmas on its layout.
- `JaintRules`, the pure decision rules of `Jaint.java`:
  - nearest-resolution inference, over integers;
  - Java's `String.split("\\.")`, modelled as `JavaSplit`;
  - export-format selection.
- `Editor`: the `Jaint` session class with the start-up, New, Open, click and
  colour-field handlers. `CreateNew`, `OpenExisting` and `Click` return the frame they draw; `Update` is the
  redraw they share. `ColourTyped` draws nothing, and `Start` returns no frame.

Three behaviours of the code are worth stating plainly, because a reader might expect otherwise:

- A pixel write outside the grid is a no-op, because `Map.replace` ignores missing keys (Bitmap.java:56 and 72).
  `SetPixel` and `HandleMouseClick` therefore have no range precondition.
- Import loops over the image's own width and height (Jaint.java:87-93), not over the grid. Cells outside the
  image stay white, and image pixels outside the grid are dropped. `Imported` states exactly this.
- The cell index of a click is never range-checked (Bitmap.java:70-72). `CellIndex` is total, and
  `CellIndexBefore` and `CellIndexAfter` state what it returns outside the canvas.

## Model

| member | source | states |
|---|---|---|
| Sprite.Side | src/io/github/harrand/jaint/Bitmap.java:22-36 | x16, x32 and x64 give sides 16, 32 and 64, each in both directions |
| Bitmaps.CellsSize | src/io/github/harrand/jaint/Bitmap.java:39-45 | a width-by-height grid has exactly width * height cells |
| Bitmaps.Blank | src/io/github/harrand/jaint/Bitmap.java:38-45 | the fresh table holds exactly the grid's cells, width * height of them, each opaque white |
| Bitmaps.Replace | src/io/github/harrand/jaint/Bitmap.java:56 | Map.replace keeps the key set, writes the value when the key is present, and leaves every other key's value unchanged |
| Bitmaps.ReplaceMissing | src/io/github/harrand/jaint/Bitmap.java:56 | replacing a missing key leaves the map unchanged, so an out-of-range write is a silent no-op |
| Bitmaps.CellIndex | src/io/github/harrand/jaint/Bitmap.java:68-71 | the index of a click is always a Java int, saturated on a zero-sized canvas where the quotient is infinite or NaN, and on a canvas of size zero or more it is negative exactly for a click before the origin |
| Bitmaps.ToJavaInt | src/io/github/harrand/jaint/Bitmap.java:70-71 | the (int) cast keeps in-range values and saturates at the int bounds otherwise |
| Bitmaps.CellIndexInBlock | src/io/github/harrand/jaint/Bitmap.java:68-71 | on a canvas of positive size, a click selects cell i exactly when it lies in [i * block, (i + 1) * block) |
| Bitmaps.CellIndexBefore | src/io/github/harrand/jaint/Bitmap.java:68-71 | a click before the canvas origin gives a negative index, which names no cell |
| Bitmaps.CellIndexAfter | src/io/github/harrand/jaint/Bitmap.java:68-71 | a click at or beyond the canvas's far edge gives an index of at least the cell count, which names no cell |
| Bitmaps.Painting | src/io/github/harrand/jaint/Bitmap.java:81-93 | render's fill list, built column by column from ColumnFills and CellFill, holds exactly width * height fills; FillsAt and PaintingLayout place each cell's fill |
| Bitmaps.ColumnFillsAt | src/io/github/harrand/jaint/Bitmap.java:87-92 | the inner loop's fills for a column have one entry per row, and entry j fills cell (x, j) |
| Bitmaps.FillsSize | src/io/github/harrand/jaint/Bitmap.java:85-93 | the fills for the first x columns number x * height |
| Bitmaps.FillsAt | src/io/github/harrand/jaint/Bitmap.java:85-93 | the fill at position i * height + j is that of cell (i, j), so the order is columns outer and rows inner |
| Bitmaps.PaintingLayout | src/io/github/harrand/jaint/Bitmap.java:81-93 | render issues width * height fills, and cell (x, y)'s fill is at x * height + y, with its colour, at (x * bw, y * bh), of size bw by bh |
| Bitmaps.Bitmap.ValidSize | src/io/github/harrand/jaint/Bitmap.java:38-45 | a valid bitmap has exactly width * height entries |
| Bitmaps.Bitmap.constructor | src/io/github/harrand/jaint/Bitmap.java:20-46 | the new bitmap is square with the dimension's side, and its table is the all-white grid |
| Bitmaps.Bitmap.SetPixel | src/io/github/harrand/jaint/Bitmap.java:54-57 | the table becomes Map.replace of the old table at (x, y); the key set and the sides are kept |
| Bitmaps.Bitmap.HandleMouseClick | src/io/github/harrand/jaint/Bitmap.java:66-73 | the table becomes Map.replace of the old table at the clicked cell's indices with the paint colour |
| Bitmaps.Bitmap.Render | src/io/github/harrand/jaint/Bitmap.java:79-94 | the commands are exactly the Painting of the current table on the canvas |
| Bitmaps.Bitmap.GetWidth | src/io/github/harrand/jaint/Bitmap.java:96-99 | the width equals the height and is 16, 32 or 64 |
| Bitmaps.Bitmap.GetHeight | src/io/github/harrand/jaint/Bitmap.java:101-104 | the height equals the width and is 16, 32 or 64 |
| JaintRules.NearestResolution | Jaint/src/io/github/harrand/jaint/Jaint.java:65-74 | x16 exactly when width + height <= 48, x32 exactly when it is in (48, 96], and x64 exactly when it is above 96 |
| JaintRules.NearestResolutionIsNearest | Jaint/src/io/github/harrand/jaint/Jaint.java:69-74 | the chosen side is a nearest supported side to the average, and a tie goes to the smaller side |
| JaintRules.NearestResolutionOfSupportedSize | Jaint/src/io/github/harrand/jaint/Jaint.java:65-74 | an image that is already 16, 32 or 64 square keeps that resolution |
| JaintRules.Pieces | Jaint/src/io/github/harrand/jaint/Jaint.java:107 | splitting on "." yields at least one piece |
| JaintRules.PiecesOfPlain | Jaint/src/io/github/harrand/jaint/Jaint.java:107 | a string without a dot is a single piece |
| JaintRules.PiecesHaveNoDot | Jaint/src/io/github/harrand/jaint/Jaint.java:107 | no piece contains a dot |
| JaintRules.JoinPieces | Jaint/src/io/github/harrand/jaint/Jaint.java:107 | joining the pieces with "." gives back the original string |
| JaintRules.PiecesOfDots | Jaint/src/io/github/harrand/jaint/Jaint.java:107 | a string of dots only splits into empty pieces |
| JaintRules.JoinOfEmpties | Jaint/src/io/github/harrand/jaint/Jaint.java:107 | joining empty pieces gives a string of dots only |
| JaintRules.PiecesAround | Jaint/src/io/github/harrand/jaint/Jaint.java:107 | splitting a + "." + b gives the pieces of a followed by the pieces of b |
| JaintRules.DropTrailingEmpty | Jaint/src/io/github/harrand/jaint/Jaint.java:107 | the kept pieces are a prefix, they end in a non-empty piece or are empty, and every dropped piece is empty |
| JaintRules.JavaSplit | Jaint/src/io/github/harrand/jaint/Jaint.java:107 | split("\\.") returns a name without a dot as its only element (so "" gives [""]); otherwise a prefix of the pieces that ends in a non-empty piece or is empty, and every dropped piece is empty; no element contains a dot |
| JaintRules.ExportFormat | Jaint/src/io/github/harrand/jaint/Jaint.java:107-108 | a format contains no dot, and a name without a dot is its own format |
| JaintRules.ExportFormatMissing | Jaint/src/io/github/harrand/jaint/Jaint.java:107-108 | indexing the split fails, so there is no format, exactly when the name is non-empty and all dots |
| JaintRules.ExportFormatIsLastPiece | Jaint/src/io/github/harrand/jaint/Jaint.java:107-108 | in a dotted name, the format is a non-empty piece that only empty pieces follow |
| JaintRules.ExportFormatOfExtension | Jaint/src/io/github/harrand/jaint/Jaint.java:107-108 | base + "." + extension exports as extension, for any base and any non-empty dot-free extension |
| JaintRules.ExportFormatOfDottedName | Jaint/src/io/github/harrand/jaint/Jaint.java:107-108 | "a.b.png" exports as "png" |
| JaintRules.ExportFormatOfTrailingDot | Jaint/src/io/github/harrand/jaint/Jaint.java:107-108 | a trailing dot is dropped by the split: base.extension. exports as extension |
| JaintRules.ExportFormatOfPlainNames | Jaint/src/io/github/harrand/jaint/Jaint.java:107-108 | "sprite" exports as "sprite", the empty name as "", and ".." has no format |
| Editor.Imported | Jaint/src/io/github/harrand/jaint/Jaint.java:87-93 | after import the table holds exactly the grid's cells, a cell inside the image takes the image's pixel, and every other cell is white |
| Editor.ImportOfSupportedSize | Jaint/src/io/github/harrand/jaint/Jaint.java:65-93 | an image of a supported square size keeps its resolution and is copied pixel for pixel |
| Editor.ChooseResolution | Jaint/src/io/github/harrand/jaint/Jaint.java:65-74 | the average-based comparisons on reals choose exactly NearestResolution |
| Editor.CopyPixels | Jaint/src/io/github/harrand/jaint/Jaint.java:87-93 | the copy loop turns a blank bitmap into Imported(image, side) and keeps it complete and of the same sides |
| Editor.CopyColumn | Jaint/src/io/github/harrand/jaint/Jaint.java:89-92 | one pass of the inner loop copies column x of the image and leaves every other cell as it was |
| Editor.Jaint.Start | Jaint/src/io/github/harrand/jaint/Jaint.java:141-184 | start-up leaves black paint, resolution x16 and a fresh all-white 16x16 bitmap |
| Editor.Jaint.Update | Jaint/src/io/github/harrand/jaint/Jaint.java:134-138 | the frame clears the whole canvas and then paints the bitmap |
| Editor.Jaint.CreateNew | Jaint/src/io/github/harrand/jaint/Jaint.java:48-52 | a fresh all-white bitmap of the active resolution replaces the old one, resolution and paint are kept, and the blank grid is drawn |
| Editor.Jaint.OpenExisting | Jaint/src/io/github/harrand/jaint/Jaint.java:63-95 | the resolution becomes NearestResolution of the image size, the bitmap is a fresh Imported(image, side), the paint is kept, and the result is drawn |
| Editor.Jaint.Click | Jaint/src/io/github/harrand/jaint/Jaint.java:169 | the click replaces the clicked cell with the paint colour, the state stays valid, and the canvas is redrawn |
| Editor.Jaint.ColourTyped | Jaint/src/io/github/harrand/jaint/Jaint.java:156 | the paint colour changes only for six-character text that parses, and then to the parsed colour |

## Left out

- The JavaFX user interface is not modelled: the stage, toolbars, labels, layout, event wiring and the colour label's text fill. A handler is a method of `Jaint`, and a drawing context is the list of commands a handler returns.
- The radio-button reselection loop in `open_existing` (Jaint.java:77-85) is UI state and is not modelled.
- `update_dimensions` and the New button's call to it are not modelled, because they map toggle identities to the enumeration. `CreateNew` uses whatever resolution is active.
- `save`'s snapshot, scaling, RGB buffer and `ImageIO.write` are library calls and file I/O. Only the format selection (`ExportFormat`) is modelled.
- Image loading through `ImageView`, `PixelReader` and `FileChooser` is I/O. The image is a parameter: a width, a height and a pixel function.
- When the open or save dialog is cancelled, the handler throws and swallows the exception, and nothing changes. The model has no separate operation for that case.
- `Color.web` is a library call. It is the parameter `web` of `ColourTyped`, and `None` stands for the exception it throws.
- Bitmap.constructor: the switch's default branch is not modelled. A three-valued enumeration cannot reach it.
- Double-precision rounding is not modelled. Block sizes, click positions and rectangle coordinates are exact reals. Of the IEEE cases, only the ones that change a result are kept: a zero-sized canvas gives an infinite or NaN quotient, and the saturating `(int)` cast.
- `Point2D` keys with double coordinates are modelled as integer pairs. Bitmap sides are natural numbers rather than doubles holding 16, 32 or 64.
- An image's width and height are natural numbers. A fractional image size is not modelled.
- ColourTyped: six characters means six Dafny characters. Java counts UTF-16 code units, which differ for characters outside the Basic Multilingual Plane.
- Editor.Jaint.Start: start-up's initial frame is not returned, because a constructor has no result. `CreateNew` states what that call draws.
- Editor.Jaint.OpenExisting: the frame drawn by the intermediate `create_new` call is discarded. Only the final redraw is returned.
