/**
 * The sprite's pixel table: a square grid of colours keyed by integer cell
 * coordinates, painted cell by cell and rendered as one filled rectangle per
 * cell.
 */
module Bitmaps {
  import opened Graphics
  import opened Sprite

  /** A cell coordinate (x, y). */
  type Cell = (int, int)

  predicate InGrid(width: int, height: int, p: Cell) {
    0 <= p.0 < width && 0 <= p.1 < height
  }

  /** Every cell of a width-by-height grid. */
  function Cells(width: nat, height: nat): (s: set<Cell>)
    ensures forall p :: p in s <==> InGrid(width, height, p)
  {
    set x, y | 0 <= x < width && 0 <= y < height :: (x, y)
  }

  /** The cells (x, 0) .. (x, height - 1) of one column. */
  function ColumnCells(x: int, height: nat): (s: set<Cell>)
    ensures forall p :: p in s <==> p.0 == x && 0 <= p.1 < height
  {
    set y | 0 <= y < height :: (x, y)
  }

  lemma {:induction false} ColumnCellsSize(x: int, height: nat)
    ensures |ColumnCells(x, height)| == height
  {
    if height == 0 {
      assert ColumnCells(x, 0) == {};
    } else {
      ColumnCellsSize(x, height - 1);
      assert ColumnCells(x, height) == ColumnCells(x, height - 1) + {(x, height - 1)};
    }
  }

  lemma CellsByColumn(width: nat, height: nat)
    requires width > 0
    ensures Cells(width, height) == Cells(width - 1, height) + ColumnCells(width - 1, height)
    ensures Cells(width - 1, height) !! ColumnCells(width - 1, height)
  {
  }

  /** A width-by-height grid has exactly width * height cells. */
  lemma {:induction false} CellsSize(width: nat, height: nat)
    ensures |Cells(width, height)| == width * height
  {
    if width == 0 {
      assert Cells(0, height) == {};
    } else {
      CellsSize(width - 1, height);
      ColumnCellsSize(width - 1, height);
      CellsByColumn(width, height);
      assert (width - 1) * height + height == width * height;
    }
  }

  /** The table of a fresh bitmap: every cell opaque white. */
  function Blank(width: nat, height: nat): (m: map<Cell, Color>)
    ensures m.Keys == Cells(width, height)
    ensures |m| == width * height
    ensures forall p :: p in m ==> m[p] == White
  {
    CellsSize(width, height);
    var m := map p | p in Cells(width, height) :: White;
    assert m.Keys == Cells(width, height);
    m
  }

  /**
   * java.util.Map.replace: the key's value is overwritten only when the key is
   * already present; otherwise the map is left as it is.
   */
  function Replace<K, V>(m: map<K, V>, key: K, value: V): (r: map<K, V>)
    ensures r.Keys == m.Keys
    ensures key in m ==> r[key] == value
    ensures forall k :: k in m && k != key ==> r[k] == m[k]
  {
    if key in m then m[key := value] else m
  }

  /** Writing a key the map lacks changes nothing. */
  lemma ReplaceMissing<K, V>(m: map<K, V>, key: K, value: V)
    requires key !in m
    ensures Replace(m, key, value) == m
  {
  }

  /** Every cell of the grid has an entry in m. */
  ghost predicate Covers(m: map<Cell, Color>, width: int, height: int) {
    forall p :: InGrid(width, height, p) ==> p in m
  }

  // Java's (int) cast of a double: values beyond the int range saturate.
  const IntMin: int := -0x8000_0000
  const IntMax: int := 0x7fff_ffff

  function ToJavaInt(i: int): (r: int)
    ensures IntMin <= r <= IntMax
    ensures IntMin <= i <= IntMax ==> r == i
    ensures i < IntMin ==> r == IntMin
    ensures IntMax < i ==> r == IntMax
  {
    if i < IntMin then IntMin else if IntMax < i then IntMax else i
  }

  /**
   * The cell index a click at canvas position p falls into, along an axis of
   * canvasSize pixels split into cells blocks: (int) floor(p / (canvasSize / cells)).
   * A zero-sized canvas gives a zero block, and p / 0 is +-Infinity (saturated to
   * the int range) or, for p = 0, NaN, which the cast turns into 0.
   * On a canvas of size zero or more, the index is negative exactly for a click
   * before the origin.
   */
  function CellIndex(p: real, canvasSize: real, cells: nat): (index: int)
    requires cells > 0
    ensures IntMin <= index <= IntMax
    ensures canvasSize >= 0.0 ==> (index < 0 <==> p < 0.0)
  {
    var block := canvasSize / cells as real;
    if block == 0.0 then
      (if p > 0.0 then IntMax else if p < 0.0 then IntMin else 0)
    else
      var q := p / block;
      assert canvasSize > 0.0 ==> block > 0.0 && (q < 0.0 <==> p < 0.0);
      ToJavaInt(q.Floor)
  }

  /**
   * On a canvas of positive size, a click lands in cell i exactly when it lies
   * in i's block [i * block, (i + 1) * block).
   */
  lemma CellIndexInBlock(p: real, canvasSize: real, cells: nat, i: int)
    requires 0 < cells <= IntMax && canvasSize > 0.0 && 0 <= i < cells
    ensures CellIndex(p, canvasSize, cells) == i <==>
            i as real * (canvasSize / cells as real) <= p < (i + 1) as real * (canvasSize / cells as real)
  {
    var block := canvasSize / cells as real;
    assert block > 0.0;
    var q := p / block;
    assert q * block == p;
    var low, high := i as real * block, (i + 1) as real * block;
    assert i as real <= q <==> low <= p by {
      assert i as real <= q <==> low <= q * block;
    }
    assert q < (i + 1) as real <==> p < high by {
      assert q < (i + 1) as real <==> q * block < high;
    }
    assert CellIndex(p, canvasSize, cells) == ToJavaInt(q.Floor);
    assert ToJavaInt(q.Floor) == i <==> q.Floor == i;
    assert q.Floor == i <==> i as real <= q < (i + 1) as real;
  }

  /** A click left of or above the canvas gives a negative index. */
  lemma CellIndexBefore(p: real, canvasSize: real, cells: nat)
    requires cells > 0 && canvasSize > 0.0 && p < 0.0
    ensures CellIndex(p, canvasSize, cells) < 0
  {
    var block := canvasSize / cells as real;
    assert block > 0.0;
    assert p / block < 0.0;
  }

  /** A click right of or below the canvas gives an index past the last cell. */
  lemma CellIndexAfter(p: real, canvasSize: real, cells: nat)
    requires 0 < cells <= IntMax && canvasSize > 0.0 && canvasSize <= p
    ensures CellIndex(p, canvasSize, cells) >= cells
  {
    var block := canvasSize / cells as real;
    assert block > 0.0;
    var q := p / block;
    assert q * block == p;
    assert cells as real * block == canvasSize;
    assert q >= cells as real;
  }

  /** The fill that render issues for cell (x, y). */
  function CellFill(m: map<Cell, Color>, width: int, height: int, x: int, y: int,
                    blockWidth: real, blockHeight: real): Command
    requires Covers(m, width, height) && InGrid(width, height, (x, y))
  {
    FillRect(x as real * blockWidth, y as real * blockHeight, blockWidth, blockHeight, m[(x, y)])
  }

  /** The fills for cells (x, 0) .. (x, y - 1), in that order. */
  function ColumnFills(m: map<Cell, Color>, width: int, height: int, x: int, y: int,
                       blockWidth: real, blockHeight: real): seq<Command>
    requires Covers(m, width, height) && 0 <= x < width && 0 <= y <= height
    // m.Keys only keeps a literal y from unrolling the whole column in proofs.
    decreases y, m.Keys
  {
    if y == 0 then []
    else ColumnFills(m, width, height, x, y - 1, blockWidth, blockHeight)
         + [CellFill(m, width, height, x, y - 1, blockWidth, blockHeight)]
  }

  /** The fills for columns 0 .. x - 1, column by column. */
  function Fills(m: map<Cell, Color>, width: int, height: nat, x: int,
                 blockWidth: real, blockHeight: real): seq<Command>
    requires Covers(m, width, height) && 0 <= x <= width
    // m.Keys only keeps a literal x from unrolling every column in proofs.
    decreases x, m.Keys
  {
    if x == 0 then []
    else Fills(m, width, height, x - 1, blockWidth, blockHeight)
         + ColumnFills(m, width, height, x - 1, height, blockWidth, blockHeight)
  }

  /** What render draws on a canvas of the given size. */
  function Painting(m: map<Cell, Color>, width: nat, height: nat,
                    canvasWidth: real, canvasHeight: real): (fills: seq<Command>)
    requires width > 0 && height > 0 && Covers(m, width, height)
    ensures |fills| == width * height
  {
    FillsSize(m, width, height, width, canvasWidth / width as real, canvasHeight / height as real);
    Fills(m, width, height, width, canvasWidth / width as real, canvasHeight / height as real)
  }

  lemma {:induction false} ColumnFillsAt(m: map<Cell, Color>, width: int, height: int, x: int, y: int,
                                         blockWidth: real, blockHeight: real, j: int)
    requires Covers(m, width, height) && 0 <= x < width && 0 <= j < y <= height
    ensures |ColumnFills(m, width, height, x, y, blockWidth, blockHeight)| == y
    ensures ColumnFills(m, width, height, x, y, blockWidth, blockHeight)[j]
            == CellFill(m, width, height, x, j, blockWidth, blockHeight)
  {
    if j < y - 1 {
      ColumnFillsAt(m, width, height, x, y - 1, blockWidth, blockHeight, j);
    } else if y > 1 {
      ColumnFillsAt(m, width, height, x, y - 1, blockWidth, blockHeight, 0);
    }
  }

  lemma {:induction false} FillsSize(m: map<Cell, Color>, width: int, height: nat, x: int,
                                     blockWidth: real, blockHeight: real)
    requires Covers(m, width, height) && 0 <= x <= width
    ensures |Fills(m, width, height, x, blockWidth, blockHeight)| == x * height
  {
    if x > 0 {
      FillsSize(m, width, height, x - 1, blockWidth, blockHeight);
      if height > 0 {
        ColumnFillsAt(m, width, height, x - 1, height, blockWidth, blockHeight, 0);
      }
      assert (x - 1) * height + height == x * height;
    }
  }

  lemma EarlierColumn(i: int, j: int, x: int, height: nat)
    requires 0 <= i < x - 1 && 0 <= j < height
    ensures 0 <= i * height + j < (x - 1) * height
  {
    MultiplyMonotonic(i + 1, x - 1, height);
    assert (i + 1) * height == i * height + height;
  }

  lemma {:induction false} MultiplyMonotonic(a: nat, b: nat, k: nat)
    requires a <= b
    ensures a * k <= b * k
    decreases b - a
  {
    if a < b {
      MultiplyMonotonic(a, b - 1, k);
      assert (b - 1) * k + k == b * k;
    }
  }

  /**
   * Cell (i, j) is drawn by the fill at position i * height + j: columns outer,
   * rows inner, every cell exactly once.
   */
  lemma {:induction false} FillsAt(m: map<Cell, Color>, width: int, height: nat, x: int,
                                   blockWidth: real, blockHeight: real, i: int, j: int)
    requires Covers(m, width, height) && 0 <= x <= width && 0 <= i < x && 0 <= j < height
    ensures |Fills(m, width, height, x, blockWidth, blockHeight)| == x * height
    ensures Fills(m, width, height, x, blockWidth, blockHeight)[i * height + j]
            == CellFill(m, width, height, i, j, blockWidth, blockHeight)
  {
    FillsSize(m, width, height, x, blockWidth, blockHeight);
    FillsSize(m, width, height, x - 1, blockWidth, blockHeight);
    var before := Fills(m, width, height, x - 1, blockWidth, blockHeight);
    var column := ColumnFills(m, width, height, x - 1, height, blockWidth, blockHeight);
    ColumnFillsAt(m, width, height, x - 1, height, blockWidth, blockHeight, j);
    if i < x - 1 {
      FillsAt(m, width, height, x - 1, blockWidth, blockHeight, i, j);
      EarlierColumn(i, j, x, height);
      assert (before + column)[i * height + j] == before[i * height + j];
    } else {
      assert i * height + j == |before| + j;
      assert (before + column)[i * height + j] == column[j];
    }
  }

  /** The painting has one fill per cell, and cell (x, y)'s fill is at x * height + y. */
  lemma PaintingLayout(m: map<Cell, Color>, width: nat, height: nat, canvasWidth: real, canvasHeight: real)
    requires width > 0 && height > 0 && Covers(m, width, height)
    ensures |Painting(m, width, height, canvasWidth, canvasHeight)| == width * height
    ensures forall x, y :: InGrid(width, height, (x, y)) ==> 0 <= x * height + y < width * height
    ensures forall x, y :: InGrid(width, height, (x, y)) ==>
              Painting(m, width, height, canvasWidth, canvasHeight)[x * height + y]
              == CellFill(m, width, height, x, y, canvasWidth / width as real, canvasHeight / height as real)
  {
    var blockWidth, blockHeight := canvasWidth / width as real, canvasHeight / height as real;
    FillsSize(m, width, height, width, blockWidth, blockHeight);
    forall x, y | InGrid(width, height, (x, y))
      ensures 0 <= x * height + y < width * height
    {
      MultiplyMonotonic(x + 1, width, height);
      assert (x + 1) * height == x * height + height;
    }
    forall x, y | InGrid(width, height, (x, y))
      ensures Painting(m, width, height, canvasWidth, canvasHeight)[x * height + y]
              == CellFill(m, width, height, x, y, blockWidth, blockHeight)
    {
      FillsAt(m, width, height, width, blockWidth, blockHeight, x, y);
    }
  }

  /** The in-place pixel table of one sprite. */
  class Bitmap {
    var width: nat
    var height: nat
    var colourMatrix: map<Cell, Color>

    /** One entry per cell of a non-empty width-by-height grid, and no other. */
    ghost predicate Complete()
      reads this
    {
      && width > 0 && height > 0
      && (forall p :: p in colourMatrix <==> InGrid(width, height, p))
    }

    /** Complete, square, and one of the supported sizes. */
    ghost predicate Valid()
      reads this
    {
      && Complete()
      && width == height
      && (width == 16 || width == 32 || width == 64)
    }

    /** A valid bitmap holds exactly width * height entries. */
    lemma ValidSize()
      requires Valid()
      ensures |colourMatrix| == width * height
    {
      assert colourMatrix.Keys == Cells(width, height);
      CellsSize(width, height);
    }

    /** A bitmap of the given resolution with every cell opaque white. */
    constructor (dimensions: SpriteDimensions)
      ensures Valid()
      ensures width == height == Side(dimensions)
      ensures colourMatrix == Blank(width, height)
      ensures |colourMatrix| == width * height
    {
      var side := Side(dimensions);
      width, height := side, side;
      colourMatrix := map[];
      new;
      for x := 0 to width
        modifies this`colourMatrix
        invariant forall p :: p in colourMatrix <==> InGrid(x, height, p)
        invariant forall p :: p in colourMatrix ==> colourMatrix[p] == White
      {
        for y := 0 to height
          modifies this`colourMatrix
          invariant forall p :: p in colourMatrix <==> InGrid(x, height, p) || (p.0 == x && 0 <= p.1 < y)
          invariant forall p :: p in colourMatrix ==> colourMatrix[p] == White
        {
          colourMatrix := colourMatrix[(x, y) := White];
        }
      }
    }

    /** Paints cell (x, y); a cell outside the grid is silently ignored. */
    method SetPixel(x: int, y: int, colour: Color)
      requires Complete()
      modifies this`colourMatrix
      ensures Complete()
      ensures colourMatrix == Replace(old(colourMatrix), (x, y), colour)
    {
      colourMatrix := Replace(colourMatrix, (x, y), colour);
    }

    /**
     * Paints the cell under a click at (px, py) on a canvas of the given size
     * with paintColour; a click whose cell is outside the grid changes nothing.
     */
    method HandleMouseClick(px: real, py: real, paintColour: Color, canvasWidth: real, canvasHeight: real)
      requires Complete()
      modifies this`colourMatrix
      ensures Complete()
      ensures colourMatrix == Replace(old(colourMatrix),
                (CellIndex(px, canvasWidth, width), CellIndex(py, canvasHeight, height)), paintColour)
    {
      var x := CellIndex(px, canvasWidth, width);
      var y := CellIndex(py, canvasHeight, height);
      colourMatrix := Replace(colourMatrix, (x, y), paintColour);
    }

    /**
     * One fill per cell with the cell's colour, columns outer and rows inner,
     * each at (x * blockWidth, y * blockHeight) of size blockWidth by blockHeight.
     */
    method Render(canvasWidth: real, canvasHeight: real) returns (commands: seq<Command>)
      requires Complete()
      ensures Covers(colourMatrix, width, height)
      ensures commands == Painting(colourMatrix, width, height, canvasWidth, canvasHeight)
      ensures |commands| == width * height
    {
      var m, w, h := colourMatrix, width, height;
      assert Covers(m, w, h);
      var blockWidth := canvasWidth / w as real;
      var blockHeight := canvasHeight / h as real;
      commands := [];
      for x := 0 to w
        invariant commands == Fills(m, w, h, x, blockWidth, blockHeight)
      {
        for y := 0 to h
          invariant commands == Fills(m, w, h, x, blockWidth, blockHeight)
                                + ColumnFills(m, w, h, x, y, blockWidth, blockHeight)
        {
          // setFill(colour of (x, y)), then fillRect of the cell's block
          commands := commands + [CellFill(m, w, h, x, y, blockWidth, blockHeight)];
        }
        assert Fills(m, w, h, x + 1, blockWidth, blockHeight)
            == Fills(m, w, h, x, blockWidth, blockHeight) + ColumnFills(m, w, h, x, h, blockWidth, blockHeight);
      }
      FillsSize(m, w, h, w, blockWidth, blockHeight);
    }

    function GetWidth(): (w: nat)
      reads this
      requires Valid()
      ensures w == height && (w == 16 || w == 32 || w == 64)
    {
      width
    }

    function GetHeight(): (h: nat)
      reads this
      requires Valid()
      ensures h == width && (h == 16 || h == 32 || h == 64)
    {
      height
    }
  }
}
