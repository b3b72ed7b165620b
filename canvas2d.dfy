/**
 * js/canvas-2d.js: the grid layout of a digest's bits on a 2D canvas, the
 * cell loop of drawGrid, the selection frames of drawSelectionMarks and the
 * inverse map getBitIndexFromClick, on integer canvas coordinates.
 */
module Canvas2D {
  import opened Common

  // ---------------------------------------------------------------------------
  // Grid dimensions
  // ---------------------------------------------------------------------------

  datatype Dims = Dims(cols: nat, rows: nat)

  /** Math.ceil(Math.sqrt(n)): the least c with c * c >= n. */
  function CeilSqrt(n: nat): (c: nat)
    ensures c * c >= n
    ensures c == 0 || (c - 1) * (c - 1) < n
  {
    CeilSqrtFrom(n, 0)
  }

  function CeilSqrtFrom(n: nat, c: nat): (r: nat)
    requires c == 0 || (c - 1) * (c - 1) < n
    ensures r * r >= n
    ensures r == 0 || (r - 1) * (r - 1) < n
    decreases n - c
  {
    if c * c >= n then c
    else
      MulMono(1, c, c);
      CeilSqrtFrom(n, c + 1)
  }

  /**
   * The (cols, rows) table shared by drawGrid and getBitIndexFromClick, with the
   * near-square fallback; for no bits at all both are 0 (the script computes
   * rows as NaN there and draws nothing).
   */
  function GridDims(n: nat): (d: Dims)
    ensures n > 0 ==> d.cols >= 1 && d.rows >= 1
    ensures n > 0 ==> d.cols * d.rows >= n
    ensures n > 0 ==> (d.rows - 1) * d.cols < n
    ensures n > 0 && n !in {16, 128, 160, 256, 512} ==> d.cols == CeilSqrt(n) && d.rows == CeilDiv(n, d.cols)
  {
    if n == 512 then Dims(32, 16)
    else if n == 256 then Dims(16, 16)
    else if n == 160 then Dims(20, 8)
    else if n == 128 then Dims(16, 8)
    else if n == 16 then Dims(4, 4)
    else
      var cols := CeilSqrt(n);
      if cols == 0 then Dims(0, 0)
      else
        var rows := CeilDiv(n, cols);
        assert rows >= 1;
        Dims(cols, rows)
  }

  /** The five table sizes get their fixed grids, which they fill exactly; 300 bits get the 18 x 17 fallback. */
  lemma GridDimsTable()
    ensures GridDims(512) == Dims(32, 16) && GridDims(256) == Dims(16, 16) && GridDims(160) == Dims(20, 8)
    ensures GridDims(128) == Dims(16, 8) && GridDims(16) == Dims(4, 4)
    ensures GridDims(512).cols * GridDims(512).rows == 512
    ensures GridDims(256).cols * GridDims(256).rows == 256
    ensures GridDims(160).cols * GridDims(160).rows == 160
    ensures GridDims(128).cols * GridDims(128).rows == 128
    ensures GridDims(16).cols * GridDims(16).rows == 16
    ensures GridDims(300) == Dims(18, 17)
  {
    assert CeilSqrt(300) == 18 by {
      CeilSqrtUnique(300, 18);
    }
  }

  /** Any c with (c - 1)^2 < n <= c^2 is the ceiling square root. */
  lemma CeilSqrtUnique(n: nat, c: nat)
    requires n > 0 && c * c >= n && (c - 1) * (c - 1) < n
    ensures CeilSqrt(n) == c
  {
    var s := CeilSqrt(n);
    if s < c {
      MulMono(s, c - 1, s);
      MulMono(s, c - 1, c - 1);
    } else if s > c {
      MulMono(c, s - 1, c);
      MulMono(c, s - 1, s - 1);
    }
  }

  // ---------------------------------------------------------------------------
  // Cell size and centring
  // ---------------------------------------------------------------------------

  /** The arithmetic drawGrid and getBitIndexFromClick share: dimensions, cell size, offsets. */
  datatype Layout = Layout(cols: nat, rows: nat, cell: nat, offX: int, offY: int)

  /**
   * The largest square cell that fits both ways, and the offsets that centre the
   * cols x rows grid in a width x height canvas.
   */
  function FitCell(cols: nat, rows: nat, width: nat, height: nat): (L: Layout)
    requires cols > 0 && rows > 0
    ensures L.cols == cols && L.rows == rows
    ensures L.cell * cols <= width && L.cell * rows <= height
    ensures (L.cell + 1) * cols > width || (L.cell + 1) * rows > height
    ensures L.offX >= 0 && L.offY >= 0
    ensures 2 * L.offX <= width - L.cell * cols <= 2 * L.offX + 1
    ensures 2 * L.offY <= height - L.cell * rows <= 2 * L.offY + 1
  {
    var maxCellWidth := width / cols;
    var maxCellHeight := height / rows;
    var cell: nat := Min(maxCellWidth, maxCellHeight);
    MulMono(cell, maxCellWidth, cols);
    MulMono(cell, maxCellHeight, rows);
    DivModUnique(width, cols, maxCellWidth, width % cols);
    DivModUnique(height, rows, maxCellHeight, height % rows);
    Layout(cols, rows, cell, (width - cell * cols) / 2, (height - cell * rows) / 2)
  }

  function GridLayout(n: nat, width: nat, height: nat): (L: Layout)
    requires n > 0
    ensures L.cols == GridDims(n).cols && L.rows == GridDims(n).rows
    ensures L.cols >= 1 && L.rows >= 1 && L.cols * L.rows >= n
    ensures 0 <= L.offX && L.offX + L.cell * L.cols <= width
    ensures 0 <= L.offY && L.offY + L.cell * L.rows <= height
  {
    var d := GridDims(n);
    FitCell(d.cols, d.rows, width, height)
  }

  /** A cell that is the largest fitting square puts the whole grid inside the canvas. */
  lemma GridInsideCanvas(n: nat, width: nat, height: nat)
    requires n > 0
    ensures var L := GridLayout(n, width, height);
      0 <= L.offX && L.offX + L.cell * L.cols <= width &&
      0 <= L.offY && L.offY + L.cell * L.rows <= height
  {
  }

  // ---------------------------------------------------------------------------
  // drawGrid
  // ---------------------------------------------------------------------------

  /** A fillRect or strokeRect call: x, y, width, height. */
  datatype Rect = Rect(x: int, y: int, w: int, h: int)

  /** One fillRect of the cell loop, with the bit value that chooses its colour. */
  datatype Cell = Cell(rect: Rect, value: bit)

  /** The square drawn for grid row r and column c (one pixel of gap on the right and below). */
  function CellRect(L: Layout, r: nat, c: nat): Rect
  {
    Rect(L.offX + c * L.cell, L.offY + r * L.cell, L.cell - 1, L.cell - 1)
  }

  /**
   * What the cell loop draws at position idx of its row-major order: the cell
   * (idx / cols, idx % cols), coloured by bits[idx], or by 0 on the padding
   * cells past the last bit.
   */
  function GridCell(L: Layout, bits: seq<bit>, idx: nat): (c: Cell)
    requires L.cols > 0
    ensures c.rect.w == c.rect.h == L.cell - 1
    ensures idx < |bits| ==> c.value == bits[idx]
    ensures idx >= |bits| ==> c.value == 0
    ensures idx < L.rows * L.cols ==>
      L.offX <= c.rect.x && c.rect.x + L.cell <= L.offX + L.cell * L.cols &&
      L.offY <= c.rect.y && c.rect.y + L.cell <= L.offY + L.cell * L.rows
  {
    var c := Cell(CellRect(L, idx / L.cols, idx % L.cols), if idx < |bits| then bits[idx] else 0);
    if idx < L.rows * L.cols then CellInGrid(L, idx); c else c
  }

  /** drawGrid's nested loop over rows and columns: one fillRect per grid cell, row by row. */
  method DrawGrid(bits: seq<bit>, width: nat, height: nat) returns (cells: seq<Cell>)
    ensures bits == [] ==> cells == []
    ensures bits != [] ==>
      var L := GridLayout(|bits|, width, height);
      |cells| == L.rows * L.cols &&
      forall idx :: 0 <= idx < |cells| ==> cells[idx] == GridCell(L, bits, idx)
  {
    cells := [];
    if bits == [] {
      return;
    }
    var L := GridLayout(|bits|, width, height);
    cells := CellLoop(L, bits);
  }

  /** The nested r/c loop of drawGrid for a given layout. */
  method CellLoop(L: Layout, bits: seq<bit>) returns (cells: seq<Cell>)
    requires L.cols > 0
    ensures |cells| == L.rows * L.cols
    ensures forall idx :: 0 <= idx < |cells| ==> cells[idx] == GridCell(L, bits, idx)
  {
    cells := [];
    ghost var rowStart := 0;
    var r := 0;
    while r < L.rows
      invariant 0 <= r <= L.rows
      invariant rowStart == r * L.cols && |cells| == rowStart
      invariant forall idx :: 0 <= idx < |cells| ==> cells[idx] == GridCell(L, bits, idx)
    {
      var c := 0;
      while c < L.cols
        invariant 0 <= c <= L.cols
        invariant |cells| == rowStart + c
        invariant forall idx :: 0 <= idx < |cells| ==> cells[idx] == GridCell(L, bits, idx)
      {
        var idx := r * L.cols + c;
        DivMulAdd(r, L.cols, c);
        var v := if idx < |bits| then bits[idx] else 0;
        cells := cells + [Cell(Rect(L.offX + c * L.cell, L.offY + r * L.cell, L.cell - 1, L.cell - 1), v)];
        c := c + 1;
      }
      NextRow(r, L.cols);
      rowStart := rowStart + L.cols;
      r := r + 1;
    }
  }

  lemma NextRow(r: nat, cols: nat)
    ensures r * cols + cols == (r + 1) * cols
  {
  }

  /**
   * Every square of the cell loop lies on the canvas: cell idx of the
   * rows x cols grid is in row idx / cols < rows, and its square ends inside
   * the grid rectangle, which FitCell keeps inside width x height.
   */
  lemma DrawnBits(bits: seq<bit>, width: nat, height: nat, idx: nat)
    requires bits != []
    ensures var L := GridLayout(|bits|, width, height);
      idx < L.rows * L.cols ==>
        idx / L.cols < L.rows &&
        var R := GridCell(L, bits, idx).rect;
        0 <= R.x && R.x + L.cell <= width && 0 <= R.y && R.y + L.cell <= height
  {
    var L := GridLayout(|bits|, width, height);
    if idx < L.rows * L.cols {
      CellInGrid(L, idx);
    }
  }

  /** The square of cell idx of a rows x cols grid lies inside the grid rectangle. */
  lemma CellInGrid(L: Layout, idx: nat)
    requires L.cols > 0 && idx < L.rows * L.cols
    ensures idx / L.cols < L.rows
    ensures (idx % L.cols) * L.cell + L.cell <= L.cell * L.cols
    ensures (idx / L.cols) * L.cell + L.cell <= L.cell * L.rows
    ensures 0 <= (idx % L.cols) * L.cell && 0 <= (idx / L.cols) * L.cell
  {
    var r, c := idx / L.cols, idx % L.cols;
    MulNonneg(c, L.cell);
    MulNonneg(r, L.cell);
    DivBelow(idx, L.cols, L.rows);
    MulMono(c + 1, L.cols, L.cell);
    MulMono(r + 1, L.rows, L.cell);
    assert (c + 1) * L.cell == c * L.cell + L.cell;
    assert (r + 1) * L.cell == r * L.cell + L.cell;
  }

  // ---------------------------------------------------------------------------
  // drawSelectionMarks
  // ---------------------------------------------------------------------------

  /** The frame drawSelectionMarks strokes around bit i: row floor(i / cols), column i % cols. */
  function MarkRect(L: Layout, i: nat): Rect
    requires L.cols > 0
  {
    CellRect(L, i / L.cols, i % L.cols)
  }

  /**
   * drawSelectionMarks: one frame per selected index below bitLength, skipping
   * the others.  The frames are returned with the indices they belong to, in
   * the (unspecified) order the set is visited.
   */
  method DrawSelectionMarks(L: Layout, bitLength: nat, selected: set<nat>)
    returns (framed: seq<nat>, marks: seq<Rect>)
    requires L.cols > 0
    ensures |framed| == |marks|
    ensures forall k :: 0 <= k < |marks| ==> marks[k] == MarkRect(L, framed[k])
    ensures forall i :: i in framed <==> i in selected && i < bitLength
    ensures forall j, k :: 0 <= j < k < |framed| ==> framed[j] != framed[k]
  {
    framed, marks := [], [];
    var remaining := selected;
    while remaining != {}
      invariant remaining <= selected
      invariant |framed| == |marks|
      invariant forall k :: 0 <= k < |marks| ==> marks[k] == MarkRect(L, framed[k])
      invariant forall i :: i in framed <==> i in selected - remaining && i < bitLength
      invariant forall j, k :: 0 <= j < k < |framed| ==> framed[j] != framed[k]
      decreases |remaining|
    {
      var bitIndex :| bitIndex in remaining;
      remaining := remaining - {bitIndex};
      if bitIndex >= bitLength {
        continue;
      }
      var r := bitIndex / L.cols;
      var c := bitIndex % L.cols;
      framed := framed + [bitIndex];
      marks := marks + [Rect(L.offX + c * L.cell, L.offY + r * L.cell, L.cell - 1, L.cell - 1)];
    }
  }

  /** The frame of bit i sits exactly on the square the cell loop filled for i. */
  lemma MarkOnDrawnCell(bits: seq<bit>, width: nat, height: nat, i: nat)
    requires i < |bits|
    ensures var L := GridLayout(|bits|, width, height);
      MarkRect(L, i) == GridCell(L, bits, i).rect && GridCell(L, bits, i).value == bits[i]
  {
  }

  // ---------------------------------------------------------------------------
  // getBitIndexFromClick
  // ---------------------------------------------------------------------------

  /**
   * getBitIndexFromClick for a click at integer canvas coordinates (x, y):
   * -1 outside the grid rectangle or on a padding cell, else the row-major
   * index of the cell hit.  With no bits the script computes NaN and returns -1.
   */
  function BitIndexFromClick(n: nat, width: nat, height: nat, x: int, y: int): (idx: int)
    ensures idx == -1 || 0 <= idx < n
  {
    if n == 0 then -1 else ClickIndex(GridLayout(n, width, height), n, x, y)
  }

  /** The hit test of getBitIndexFromClick once the layout L is known. */
  function ClickIndex(L: Layout, n: nat, x: int, y: int): (idx: int)
    requires L.cols > 0
    ensures idx == -1 || 0 <= idx < n
  {
    var gridWidth := L.cell * L.cols;
    var gridHeight := L.cell * L.rows;
    if x < L.offX || x >= L.offX + gridWidth || y < L.offY || y >= L.offY + gridHeight then -1
    else
      var cellX := (x - L.offX) / L.cell;
      var cellY := (y - L.offY) / L.cell;
      MulNonneg(cellY, L.cols);
      var bitIndex := cellY * L.cols + cellX;
      if bitIndex < n then bitIndex else -1
  }

  /**
   * Inverse law: a click anywhere inside the square of bit i (offset (px, py)
   * from its top-left corner) gives back i.
   */
  lemma ClickInverse(n: nat, width: nat, height: nat, i: nat, px: nat, py: nat)
    requires i < n
    requires var L := GridLayout(n, width, height); px < L.cell && py < L.cell
    ensures var L := GridLayout(n, width, height);
      BitIndexFromClick(n, width, height,
        L.offX + (i % L.cols) * L.cell + px, L.offY + (i / L.cols) * L.cell + py) == i
  {
    ClickIndexInverse(GridLayout(n, width, height), n, i, px, py);
  }

  lemma ClickIndexInverse(L: Layout, n: nat, i: nat, px: nat, py: nat)
    requires L.cols > 0 && i < n <= L.rows * L.cols && px < L.cell && py < L.cell
    ensures ClickIndex(L, n, L.offX + (i % L.cols) * L.cell + px, L.offY + (i / L.cols) * L.cell + py) == i
  {
    var r, c := i / L.cols, i % L.cols;
    CellInGrid(L, i);
    DivMulAdd(c, L.cell, px);
    DivMulAdd(r, L.cell, py);
  }

  /**
   * Soundness: whenever a click yields an index, the click lies inside that
   * index's square (the square is cell pixels wide, its gap included).
   */
  lemma ClickSound(n: nat, width: nat, height: nat, x: int, y: int)
    ensures var idx := BitIndexFromClick(n, width, height, x, y);
      idx >= 0 ==>
        var L := GridLayout(n, width, height);
        var R := MarkRect(L, idx);
        R.x <= x < R.x + L.cell && R.y <= y < R.y + L.cell
  {
    if n > 0 {
      ClickIndexSound(GridLayout(n, width, height), n, x, y);
    }
  }

  lemma ClickIndexSound(L: Layout, n: nat, x: int, y: int)
    requires L.cols > 0
    ensures var idx := ClickIndex(L, n, x, y);
      idx >= 0 ==>
        var R := MarkRect(L, idx);
        R.x <= x < R.x + L.cell && R.y <= y < R.y + L.cell
  {
    var idx := ClickIndex(L, n, x, y);
    if idx >= 0 {
      var cellX := (x - L.offX) / L.cell;
      var cellY := (y - L.offY) / L.cell;
      DivBelow(x - L.offX, L.cell, L.cols);
      MulNonneg(cellY, L.cols);
      DivMulAdd(cellY, L.cols, cellX);
      DivModUnique(x - L.offX, L.cell, cellX, (x - L.offX) % L.cell);
      DivModUnique(y - L.offY, L.cell, cellY, (y - L.offY) % L.cell);
    }
  }

  /** Clicks on the padding cells after the last bit give -1. */
  lemma ClickOnPadding(n: nat, width: nat, height: nat, r: nat, c: nat, px: nat, py: nat)
    requires n > 0
    requires var L := GridLayout(n, width, height);
      r < L.rows && c < L.cols && r * L.cols + c >= n && px < L.cell && py < L.cell
    ensures var L := GridLayout(n, width, height);
      BitIndexFromClick(n, width, height, L.offX + c * L.cell + px, L.offY + r * L.cell + py) == -1
  {
    var L := GridLayout(n, width, height);
    MulMono(c + 1, L.cols, L.cell);
    MulMono(r + 1, L.rows, L.cell);
    DivMulAdd(c, L.cell, px);
    DivMulAdd(r, L.cell, py);
  }
}
