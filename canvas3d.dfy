/**
 * js/canvas-3d.js: the (cols, rows, layers) box a digest's bits are stacked
 * in, the decomposition of a bit index into (layer, row, column), the
 * axis-reversing remap to integer grid coordinates (x, y, z), the cube loop
 * of create3DFromBits and the wireframe enumeration of createPlaceholder3D.
 * Cube spacing, centring offsets, materials and the scene graph are left out;
 * positions are the integer coordinates before the spacing factor is applied.
 */
module Canvas3D {
  import opened Common

  // ---------------------------------------------------------------------------
  // Box dimensions
  // ---------------------------------------------------------------------------

  datatype Box = Box(cols: nat, rows: nat, layers: nat)

  /** The number of cube positions in the box. */
  function Volume(g: Box): nat
  {
    g.cols * g.rows * g.layers
  }

  /**
   * The table of create3DFromBits and createPlaceholder3D, with the near-cube
   * fallback: layers and rows come from floating-point roots in the script and
   * are parameters here (any positive values); cols is then the least number of
   * columns for which the box holds n bits.
   */
  function Dims3D(n: nat, fallbackLayers: nat, fallbackRows: nat): (g: Box)
    requires fallbackLayers >= 1 && fallbackRows >= 1
    ensures g.rows >= 1 && g.layers >= 1
    ensures n > 0 ==> g.cols >= 1
    ensures Volume(g) >= n
    ensures n !in {16, 128, 160, 256, 512} ==>
      g.layers == fallbackLayers && g.rows == fallbackRows &&
      (g.cols == 0 || (g.cols - 1) * g.rows * g.layers < n)
  {
    if n == 128 then Box(8, 4, 4)
    else if n == 160 then Box(8, 5, 4)
    else if n == 256 then Box(8, 8, 4)
    else if n == 512 then Box(8, 8, 8)
    else if n == 16 then Box(4, 2, 2)
    else
      MulMono(1, fallbackLayers, fallbackRows);
      var cols := CeilDiv(n, fallbackLayers * fallbackRows);
      VolumeOfFallback(cols, fallbackRows, fallbackLayers);
      Box(cols, fallbackRows, fallbackLayers)
  }

  lemma VolumeOfFallback(c: nat, r: nat, l: nat)
    ensures c * (l * r) == c * r * l
    ensures c > 0 ==> (c - 1) * (l * r) == (c - 1) * r * l
  {
  }

  /** The five table sizes get their fixed boxes, which they fill exactly. */
  lemma Dims3DTable(fallbackLayers: nat, fallbackRows: nat)
    requires fallbackLayers >= 1 && fallbackRows >= 1
    ensures Dims3D(128, fallbackLayers, fallbackRows) == Box(8, 4, 4)
    ensures Dims3D(160, fallbackLayers, fallbackRows) == Box(8, 5, 4)
    ensures Dims3D(256, fallbackLayers, fallbackRows) == Box(8, 8, 4)
    ensures Dims3D(512, fallbackLayers, fallbackRows) == Box(8, 8, 8)
    ensures Dims3D(16, fallbackLayers, fallbackRows) == Box(4, 2, 2)
    ensures Volume(Dims3D(128, fallbackLayers, fallbackRows)) == 128
    ensures Volume(Dims3D(160, fallbackLayers, fallbackRows)) == 160
    ensures Volume(Dims3D(256, fallbackLayers, fallbackRows)) == 256
    ensures Volume(Dims3D(512, fallbackLayers, fallbackRows)) == 512
    ensures Volume(Dims3D(16, fallbackLayers, fallbackRows)) == 16
  {
  }

  // ---------------------------------------------------------------------------
  // Index decomposition and remap
  // ---------------------------------------------------------------------------

  /** (zLayer, yRow, xCol) of a bit index. */
  datatype Slot = Slot(zLayer: nat, yRow: nat, xCol: nat)

  /** Integer grid coordinates of a cube. */
  datatype Pos = Pos(x: int, y: int, z: int)

  /** The row-major index of slot (z, y, x) in a box with cols columns and rows rows. */
  function SlotIndex(g: Box, s: Slot): nat
  {
    s.zLayer * (g.cols * g.rows) + s.yRow * g.cols + s.xCol
  }

  /**
   * `zLayer = floor(i / (cols * rows))`, `yRow = floor((i % (cols * rows)) / cols)`,
   * `xCol = i % cols`: the slot whose row-major index is i.
   */
  function Decompose(g: Box, i: nat): (s: Slot)
    requires g.cols > 0 && g.rows > 0
    ensures SlotIndex(g, s) == i && s.xCol < g.cols && s.yRow < g.rows
  {
    DecomposeParts(g.cols, g.rows, i);
    var cr := g.cols * g.rows;
    Slot(i / cr, (i % cr) / g.cols, i % g.cols)
  }

  lemma DecomposeParts(c: nat, r: nat, i: nat)
    requires c > 0 && r > 0
    ensures c * r > 0
    ensures var cr := c * r;
      (i / cr) * cr + ((i % cr) / c) * c + i % c == i &&
      (i % cr) / c < r
  {
    MulMono(1, r, c);
    var cr := c * r;
    var z, m := i / cr, i % cr;
    var y, x := m / c, m % c;
    assert m < c * r;
    DivBelow(m, c, r);
    assert i % c == x by {
      assert i == z * cr + y * c + x;
      Regroup(z, c, r, y);
      MulNonneg(z, r);
      DivMulAdd(z * r + y, c, x);
    }
  }

  lemma Regroup(z: int, c: int, r: int, y: int)
    ensures z * (c * r) + y * c == (z * r + y) * c
  {
  }

  /**
   * The index of a slot with xCol < cols and yRow < rows splits back into the
   * same three parts (the three divisions of the script).
   */
  lemma SlotIndexUnique(g: Box, z: nat, y: nat, x: nat)
    requires x < g.cols && y < g.rows
    ensures var i := z * (g.cols * g.rows) + y * g.cols + x;
      i / (g.cols * g.rows) == z && (i % (g.cols * g.rows)) / g.cols == y &&
      (i % (g.cols * g.rows)) % g.cols == x && i % g.cols == x
  {
    var c, r := g.cols, g.rows;
    var m := y * c + x;
    MulMono(y + 1, r, c);
    assert m < r * c;
    DivMulAdd(z, c * r, m);
    DivMulAdd(y, c, x);
    assert z * (c * r) + y * c == (z * r + y) * c;
    MulNonneg(z, r);
    DivMulAdd(z * r + y, c, x);
  }

  /** Decompose inverts SlotIndex on slots inside a cols x rows layer. */
  lemma DecomposeSlotIndex(g: Box, s: Slot)
    requires g.cols > 0 && g.rows > 0 && s.xCol < g.cols && s.yRow < g.rows
    ensures Decompose(g, SlotIndex(g, s)) == s
  {
    SlotIndexUnique(g, s.zLayer, s.yRow, s.xCol);
  }

  /** `x = (rows - 1) - yRow`, `y = (cols - 1) - xCol`, `z = (layers - 1) - zLayer`. */
  function Remap(g: Box, s: Slot): (p: Pos)
    ensures IndexAt(g, p) == SlotIndex(g, s)
    ensures s.yRow < g.rows && s.xCol < g.cols && s.zLayer < g.layers ==>
      0 <= p.x < g.rows && 0 <= p.y < g.cols && 0 <= p.z < g.layers
  {
    Pos(g.rows - 1 - s.yRow, g.cols - 1 - s.xCol, g.layers - 1 - s.zLayer)
  }

  /** The position of the cube of bit i. */
  function Place(g: Box, i: nat): (p: Pos)
    requires g.cols > 0 && g.rows > 0
    ensures IndexAt(g, p) == i
  {
    Remap(g, Decompose(g, i))
  }

  /** Every bit inside the box gets coordinates in [0, rows) x [0, cols) x [0, layers). */
  lemma PlaceInBounds(g: Box, i: nat)
    requires g.cols > 0 && g.rows > 0 && i < Volume(g)
    ensures var p := Place(g, i);
      0 <= p.x < g.rows && 0 <= p.y < g.cols && 0 <= p.z < g.layers
  {
    var cr := g.cols * g.rows;
    MulMono(1, g.rows, g.cols);
    assert i < cr * g.layers;
    DivBelow(i, cr, g.layers);
  }

  /** The index a remapped position belongs to: the inverse of Place. */
  function IndexAt(g: Box, p: Pos): int
  {
    (g.layers - 1 - p.z) * (g.cols * g.rows) + (g.rows - 1 - p.x) * g.cols + (g.cols - 1 - p.y)
  }

  /** No two bits share a cube position. */
  lemma PlaceInjective(g: Box, i: nat, j: nat)
    requires g.cols > 0 && g.rows > 0
    ensures Place(g, i) == Place(g, j) <==> i == j
  {
  }

  /** Bit 0 (the top-left cell of the 2D grid) sits at the far corner (rows-1, cols-1, layers-1). */
  lemma FirstBitCorner(g: Box)
    requires g.cols > 0 && g.rows > 0
    ensures Place(g, 0) == Pos(g.rows - 1, g.cols - 1, g.layers - 1)
  {
    SlotIndexUnique(g, 0, 0, 0);
  }

  // ---------------------------------------------------------------------------
  // create3DFromBits
  // ---------------------------------------------------------------------------

  /** The four materials of a cube: selected or not, bit 1 or 0. */
  datatype Look = OnSelected | OffSelected | On | Off

  function LookOf(isSelected: bool, b: bit): (look: Look)
    ensures (look == OnSelected || look == OffSelected) <==> isSelected
    ensures (look == OnSelected || look == On) <==> b == 1
  {
    if isSelected then (if b == 1 then OnSelected else OffSelected)
    else (if b == 1 then On else Off)
  }

  /** The look determines both the selection state and the bit. */
  lemma LookOfInjective(s1: bool, b1: bit, s2: bool, b2: bit)
    ensures LookOf(s1, b1) == LookOf(s2, b2) <==> s1 == s2 && b1 == b2
  {
  }

  datatype Cube = Cube(pos: Pos, look: Look)

  /**
   * The cube loop of create3DFromBits: one cube per bit, in bit order, placed
   * by Place and coloured by selection and bit value.
   */
  method Create3DFromBits(bits: seq<bit>, selectedBits: map<string, set<nat>>, canvasId: string,
                          fallbackLayers: nat, fallbackRows: nat)
    returns (cubes: seq<Cube>)
    requires fallbackLayers >= 1 && fallbackRows >= 1
    ensures |cubes| == |bits|
    ensures bits != [] ==>
      var g := Dims3D(|bits|, fallbackLayers, fallbackRows);
      g.cols > 0 &&
      forall i :: 0 <= i < |bits| ==>
        cubes[i] == Cube(Place(g, i), LookOf(i in SelectionOf(selectedBits, canvasId), bits[i]))
  {
    var g := Dims3D(|bits|, fallbackLayers, fallbackRows);
    cubes := [];
    var i := 0;
    while i < |bits|
      invariant 0 <= i <= |bits| && |cubes| == i
      invariant i > 0 ==> g.cols > 0
      invariant forall k :: 0 <= k < i ==>
        g.cols > 0 && cubes[k] == Cube(Place(g, k), LookOf(k in SelectionOf(selectedBits, canvasId), bits[k]))
    {
      var bit := bits[i];
      var canvasSelectedBits := SelectionOf(selectedBits, canvasId);
      var isSelected := i in canvasSelectedBits;
      var cr := g.cols * g.rows;
      var zLayer := i / cr;
      var yRow := (i % cr) / g.cols;
      var xCol := i % g.cols;
      var pos := Pos(g.rows - 1 - yRow, g.cols - 1 - xCol, g.layers - 1 - zLayer);
      cubes := cubes + [Cube(pos, LookOf(isSelected, bit))];
      i := i + 1;
    }
  }

  /** Every cube of create3DFromBits is inside the box and no two share a position. */
  lemma CubesDistinctInBox(bits: seq<bit>, fallbackLayers: nat, fallbackRows: nat, i: nat, j: nat)
    requires fallbackLayers >= 1 && fallbackRows >= 1
    requires i < |bits| && j < |bits| && i != j
    ensures var g := Dims3D(|bits|, fallbackLayers, fallbackRows);
      var p := Place(g, i);
      0 <= p.x < g.rows && 0 <= p.y < g.cols && 0 <= p.z < g.layers &&
      p != Place(g, j)
  {
    var g := Dims3D(|bits|, fallbackLayers, fallbackRows);
    PlaceInBounds(g, i);
    PlaceInjective(g, i, j);
  }

  // ---------------------------------------------------------------------------
  // createPlaceholder3D
  // ---------------------------------------------------------------------------

  /**
   * The wireframe loop of createPlaceholder3D: zLayer, yRow, xCol nested, the
   * inner loop left by `break` once the index reaches bitCount.  One wireframe
   * per index below min(bitCount, volume), at the position create3DFromBits
   * uses for that index.
   */
  method CreatePlaceholder3D(bitCount: nat, fallbackLayers: nat, fallbackRows: nat)
    returns (positions: seq<Pos>)
    requires fallbackLayers >= 1 && fallbackRows >= 1
    ensures var g := Dims3D(bitCount, fallbackLayers, fallbackRows);
      |positions| == Min(bitCount, Volume(g)) && PlacedInOrder(g, positions)
  {
    var g := Dims3D(bitCount, fallbackLayers, fallbackRows);
    positions := WireframeLoop(g, bitCount);
  }

  /** The triple loop of createPlaceholder3D over a box g. */
  method WireframeLoop(g: Box, bitCount: nat) returns (positions: seq<Pos>)
    ensures |positions| == Min(bitCount, Volume(g)) && PlacedInOrder(g, positions)
  {
    var cols, rows, layers := g.cols, g.rows, g.layers;
    positions := [];
    var zLayer := 0;
    ghost var layerStart := 0;
    while zLayer < layers
      invariant 0 <= zLayer <= layers
      invariant layerStart == zLayer * (cols * rows)
      invariant |positions| == Min(bitCount, layerStart)
      invariant PlacedInOrder(g, positions)
    {
      var yRow := 0;
      ghost var rowStart := layerStart;
      while yRow < rows
        invariant 0 <= yRow <= rows
        invariant rowStart == layerStart + yRow * cols
        invariant |positions| == Min(bitCount, rowStart)
        invariant PlacedInOrder(g, positions)
      {
        var xCol := 0;
        while xCol < cols
          invariant 0 <= xCol <= cols
          invariant |positions| == Min(bitCount, rowStart + xCol)
          invariant PlacedInOrder(g, positions)
        {
          var index := zLayer * (cols * rows) + yRow * cols + xCol;
          assert index == rowStart + xCol;
          if index >= bitCount {
            assert |positions| == bitCount;
            break;
          }
          PlacedInOrderStep(g, positions, Slot(zLayer, yRow, xCol));
          positions := positions + [Pos((rows - 1) - yRow, (cols - 1) - xCol, (layers - 1) - zLayer)];
          xCol := xCol + 1;
        }
        assert |positions| == Min(bitCount, rowStart + cols);
        RowStep(layerStart, yRow, cols);
        yRow := yRow + 1;
        rowStart := rowStart + cols;
      }
      LayerStep(zLayer, cols, rows);
      zLayer := zLayer + 1;
      layerStart := layerStart + cols * rows;
    }
    VolumeByLayers(g);
  }

  lemma VolumeByLayers(g: Box)
    ensures g.layers * (g.cols * g.rows) == Volume(g)
  {
  }

  /** positions[k] is the position of bit k, for every k. */
  ghost predicate PlacedInOrder(g: Box, positions: seq<Pos>)
  {
    positions != [] ==>
      g.cols > 0 && g.rows > 0 &&
      forall k :: 0 <= k < |positions| ==> positions[k] == Place(g, k)
  }

  lemma PlacedInOrderStep(g: Box, positions: seq<Pos>, s: Slot)
    requires PlacedInOrder(g, positions)
    requires s.xCol < g.cols && s.yRow < g.rows && |positions| == SlotIndex(g, s)
    ensures PlacedInOrder(g, positions + [Remap(g, s)])
  {
    PlaceOfSlot(g, s);
  }

  lemma RowStep(base: nat, y: nat, c: nat)
    ensures base + y * c + c == base + (y + 1) * c
  {
  }

  lemma LayerStep(z: nat, c: nat, r: nat)
    ensures z * (c * r) + r * c == (z + 1) * (c * r)
    ensures z * (c * r) + c * r == (z + 1) * (c * r)
  {
  }

  /** The position the placeholder loop computes for slot s is Place of the slot's index. */
  lemma PlaceOfSlot(g: Box, s: Slot)
    requires s.xCol < g.cols && s.yRow < g.rows
    ensures Place(g, SlotIndex(g, s)) == Remap(g, s)
  {
    DecomposeSlotIndex(g, s);
  }
}
