/** The map header decoder: one map's dimensions, pointers and cell grid.

    A map header holds a pointer to the map's data block. That block starts
    with the width and height in cells, then pointers to the border blocks,
    the cell grid and the tileset. The cell grid is `width * height`
    little-endian 16-bit entries in row-major order; the low 10 bits of an
    entry are the block index, the high 6 bits a render attribute.
 */
module MapGrid {
  import opened Rom

  /** The fields of a map's data block, and the offset it was found at. */
  datatype MapHeader = MapHeader(
    data: nat,       // offset of the data block
    width: nat,      // in cells
    height: nat,     // in cells
    border: int,     // border-block table (unused by the decoder)
    tiles: int,      // cell grid
    tileset: int)    // tileset header

  /** What read_map returns: the block index of every cell, keyed by (x, y),
      and the tileset pointer. */
  datatype MapData = MapData(cells: map<(nat, nat), nat>, tileset: int)

  /** The header pointer and the 20-byte data block it refers to lie inside the image. */
  predicate HeaderInBounds(b: seq<byte>, headerPointer: nat)
  {
    && headerPointer + 4 <= |b|
    && 0 <= ReadPointer(b, headerPointer)
    && ReadPointer(b, headerPointer) + 20 <= |b|
  }

  /** The header part of read_map: resolve the data block, then read its five
      fields in order. The first read that falls outside the image fails. */
  function ReadHeader(b: seq<byte>, headerPointer: nat): (r: Result<MapHeader>)
    ensures r.Ok? <==> HeaderInBounds(b, headerPointer)
    ensures r.Ok? ==>
      var data := ReadPointer(b, headerPointer);
      && r.value.data == data
      && r.value.width == ReadInt(b, data)
      && r.value.height == ReadInt(b, data + 4)
      && r.value.border == ReadPointer(b, data + 8)
      && r.value.tiles == ReadPointer(b, data + 12)
      && r.value.tileset == ReadPointer(b, data + 16)
  {
    var data :- PointerAt(b, headerPointer);
    var width :- IntAt(b, data);
    var height :- IntAt(b, data + 4);
    var border :- PointerAt(b, data + 8);
    var tiles :- PointerAt(b, data + 12);
    var tileset :- PointerAt(b, data + 16);
    Ok(MapHeader(data, width, height, border, tiles, tileset))
  }

  /** The block index of a 16-bit cell entry: its low 10 bits (`entry & 0x3ff`). */
  function BlockIndex(entry: nat): (block: nat)
    ensures block < 0x400
  {
    entry % 0x400
  }

  /** Position of cell (x, y) in the row-major grid. */
  function CellIndex(width: nat, x: nat, y: nat): nat
  {
    y * width + x
  }

  /** Every cell (x, y) with x < width and y < height. */
  function Rectangle(width: nat, height: nat): set<(nat, nat)>
  {
    set x: nat, y: nat | x < width && y < height :: (x, y)
  }

  /** The first `n` cells of row `y`. */
  function RowPrefix(n: nat, y: nat): set<(nat, nat)>
  {
    set x: nat | x < n :: (x, y)
  }

  /** The grid of `width * height` entries at `tiles` lies inside the image.
      An empty grid reads nothing, wherever it points. */
  predicate GridFits(b: seq<byte>, tiles: int, width: nat, height: nat)
  {
    width * height == 0 || (0 <= tiles && tiles + 2 * (width * height) <= |b|)
  }

  /** Each cell present in `cells` holds the block index of its entry, read at
      `tiles + 2 * CellIndex(width, x, y)`. */
  ghost predicate CellsDecoded(b: seq<byte>, tiles: int, width: nat, cells: map<(nat, nat), nat>)
  {
    forall p :: p in cells ==>
      && 0 <= tiles + 2 * CellIndex(width, p.0, p.1)
      && tiles + 2 * CellIndex(width, p.0, p.1) + 2 <= |b|
      && cells[p] == BlockIndex(ReadU16(b, tiles + 2 * CellIndex(width, p.0, p.1)))
  }

  // ---------------------------------------------------------------------------
  // Row-major layout

  /** The cell index is a bijection between the rectangle and `[0, width * height)`:
      cell (x, y) lands below `width * height`, and index `i` comes from cell
      `(i % width, i / width)`. */
  lemma RowMajor(width: nat, height: nat, x: nat, y: nat)
    requires x < width && y < height
    ensures CellIndex(width, x, y) < width * height
    ensures CellIndex(width, x, y) % width == x
    ensures CellIndex(width, x, y) / width == y
  {
    CellBelowArea(width, height, x, y);
    DivModUnique(CellIndex(width, x, y), width, y, x);
  }

  /** Cell (x, y) of the rectangle comes before index `width * height`. */
  lemma CellBelowArea(width: nat, height: nat, x: nat, y: nat)
    requires x < width && y < height
    ensures CellIndex(width, x, y) < width * height
  {
    MulMono(y + 1, height, width);
  }

  /** Conversely, every index below `width * height` is the index of one cell of the rectangle. */
  lemma RowMajorInverse(width: nat, height: nat, i: nat)
    requires i < width * height
    ensures width > 0 && i % width < width && i / width < height
    ensures CellIndex(width, i % width, i / width) == i
  {
    MulMono(height, i / width, width);
  }

  /** Multiplying by a non-negative factor keeps the order. */
  lemma MulMono(a: int, b: int, c: nat)
    ensures a <= b ==> a * c <= b * c
  {
  }

  lemma MulComm(a: nat, b: nat)
    ensures a * b == b * a
  {
  }

  /** Quotient and remainder are unique: `q * d + r` with `0 <= r < d` divides back into `q` and `r`. */
  lemma DivModUnique(n: nat, d: nat, q: nat, r: nat)
    requires 0 <= r < d && n == q * d + r
    ensures n / d == q && n % d == r
  {
    var q', r' := n / d, n % d;
    assert n == q' * d + r';
    NextMultiple(q', q, d);
    NextMultiple(q, q', d);
  }

  /** Between `a * c` and `b * c` with `a < b` there is room for at least `c`. */
  lemma NextMultiple(a: int, b: int, c: int)
    ensures (a + 1) * c == a * c + c
    ensures a < b && 0 <= c ==> (a + 1) * c <= b * c
  {
    if 0 <= c {
      MulMono(a + 1, b, c);
    }
  }

  /** The rectangle holds exactly `width * height` cells. */
  lemma {:induction false} RectangleSize(width: nat, height: nat)
    ensures |Rectangle(width, height)| == width * height
  {
    if height > 0 {
      var above, row := Rectangle(width, height - 1), RowPrefix(width, height - 1);
      RectangleSize(width, height - 1);
      RectangleAddRow(width, height - 1);
      RowPrefixSize(width, height - 1);
      assert above !! row;
      assert |above + row| == |above| + |row|;
      NextMultiple(height - 1, height - 1, width);
      MulComm(height, width);
      MulComm(height - 1, width);
    }
  }

  /** Row `y` holds `n` cells in its first `n` columns. */
  lemma {:induction false} RowPrefixSize(n: nat, y: nat)
    ensures |RowPrefix(n, y)| == n
  {
    if n > 0 {
      RowPrefixSize(n - 1, y);
      assert RowPrefix(n, y) == RowPrefix(n - 1, y) + {(n - 1, y)};
    }
  }

  /** A full row added under `y` rows makes `y + 1` rows. */
  lemma RectangleAddRow(width: nat, y: nat)
    ensures Rectangle(width, y) + RowPrefix(width, y) == Rectangle(width, y + 1)
  {
  }

  // ---------------------------------------------------------------------------
  // The decoder

  /** Storing the entry of cell (x, y) extends a decoded grid by that cell. */
  lemma AddCell(b: seq<byte>, tiles: int, width: nat, cells: map<(nat, nat), nat>, x: nat, y: nat)
    requires CellsDecoded(b, tiles, width, cells)
    requires 0 <= tiles + 2 * CellIndex(width, x, y) && tiles + 2 * CellIndex(width, x, y) + 2 <= |b|
    requires cells.Keys == Rectangle(width, y) + RowPrefix(x, y)
    ensures var cells' := cells[(x, y) := BlockIndex(ReadU16(b, tiles + 2 * CellIndex(width, x, y)))];
      && CellsDecoded(b, tiles, width, cells')
      && cells'.Keys == Rectangle(width, y) + RowPrefix(x + 1, y)
  {
    assert RowPrefix(x + 1, y) == RowPrefix(x, y) + {(x, y)};
  }

  /** An entry of the rectangle outside the image means the grid does not fit. */
  lemma EntryOutside(b: seq<byte>, tiles: int, width: nat, height: nat, x: nat, y: nat)
    requires x < width && y < height
    requires tiles + 2 * CellIndex(width, x, y) < 0 || tiles + 2 * CellIndex(width, x, y) + 2 > |b|
    ensures !GridFits(b, tiles, width, height)
  {
    CellBelowArea(width, height, x, y);
  }

  /** The outer grid loop of read_map: visit the rows in order, keeping the
      block index of every entry under its (x, y) key. The counter `i` walks
      the entries in storage order, so it is `CellIndex(width, 0, y)` at the
      start of row `y`. The first entry outside the image fails. */
  method ReadCells(b: seq<byte>, tiles: int, width: nat, height: nat)
    returns (r: Result<map<(nat, nat), nat>>)
    ensures r.Ok? <==> GridFits(b, tiles, width, height)
    ensures r.Ok? ==>
      && r.value.Keys == Rectangle(width, height)
      && |r.value| == width * height
      && CellsDecoded(b, tiles, width, r.value)
  {
    var cells: map<(nat, nat), nat> := map[];
    var i := 0;
    var y := 0;
    while y < height
      invariant 0 <= y <= height
      invariant i == CellIndex(width, 0, y)
      invariant cells.Keys == Rectangle(width, y)
      invariant CellsDecoded(b, tiles, width, cells)
      invariant i > 0 ==> 0 <= tiles && tiles + 2 * i <= |b|
    {
      var row := ReadRow(b, tiles, width, height, y, i, cells);
      if row.Err? {
        return Err(row.error);
      }
      cells := row.value;
      NextMultiple(y, y, width);
      i := i + width;
      y := y + 1;
    }
    MulComm(height, width);
    RectangleSize(width, height);
    return Ok(cells);
  }

  /** The inner grid loop of read_map: the entries of row `y`, left to right,
      starting at entry `i`. */
  method ReadRow(b: seq<byte>, tiles: int, width: nat, height: nat, y: nat, i: nat,
                 cells: map<(nat, nat), nat>)
    returns (r: Result<map<(nat, nat), nat>>)
    requires y < height && i == CellIndex(width, 0, y)
    requires cells.Keys == Rectangle(width, y)
    requires CellsDecoded(b, tiles, width, cells)
    requires i > 0 ==> 0 <= tiles && tiles + 2 * i <= |b|
    ensures r.Err? ==> !GridFits(b, tiles, width, height)
    ensures r.Ok? ==>
      && r.value.Keys == Rectangle(width, y + 1)
      && CellsDecoded(b, tiles, width, r.value)
      && (i + width > 0 ==> 0 <= tiles && tiles + 2 * (i + width) <= |b|)
  {
    var row := cells;
    var j := i;
    var x := 0;
    while x < width
      invariant 0 <= x <= width
      invariant j == CellIndex(width, x, y)
      invariant row.Keys == Rectangle(width, y) + RowPrefix(x, y)
      invariant CellsDecoded(b, tiles, width, row)
      invariant j > 0 ==> 0 <= tiles && tiles + 2 * j <= |b|
    {
      if tiles + j * 2 < 0 {
        EntryOutside(b, tiles, width, height, x, y);
        return Err(NegativeOffset(tiles + j * 2));
      }
      if tiles + (j + 1) * 2 > |b| {
        EntryOutside(b, tiles, width, height, x, y);
        return Err(ShortRead(tiles + j * 2));
      }
      var entry := ReadU16(b, tiles + j * 2);
      AddCell(b, tiles, width, row, x, y);
      row := row[(x, y) := BlockIndex(entry)];
      j := j + 1;
      x := x + 1;
    }
    RectangleAddRow(width, y);
    return Ok(row);
  }

  /** read_map: decode the header, then the cell grid it points to. Returns
      the block index of every cell and the tileset pointer. */
  method ReadMap(b: seq<byte>, headerPointer: nat) returns (r: Result<MapData>)
    ensures r.Ok? <==>
      && ReadHeader(b, headerPointer).Ok?
      && var hd := ReadHeader(b, headerPointer).value;
         GridFits(b, hd.tiles, hd.width, hd.height)
    ensures r.Ok? ==>
      var hd := ReadHeader(b, headerPointer).value;
      && r.value.tileset == hd.tileset
      && r.value.cells.Keys == Rectangle(hd.width, hd.height)
      && |r.value.cells| == hd.width * hd.height
      && CellsDecoded(b, hd.tiles, hd.width, r.value.cells)
      && forall p :: p in r.value.cells ==> r.value.cells[p] < 0x400
  {
    var header := ReadHeader(b, headerPointer);
    if header.Err? {
      return Err(header.error);
    }
    var hd := header.value;
    var cells := ReadCells(b, hd.tiles, hd.width, hd.height);
    if cells.Err? {
      return Err(cells.error);
    }
    return Ok(MapData(cells.value, hd.tileset));
  }
}
