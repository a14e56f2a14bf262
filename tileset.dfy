/** The tile graphics of a tileset: unpacking 4-bit pixels and colouring them.

    The tile bitmap is stored compressed; the decompressed buffer packs each
    8x8 tile into 32 bytes, two pixels per byte, low nibble first. Each pixel
    is an index into a fixed 16-colour palette. The tiles are laid out on a
    canvas 16 tiles wide, every pixel drawn as a 2x2 square.
 */
module Tileset {
  import opened Rom

  /** Bytes in one packed tile. */
  const TileBytes: nat := 32

  /** Pixels in one tile (8 rows of 8). */
  const TilePixels: nat := 64

  /** Side, in canvas units, of the square one pixel is drawn as. */
  const PixelSize: nat := 2

  /** Tiles per canvas row. */
  const TilesPerRow: nat := 16

  datatype Rgb = Rgb(red: nat, green: nat, blue: nat)

  /** The fixed palette the tiles are drawn with. */
  const Palette: seq<Rgb> := [
    Rgb(0, 0, 0),
    Rgb(184, 248, 136),
    Rgb(128, 208, 96),
    Rgb(56, 144, 48),
    Rgb(56, 88, 16),
    Rgb(112, 96, 96),
    Rgb(64, 56, 48),
    Rgb(248, 0, 248),
    Rgb(136, 216, 184),
    Rgb(248, 192, 112),
    Rgb(232, 128, 104),
    Rgb(192, 48, 64),
    Rgb(160, 224, 192),
    Rgb(112, 200, 160),
    Rgb(64, 176, 136),
    Rgb(24, 160, 104)
  ]

  /** A `side` x `side` square of colour at (x, y) on the canvas. */
  datatype Square = Square(x: nat, y: nat, side: nat, colour: Rgb)

  /** Pixel `j` of the tile packed at `i`: the low nibble of byte `i + j / 2`
      when `j` is even, its high nibble when `j` is odd. */
  function Pixel(image: seq<byte>, i: nat, j: nat): (px: nat)
    requires i + j / 2 < |image|
    ensures px < 16
  {
    if j % 2 == 0 then image[i + j / 2] % 0x10 else image[i + j / 2] / 0x10
  }

  /** The 64 pixels of the tile packed at `i`. */
  function UnpackTile(image: seq<byte>, i: nat): (tile: seq<nat>)
    requires i + TileBytes <= |image|
  {
    seq(TilePixels, j requires 0 <= j < TilePixels => Pixel(image, i, j))
  }

  /** A tile of 64 pixels, each a palette index. */
  predicate IsTile(tile: seq<nat>)
  {
    |tile| == TilePixels && forall j :: 0 <= j < |tile| ==> tile[j] < 16
  }

  /** The inverse of unpacking: two pixels per byte, the even one in the low nibble. */
  function PackTile(tile: seq<nat>): (packed: seq<byte>)
    requires IsTile(tile)
  {
    seq(TileBytes, k requires 0 <= k < TileBytes => tile[2 * k] + 0x10 * tile[2 * k + 1])
  }

  /** Unpacking a tile gives 64 palette indices, which pack back into the 32
      bytes they came from. */
  lemma PackUnpack(image: seq<byte>, i: nat)
    requires i + TileBytes <= |image|
    ensures IsTile(UnpackTile(image, i))
    ensures PackTile(UnpackTile(image, i)) == image[i..i + TileBytes]
  {
    var tile := UnpackTile(image, i);
    forall k | 0 <= k < TileBytes
      ensures PackTile(tile)[k] == image[i + k]
    {
      assert tile[2 * k] == image[i + k] % 0x10;
      assert tile[2 * k + 1] == image[i + k] / 0x10;
    }
  }

  /** Packing a tile and unpacking it again gives the tile back. */
  lemma UnpackPack(tile: seq<nat>)
    requires IsTile(tile)
    ensures UnpackTile(PackTile(tile), 0) == tile
  {
    var packed := PackTile(tile);
    forall j | 0 <= j < TilePixels
      ensures Pixel(packed, 0, j) == tile[j]
    {
      var k := j / 2;
      assert packed[k] == tile[2 * k] + 0x10 * tile[2 * k + 1];
      SplitByte(tile[2 * k + 1], tile[2 * k]);
    }
  }

  /** A byte built from two nibbles splits back into them. */
  lemma SplitByte(high: nat, low: nat)
    requires high < 0x10 && low < 0x10
    ensures (low + 0x10 * high) % 0x10 == low
    ensures (low + 0x10 * high) / 0x10 == high
  {
  }

  // ---------------------------------------------------------------------------
  // Canvas layout

  /** Canvas column of pixel `j` of tile `t`. */
  function ScreenX(t: nat, j: nat): nat
  {
    (t % TilesPerRow) * 16 + (j % 8) * PixelSize
  }

  /** Canvas row of pixel `j` of tile `t`. */
  function ScreenY(t: nat, j: nat): nat
  {
    (t / TilesPerRow) * 16 + (j / 8) * PixelSize
  }

  /** The tile drawn at canvas position (x, y). */
  function TileAt(x: nat, y: nat): nat
  {
    (y / 16) * TilesPerRow + x / 16
  }

  /** The pixel, within its tile, drawn at canvas position (x, y). */
  function PixelAt(x: nat, y: nat): nat
  {
    ((y % 16) / PixelSize) * 8 + (x % 16) / PixelSize
  }

  /** Every pixel of every tile gets its own square: positions are even, inside
      a canvas 256 units wide, and the position gives back the tile and pixel.
      So no two pixels are drawn over each other. */
  lemma ScreenPositionInverse(t: nat, j: nat)
    requires j < TilePixels
    ensures ScreenX(t, j) % PixelSize == 0 && ScreenY(t, j) % PixelSize == 0
    ensures ScreenX(t, j) < TilesPerRow * 16
    ensures TileAt(ScreenX(t, j), ScreenY(t, j)) == t
    ensures PixelAt(ScreenX(t, j), ScreenY(t, j)) == j
  {
    var x, y := ScreenX(t, j), ScreenY(t, j);
    assert x % PixelSize == 0 && y % PixelSize == 0 by {
      Halve(t % TilesPerRow * 8 + j % 8);
      Halve(t / TilesPerRow * 8 + j / 8);
    }
    assert TileAt(x, y) == t by {
      ScreenDigits(t, j);
    }
    assert PixelAt(x, y) == j by {
      ScreenDigits(t, j);
      Halve(j % 8);
      Halve(j / 8);
    }
  }

  /** The canvas coordinates of pixel `j` of tile `t`, split at 16: the tile's
      column and row, and the pixel's offset inside the tile. */
  lemma ScreenDigits(t: nat, j: nat)
    requires j < TilePixels
    ensures ScreenX(t, j) / 16 == t % 16 && ScreenX(t, j) % 16 == (j % 8) * 2
    ensures ScreenY(t, j) / 16 == t / 16 && ScreenY(t, j) % 16 == (j / 8) * 2
  {
    SplitSixteen(t % TilesPerRow, (j % 8) * PixelSize);
    SplitSixteen(t / TilesPerRow, (j / 8) * PixelSize);
  }

  /** Doubling then halving gives the number back, and the double is even. */
  lemma Halve(k: nat)
    ensures (k * 2) / 2 == k && (k * 2) % 2 == 0
  {
  }

  /** `16 * q + r` with `r < 16` splits back into `q` and `r`. */
  lemma SplitSixteen(q: nat, r: nat)
    requires r < 16
    ensures (q * 16 + r) / 16 == q && (q * 16 + r) % 16 == r
  {
  }

  /** The square pixel `j` of tile `t` is drawn as. */
  function SquareFor(tiles: seq<seq<nat>>, t: nat, j: nat): Square
    requires t < |tiles| && IsTile(tiles[t]) && j < TilePixels
  {
    Square(ScreenX(t, j), ScreenY(t, j), PixelSize, Palette[tiles[t][j]])
  }

  // ---------------------------------------------------------------------------
  // The decoder

  /** The pointer to the compressed tile bitmap, stored 4 bytes into the
      tileset header at `tilesetPointer`. */
  function TileImagePointer(b: seq<byte>, tilesetPointer: int): (r: Result<int>)
    ensures r.Ok? <==> 0 <= tilesetPointer + 4 && tilesetPointer + 8 <= |b|
    ensures r.Ok? ==> r.value == ReadPointer(b, tilesetPointer + 4)
  {
    PointerAt(b, tilesetPointer + 4)
  }

  /** The unpacking loop of draw_tileset: one tile per 32-byte group of the
      decompressed buffer, 64 pixels each. A buffer whose length is not a
      multiple of 32 makes the last group index past its end. */
  method UnpackTiles(image: seq<byte>) returns (r: Result<seq<seq<nat>>>)
    ensures r.Ok? <==> |image| % TileBytes == 0
    ensures r.Err? ==> r.error == IndexOutOfRange(|image|)
    ensures r.Ok? ==>
      && |r.value| == |image| / TileBytes
      && forall t :: 0 <= t < |r.value| ==>
           && IsTile(r.value[t])
           && r.value[t] == UnpackTile(image, TileBytes * t)
           && PackTile(r.value[t]) == image[TileBytes * t..TileBytes * t + TileBytes]
  {
    var tiles: seq<seq<nat>> := [];
    var i := 0;
    while i < |image|
      invariant i == TileBytes * |tiles| && i <= |image|
      invariant forall t :: 0 <= t < |tiles| ==>
        && IsTile(tiles[t])
        && tiles[t] == UnpackTile(image, TileBytes * t)
        && PackTile(tiles[t]) == image[TileBytes * t..TileBytes * t + TileBytes]
    {
      var tile := ReadTile(image, i);
      if tile.Err? {
        return Err(tile.error);
      }
      PackUnpack(image, i);
      tiles := tiles + [tile.value];
      i := i + TileBytes;
    }
    return Ok(tiles);
  }

  /** The inner unpacking loop of draw_tileset: the 64 pixels of the tile
      starting at byte `i`. When fewer than 32 bytes are left, the first
      index past the end is the buffer's length. */
  method ReadTile(image: seq<byte>, i: nat) returns (r: Result<seq<nat>>)
    requires i < |image|
    ensures r.Ok? <==> i + TileBytes <= |image|
    ensures r.Err? ==> r.error == IndexOutOfRange(|image|)
    ensures r.Ok? ==> r.value == UnpackTile(image, i)
  {
    var tile: seq<nat> := [];
    var j := 0;
    while j < TilePixels
      invariant 0 <= j <= TilePixels && |tile| == j
      invariant i + (j - 1) / 2 < |image|
      invariant forall k :: 0 <= k < j ==> tile[k] == Pixel(image, i, k)
    {
      var index := i + j / 2;
      if index >= |image| {
        return Err(IndexOutOfRange(index));
      }
      var px: nat := image[index];
      if j % 2 == 0 {
        px := px % 0x10;
      } else {
        px := px / 0x10;
      }
      tile := tile + [px];
      j := j + 1;
    }
    return Ok(tile);
  }

  /** The drawing loop of draw_tileset, without the drawing: tile `t` goes to
      row `t / 16`, column `t % 16` of the canvas, and each of its pixels
      becomes a 2x2 square in the palette colour it indexes. */
  method PaintTiles(tiles: seq<seq<nat>>) returns (squares: seq<Square>)
    requires forall t :: 0 <= t < |tiles| ==> IsTile(tiles[t])
    ensures |squares| == TilePixels * |tiles|
    ensures forall k :: 0 <= k < |squares| ==>
      squares[k] == SquareFor(tiles, k / TilePixels, k % TilePixels)
  {
    squares := [];
    var t := 0;
    while t < |tiles|
      invariant 0 <= t <= |tiles|
      invariant |squares| == TilePixels * t
      invariant forall k :: 0 <= k < |squares| ==>
        squares[k] == SquareFor(tiles, k / TilePixels, k % TilePixels)
    {
      var x := (t % TilesPerRow) * 16;
      var y := (t / TilesPerRow) * 16;
      var j := 0;
      while j < TilePixels
        invariant 0 <= j <= TilePixels
        invariant |squares| == TilePixels * t + j
        invariant forall k :: 0 <= k < |squares| ==>
          squares[k] == SquareFor(tiles, k / TilePixels, k % TilePixels)
      {
        var colour := Palette[tiles[t][j]];
        var square := Square(x + (j % 8) * PixelSize, y + (j / 8) * PixelSize, PixelSize, colour);
        DivModUnique64(t, j);
        squares := squares + [square];
        j := j + 1;
      }
      t := t + 1;
    }
  }

  /** Square `64 * t + j` of the list belongs to pixel `j` of tile `t`. */
  lemma DivModUnique64(t: nat, j: nat)
    requires j < TilePixels
    ensures (TilePixels * t + j) / TilePixels == t && (TilePixels * t + j) % TilePixels == j
  {
  }

  /** draw_tileset from the decompressed tile bitmap on: read the bitmap
      pointer, unpack the tiles, colour their pixels. Every pixel is below 16,
      so every palette lookup is in range, and the buffer yields two squares
      per byte. */
  method DrawTileset(b: seq<byte>, tilesetPointer: int, image: seq<byte>) returns (r: Result<seq<Square>>)
    ensures r.Ok? <==> TileImagePointer(b, tilesetPointer).Ok? && |image| % TileBytes == 0
    ensures r.Ok? ==>
      && |r.value| == 2 * |image|
      && forall k :: 0 <= k < |r.value| ==>
           var t, j := k / TilePixels, k % TilePixels;
           && TileBytes * t + j / 2 < |image|
           && r.value[k] == Square(ScreenX(t, j), ScreenY(t, j), PixelSize,
                                   Palette[Pixel(image, TileBytes * t, j)])
  {
    var pointer := TileImagePointer(b, tilesetPointer);
    if pointer.Err? {
      return Err(pointer.error);
    }
    var tiles := UnpackTiles(image);
    if tiles.Err? {
      return Err(tiles.error);
    }
    var squares := PaintTiles(tiles.value);
    return Ok(squares);
  }
}
