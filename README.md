# pokemap: a verified model of the map decoder core

`pokemap.py` reads a Game Boy Advance cartridge image and decodes the map
data of the game it holds. It walks a two-level pointer table of map
"banks", decodes one map's header and cell grid, and unpacks the 4-bit
tile graphics of the map's tileset, colouring each pixel from a fixed
16-colour palette. This project models that byte-level decoding in Dafny
and proves what it returns.

The cartridge image is a `seq<byte>` (bytes are integers below 256).
Everywhere the Python code would raise, the model returns an error value:

- `ShortRead(offset)`: `struct.unpack` was given a slice shorter than its format.
- `IndexOutOfRange(index)`: an index past the end of the tile buffer.
- `NegativeOffset(offset)`: a read at a negative offset (see "Left out").

The project has four modules:

- `Rom` (`rom.dfy`): the image and its address scheme. It defines
  `read_int`, `read_pointer` and `is_pointer`, the byte encoders used to
  state round trips, and the checked reads that fail where the decoder
  would raise.
- `BankIndex` (`bank_index.dfy`): `find_banks`.
  - The two scans are specification functions. `PointerRun` is the
    bank-table scan. `ScanTable` is the map-table scan, whose stop test
    `offset == next_pointer` runs after the increment.
  - `FindBanks` is the method that runs the loops as the source does. It is
    proved equal to the specification `Banks`.
  - Lemmas characterise what the scans return.
- `MapGrid` (`map_grid.dfy`): `read_map`. It covers the five header reads
  and the row-major cell-grid loops that fill a map keyed by `(x, y)`.
- `Tileset` (`tileset.dfy`): the drawing part of `draw_tileset`. It covers
  the tile-bitmap pointer, the nibble-unpacking loops, and the palette
  lookup and canvas position of every pixel. The decompressed bitmap is an
  input, and each `pygame.draw.rect` call becomes a `Square` value.

## Model

| member | source | states |
|---|---|---|
| Rom.ReadInt | pokemap.py:159-160 | the little-endian word at `o` is below 2^32; reading requires 4 bytes at `o` |
| Rom.ReadIntBytes | pokemap.py:159-160 | reading the four little-endian bytes of any 32-bit word gives the word back |
| Rom.IntBytesReadInt | pokemap.py:159-160 | encoding the word read at `o` reproduces the four image bytes it was read from |
| Rom.ReadU16 | pokemap.py:84-85 | the `'<H'` value read for a cell entry is below 2^16 |
| Rom.U16RoundTrip | pokemap.py:84-85 | 16-bit read and encode are inverse in both directions |
| Rom.ReadPointer | pokemap.py:155-157 | a resolved pointer lies in `[-0x8000000, 2^32 - 0x8000000)` |
| Rom.PointerRoundTrip | pokemap.py:155-157 | adding the load address `0x8000000` back to a resolved pointer gives the stored word, byte for byte |
| Rom.IsPointer | pokemap.py:152-153 | a word counts as a pointer exactly when it is greater than `0x8000000` |
| Rom.EncodedPointer | pokemap.py:152-157 | a word written for offset `p` resolves to `p` and counts as a pointer iff `p > 0`, so a zero word ends a table |
| Rom.IntAt | pokemap.py:159-160 | a word read succeeds exactly when all 4 bytes lie inside the image; a short read fails as `ShortRead`, and a negative offset gives `NegativeOffset` (see "Left out") |
| Rom.PointerAt | pokemap.py:155-160 | a pointer read succeeds exactly when all 4 bytes lie inside the image; a short read fails as `ShortRead`, and a negative offset gives `NegativeOffset` (see "Left out") |
| BankIndex.PointerRun | pokemap.py:38-42 | every pointer the bank-table scan collects is positive |
| BankIndex.ScanTable | pokemap.py:51-58 | every pointer a map-table scan collects is positive |
| BankIndex.ScanTableResult | pokemap.py:51-58 | a successful scan returns the pointers read at `o, o+4, ...`, never passes `next` before its last entry, and stops either at a non-pointer word or right after the entry whose following offset is `next` |
| BankIndex.ScanTableFailure | pokemap.py:51-58 | a failed scan read short at an offset aligned with `o`, past the end of the image, after a run of pointers it did not stop in |
| BankIndex.ScanTableComplete | pokemap.py:51-58 | conversely, any run of pointers ending at one of the two stops is exactly what the scan returns |
| BankIndex.ScanWithoutBound | pokemap.py:49-58 | when `next` is at or before the start, or not a multiple of 4 away, the stop test never fires; the last bank's scan (`next = 0`) is the plain pointer run |
| BankIndex.ScanStopsAtNextTable | pokemap.py:52-58 | when the next table starts `4m` bytes after `o`, the scan returns at most `m` entries, and it cannot fail if that region lies inside the image |
| BankIndex.ScanReadsBeforeNext | pokemap.py:52-58 | the scan bounded by a next table `4m` bytes ahead reads nothing at or beyond `next`: two images that agree on the bytes from `o` to `next` give the same scan |
| BankIndex.BankPointersMaximal | pokemap.py:38-42 | the bank pointers are the maximal run of positive pointers at `start, start+4, ...`; the word after them is not a pointer |
| BankIndex.CollectShape | pokemap.py:46-61 | collecting scan results succeeds iff all succeed, and then keeps one value per scan in order |
| BankIndex.BanksShape | pokemap.py:46-63 | find_banks returns one map list per bank pointer in bank order; list `i` is bank `i`'s scan bounded by bank `i+1`'s start, or by 0 for the last bank; it fails iff one of the scans fails |
| BankIndex.ReadBankPointers | pokemap.py:38-42 | the bank-pointer loop computes the bank-table scan |
| BankIndex.ScanMapTable | pokemap.py:51-58 | the map-pointer loop, with its break after the increment, computes the map-table scan |
| BankIndex.FindBanks | pokemap.py:35-63 | find_banks as written computes `Banks`, the specification the lemmas above describe |
| MapGrid.ReadHeader | pokemap.py:66-71 | the header decodes iff the header pointer and the 20-byte data block lie in the image; width and height are the words at +0 and +4, and the border, grid and tileset pointers are at +8, +12 and +16 |
| MapGrid.BlockIndex | pokemap.py:87 | the block index kept for a cell is below 1024 |
| MapGrid.RowMajor | pokemap.py:80-92 | cell `(x, y)` of the rectangle has entry index `y*width + x` below `width*height`, and that index divides back into `x` and `y` |
| MapGrid.RowMajorInverse | pokemap.py:80-92 | every index below `width*height` is the entry of exactly one cell of the rectangle |
| MapGrid.RectangleSize | pokemap.py:82-83 | the rectangle of visited cells has exactly `width*height` elements |
| MapGrid.AddCell | pokemap.py:84-90 | storing cell `(x, y)`'s masked entry extends a correctly decoded grid by that key |
| MapGrid.EntryOutside | pokemap.py:84-85 | an entry of the rectangle outside the image means the grid does not fit the image |
| MapGrid.ReadRow | pokemap.py:83-92 | one row of the loop adds the `width` keys of row `y`, each the masked entry at `tiles + 2*(y*width + x)`, or fails only if the grid does not fit |
| MapGrid.ReadCells | pokemap.py:78-92 | the grid loops succeed iff the `width*height` entries lie in the image; the result has exactly the keys `(x, y)`, `x < width`, `y < height`, each holding the masked entry at `tiles + 2*(y*width + x)` |
| MapGrid.ReadMap | pokemap.py:65-94 | read_map succeeds iff the header and its grid lie in the image; it returns the tileset pointer and `width*height` cells, each below 1024 |
| Tileset.Pixel | pokemap.py:124-129 | every unpacked pixel is below 16, so the palette lookup is in range |
| Tileset.PackUnpack | pokemap.py:121-131 | a tile unpacked from 32 bytes has 64 pixels below 16, and they pack back into those bytes (low nibble first) |
| Tileset.UnpackPack | pokemap.py:121-131 | packing a tile and unpacking it gives the tile back |
| Tileset.ScreenPositionInverse | pokemap.py:133-142 | each pixel's square lies at even coordinates in a 256-wide canvas, and its position gives back the tile and the pixel, so no two squares overlap |
| Tileset.TileImagePointer | pokemap.py:96-97 | the tile-bitmap pointer is the pointer 4 bytes into the tileset header; the read fails outside the image |
| Tileset.ReadTile | pokemap.py:123-130 | the inner loop yields the 64 pixels of the tile at `i`, or fails at index `len(image)` when fewer than 32 bytes are left |
| Tileset.UnpackTiles | pokemap.py:121-131 | unpacking succeeds iff the buffer length is a multiple of 32, giving one tile per 32-byte group; otherwise it fails at index `len(image)` |
| Tileset.PaintTiles | pokemap.py:133-142 | square `64t + j` is pixel `j` of tile `t`, at column `t%16`, row `t/16` of the canvas, in the palette colour the pixel indexes |
| Tileset.DrawTileset | pokemap.py:95-142 | from a decompressed buffer, drawing yields two squares per byte; each has the palette colour of its nibble at the tile's canvas position |

## Left out

- `main`, `OptionParser` and the fixed `banks[3][0]` selection (pokemap.py:14-30) are command-line plumbing. The bank-table offset `0x3526A8` that main passes is not a constant of the model; `find_banks` takes its start offset as a parameter.
- The hexadecimal-string parse of `find_banks`'s start offset (pokemap.py:36): the model takes the parsed offset as a natural number.
- `load_rom` (pokemap.py:32-33) is file I/O: the image is a parameter.
- `nlzss.lzss3.decompress_bytes` (pokemap.py:98) is a foreign codec and is not part of this model. Its output is a parameter of `Tileset.DrawTileset`, and a codec failure is not modelled.
- pygame (`init`, `set_mode`, `fill`, `draw.rect`, `flip`, and the endless event loop at pokemap.py:100-102, 141-150) is UI. Each `draw.rect` becomes a `Square` value; nothing is displayed.
- `debug` and `DEBUG_MODE` (pokemap.py:9-12, 21-23, 44, 60, 73-76, 88-89, 144) are logging only. The attribute bits `tile_data >> 10` (pokemap.py:86) are only logged, so they are not modelled.
- Rom.IntAt, Rom.PointerAt: these checked reads are where a read at a negative offset becomes `NegativeOffset`. Python's `read_int(bytes, -8)` reads `bytes[-8:-4]` and succeeds, so "succeeds exactly when all 4 bytes lie inside the image" holds only for non-negative offsets in the source.
- MapGrid.ReadHeader: a negative resolved offset is reported as `NegativeOffset`. Python would slice from the end of the image and read wrapped bytes.
- MapGrid.ReadCells: a negative cell offset is reported as `NegativeOffset`. Python would read wrapped bytes or an empty slice. The same applies to `MapGrid.ReadRow` and `MapGrid.ReadMap`.
- Tileset.TileImagePointer: a tileset pointer below -4 gives `NegativeOffset` rather than a wrapped read. For -4 to -1 the read is at offsets 0 to 3, as in Python.
- Tileset.ReadTile: `int(i + j / 2)` and `int(px / 0x10)` go through floating point in the source. For the non-negative integers involved they equal integer division, which is what the model uses.
- pokemap.py does not decode, so the model does not contain: a local tileset pointer at +20 of the map data block, the map's display label, palettes read from the cartridge, metatile blocks and their compositor, or connections between maps. The header read here has a single tileset pointer, at +16, and the tiles are coloured from a fixed palette.
