# sprite2asm in Dafny

A verified model of the two converters of sprite2asm, which turn indexed-colour
images into Commodore 64 data listings (`!byte $xx,...` rows):

- **Sprite2asm** reads an image whose file name carries options (`-bgX`, `-fgX`,
  `-mcXY`, `-chXX`, `-syXX`). In sprite mode it cuts the image into 24x21-pixel
  sprites, row by row from `-syXX` down, packs every non-empty sprite into 63
  bytes (plus a 64th byte that stays 0) and lists it with its number and
  position. In charset mode (`-chXX`) it cuts the image into 8x8 cells,
  packs each into 8 bytes, deduplicates them into a set of at most 256
  characters, moves an empty character found later to the front, and lists the
  set and the character map (each cell's character index plus the offset). It
  warns when the labels run past 255.
- **Ldtk2asm** converts the tile layers of an LDtk level. Every cell of a layer
  names the top-left pixel of its tile in a tileset; the tile's characters are
  extracted, identical tiles share one entry of a 256-tile set, and the tile
  map lists each cell's tile index. The characters the tiles use are then
  compacted (character 0 first, the rest in first-seen order) into an optimized
  character set. The tiles are written as planes, one per position inside a
  tile. A `-chXX[YY]` option offsets the plane entries and can put character 0
  in its own slot `YY`.

Java `byte`s are modelled as the unsigned value of their eight bits
(`Bytes.byte`); the cast `(byte)x` is `ToByte`, and the signed reading Java uses
in comparisons is `Signed`. Java's truncating `/` on negative tile coordinates is
`TileLayer.JavaDiv`. Exceptions the Java code would raise (an array index out of
bounds, a division by zero inside `appendByteRows`) are error results
(`CharsetFailure`, `TileFailure`), never preconditions.

The modules follow the program:

| module | models |
|---|---|
| `Bytes` | Java bytes, `containsAnyBits` |
| `BlockDictionary` | the lookup (`findInCharset`, `findTile`) and the first-seen dictionary both converters build |
| `SpriteSettings` | the option fields of Sprite2asm (a class) and `updateSettings` |
| `PixelEncoding` | `remapPixel` and `extractObject` (bit packing into a buffer) |
| `ByteRows` | `appendByteRows`, with a reference layout `Rows` it is proved equal to |
| `CharsetBuilder` | the charset mode: cell loop, empty-character promotion, listings, warning |
| `SpriteSheet` | the sprite mode |
| `TileSettings` | the option fields of Ldtk2asm (a class), `updateSettings`, the plane-entry rule |
| `TileLayer` | the tile loop and `findTile` |
| `CharCompaction` | `usedChars`, the optimized character set, the tile planes |
| `LayerConversion` | one tile layer end to end |

Facts about the code that the model keeps:

- Colours come from the options and the transparent index; nothing learns
  colour roles from the image. The pixel width is one setting for the whole
  image, not chosen per cell or per sprite, and Ldtk2asm writes no
  colour-attribute plane.
- `-chXXYY` does not reserve slot `YY`: it lowers the offset by one
  (Ldtk2asm.java:41) and writes `YY` for character 0 (Ldtk2asm.java:128), so the
  character numbered `YY-XX+1` is written as `YY` too
  (`TileSettings.PlaneEntrySlotShared`).
- A tile holds `T·T` character numbers, one per 8x8 cell of a `T`-character
  square, and nothing else.
- `extractObject` writes `width*height/8` bytes: its `x += pixelWidth` loop
  shifts in one code per step (8 bytes per cell and 63 per sprite in both pixel
  widths).
- A layer with fewer `gridTiles` than cells fails (`MissingTiles`) where Java
  indexes past the end of the array; there is no dedicated check.

## Model

| member | source | states |
|---|---|---|
| Bytes.ContainsAnyBits | Sprite2asm.java:216-223 | true exactly when some byte of the block is non-zero |
| BlockDictionary.Find | Sprite2asm.java:239-251 | the first index whose block equals the given one; the count when there is none, and no earlier entry matches |
| BlockDictionary.Chunks | Sprite2asm.java:244 | the flat buffer read as `count` blocks of `size` entries, block `i` entry `j` at `i*size+j` |
| BlockDictionary.ChunksAt | Ldtk2asm.java:174 | block `i`, entry `j` of the chunked view is entry `i*size+j` of the buffer |
| BlockDictionary.ChunksConcat | Sprite2asm.java:188 | the first `count` blocks laid back to back are the first `count*size` entries of the buffer |
| BlockDictionary.ChunkMatch | Sprite2asm.java:244 | block `i` of the chunked view equals a block exactly when every entry `k` of the block equals buffer entry `i*size+k` |
| BlockDictionary.BlockMatches | Sprite2asm.java:243-246 | the inner comparison loop: true exactly when every entry of the block equals the buffer entry at `base` plus its position |
| BlockDictionary.Build | Sprite2asm.java:153-173 | defines the dictionary both converters build (also Ldtk2asm.java:86-98): each block is looked up, an unseen one is appended while there is room, and the first unseen block that finds the dictionary full ends the build, incomplete |
| BlockDictionary.BuildSound | Sprite2asm.java:153-173 | the dictionary holds at most `capacity` distinct blocks; every recorded block is indexed by its (only) equal entry; the recorded blocks are a prefix of the input, all of it unless the dictionary filled up; indices are numbered in first-seen order and every entry is used |
| BlockDictionary.BuildSize | Ldtk2asm.java:92-96 | the dictionary fits its capacity and holds no more entries than recorded blocks; a build is complete exactly when it recorded every block, and an incomplete one has a full dictionary |
| BlockDictionary.BuildNumbering | Sprite2asm.java:156-163 | new entries get the next index: every index below a recorded one occurs before it, and every entry is used |
| BlockDictionary.BuildGrowth | Sprite2asm.java:157-163 | one more block adds at most one entry and one index |
| BlockDictionary.BuildIdempotent | Sprite2asm.java:156-157 | recording a block that was just recorded again adds no entry and repeats its index |
| BlockDictionary.BuildStopped | Sprite2asm.java:164-168 | once a block found the dictionary full, nothing after it changes the result |
| BlockDictionary.BuildMonotone | Sprite2asm.java:171 | the indices recorded for a prefix of the input are a prefix of those recorded for the whole |
| SpriteSettings.Converter.constructor | Sprite2asm.java:39-45 | hires, no foreground, background 0, multicolours 1 and 2, sprite mode, y-offset 0 |
| SpriteSettings.Converter.UpdateSettings | Sprite2asm.java:99-127 | background from `-bgX` or the transparent index, `-bgX`/`-fgX` force hires and `-mcXY` multicolour, foreground/offset/y-offset reset when their option is absent, multicolours kept; the settings stay valid |
| PixelEncoding.RemapPixel | Sprite2asm.java:52-77 | every code fits the pixel width: below 2 in hires, below 4 in multicolour |
| PixelEncoding.HiresCodes | Sprite2asm.java:54-60 | hires: with a foreground the code is 1 exactly for the foreground, otherwise 0 exactly for the background |
| PixelEncoding.MulticolourFixedCodes | Sprite2asm.java:61-75 | multicolour: code 0 exactly for the background, code 1 exactly for multicolour 1 when it is not the background, and codes stay below 4 |
| PixelEncoding.CharSpriteAsymmetry | Sprite2asm.java:62-74 | in multicolour, a charset code is the sprite code with codes 2 and 3 exchanged; in charset mode code 2 is multicolour 2 among the colours that are neither background nor multicolour 1 |
| PixelEncoding.ShiftIn | Sprite2asm.java:86-87 | shifting a code into a byte: the low `pixelWidth` bits of the result are the code and the rest are the old byte moved up, its top bits dropped |
| PixelEncoding.UnpackPack | Sprite2asm.java:86-87 | shifting codes into a byte loses none of them: unpacking the byte gives the codes back |
| PixelEncoding.PackCodesLength | Sprite2asm.java:89-93 | a code stream packs into one byte per 8 bits of codes; a trailing partial byte is not stored |
| PixelEncoding.PackedObjectLength | Sprite2asm.java:79-96 | the packed bytes of an object number exactly `ObjectBytes` |
| PixelEncoding.ObjectBytesCount | Sprite2asm.java:84 | for an even width, an object packs into `width*height/8` bytes in both pixel widths |
| PixelEncoding.CellBytes | Sprite2asm.java:199-202 | an 8x8 cell packs into 8 bytes and a 24x21 sprite into 63, in both pixel widths |
| PixelEncoding.ExtractObject | Sprite2asm.java:79-96 | the buffer starts with the object's codes packed, first code in the highest bits, and the rest of the buffer is untouched |
| PixelEncoding.PackRow | Sprite2asm.java:84-94 | one row of the object: afterwards the buffer, `bufoffset`, `bitcount` and `b` hold the accumulator fed with that row's codes in order, the bytes completed so far stored and the rest of the buffer untouched |
| PixelEncoding.ShiftPixel | Sprite2asm.java:86-92 | one code shifted into `b`; when `bitcount` reaches 8 the full byte is stored at `bufoffset` and the accumulator restarts empty, so the variables hold the accumulator fed with the code |
| ByteRows.HexByteParse | Sprite2asm.java:229 | a byte literal `$xx` reads back as the byte it was written from |
| ByteRows.HexByteInjective | Sprite2asm.java:229 | different bytes get different literals |
| ByteRows.HexByte | Sprite2asm.java:229 | a byte literal is three characters, a `$` and two digits |
| ByteRows.Rows | Sprite2asm.java:225-237 | defines the reference layout: the bytes cut into rows of `wrap`, the last one shorter, each written as the directive, the literals separated by commas and a newline |
| ByteRows.SplitShape | Sprite2asm.java:227-236 | the rows number `ceil(len/wrap)`; every row holds `wrap` bytes except a last, shorter one |
| ByteRows.SplitFlatten | Sprite2asm.java:227-236 | the rows put back together are the input |
| ByteRows.WrittenComplete | Sprite2asm.java:234-236 | what the loop writes is the reference layout, with the closing newline added when the last row is partial |
| ByteRows.AppendByteRows | Sprite2asm.java:225-237 | appends exactly the reference layout of the first `len` bytes in rows of `wrap` |
| ByteRows.RowsCounts | Sprite2asm.java:225-237 | the listing holds one `$` per byte and one newline per row |
| CharsetBuilder.CellsCount | Sprite2asm.java:153-154 | the cell loop visits `width/8` cells per complete 8-pixel band |
| CharsetBuilder.EmptyIndex | Sprite2asm.java:160-162 | the position of the first empty character of the set, or -1 when none is empty |
| CharsetBuilder.BlankIffZero | Sprite2asm.java:160 | a cell is the empty character exactly when it contains no bits |
| CharsetBuilder.SwapFirst | Sprite2asm.java:176-177 | the set after the swap is a permutation exchanging entries 0 and `e` and keeping the rest |
| CharsetBuilder.LabelInjective | Sprite2asm.java:171 | two characters get the same map byte exactly when they are the same character |
| CharsetBuilder.LabelValue | Sprite2asm.java:171 | the map byte is index plus offset, wrapped past 255 |
| CharsetBuilder.Label | Sprite2asm.java:171 | the map byte of a character is its index plus the offset, modulo 256 |
| CharsetBuilder.Relabel | Sprite2asm.java:178-184 | the corrected relabelling: the result is the offset's label exactly when the input is the empty character's label, and the other way round; every other label is kept |
| CharsetBuilder.RelabelAsWritten | Sprite2asm.java:178-184 | the loop as written: below offset 128 it is `Relabel`; from 128 on it keeps every byte but the empty character's label |
| CharsetBuilder.RelabelSwaps | Sprite2asm.java:178-184 | relabelling exchanges the labels of characters 0 and `e` and keeps every other label |
| CharsetBuilder.RelabelAgree | Sprite2asm.java:179 | below offset 128 the loop as written relabels as intended |
| CharsetBuilder.RelabelCounterexample | Sprite2asm.java:179 | with offset 128 and the empty character at index 1, the loop as written maps both labels to 128 |
| CharsetBuilder.RelabelAsWrittenMisses | Sprite2asm.java:179 | from offset 128 on, the loop as written never relabels character 0, while the intended relabelling moves it to `e` |
| CharsetBuilder.WarningExact | Sprite2asm.java:192-195 | no warning exactly when no label wraps; with one, exactly the last `n` characters wrap, and the suggested offset is the largest that keeps all labels below 256 |
| CharsetBuilder.OverflowWarning | Sprite2asm.java:192-195 | a warning exactly when uniques plus offset pass 256; its first number is positive, its second plus the uniques is 256, and the two add up to the offset |
| CharsetBuilder.PromotedDictSound | Sprite2asm.java:174-177 | promotion permutes the set, keeps it duplicate-free, finds every character at its promoted index, and puts the empty character first |
| CharsetBuilder.PromotedLabelsSound | Sprite2asm.java:178-184 | after promotion every map byte is the label of its character's promoted index |
| CharsetBuilder.PromotedShowsCells | Sprite2asm.java:144-185 | the promoted set and map describe the image: each recorded cell's map byte labels a set character equal to the cell, and every empty cell gets the offset itself |
| CharsetBuilder.FindInCharset | Sprite2asm.java:239-251 | returns the lookup `Find` of the cell in the first `count` characters |
| CharsetBuilder.AddChar | Sprite2asm.java:158-163 | storing a new cell in the next slot keeps set, map and empty index equal to the build extended by the cell |
| CharsetBuilder.StoreChar | Sprite2asm.java:159 | the cell is copied into slot `slot`; all other bytes of the set are unchanged |
| CharsetBuilder.RecordCell | Sprite2asm.java:156-171 | one cell: the set is full exactly when the build stops there, the map overflow is reported, and otherwise set, map and empty index match the build extended by the cell |
| CharsetBuilder.ScanCell | Sprite2asm.java:155-171 | one cell of the inner loop, with the cells seen so far growing by that cell |
| CharsetBuilder.ScanRow | Sprite2asm.java:154-172 | one band of cells: either all of it recorded, or the loop stopped on a full set or map, with the state matching the build of the cells seen |
| CharsetBuilder.ScanCells | Sprite2asm.java:153-173 | the cell loop: map overflow exactly when the build records more than 1000 cells, otherwise the set, map and empty index are those of the build over all the cells, stopped exactly when the set filled up |
| CharsetBuilder.ScanStopped | Sprite2asm.java:167-168 | ending the loop on a full set gives the same result as looking at every remaining cell |
| CharsetBuilder.MoveEmptyChar | Sprite2asm.java:175-177 | the set afterwards is the set with characters 0 and `e` exchanged |
| CharsetBuilder.RelabelMap | Sprite2asm.java:178-184 | the first `mapSize` map bytes are relabelled, the rest unchanged |
| CharsetBuilder.PromoteEmptyChar | Sprite2asm.java:174-185 | the set and map afterwards are the promoted set and map of the build |
| CharsetBuilder.ListCharmap | Sprite2asm.java:186-190 | the two listings are the set in rows of 8 bytes and the map in rows of `wrap` |
| CharsetBuilder.CharsetConversion | Sprite2asm.java:144-195 | a successful conversion has at most 256 uniques and no more than 1000 cells, at least one per unique, and warns exactly when uniques plus offset pass 256 |
| CharsetBuilder.ConvertCharset | Sprite2asm.java:144-195 | the charset conversion's result is `CharsetConversion`: the promoted listings, their counts and the warning, or the error for a map overflow or an image narrower than a cell |
| SpriteSheet.SpriteBytes | Sprite2asm.java:199-202 | a sprite is 64 bytes |
| SpriteSheet.StepsExact | Sprite2asm.java:200-201 | the loop reaches exactly the positions a whole number of steps from its start that leave room for an object |
| SpriteSheet.OnSheetGrid | Sprite2asm.java:200-201 | sprites sit on a 24-pixel column grid and a 21-pixel row grid from the y-offset, inside the image |
| SpriteSheet.RowSound | Sprite2asm.java:201-203 | every sprite listed from a row lies in that row, on the grid, and is non-empty with its packed bytes |
| SpriteSheet.RowOrdered | Sprite2asm.java:201 | sprites of a row are listed left to right |
| SpriteSheet.RowComplete | Sprite2asm.java:201-203 | every non-empty sprite position of a row is listed |
| SpriteSheet.SheetSound | Sprite2asm.java:200-203 | every listed sprite lies on the sheet grid and is non-empty with its packed bytes |
| SpriteSheet.SheetOrdered | Sprite2asm.java:200-201 | sprites are listed top to bottom, and left to right within a row |
| SpriteSheet.SheetComplete | Sprite2asm.java:200-203 | every non-empty sprite position on the sheet is listed |
| SpriteSheet.SheetExact | Sprite2asm.java:200-203 | the listed sprites are exactly the non-empty grid positions, in reading order |
| SpriteSheet.SpriteConversionExact | Sprite2asm.java:196-211 | the output numbers the sprites 0, 1, 2, …, lists exactly the non-empty grid positions in reading order, and gives each one its 64 bytes in rows of 24 |
| SpriteSheet.SpriteConversion | Sprite2asm.java:196-211 | the listed sprites are numbered 0, 1, 2, … in order |
| SpriteSheet.ListSprite | Sprite2asm.java:202-209 | one position: listed with the next number when non-empty, skipped otherwise; the unwritten 64th byte stays 0 |
| SpriteSheet.ConvertSpriteRow | Sprite2asm.java:201-210 | one row of positions adds exactly that row's non-empty sprites |
| SpriteSheet.ConvertSprites | Sprite2asm.java:196-211 | the sprite conversion's result is `SpriteConversion` |
| TileSettings.TileOptions.constructor | Ldtk2asm.java:19-20 | offset 0 and no slot for character 0 |
| TileSettings.TileOptions.UpdateSettings | Ldtk2asm.java:35-44 | `-chXX` sets the offset; `-chXXYY` sets the slot of character 0 to YY and the offset to XX-1; without a match nothing changes; values stay within a byte |
| TileSettings.SignedCut | Ldtk2asm.java:128 | reading the compacted number back as a signed byte does not change the entry written |
| TileSettings.PlaneEntryOffset | Ldtk2asm.java:128 | without a slot for character 0, an entry is the character's number plus the offset, cut to a byte |
| TileSettings.PlaneEntryPair | Ldtk2asm.java:128 | with `-chXXYY`, character 0 is written as YY and character `k > 0` as `XX+k-1` |
| TileSettings.PlaneEntrySlotShared | Ldtk2asm.java:128 | with `-chXXYY` and `XX <= YY`, character `YY-XX+1` is written as YY, the same entry as character 0 |
| TileSettings.PlaneEntry | Ldtk2asm.java:128 | an entry is the character's number plus the offset modulo 256, except character 0 with a slot, which is written as the slot modulo 256 |
| TileLayer.JavaDiv | Ldtk2asm.java:89-90 | Java's division truncates toward zero: the remainder lies in `0..d-1` for a non-negative coordinate and in `-(d-1)..0` for a negative one |
| TileLayer.JavaDivSymmetric | Ldtk2asm.java:89-90 | the division is odd-symmetric and maps a non-negative coordinate into `0..a` |
| TileLayer.LayerTiles | Ldtk2asm.java:86-91 | one extracted tile per cell, at the character position of its `src` pixel |
| TileLayer.LayerTilesSnoc | Ldtk2asm.java:88-91 | the tile of cell `n` is extracted at its `src` coordinates divided by 8 |
| TileLayer.TileBytes | Ldtk2asm.java:97 | one map byte per cell |
| TileLayer.TileStageSound | Ldtk2asm.java:86-98 | a successful tile loop looks at every cell, keeps at most 256 distinct tiles, and gives each cell a map byte equal to its tile's index, whose entry is that cell's tile |
| TileLayer.TileStage | Ldtk2asm.java:80-98 | a successful tile loop keeps at most 256 tiles and gives every cell a map entry; a layer with fewer `src` entries than cells fails |
| TileLayer.FindTile | Ldtk2asm.java:168-181 | returns the lookup `Find` of the tile in the first `tileCount` tiles |
| TileLayer.LoadTile | Ldtk2asm.java:91 | the tile buffer holds the extracted tile |
| TileLayer.StoreTile | Ldtk2asm.java:94 | the tile is copied into slot `slot`; all other entries of the tile set are unchanged |
| TileLayer.AddTile | Ldtk2asm.java:93-95 | storing a new tile in the next slot keeps the tile set equal to the build extended by it |
| TileLayer.TilesStore | Ldtk2asm.java:93-95 | storing a new tile keeps the tile set equal to the build extended by it, with zeros beyond |
| TileLayer.TilesOverflow | Ldtk2asm.java:94 | once a tile finds the set full, the whole layer fails |
| TileLayer.RecordTile | Ldtk2asm.java:92-97 | one cell: overflow exactly when the build stops there, otherwise tile set and map match the build extended by the cell's tile |
| TileLayer.NextTile | Ldtk2asm.java:86-98 | one iteration of the tile loop, from extraction to the map byte |
| TileLayer.BuildTiles | Ldtk2asm.java:80-98 | the tile loop fails exactly when `TileStage` fails, with the same error; otherwise map and tile set are those of the build, zeros beyond |
| CharCompaction.IndexOf | Ldtk2asm.java:109-110 | the position of the first occurrence, or the length when there is none |
| CharCompaction.FirstSeenSound | Ldtk2asm.java:108-114 | the used list holds every key exactly once and nothing else |
| CharCompaction.FirstSeenOrdered | Ldtk2asm.java:108-114 | the used list follows the order of first occurrence |
| CharCompaction.UsedCharsSound | Ldtk2asm.java:103-114 | character 0 is numbered 0; the used characters are exactly 0 and those of the tile set, each once, numbered in first-seen order |
| CharCompaction.UsedChars | Ldtk2asm.java:106-114 | the used list is never empty and starts with character 0 |
| CharCompaction.UsedMap | Ldtk2asm.java:106-114 | exactly the used characters have a number, and when there are at most 256 of them each number is a position of the list holding that character |
| CharCompaction.UsedCovers | Ldtk2asm.java:126 | every character of the tile set has a number, so the lookup in the plane loop always succeeds |
| CharCompaction.UsedCharNumber | Ldtk2asm.java:106-110 | a used character's number points back to it, and the number is 0 exactly for character 0 |
| CharCompaction.UsedNumbersDistinct | Ldtk2asm.java:110 | different characters get different numbers |
| CharCompaction.UsedCharsZeros | Ldtk2asm.java:83 | the unused zero tail of the tile set adds no character |
| CharCompaction.UsedMapStep | Ldtk2asm.java:110 | a new character is mapped to the current count, and the other mappings are kept |
| CharCompaction.GatheredSlot | Ldtk2asm.java:111 | slot `k` of the optimized set holds the 8 bytes of the `k`-th used character |
| CharCompaction.CharsFit | Ldtk2asm.java:101-111 | the used characters always fit into an optimized set as long as the source set |
| CharCompaction.CopyChar | Ldtk2asm.java:111 | the character's 8 bytes are copied into slot `slot`; all other bytes of the optimized set are unchanged |
| CharCompaction.CompactFailure | Ldtk2asm.java:104-111 | no failure exactly when the source set holds character 0 and every character of the tile set; a `BadChar` failure names a character outside the set |
| CharCompaction.CompactStep | Ldtk2asm.java:109-113 | one tile-set entry: either the compaction state extends by it, or a `BadChar` failure when some character lies outside the set |
| CharCompaction.CompactChars | Ldtk2asm.java:100-114 | fails exactly as the `arraycopy` calls do (no character 0, or a character outside the set); otherwise count, `usedChars` and the optimized set are the used list, its numbering and its characters gathered in order |
| CharCompaction.ChunksCovered | Ldtk2asm.java:126 | every tile position has a number once the whole tile set does |
| CharCompaction.FillRow | Ldtk2asm.java:125-129 | plane `c` holds, per tile, the entry of its character at position `c` |
| CharCompaction.EmitPlane | Ldtk2asm.java:124-130 | one plane, listed in one row of `count` entries |
| CharCompaction.EmitPlanes | Ldtk2asm.java:123-131 | one listing per tile position, each the plane of that position |
| LayerConversion.CharsetNote | Ldtk2asm.java:134-139 | defines the note above the character set: with a slot for character 0 the start at offset+1 and the slot, else a nonzero offset as the start, else no note |
| LayerConversion.NoteMatchesPlanes | Ldtk2asm.java:128-139 | the note agrees with the planes: with a slot, character 0 is written as the slot the note names and character 1 as the start it names; without one, character 0 is written as the start, or as 0 when there is no note |
| LayerConversion.NoteOfPair | Ldtk2asm.java:134-136 | with `-chXXYY` the note says characters start at XX and character 0 goes to YY |
| LayerConversion.TileStageShape | Ldtk2asm.java:83-97 | a successful tile loop keeps at most 256 tiles, each of `tileSize` characters |
| LayerConversion.CompactionShape | Ldtk2asm.java:100-114 | after a successful compaction every used character lies in the set and every tile position has a number |
| LayerConversion.CompactionRoundTrip | Ldtk2asm.java:104-111 | each tile position's character has a number `n`, number 0 only for character 0, and slot `n` of the optimized set holds exactly that character's bytes |
| LayerConversion.PlaneRoundTrip | Ldtk2asm.java:124-128 | the entry of tile `i` in plane `p` is the number of the character at position `p` of the tile, written with the `-chXX[YY]` rule |
| LayerConversion.FlatTilesOf | Ldtk2asm.java:83-97 | the tile set the loop leaves is the distinct tiles back to back, then zeros |
| LayerConversion.TileMapBytes | Ldtk2asm.java:97 | a map written cell by cell with `(byte)tilenr` is `TileBytes` of the indices |
| LayerConversion.ListLayer | Ldtk2asm.java:119 | the map is listed in rows of the layer width and the optimized set in rows of 8 |
| LayerConversion.ListingsOf | Ldtk2asm.java:116-140 | the listings made from the arrays are those `Listings` defines from the built tile set |
| LayerConversion.Listings | Ldtk2asm.java:116-140 | the listings hold one plane per tile position, at most 256 tiles, and at least one character |
| LayerConversion.EmittableOf | Ldtk2asm.java:100-114 | the arrays the tile loop and the compaction leave satisfy everything the listings need |
| LayerConversion.EmitLayer | Ldtk2asm.java:116-140 | the tile map, planes, optimized set, counts and note listed are `Listings` |
| LayerConversion.ConvertLayer | Ldtk2asm.java:80-140 | the layer conversion's result is `TileConversion`: errors in Java's order (tile loop, compaction, zero width, no tiles), otherwise the listings |
| LayerConversion.TileConversion | Ldtk2asm.java:80-140 | a layer with fewer `src` entries than cells fails; a successful conversion has one plane per tile position and at most 256 tiles |

## Left out

- Image loading, the palette check and the transparent index (Sprite2asm.java:129-142): the raster and the transparent index are inputs.
- Reading the LDtk JSON and checking its file type (Ldtk2asm.java:46-74, 147-166): a layer is given as its size, grid size and `src` coordinates.
- Regular-expression matching of options: the options arrive parsed (`SpriteSettings.Options`, `TileSettings.ChOption`).
- Header lines, dates, level and layer names, and printing to standard output and standard error. The model keeps what those lines report (counts, numbers, positions, the warning's two numbers, the note) and the `!byte` listings.
- Sprite2asm's `load`, `buildCharmap`, `extractTile` and `charset` field, which Ldtk2asm calls (Ldtk2asm.java:75-79, 91, 101), are not part of this model. The tile extractor is a function parameter whose results have `tileSize` entries, and the tileset's character set is an input array.
- Java `int` overflow in products such as `width*height`, `charnr*8` and `tileSetCount*tileSize`, and a negative array size from a negative layer size: Dafny integers are unbounded and layer sizes are natural numbers.
- The tile planes are kept as separate listings (`TileOutput.planes`); Java appends them to one `StringBuilder`.
- Concurrency: the program has none.
- CharsetBuilder.ConvertCharset: relabels the map with the corrected `Relabel`, not the loop as written (Sprite2asm.java:179). From `-ch80` to `-chFF`, with an empty character found after the first, its map therefore differs from the Java program's (see Findings); `RelabelAsWritten` models what Java does.
- CharsetBuilder.CharsetConversion: is defined with the corrected `Relabel` for the same reason, so for offsets 128 to 255 with the empty character at an index above 0 it describes the intended map, not Java's.

## Findings

| source | as written | input that shows it | evidently intended | confidence | as-written member | corrected member |
|---|---|---|---|---|---|---|
| Sprite2asm.java:179 | `charmap[i] == chOffset` compares the map's signed byte with the int offset, which is never equal once the offset is 128 or more | `-ch80` (offset 128), an image whose second distinct cell is empty: labels 128 and 129 both become 128 | the labels of character 0 and of the empty character are exchanged | not executed | CharsetBuilder.RelabelAsWritten, CharsetBuilder.RelabelCounterexample, CharsetBuilder.RelabelAsWrittenMisses | CharsetBuilder.Relabel, CharsetBuilder.RelabelSwaps, CharsetBuilder.RelabelMap, CharsetBuilder.PromoteEmptyChar, CharsetBuilder.CharsetConversion, CharsetBuilder.ConvertCharset |
