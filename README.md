# bmp2chr in Dafny

A verified model of the core of bmp2chr. The program converts 128-pixel-wide
indexed bitmaps into the pattern-table ("CHR") tile format of 8-bit consoles.
The model covers two parts of the program.

- **The bitmap reader** (`bitmap.go`). It decodes the little-endian fields of
  BITMAPFILEHEADER and BITMAPINFOHEADER that the converter needs. It accepts
  only images 128 pixels wide with a height that is a multiple of 8. It cuts
  out the pixel data as the suffix of the file starting at the pixel-data
  offset.
- **The driver** (`cmd/bmp2chr.go`). It covers:
  - the default output name;
  - the case-sensitive whitelist of input extensions and the lower-cased
    dispatch on them;
  - pattern-table assembly: a 256-slot table filled with the blank tile;
  - the optional 8x16 regrouping, which puts each tile next to the tile
    directly below it;
  - sequential placement from a running index that starts at 8, or placement
    at `index + Indices[k]` for an input with a configuration;
  - serialization of all 256 slots in slot order.

Modules:

| file | module | contents |
|---|---|---|
| `wrappers.dfy` | `Wrappers` | `Option`, `Result` |
| `bytes.dfy` | `Bytes` | 16- and 32-bit little-endian fields, and writers that are their inverses |
| `bitmap.dfy` | `Bitmap` | header parsers, `OpenBitmap`, each one as the source's guards have it and with the guards its reads need |
| `tiles.dfy` | `Tiles` | the 64-pixel `Tile` and the input record the driver works on |
| `arith.dfy` | `Arith` | a bound on multiples, and the uniqueness of Euclidean quotient and remainder |
| `regroup.dfy` | `Regroup` | the intended 8x16 order, the source's loop, and the loop with a corrected bound |
| `assembly.dfy` | `Assembly` | the table as values (`TableState`), the class `Table` that updates an `array<Tile>` in place, and `Convert`, the whole assembly |
| `cli.dfy` | `Cli` | `filepath.Ext`, the output name, the whitelist loops, the dispatch |

The parsers are pure functions on the file's bytes. Each one has an
`...AsWritten` twin that follows the source's length guards exactly.
`Outcome.OutOfRange` stands for a read or slice outside the file's bytes. In Go
this either panics or reads spare capacity of the slice, which is not part of
the file.

The driver's table is the class `Assembly.Table`. Each of its methods is proved
to perform one step of a value-level specification: `PlaceSequentially`,
`PlaceByConfig` and `Serialized`. The properties are proved about those
functions. The two 8x16 loops are methods whose result is tied to the
specification function `Regroup.Regrouped`. That function is proved to be a
permutation of the tiles, and band by band it is proved to be an interleaving
of the band's two tile rows.

## Model

| member | source | states |
|---|---|---|
| Bytes.LE16 | bitmap.go:104 | the 16-bit little-endian field is below 2^16; its low byte is s[at] and its high byte is s[at+1] |
| Bytes.LE32 | bitmap.go:67-68 | the 32-bit little-endian field is below 2^32; its low and high halves are the 16-bit fields at at and at+2 |
| Bytes.LE16Put16 | bitmap.go:104 | reading back a written 16-bit field gives the value written |
| Bytes.LE32Put32 | bitmap.go:67-68 | reading back a written 32-bit field gives the value written |
| Bytes.Put16LE16 | bitmap.go:104 | writing back the 16-bit value just read leaves the bytes unchanged |
| Bytes.Put32LE32 | bitmap.go:67-68 | writing back the 32-bit value just read leaves the bytes unchanged |
| Bytes.LE32Frame | bitmap.go:67-68 | a 32-bit field depends only on its own four bytes |
| Bitmap.ParseFileHeaderAsWritten | bitmap.go:61-70 | fails exactly when the input is shorter than 4 bytes; at 4..13 bytes it reads outside the input; otherwise it agrees with ParseFileHeader |
| Bitmap.ParseFileHeader | bitmap.go:65-69 | parses exactly when there are at least 14 bytes, and otherwise fails with the too-short error; size and offset are below 2^32 |
| Bitmap.FileHeaderRoundTrip | bitmap.go:67-69 | any size and offset below 2^32, written at bytes 2..6 and 10..14, are parsed back unchanged |
| Bitmap.FileHeaderWriteBack | bitmap.go:67-69 | writing back the parsed header reproduces the input |
| Bitmap.FileHeaderReadsOnlyItsFields | bitmap.go:65-68 | inputs that agree on bytes 2..6 and 10..14 parse to the same header |
| Bitmap.ParseImageHeaderAsWritten | bitmap.go:92-109 | fails exactly when the input is shorter than 26 bytes; at 26..41 bytes it reads outside the input; otherwise it agrees with ParseImageHeader |
| Bitmap.ParseImageHeader | bitmap.go:97-108 | parses exactly when there are at least 42 bytes; the five written fields fit 32 bits (16 for the bit depth); compression, resolutions and colour counts stay 0 |
| Bitmap.ImageHeaderRoundTrip | bitmap.go:98-106 | a header the parser can produce, written at offsets 14, 18, 22, 28 and 38, is parsed back unchanged |
| Bitmap.ImageHeaderWriteBack | bitmap.go:98-106 | writing back the parsed image header reproduces the input |
| Bitmap.OpenBitmapAsWritten | bitmap.go:15-49 | reads out of range exactly when a header guard is too weak for the length or the offset is past the end; otherwise it agrees with OpenBitmap |
| Bitmap.Accepted | bitmap.go:34-40 | an accepted header is 128 pixels wide, 16 tiles of 8, with a height that is a whole number of 8-pixel tile rows |
| Bitmap.OpenBitmap | bitmap.go:24-48 | success exactly for a full header, width 128, height a multiple of 8 and an offset inside the file; errors in the order file header, image header, width, height; on success the headers are the ones parsed from the file (size and offset from bytes 2..6 and 10..14), and Data is raw[Offset..], of length len(raw) - Offset |
| Bitmap.FileHeaderGuardTooWeak | bitmap.go:62-65 | a 4-byte input passes the guard and is then read out of range |
| Bitmap.ImageHeaderGuardTooWeak | bitmap.go:93-106 | a 26-byte input passes the guard and is then read out of range |
| Bitmap.OffsetPastEndIsSliced | bitmap.go:43-48 | a valid 42-byte image with offset 1000 is sliced past its end, where the checked reader reports the error |
| Regroup.Regrouped | cmd/bmp2chr.go:135-144 | the intended 8x16 order has as many tiles as the input |
| Regroup.PrefixGrows | cmd/bmp2chr.go:141-142 | each column appends the upper tile, then the tile one row below it |
| Regroup.PrefixNextBand | cmd/bmp2chr.go:137-139 | after the last column of a band, the order goes on with the next band |
| Regroup.PrefixAt | cmd/bmp2chr.go:141-142 | column k of a band puts the upper tile at start + 2k and the tile below it at start + 2k + 1 |
| Regroup.PrefixWithinBand | cmd/bmp2chr.go:136-143 | within a band, the order so far is a prefix of the order at any later column |
| Regroup.PrefixAcrossBands | cmd/bmp2chr.go:136-143 | the order so far is a prefix of the order at the start of any later band |
| Regroup.PrefixMonotone | cmd/bmp2chr.go:136-143 | the order only grows: an earlier point is a prefix of any later one |
| Regroup.PrefixPermutes | cmd/bmp2chr.go:136-143 | at any point the output holds exactly the bands passed plus the columns of both rows done so far, as a multiset |
| Regroup.RegroupedPermutes | cmd/bmp2chr.go:130-144 | the intended order is a permutation of the tiles: none lost, none duplicated |
| Regroup.PrefixOfRegrouped | cmd/bmp2chr.go:136-143 | the order up to any point is the start of the whole intended order |
| Regroup.RegroupedAt | cmd/bmp2chr.go:141-142 | output tiles start + 2c and start + 2c + 1 are tile c of a band's upper row and the tile below it |
| Regroup.RegroupedBand | cmd/bmp2chr.go:130-133 | each band of the output is the band's upper row interleaved with its lower row |
| Regroup.BandAt | cmd/bmp2chr.go:141-142 | output position start + i of a band is, by the parity of i, the upper or the lower tile of column i/2 |
| Regroup.TwoRowsInterleave | cmd/bmp2chr.go:136-143 | with exactly two tile rows the output is the upper row interleaved with the lower row |
| Regroup.OrderStart | cmd/bmp2chr.go:130-132 | the output starts with tiles 0, TilesPerRow, 1, TilesPerRow + 1 ($00, $10, $01, $11 at 16 per row) |
| Regroup.HeadJumps | cmd/bmp2chr.go:137 | the jump test holds exactly when the counter is at the start of a later band |
| Regroup.JumpReaches | cmd/bmp2chr.go:137-139 | after the jump test the counter is column c of the current band |
| Regroup.AsWrittenContinues | cmd/bmp2chr.go:136 | the source's loop goes on exactly while fewer than AsWrittenLength tiles are out |
| Regroup.CorrectedContinues | cmd/bmp2chr.go:136 | the corrected loop goes on exactly while tiles are left |
| Regroup.Advance | cmd/bmp2chr.go:137-142 | one pass of the loop body appends Tiles[i] and Tiles[i+TilesPerRow], the next pair of the intended order |
| Regroup.RegroupAsWritten | cmd/bmp2chr.go:135-144 | the source's loop reads only inside the tile list and returns the first AsWrittenLength tiles of the intended order |
| Regroup.RegroupTiles | cmd/bmp2chr.go:135-144 | the loop with the corrected bound returns exactly the intended order |
| Regroup.AsWrittenBounded | cmd/bmp2chr.go:136-143 | the source's loop keeps every tile of a one-band image and drops tiles from taller images with at least two tiles per row |
| Regroup.TallImageDropsTiles | cmd/bmp2chr.go:136-143 | 64 tiles at 16 per row come out as 34 tiles |
| Assembly.InitialState | cmd/bmp2chr.go:116-128 | 256 slots, every one the blank tile, with the running index at 8 |
| Assembly.Splice | cmd/bmp2chr.go:158-162 | slot k holds tile k - at inside the written run and keeps its old tile outside it |
| Assembly.SpliceStep | cmd/bmp2chr.go:160 | writing the next tile extends the written run by one slot |
| Assembly.SequentialCount | cmd/bmp2chr.go:158-166 | all tiles fit, or exactly the slots up to 255 are used |
| Assembly.PlaceSequentially | cmd/bmp2chr.go:156-167 | tile k goes to slot index + k, every other slot keeps its tile, and the index advances by the tiles placed; it stops after slot 255; it is out of range exactly when the index is already 256 and there are tiles |
| Assembly.ConfigPlaced | cmd/bmp2chr.go:149-152 | writes by configuration keep the table at 256 slots |
| Assembly.ConfigUntouched | cmd/bmp2chr.go:149-152 | a slot no tile is mapped to keeps its previous tile |
| Assembly.ConfigLastWins | cmd/bmp2chr.go:149-152 | a slot several tiles are mapped to ends with the last of them |
| Assembly.PlaceByConfig | cmd/bmp2chr.go:147-154 | succeeds exactly when every tile has an offset and every index + offset is inside the table; on success the slots are those of ConfigPlaced, the writes in tile order, and the running index does not move |
| Assembly.RowsMakeBands | cmd/bmp2chr.go:134 | an even number of tile rows makes whole two-row bands |
| Assembly.Regroups | cmd/bmp2chr.go:134 | an input is regrouped only in 8x16 mode and only when it has an even number of tile rows |
| Assembly.DoubleHighBands | cmd/bmp2chr.go:134 | an image whose height is a multiple of 16 has whole bands |
| Assembly.TilesToPlace | cmd/bmp2chr.go:134-145 | regrouped exactly when 8x16 mode is on and the height is a multiple of 16, otherwise unchanged; always a permutation of the input's tiles |
| Assembly.PlaceInput | cmd/bmp2chr.go:147-168 | placing one input keeps the table valid |
| Assembly.Assemble | cmd/bmp2chr.go:129-169 | placing the inputs in order keeps 256 slots and the index between 8 and 256 |
| Assembly.FullTableOverflows | cmd/bmp2chr.go:158-163 | once the index is 256, a later input with tiles and no configuration writes out of range |
| Assembly.SequentialFirstInputs | cmd/bmp2chr.go:128-168 | a first input of 248 tiles or more fills the table up to slot 255, and a second sequential input then writes out of range |
| Assembly.Serialized | cmd/bmp2chr.go:171-182 | each slot's encoding appended in slot order 0, 1, 2, ...; its layout is stated by Assembly.SerializedLayout and Table.Serialize is proved equal to it |
| Assembly.SerializedLayout | cmd/bmp2chr.go:171-182 | with a 16-byte encoding, the output has 16 bytes per slot, and bytes 16k..16k+16 encode slot k |
| Assembly.Table.constructor | cmd/bmp2chr.go:116-128 | a fresh array of 256 blank tiles with the index at 8 |
| Assembly.Table.PlaceSequential | cmd/bmp2chr.go:156-167 | the in-place loop performs PlaceSequentially on the same array, and changes nothing when it reports failure |
| Assembly.Table.PlaceConfigured | cmd/bmp2chr.go:147-154 | the in-place loop performs PlaceByConfig and never moves the index |
| Assembly.Table.Serialize | cmd/bmp2chr.go:171-182 | the output is every slot's encoding in slot order |
| Assembly.Convert | cmd/bmp2chr.go:116-182 | the whole assembly: the encoded table of Assemble, or nothing when an input writes outside the table |
| Cli.Ext | cmd/bmp2chr.go:49 | the extension is a suffix of the path; it is empty or starts with its only '.'; it holds no '/'; it is empty only when the final path element has no '.' |
| Cli.Stem | cmd/bmp2chr.go:50 | stem followed by extension gives the path back |
| Cli.ExtOfAppended | cmd/bmp2chr.go:49-50 | a suffix starting with '.' and holding no other '.' or '/' is the extension of any path it ends |
| Cli.OutputName | cmd/bmp2chr.go:40-55 | no inputs is an error; -o wins when given; one input gives its stem + ".chr"; more inputs without -o is an error |
| Cli.DerivedNameIsChr | cmd/bmp2chr.go:46-51 | a derived output name has extension .chr and keeps the input's stem |
| Cli.Supported | cmd/bmp2chr.go:14 | a file is whitelisted exactly when its extension is ".bmp" or ".json", compared case-sensitively |
| Cli.IsSupported | cmd/bmp2chr.go:58-64 | found holds exactly when the extension equals one of the whitelist entries |
| Cli.FirstUnsupported | cmd/bmp2chr.go:57-69 | it reports the first file that is not whitelisted, or none when all are |
| Cli.CheckCommandLine | cmd/bmp2chr.go:40-69 | the output-name errors come first; the run goes ahead exactly when there is a name and every input is whitelisted; otherwise it names the first unsupported file, every file before it being whitelisted |
| Cli.LowerChar | cmd/bmp2chr.go:84 | ASCII upper-case letters move to lower case and other characters stay |
| Cli.Lower | cmd/bmp2chr.go:84 | lower-casing keeps the length and maps each character |
| Cli.Dispatch | cmd/bmp2chr.go:84-106 | the lower-cased extension ".bmp" gives BitmapFile, ".json" gives ConfigFile, and any other extension the panic branch |
| Cli.SupportedNeverPanics | cmd/bmp2chr.go:84-106 | a whitelisted file takes the .bmp or the .json branch, never the panic |
| Cli.UpperCaseRefused | cmd/bmp2chr.go:58-64 | "TILES.BMP" is refused by the whitelist, although the dispatch would read it as a bitmap |

## Left out

- Reading files, creating the output, writing it and loading `blank.bmp` are left out (bitmap.go:18, cmd/bmp2chr.go:71-76, 117-122, 176-181). The parsers take the file's bytes, the blank tile is a parameter and the output is a byte sequence.
- Flag parsing, glob expansion, printing and `os.Exit` are left out (cmd/bmp2chr.go:21-38 and the messages). Errors are `Result` values and the input files are a sequence of names.
- config.go is not part of this model. A configured input carries its `Indices` as `InputBitmap.indices`.
- Tile slicing, `TilesPerRow`, `Rect`, `HasConfig`, `ToChr` and `ASCII` are defined outside the modelled files. The input record `Tiles.InputBitmap` stands for the sliced bitmap, and `height` stands for `Rect().Max.Y`. `Tiles.WellFormed` is the shape the slicer is taken to produce. `ToChr` is the parameter `encode`, so the bitplane layout is not modelled.
- Go's randomized map iteration over the inputs is not modelled (cmd/bmp2chr.go:78, 129). The inputs are placed in the caller's order. Duplicate file names collapse into one map entry in the source; the model keeps them.
- The debug dump to `upright.dat` and the debug printing of tiles are left out (cmd/bmp2chr.go:93-99, 172-174).
- Cli.LowerChar, Cli.Lower: lower-case ASCII letters only, where Go's `strings.ToLower` also folds other Unicode letters. The whitelist only admits `.bmp` and `.json`, so the dispatch of an accepted file does not depend on this.
- Bitmap.ParseFileHeaderAsWritten: `OutOfRange` does not say whether Go panics or reads spare capacity of the slice returned by the file reader. Which one happens depends on the capacity, which the model does not track.
- Go's `int` is taken to be 64 bits wide. The 32-bit fields then never wrap when converted, and they are modelled as `nat`.
- Assembly.Table.PlaceConfigured: when it reports failure, it does not state which slots were written before the failing write. The source panics at that write and the table is never used again.
- Assembly.Convert: the driver is modelled with the corrected 8x16 loop `Regroup.RegroupTiles`. The source's loop is modelled separately as `Regroup.RegroupAsWritten` (see Findings).
- Assembly.TilesToPlace: the driver's specification functions `TilesToPlace`, `PlaceInput` and `Assemble` use the corrected 8x16 order `Regroup.Regrouped`. For images of two or more bands, the source's loop (cmd/bmp2chr.go:136-143) yields only a prefix of that order (see Findings), so their permutation property holds of the corrected driver, not of the source's.
- After the table is full, a later sequential input indexes slot 256 (cmd/bmp2chr.go:160); the model reports failure where Go panics.
- A configured write outside the table (cmd/bmp2chr.go:151) is an index out of range in Go; the model reports failure.
- Cli.Ext: '/' is the only path separator. On Windows, Go's `filepath.Ext` also stops at '\\'; that case is not modelled.

## Findings

| source | as written | input that shows it | evidently intended | confidence | as-written member | corrected member |
|---|---|---|---|---|---|---|
| bitmap.go:62 | `len(input) < 4` guards a read of `input[0:14]` | a 4-byte file `00 00 00 00` | reject inputs shorter than 14 bytes with "Data too short for header" | high; not executed | Bitmap.ParseFileHeaderAsWritten, Bitmap.FileHeaderGuardTooWeak | Bitmap.ParseFileHeader |
| bitmap.go:93 | `len(input) < 14+12` guards reads up to `input[38:42]` | a 26-byte file of zeros | reject inputs shorter than 42 bytes with "Data too short for image header" | high; not executed | Bitmap.ParseImageHeaderAsWritten, Bitmap.ImageHeaderGuardTooWeak | Bitmap.ParseImageHeader |
| bitmap.go:47 | `rawBmp[fileHeader.Offset:len(rawBmp)]` with no check of the offset | a 42-byte file, width 128, height 0, pixel-data offset 1000 | report an error when the offset is past the end of the file | high; not executed | Bitmap.OpenBitmapAsWritten, Bitmap.OffsetPastEndIsSliced | Bitmap.OpenBitmap |
| cmd/bmp2chr.go:136 | loop bound `i < len(bitmap.Tiles)/2` on a counter that also jumps over the lower rows | a 128x32 image in 8x16 mode: 64 tiles at 16 per row give 34 tiles, not 64 | every tile regrouped, with the bound `i+TilesPerRow < len(Tiles)` | high; not executed | Regroup.RegroupAsWritten, Regroup.TallImageDropsTiles | Regroup.RegroupTiles |
