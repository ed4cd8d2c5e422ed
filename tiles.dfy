/**
  The tile type of tiles.go and the per-input record the driver in
  cmd/bmp2chr.go works on.
 */
module Tiles {
  import opened Bytes
  import opened Wrappers

  /** Pixels in one 8x8 tile. */
  const TileSize: nat := 64

  /** One 8x8 tile: a palette index per pixel, row-major. */
  type Tile = t: seq<byte> | |t| == TileSize witness seq(TileSize, _ => 0)

  /**
    An input as the driver sees it: its tiles in row-major tile order, the
    number of tiles in one tile row, the image height in pixels, and, for an
    input named by a JSON configuration, the slot offset of each tile.
   */
  datatype InputBitmap = InputBitmap(
    tiles: seq<Tile>,
    tilesPerRow: nat,
    height: nat,
    indices: Option<seq<int>>)

  /**
    The shape the (unmodelled) tile slicer gives every accepted bitmap: a
    positive row width, a height that is a multiple of 8, and one tile per
    8x8 block.
   */
  predicate WellFormed(b: InputBitmap) {
    && b.tilesPerRow > 0
    && b.height % 8 == 0
    && |b.tiles| == b.tilesPerRow * (b.height / 8)
  }
}
