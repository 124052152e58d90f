/** The overhead map both renderers draw: the 16 * 16 tile map, one character
    per cell in row-major order (cell (i, j) at `i + j * 16`), scaled so that
    every non-space cell becomes a filled 32 * 32 square at
    (32 i, 32 j). In src/gameloop.cpp the square is `1024 / (16 * 2)` by
    `512 / 16` pixels; in raycasterfiles/rangefinder.cpp it is `512 / 16` by
    `512 / 16`; both are 32 * 32. */
module Minimap {
  import opened Machine
  import opened Framebuffer

  const MapWidth: Size := 16
  const MapHeight: Size := 16
  const CellSize: Size := 32

  /** The map literal holds exactly `map_width * map_height` cells, as both
      programs assert (`sizeof(map)` counts one more, the terminating NUL). */
  predicate WellFormed(tiles: seq<char>)
  {
    |tiles| == MapWidth * MapHeight
  }

  /** Screen pixel (px, py) lies in the square of a non-space map cell that
      the loop has drawn once it reached row j, column i (the cells before
      (i, j) in row-major order). */
  predicate DrawnBefore(tiles: seq<char>, px: int, py: int, j: int, i: int)
    requires WellFormed(tiles)
  {
    && 0 <= px < MapWidth * CellSize && 0 <= py < MapHeight * CellSize
    && (py / CellSize < j || (py / CellSize == j && px / CellSize < i))
    && tiles[px / CellSize + (py / CellSize) * MapWidth] != ' '
  }

  /** The frame once the loop has drawn the cells before (i, j). */
  function MinimapUpTo(s: seq<Word>, W: Size, H: Size, tiles: seq<char>, color: Word, j: int, i: int): (r: seq<Word>)
    requires |s| == W * H && 0 < W && WellFormed(tiles)
    ensures |r| == |s|
  {
    seq(|s|, k requires 0 <= k < |s| => if DrawnBefore(tiles, k % W, k / W, j, i) then color else s[k])
  }

  /** The frame after the whole minimap loop. */
  function MinimapImage(s: seq<Word>, W: Size, H: Size, tiles: seq<char>, color: Word): (r: seq<Word>)
    requires |s| == W * H && 0 < W && WellFormed(tiles)
    ensures |r| == |s|
  {
    MinimapUpTo(s, W, H, tiles, color, MapHeight, 0)
  }

  /** Before the first cell nothing is drawn. */
  lemma MinimapStart(s: seq<Word>, W: Size, H: Size, tiles: seq<char>, color: Word)
    requires |s| == W * H && 0 < W && WellFormed(tiles)
    ensures MinimapUpTo(s, W, H, tiles, color, 0, 0) == s
  {
  }

  /** Finishing row j is starting row j + 1. */
  lemma MinimapRowDone(s: seq<Word>, W: Size, H: Size, tiles: seq<char>, color: Word, j: int)
    requires |s| == W * H && 0 < W && WellFormed(tiles)
    ensures MinimapUpTo(s, W, H, tiles, color, j, MapWidth) == MinimapUpTo(s, W, H, tiles, color, j + 1, 0)
  {
  }

  /** Visiting cell (i, j): a space leaves the frame as it is, any other symbol
      fills the cell's 32 * 32 square at (32 i, 32 j), which lies inside a
      frame of at least 512 * 512 pixels. */
  lemma MinimapStep(s: seq<Word>, W: Size, H: Size, tiles: seq<char>, color: Word, j: Size, i: Size)
    requires |s| == W * H && W >= MapWidth * CellSize && H >= MapHeight * CellSize && WellFormed(tiles)
    requires j < MapHeight && i < MapWidth
    ensures i * CellSize + CellSize <= W && j * CellSize + CellSize <= H
    ensures MinimapUpTo(s, W, H, tiles, color, j, i + 1) ==
      if tiles[i + j * MapWidth] == ' ' then MinimapUpTo(s, W, H, tiles, color, j, i)
      else Fill(MinimapUpTo(s, W, H, tiles, color, j, i), W, H, i * CellSize, j * CellSize,
                CellSize, CellSize, color, ClipAtWidth)
  {
    var t := MinimapUpTo(s, W, H, tiles, color, j, i);
    var r := MinimapUpTo(s, W, H, tiles, color, j, i + 1);
    if tiles[i + j * MapWidth] != ' ' {
      var f := Fill(t, W, H, i * CellSize, j * CellSize, CellSize, CellSize, color, ClipAtWidth);
      forall k | 0 <= k < |s| ensures r[k] == f[k] {
        FillInside(t, W, H, i * CellSize, j * CellSize, CellSize, CellSize, color, ClipAtWidth, k);
      }
    }
  }

  /** Only the squares of non-space cells change, and all of them lie in the
      top-left 512 * 512 pixels of the frame. */
  lemma MinimapConfined(s: seq<Word>, W: Size, H: Size, tiles: seq<char>, color: Word, k: int)
    requires |s| == W * H && 0 < W && WellFormed(tiles) && 0 <= k < |s|
    requires MinimapImage(s, W, H, tiles, color)[k] != s[k]
    ensures k % W < MapWidth * CellSize && k / W < MapHeight * CellSize
    ensures tiles[(k % W) / CellSize + (k / W) / CellSize * MapWidth] != ' '
  {
  }
}
