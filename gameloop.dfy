/** One frame of the interactive renderer of src/gameloop.cpp on its
    1024 * 512 framebuffer: the minimap in the left half, the player marker,
    one wall column per ray in the right half with the ray's trace in the
    minimap, then the frame is handed to the display and the buffer is
    cleared to light grey. Colours are packed with that program's ARGB
    `packcolor`. The player pose, the ray samples and the column heights are
    floating-point values in the source; they enter here as the integers the
    source derives from them. */
module Gameloop {
  import opened Machine
  import opened Framebuffer
  import opened Minimap
  import opened RayMarch
  import ArgbCodec

  const WindowWidth: Size := 1024
  const WindowHeight: Size := 512
  const RectWidth: Size := WindowWidth / (MapWidth * 2)
  const RectHeight: Size := WindowHeight / MapHeight

  /** The pixel count of the framebuffer. */
  const FrameSize: Size := WindowWidth * WindowHeight

  const White: Word := ArgbCodec.Pack(255, 255, 255)
  const Cyan: Word := ArgbCodec.Pack(0, 255, 255)
  const TraceGrey: Word := ArgbCodec.Pack(160, 160, 160)
  const ClearGrey: Word := ArgbCodec.Pack(200, 200, 200)

  /** The map literal of src/gameloop.cpp, row by row. */
  const GameMap: seq<char> :=
    "0000222222220000" +
    "1              0" +
    "1   11 11111   0" +
    "1     0        0" +
    "0     0  1110000" +
    "0     3        0" +
    "0   10000      0" +
    "0   0   11100  0" +
    "0   0   0      0" +
    "0   0   1  00000" +
    "0       1      0" +
    "2       1111   0" +
    "0       0      0" +
    "0 0000000      0" +
    "0              0" +
    "0002222222200000"

  /** The size assertion on the map holds. */
  lemma GameMapWellFormed()
    ensures WellFormed(GameMap)
  {
  }

  /** Both scaled cell dimensions are 32 pixels. */
  lemma CellDimensions()
    ensures RectWidth == CellSize && RectHeight == CellSize
  {
  }

  /** The framebuffer before the first frame: every pixel white. */
  method NewFramebuffer() returns (fb: array<Word>)
    ensures fresh(fb) && fb.Length == FrameSize
    ensures forall k :: 0 <= k < fb.Length ==> fb[k] == White
  {
    fb := new Word[FrameSize](_ => White);
  }

  /** The cell square at (32 i, 32 j) never reaches column `image_width`, so
      the clipping `draw_rectangle` draws it exactly, without a spill. */
  lemma CellClear(i: Size, j: Size)
    requires i < MapWidth && j < MapHeight
    ensures !Covers(i * RectWidth, RectWidth, WindowWidth)
    ensures NoOverrun(WindowWidth, WindowHeight, i * RectWidth, j * RectHeight, RectWidth, RectHeight)
  {
    CoversShifted(i * RectWidth, RectWidth, WindowWidth);
  }

  /** Visiting cell (i, j) with the clipping `draw_rectangle`: a space
      leaves the frame alone, any other symbol draws exactly the cell's
      square. */
  lemma MinimapCell(s: seq<Word>, tiles: seq<char>, j: Size, i: Size)
    requires |s| == FrameSize && WellFormed(tiles) && j < MapHeight && i < MapWidth
    ensures NoOverrun(WindowWidth, WindowHeight, i * RectWidth, j * RectHeight, RectWidth, RectHeight)
    ensures
      var t := MinimapUpTo(s, WindowWidth, WindowHeight, tiles, Cyan, j, i);
      MinimapUpTo(s, WindowWidth, WindowHeight, tiles, Cyan, j, i + 1) ==
        if tiles[i + j * MapWidth] == ' ' then t
        else Fill(t, WindowWidth, WindowHeight, i * RectWidth, j * RectHeight, RectWidth, RectHeight, Cyan, ClipPastWidth)
  {
    var t := MinimapUpTo(s, WindowWidth, WindowHeight, tiles, Cyan, j, i);
    CellDimensions();
    MinimapStep(s, WindowWidth, WindowHeight, tiles, Cyan, j, i);
    CellClear(i, j);
    ClipsAgree(t, WindowWidth, WindowHeight, i * CellSize, j * CellSize, CellSize, CellSize, Cyan);
  }

  /** The body of the minimap loop for cell (i, j). */
  method DrawCell(fb: array<Word>, tiles: seq<char>, ghost s: seq<Word>, j: Size, i: Size)
    requires fb.Length == FrameSize && |s| == FrameSize && WellFormed(tiles) && j < MapHeight && i < MapWidth
    requires fb[..] == MinimapUpTo(s, WindowWidth, WindowHeight, tiles, Cyan, j, i)
    modifies fb
    ensures fb[..] == MinimapUpTo(s, WindowWidth, WindowHeight, tiles, Cyan, j, i + 1)
  {
    MinimapCell(s, tiles, j, i);
    if tiles[i + j * MapWidth] == ' ' {
      return;
    }
    var rectX: Size := i * RectWidth;
    var rectY: Size := j * RectHeight;
    DrawRectangleClipping(fb, WindowWidth, WindowHeight, rectX, rectY, RectWidth, RectHeight, Cyan);
  }

  /** The minimap loop: every non-space cell of `tiles` becomes a cyan square. */
  method DrawMinimap(fb: array<Word>, tiles: seq<char>)
    requires fb.Length == FrameSize && WellFormed(tiles)
    modifies fb
    ensures fb[..] == MinimapImage(old(fb[..]), WindowWidth, WindowHeight, tiles, Cyan)
  {
    ghost var s := fb[..];
    MinimapStart(s, WindowWidth, WindowHeight, tiles, Cyan);
    for j := 0 to MapHeight
      invariant fb[..] == MinimapUpTo(s, WindowWidth, WindowHeight, tiles, Cyan, j, 0)
    {
      for i := 0 to MapWidth
        invariant fb[..] == MinimapUpTo(s, WindowWidth, WindowHeight, tiles, Cyan, j, i)
      {
        DrawCell(fb, tiles, s, j, i);
      }
      MinimapRowDone(s, WindowWidth, WindowHeight, tiles, Cyan, j);
    }
  }

  /** The minimap never touches the right half of the window, where the wall
      columns go. */
  lemma MinimapLeftHalf(s: seq<Word>, tiles: seq<char>, k: int)
    requires |s| == FrameSize && WellFormed(tiles) && 0 <= k < |s|
    requires k % WindowWidth >= WindowWidth / 2
    ensures MinimapImage(s, WindowWidth, WindowHeight, tiles, Cyan)[k] == s[k]
  {
    if MinimapImage(s, WindowWidth, WindowHeight, tiles, Cyan)[k] != s[k] {
      MinimapConfined(s, WindowWidth, WindowHeight, tiles, Cyan, k);
    }
  }

  /** The top row of the wall column for a column height h:
      `window_height / 2 - h / 2` as an integer. In `size_t` it wraps below
      zero for columns taller than the window. */
  function ColumnTop(h: Size): (top: int)
  {
    WindowHeight / 2 - h / 2
  }

  /** The frame after ray i has been marched: the trace pixels of the samples
      before the first wall, then, if a wall was found, the column of height
      `height` at x = `window_width / 2 + i`. */
  function ColumnImage(s: seq<Word>, tiles: seq<char>, i: Size, samples: seq<Sample>, height: Size): (r: seq<Word>)
    requires |s| == FrameSize && i < WindowWidth / 2
    requires CellsWithin(samples, |tiles|) && PixelsWithin(samples, |s|)
    ensures |r| == |s|
  {
    var traced := Traces(s, samples[..TraceCount(tiles, samples)], TraceGrey);
    if FirstWall(tiles, samples).None? then traced
    else Fill(traced, WindowWidth, WindowHeight, WindowWidth / 2 + i, Wrap(ColumnTop(height)),
              1, height, Cyan, ClipAtWidth)
  }

  /** The column a ray draws when it hits a wall covers exactly the rows from
      `ColumnTop(height)` to `ColumnTop(height) + height` that lie inside the
      window, at the single x = `window_width / 2 + i`: the `size_t` wrap of a
      tall column's top and the clip on rows past the bottom together cut the
      column to the window. Every other pixel keeps its trace or its old
      value. */
  lemma {:induction false} ColumnAt(s: seq<Word>, tiles: seq<char>, i: Size, samples: seq<Sample>, height: Size, k: int)
    requires |s| == FrameSize && i < WindowWidth / 2 && 0 <= k < |s|
    requires CellsWithin(samples, |tiles|) && PixelsWithin(samples, |s|)
    ensures ColumnImage(s, tiles, i, samples, height)[k] ==
      if FirstWall(tiles, samples).Some? && k % WindowWidth == WindowWidth / 2 + i
         && ColumnTop(height) <= k / WindowWidth < ColumnTop(height) + height then Cyan
      else if Traced(samples[..TraceCount(tiles, samples)], k) then TraceGrey
      else s[k]
  {
    var n := TraceCount(tiles, samples);
    assert PixelsWithin(samples[..n], |s|) by {
      forall m | 0 <= m < n ensures samples[..n][m].pixel < |s| {
        assert samples[..n][m] == samples[m];
      }
    }
    TracesAt(s, samples[..n], TraceGrey, k);
    if FirstWall(tiles, samples).Some? {
      var x := WindowWidth / 2 + i;
      var px, py := k % WindowWidth, k / WindowWidth;
      RowBound(k, WindowWidth, WindowHeight);
      CoversOne(x, px);
      CoversOne(x, WindowWidth);
      CoversShifted(ColumnTop(height), height, py);
    }
  }

  /** The march of ray i (the body of the column loop): stop at the first
      sample on a wall and draw that column, leaving a grey trace pixel for
      every sample before it. Returns the index of the sample that hit. */
  method CastColumn(fb: array<Word>, tiles: seq<char>, i: Size, samples: seq<Sample>, height: Size)
    returns (hit: Option<nat>)
    requires fb.Length == FrameSize && i < WindowWidth / 2
    requires CellsWithin(samples, |tiles|) && PixelsWithin(samples, fb.Length)
    modifies fb
    ensures hit == FirstWall(tiles, samples)
    ensures fb[..] == ColumnImage(old(fb[..]), tiles, i, samples, height)
  {
    hit := None;
    for m := 0 to |samples|
      invariant fb[..] == Traces(old(fb[..]), samples[..m], TraceGrey)
      invariant forall m' :: 0 <= m' < m ==> tiles[samples[m'].cell] == ' '
    {
      if tiles[samples[m].cell] != ' ' {
        var columnHeight := height;
        CoversOne(WindowWidth / 2 + i, WindowWidth);
        ClipsAgree(fb[..], WindowWidth, WindowHeight, WindowWidth / 2 + i,
                   Wrap(WindowHeight / 2 - columnHeight / 2), 1, columnHeight, Cyan);
        DrawRectangleClipping(fb, WindowWidth, WindowHeight, WindowWidth / 2 + i,
                              Wrap(WindowHeight / 2 - columnHeight / 2), 1, columnHeight, Cyan);
        hit := Some(m);
        return;
      }
      fb[samples[m].pixel] := TraceGrey;
      assert samples[..m + 1][..m] == samples[..m];
    }
    assert samples[..|samples|] == samples;
  }

  /** The rays of one frame: one sample sequence and one column height per
      column of the right half. */
  predicate RaysWithin(tiles: seq<char>, rays: seq<seq<Sample>>, heights: seq<Size>)
  {
    && |rays| == WindowWidth / 2 && |heights| == WindowWidth / 2
    && forall i :: 0 <= i < |rays| ==> CellsWithin(rays[i], |tiles|) && PixelsWithin(rays[i], FrameSize)
  }

  /** The frame after the first n rays. */
  function Columns(s: seq<Word>, tiles: seq<char>, rays: seq<seq<Sample>>, heights: seq<Size>, n: nat): (r: seq<Word>)
    requires |s| == FrameSize && RaysWithin(tiles, rays, heights) && n <= |rays|
    ensures |r| == |s|
  {
    if n == 0 then s
    else ColumnImage(Columns(s, tiles, rays, heights, n - 1), tiles, n - 1, rays[n - 1], heights[n - 1])
  }

  /** Ray i draws a wall column pixel at row py. */
  predicate WallPixel(tiles: seq<char>, samples: seq<Sample>, height: Size, py: int)
    requires CellsWithin(samples, |tiles|)
  {
    FirstWall(tiles, samples).Some? && ColumnTop(height) <= py < ColumnTop(height) + height
  }

  /** The trace pixels stay in the minimap half, as they do whenever the
      sample points lie inside the 16 * 16 map. */
  predicate TracesLeft(rays: seq<seq<Sample>>)
  {
    forall i, m :: 0 <= i < |rays| && 0 <= m < |rays[i]| ==> rays[i][m].pixel % WindowWidth < WindowWidth / 2
  }

  /** A ray whose trace stays in the left half changes a pixel of the right
      half only in its own wall column. */
  lemma ColumnRight(s: seq<Word>, tiles: seq<char>, i: Size, samples: seq<Sample>, height: Size, k: int)
    requires |s| == FrameSize && i < WindowWidth / 2 && 0 <= k < |s|
    requires CellsWithin(samples, |tiles|) && PixelsWithin(samples, |s|)
    requires forall m :: 0 <= m < |samples| ==> samples[m].pixel % WindowWidth < WindowWidth / 2
    requires k % WindowWidth >= WindowWidth / 2
    ensures ColumnImage(s, tiles, i, samples, height)[k] ==
      if k % WindowWidth == WindowWidth / 2 + i && WallPixel(tiles, samples, height, k / WindowWidth) then Cyan
      else s[k]
  {
    ColumnAt(s, tiles, i, samples, height, k);
    var c := TraceCount(tiles, samples);
    assert !Traced(samples[..c], k) by {
      forall m | 0 <= m < c ensures samples[..c][m].pixel != k {
        assert samples[..c][m] == samples[m];
      }
    }
  }

  /** With traces in the left half, a pixel of the right half after n rays is
      cyan exactly when it is in the wall column of its own ray, and keeps its
      value otherwise; no ray draws outside its own column. */
  lemma {:induction false} ColumnsRight(s: seq<Word>, tiles: seq<char>, rays: seq<seq<Sample>>, heights: seq<Size>,
                                        n: nat, k: int)
    requires |s| == FrameSize && RaysWithin(tiles, rays, heights) && n <= |rays| && TracesLeft(rays)
    requires 0 <= k < |s| && k % WindowWidth >= WindowWidth / 2
    ensures Columns(s, tiles, rays, heights, n)[k] ==
      var i := k % WindowWidth - WindowWidth / 2;
      if i < n && WallPixel(tiles, rays[i], heights[i], k / WindowWidth) then Cyan else s[k]
  {
    if n > 0 {
      var before := Columns(s, tiles, rays, heights, n - 1);
      var samples := rays[n - 1];
      assert forall m :: 0 <= m < |samples| ==> samples[m].pixel % WindowWidth < WindowWidth / 2;
      ColumnsRight(s, tiles, rays, heights, n - 1, k);
      ColumnRight(before, tiles, n - 1, samples, heights[n - 1], k);
    }
  }

  /** A pixel of the left half after n rays is grey exactly when some ray's
      trace reaches it, and keeps its value otherwise. */
  lemma {:induction false} ColumnsLeft(s: seq<Word>, tiles: seq<char>, rays: seq<seq<Sample>>, heights: seq<Size>,
                                       n: nat, k: int)
    requires |s| == FrameSize && RaysWithin(tiles, rays, heights) && n <= |rays|
    requires 0 <= k < |s| && k % WindowWidth < WindowWidth / 2
    ensures Columns(s, tiles, rays, heights, n)[k] ==
      if exists i :: 0 <= i < n && Traced(rays[i][..TraceCount(tiles, rays[i])], k) then TraceGrey else s[k]
  {
    if n > 0 {
      ColumnsLeft(s, tiles, rays, heights, n - 1, k);
      var before := Columns(s, tiles, rays, heights, n - 1);
      ColumnAt(before, tiles, n - 1, rays[n - 1], heights[n - 1], k);
    }
  }

  /** The frame the loop body presents, with every blit under the corrected
      column test. */
  function FrameImage(s: seq<Word>, tiles: seq<char>, markerX: Size, markerY: Size,
                      rays: seq<seq<Sample>>, heights: seq<Size>): (r: seq<Word>)
    requires |s| == FrameSize && WellFormed(tiles) && RaysWithin(tiles, rays, heights)
    ensures |r| == |s|
  {
    var minimap := MinimapImage(s, WindowWidth, WindowHeight, tiles, Cyan);
    var marked := Fill(minimap, WindowWidth, WindowHeight, markerX, markerY, 5, 5, White, ClipAtWidth);
    Columns(marked, tiles, rays, heights, |rays|)
  }

  /** Drawing one frame: the minimap, the 5 * 5 player marker at the pixel
      position derived from the player pose, then the wall column of every
      ray. The minimap squares and the wall columns never reach column
      `image_width`, so they are drawn with the loop as written; the marker
      can, so it is drawn with the corrected column test, which cannot write
      past the rectangle or the vector. */
  method RenderFrame(fb: array<Word>, tiles: seq<char>, markerX: Size, markerY: Size,
                     rays: seq<seq<Sample>>, heights: seq<Size>)
    requires fb.Length == FrameSize && WellFormed(tiles) && RaysWithin(tiles, rays, heights)
    modifies fb
    ensures fb[..] == FrameImage(old(fb[..]), tiles, markerX, markerY, rays, heights)
  {
    DrawMinimap(fb, tiles);
    DrawRectangleClippingFixed(fb, WindowWidth, WindowHeight, markerX, markerY, 5, 5, White);
    ghost var marked := fb[..];
    for i := 0 to WindowWidth / 2
      invariant fb[..] == Columns(marked, tiles, rays, heights, i)
    {
      var _ := CastColumn(fb, tiles, i, rays[i], heights[i]);
    }
  }

  /** One pass of the `while (running)` loop: render the frame, hand it to the
      display (returned here as `presented`), then clear the buffer to light
      grey for the next frame. */
  method RunFrame(fb: array<Word>, tiles: seq<char>, markerX: Size, markerY: Size,
                  rays: seq<seq<Sample>>, heights: seq<Size>)
    returns (presented: seq<Word>)
    requires fb.Length == FrameSize && WellFormed(tiles) && RaysWithin(tiles, rays, heights)
    modifies fb
    ensures presented == FrameImage(old(fb[..]), tiles, markerX, markerY, rays, heights)
    ensures forall k :: 0 <= k < fb.Length ==> fb[k] == ClearGrey
  {
    RenderFrame(fb, tiles, markerX, markerY, rays, heights);
    presented := fb[..];
    Clear(fb, ClearGrey);
  }

  /** In a presented frame, the right half holds exactly the wall columns
      (cyan) over the cleared background, provided the marker stays in the
      left half and the traces do too. */
  lemma FrameRightHalf(tiles: seq<char>, markerX: Size, markerY: Size,
                       rays: seq<seq<Sample>>, heights: seq<Size>, k: int)
    requires WellFormed(tiles) && RaysWithin(tiles, rays, heights) && TracesLeft(rays)
    requires markerX + 5 <= WindowWidth / 2 && markerY + 5 <= WindowHeight
    requires 0 <= k < FrameSize && k % WindowWidth >= WindowWidth / 2
    ensures
      var s := seq(FrameSize, _ => ClearGrey);
      var i := k % WindowWidth - WindowWidth / 2;
      FrameImage(s, tiles, markerX, markerY, rays, heights)[k] ==
        if WallPixel(tiles, rays[i], heights[i], k / WindowWidth) then Cyan else ClearGrey
  {
    var s := seq(FrameSize, _ => ClearGrey);
    var minimap := MinimapImage(s, WindowWidth, WindowHeight, tiles, Cyan);
    MinimapLeftHalf(s, tiles, k);
    var marked := Fill(minimap, WindowWidth, WindowHeight, markerX, markerY, 5, 5, White, ClipAtWidth);
    FillInside(minimap, WindowWidth, WindowHeight, markerX, markerY, 5, 5, White, ClipAtWidth, k);
    ColumnsRight(marked, tiles, rays, heights, |rays|, k);
  }
}
