/** The still-image renderer of raycasterfiles/rangefinder.cpp on a
    512 * 512 framebuffer: the gradient test pattern, the minimap, the 5 * 5
    player marker and the white trace of a single ray up to the first wall,
    written out as a PPM image. Colours are packed with the ABGR `packcolor`
    and every blit uses the asserting `draw_rectangle`. The player pose and
    the ray samples are floating-point values in the source; they enter here
    as the integers the source derives from them. */
module Rangefinder {
  import opened Machine
  import opened Framebuffer
  import opened Minimap
  import opened RayMarch
  import opened Ppm
  import AbgrCodec
  import Gradient

  const WindowWidth: Size := Gradient.Width
  const WindowHeight: Size := Gradient.Height
  const RectWidth: Size := WindowWidth / MapWidth
  const RectHeight: Size := WindowHeight / MapHeight

  /** The pixel count of the framebuffer. */
  const FrameSize: Size := WindowWidth * WindowHeight

  const White: Word := AbgrCodec.Pack(255, 255, 255)
  const Cyan: Word := AbgrCodec.Pack(0, 255, 255)

  /** The map literal of raycasterfiles/rangefinder.cpp, row by row. */
  const RangeMap: seq<char> :=
    "0000222222220000" +
    "1              0" +
    "1      11111   0" +
    "1     0        0" +
    "0     0  1110000" +
    "0     3        0" +
    "0   10000      0" +
    "0   0   11100  0" +
    "0   0   0      0" +
    "0   0   1  00000" +
    "0       1      0" +
    "2       1      0" +
    "0       0      0" +
    "0 0000000      0" +
    "0              0" +
    "0002222222200000"

  /** The size assertion on the map holds. */
  lemma RangeMapWellFormed()
    ensures WellFormed(RangeMap)
  {
  }

  /** Both scaled cell dimensions are 32 pixels. */
  lemma CellDimensions()
    ensures RectWidth == CellSize && RectHeight == CellSize
  {
  }

  /** Visiting cell (i, j) with the asserting `draw_rectangle`: the cell's
      square lies inside the window, so the assertion holds; a space leaves
      the frame alone, any other symbol draws exactly the square. */
  lemma MinimapCell(s: seq<Word>, tiles: seq<char>, j: Size, i: Size)
    requires |s| == FrameSize && WellFormed(tiles) && j < MapHeight && i < MapWidth
    ensures i * RectWidth + RectWidth <= WindowWidth && j * RectHeight + RectHeight <= WindowHeight
    ensures
      var t := MinimapUpTo(s, WindowWidth, WindowHeight, tiles, Cyan, j, i);
      MinimapUpTo(s, WindowWidth, WindowHeight, tiles, Cyan, j, i + 1) ==
        if tiles[i + j * MapWidth] == ' ' then t
        else Fill(t, WindowWidth, WindowHeight, i * RectWidth, j * RectHeight, RectWidth, RectHeight, Cyan, ClipAtWidth)
  {
    CellDimensions();
    MinimapStep(s, WindowWidth, WindowHeight, tiles, Cyan, j, i);
  }

  /** The body of the minimap loop for cell (i, j). */
  method DrawCell(fb: array<Word>, tiles: seq<char>, ghost s: seq<Word>, j: Size, i: Size)
    requires fb.Length == FrameSize && |s| == FrameSize && WellFormed(tiles) && j < MapHeight && i < MapWidth
    requires fb[..] == MinimapUpTo(s, WindowWidth, WindowHeight, tiles, Cyan, j, i)
    modifies fb
    ensures fb[..] == MinimapUpTo(s, WindowWidth, WindowHeight, tiles, Cyan, j, i + 1)
  {
    MinimapCell(s, tiles, j, i);
    if tiles[i + j * MapWidth] == ' ' {
      return;
    }
    var rectX: Size := i * RectWidth;
    var rectY: Size := j * RectHeight;
    AssertionHoldsIff(WindowWidth, WindowHeight, rectX, rectY, RectWidth, RectHeight);
    DrawRectangleAsserting(fb, WindowWidth, WindowHeight, rectX, rectY, RectWidth, RectHeight, Cyan);
  }

  /** The minimap loop. Each cell square lies inside the window, so the
      assertion in `draw_rectangle` always holds. */
  method DrawMinimap(fb: array<Word>, tiles: seq<char>)
    requires fb.Length == FrameSize && WellFormed(tiles)
    modifies fb
    ensures fb[..] == MinimapImage(old(fb[..]), WindowWidth, WindowHeight, tiles, Cyan)
  {
    ghost var s := fb[..];
    MinimapStart(s, WindowWidth, WindowHeight, tiles, Cyan);
    for j := 0 to MapHeight
      invariant fb[..] == MinimapUpTo(s, WindowWidth, WindowHeight, tiles, Cyan, j, 0)
    {
      for i := 0 to MapWidth
        invariant fb[..] == MinimapUpTo(s, WindowWidth, WindowHeight, tiles, Cyan, j, i)
      {
        DrawCell(fb, tiles, s, j, i);
      }
      MinimapRowDone(s, WindowWidth, WindowHeight, tiles, Cyan, j);
    }
  }

  /** The frame that is written out, for a marker at (markerX, markerY) and
      the samples of the ray. */
  function RangefinderImage(markerX: Size, markerY: Size, samples: seq<Sample>): (r: seq<Word>)
    requires CellsWithin(samples, |RangeMap|) && PixelsWithin(samples, FrameSize)
    ensures |r| == FrameSize
  {
    var minimap := MinimapImage(Gradient.GradientImage(), WindowWidth, WindowHeight, RangeMap, Cyan);
    var marked := Fill(minimap, WindowWidth, WindowHeight, markerX, markerY, 5, 5, White, ClipAtWidth);
    Traces(marked, samples[..TraceCount(RangeMap, samples)], White)
  }

  /** Every pixel of the written image: white where the ray traced it or
      where the marker is, cyan in the square of a wall cell, and the
      gradient colour of its column and row everywhere else. */
  lemma {:induction false} RangefinderAt(markerX: Size, markerY: Size, samples: seq<Sample>, k: int)
    requires CellsWithin(samples, |RangeMap|) && PixelsWithin(samples, FrameSize)
    requires markerX + 5 <= WindowWidth && markerY + 5 <= WindowHeight
    requires 0 <= k < FrameSize
    ensures
      var px, py := k % WindowWidth, k / WindowWidth;
      RangefinderImage(markerX, markerY, samples)[k] ==
        if Traced(samples[..TraceCount(RangeMap, samples)], k) then White
        else if markerX <= px < markerX + 5 && markerY <= py < markerY + 5 then White
        else if DrawnBefore(RangeMap, px, py, MapHeight, 0) then Cyan
        else Gradient.GradientPixel(px, py)
  {
    var n := TraceCount(RangeMap, samples);
    var minimap := MinimapImage(Gradient.GradientImage(), WindowWidth, WindowHeight, RangeMap, Cyan);
    var marked := Fill(minimap, WindowWidth, WindowHeight, markerX, markerY, 5, 5, White, ClipAtWidth);
    assert PixelsWithin(samples[..n], FrameSize) by {
      forall m | 0 <= m < n ensures samples[..n][m].pixel < FrameSize {
        assert samples[..n][m] == samples[m];
      }
    }
    TracesAt(marked, samples[..n], White, k);
    FillInside(minimap, WindowWidth, WindowHeight, markerX, markerY, 5, 5, White, ClipAtWidth, k);
  }

  /** The whole program: the framebuffer starts with every word 255, gets
      the gradient, the minimap, the marker (which the source's assertion
      requires to lie inside the window) and the trace of the ray; the result
      is the byte content of the PPM file. */
  method RenderRangefinder(markerX: Size, markerY: Size, samples: seq<Sample>) returns (ppm: seq<Byte>)
    requires CellsWithin(samples, |RangeMap|) && PixelsWithin(samples, FrameSize)
    requires markerX + 5 <= WindowWidth && markerY + 5 <= WindowHeight
    ensures ppm == Ascii(Header(WindowWidth, WindowHeight)) + Body(RangefinderImage(markerX, markerY, samples))
    ensures |ppm| == 15 + 3 * FrameSize
  {
    var fb := new Word[FrameSize](_ => 255);
    Gradient.GradientFill(fb);
    assert fb[..] == Gradient.GradientImage();
    RangeMapWellFormed();
    DrawMinimap(fb, RangeMap);
    AssertionHoldsIff(WindowWidth, WindowHeight, markerX, markerY, 5, 5);
    DrawRectangleAsserting(fb, WindowWidth, WindowHeight, markerX, markerY, 5, 5, White);
    var _ := TraceRay(fb, RangeMap, samples, White);
    ppm := DropPpmImage(fb[..], WindowWidth, WindowHeight);
    Header512();
  }
}
