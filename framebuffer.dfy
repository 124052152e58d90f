/** The framebuffer: `W * H` packed pixels in row-major order, pixel (px, py)
    at index `px + py * W`, and the `draw_rectangle` blit that every program
    uses, in its three forms: the clipping loop of src/gameloop.cpp as written
    (it lets a cell with `cx == W` through), the same loop with that test
    corrected, and the asserting loop of raycasterfiles/rangefinder.cpp.
    Coordinates are `size_t`, so `x_pos + i` and `y_pos + j` wrap modulo
    2^64. */
module Framebuffer {
  import opened Machine

  /** Which cells the clipping test lets through. */
  datatype Clip =
    | ClipPastWidth  // skip when `cx > W || cy >= H`, as src/gameloop.cpp is written
    | ClipAtWidth    // skip when `cx >= W || cy >= H`

  /** The cell (cx, cy) survives the clipping test. */
  predicate Passes(clip: Clip, W: Size, H: Size, cx: Size, cy: Size)
  {
    (if clip == ClipPastWidth then cx <= W else cx < W) && cy < H
  }

  /** Pixel (px, py) is a cell of the `rw * rh` rectangle anchored at (x, y). */
  predicate InRect(x: Size, y: Size, rw: Size, rh: Size, px: int, py: int)
  {
    Covers(x, rw, px) && Covers(y, rh, py)
  }

  /** Pixel (px, py) is reached from a cell one column past the right edge:
      cell (W, py - 1) writes index `W + (py - 1) * W`, which is (0, py). */
  predicate Spills(W: Size, x: Size, y: Size, rw: Size, rh: Size, px: int, py: int)
  {
    px == 0 && Covers(x, rw, W) && Covers(y, rh, py - 1)
  }

  /** Pixel (px, py) receives the colour under the given clipping test. */
  predicate Painted(clip: Clip, W: Size, x: Size, y: Size, rw: Size, rh: Size, px: int, py: int)
  {
    InRect(x, y, rw, rh, px, py) || (clip == ClipPastWidth && Spills(W, x, y, rw, rh, px, py))
  }

  /** The frame after the rectangle is drawn: the colour wherever the
      rectangle paints, the old pixel everywhere else. */
  function Fill(s: seq<Word>, W: Size, H: Size, x: Size, y: Size, rw: Size, rh: Size,
                color: Word, clip: Clip): (r: seq<Word>)
    requires |s| == W * H
    ensures |r| == |s|
  {
    if W == 0 then s
    else seq(|s|, k requires 0 <= k < |s| =>
               if Painted(clip, W, x, y, rw, rh, k % W, k / W) then color else s[k])
  }

  /** A pixel index splits into its column `k % W` and its row `k / W`. */
  lemma IndexCoords(k: int, W: int, px: int, py: int)
    requires 0 < W && 0 <= px < W && 0 <= py
    ensures k == px + py * W <==> (k % W == px && k / W == py)
  {
    var q, m := k / W, k % W;
    assert k == q * W + m;
    if k == px + py * W {
      if q > py {
        MulMonotone(1, q - py, W);
      } else if q < py {
        MulMonotone(1, py - q, W);
      }
    }
  }

  /** A pixel inside the frame has an index below `W * H`. */
  lemma IndexBound(px: int, py: int, W: int, H: int)
    requires 0 <= px < W && 0 <= py < H
    ensures 0 <= px + py * W < W * H
  {
    MulMonotone(py + 1, H, W);
    assert (py + 1) * W == py * W + W;
  }

  /** The row of a pixel index is below H. */
  lemma RowBound(k: int, W: int, H: int)
    requires 0 < W && 0 <= k < W * H
    ensures 0 <= k / W < H
  {
    var q := k / W;
    assert k == q * W + k % W;
    if q >= H {
      MulMonotone(H, q, W);
    }
  }

  /** Cell (i, j) of the rectangle passes the clipping test and its index
      `cx + cy * W` is k. */
  predicate CellWrites(clip: Clip, W: Size, H: Size, x: Size, y: Size, i: int, j: int, k: int)
  {
    var cx, cy := Offset(x, i), Offset(y, j);
    Passes(clip, W, H, cx, cy) && cx + cy * W == k
  }

  /** A cell that writes index k paints the pixel (k % W, k / W). */
  lemma CellWritesPainted(clip: Clip, W: Size, H: Size, x: Size, y: Size, rw: Size, rh: Size,
                          i: Size, j: Size, k: int)
    requires 0 < W && i < rw && j < rh && CellWrites(clip, W, H, x, y, i, j, k)
    ensures Painted(clip, W, x, y, rw, rh, k % W, k / W)
  {
    var cx, cy := Offset(x, i), Offset(y, j);
    OffsetAt(x, i, cx);
    OffsetAt(y, j, cy);
    if cx < W {
      IndexCoords(k, W, cx, cy);
    } else {
      assert cx + cy * W == 0 + (cy + 1) * W;
      IndexCoords(k, W, 0, cy + 1);
    }
  }

  /** A painted pixel is written by some cell of the rectangle. */
  lemma PaintedHasCell(clip: Clip, W: Size, H: Size, x: Size, y: Size, rw: Size, rh: Size, k: int)
    requires 0 < W && 0 <= k < W * H && Painted(clip, W, x, y, rw, rh, k % W, k / W)
    ensures exists i, j :: 0 <= i < rw && 0 <= j < rh && CellWrites(clip, W, H, x, y, i, j, k)
  {
    var px, py := k % W, k / W;
    RowBound(k, W, H);
    IndexCoords(k, W, px, py);
    if InRect(x, y, rw, rh, px, py) {
      var i, j := CellOf(clip, W, H, x, y, rw, rh, px, py, k);
    } else {
      assert W + (py - 1) * W == k;
      var i, j := CellOf(clip, W, H, x, y, rw, rh, W, py - 1, k);
    }
  }

  /** The cell of the rectangle whose sums are (cx, cy). */
  lemma CellOf(clip: Clip, W: Size, H: Size, x: Size, y: Size, rw: Size, rh: Size,
               cx: Size, cy: Size, k: int) returns (i: Size, j: Size)
    requires Covers(x, rw, cx) && Covers(y, rh, cy)
    requires Passes(clip, W, H, cx, cy) && k == cx + cy * W
    ensures i < rw && j < rh && CellWrites(clip, W, H, x, y, i, j, k)
  {
    i, j := (cx - x) % SizeLimit, (cy - y) % SizeLimit;
    OffsetAt(x, i, cx);
    OffsetAt(y, j, cy);
  }

  /** The loop semantics of `draw_rectangle`: pixel k receives the colour
      exactly when some cell (i, j) of the rectangle passes the clipping test
      and its index `cx + cy * W` is k. */
  lemma FillAt(s: seq<Word>, W: Size, H: Size, x: Size, y: Size, rw: Size, rh: Size,
               color: Word, clip: Clip, k: int)
    requires |s| == W * H && 0 <= k < |s|
    ensures Fill(s, W, H, x, y, rw, rh, color, clip)[k] ==
      if exists i, j :: 0 <= i < rw && 0 <= j < rh && CellWrites(clip, W, H, x, y, i, j, k)
      then color else s[k]
  {
    if Painted(clip, W, x, y, rw, rh, k % W, k / W) {
      PaintedHasCell(clip, W, H, x, y, rw, rh, k);
    } else {
      forall i: Size, j: Size | 0 <= i < rw && 0 <= j < rh
        ensures !CellWrites(clip, W, H, x, y, i, j, k)
      {
        if CellWrites(clip, W, H, x, y, i, j, k) {
          CellWritesPainted(clip, W, H, x, y, rw, rh, i, j, k);
        }
      }
    }
  }

  /** A rectangle with no columns or no rows changes nothing. */
  lemma FillNothing(s: seq<Word>, W: Size, H: Size, x: Size, y: Size, rw: Size, rh: Size,
                    color: Word, clip: Clip)
    requires |s| == W * H && (rw == 0 || rh == 0)
    ensures Fill(s, W, H, x, y, rw, rh, color, clip) == s
  {
    var r := Fill(s, W, H, x, y, rw, rh, color, clip);
    forall k | 0 <= k < |s| ensures r[k] == s[k] {
      CoversNone(x, k % W);
      CoversNone(y, k / W);
      CoversNone(x, W);
      CoversNone(y, k / W - 1);
    }
  }

  /** Drawing columns 0..i-1 and then column i is drawing columns 0..i. */
  lemma FillColumnStep(s: seq<Word>, W: Size, H: Size, x: Size, y: Size, i: Size, rh: Size,
                       color: Word, clip: Clip)
    requires |s| == W * H && i + 1 < SizeLimit
    ensures Fill(Fill(s, W, H, x, y, i, rh, color, clip), W, H, Offset(x, i), y, 1, rh, color, clip)
         == Fill(s, W, H, x, y, i + 1, rh, color, clip)
  {
    var t := Fill(s, W, H, x, y, i, rh, color, clip);
    var r := Fill(t, W, H, Offset(x, i), y, 1, rh, color, clip);
    var r' := Fill(s, W, H, x, y, i + 1, rh, color, clip);
    forall k | 0 <= k < |s| ensures r[k] == r'[k] {
      CoversStep(x, i, k % W);
      CoversOne(Offset(x, i), k % W);
      CoversStep(x, i, W);
      CoversOne(Offset(x, i), W);
    }
  }

  /** Within one column cx, taking row j as well paints exactly the pixel
      that the cell (cx, y + j) writes, if it passes the test. */
  lemma PaintedCellStep(clip: Clip, W: Size, H: Size, cx: Size, y: Size, j: Size, k: int)
    requires 0 < W && 0 <= k < W * H && j + 1 < SizeLimit
    ensures Painted(clip, W, cx, y, 1, j + 1, k % W, k / W)
        <==> Painted(clip, W, cx, y, 1, j, k % W, k / W) || CellWrites(clip, W, H, cx, y, 0, j, k)
  {
    var px, py, cy := k % W, k / W, Offset(y, j);
    RowBound(k, W, H);
    IndexCoords(k, W, px, py);
    CoversOne(cx, px);
    CoversOne(cx, W);
    CoversStep(y, j, py);
    CoversStep(y, j, py - 1);
    if cx < W {
      IndexCoords(k, W, cx, cy);
    } else if cx == W {
      assert cx + cy * W == 0 + (cy + 1) * W;
      IndexCoords(k, W, 0, cy + 1);
    }
  }

  /** One cell of column cx: if it passes the test, it writes its index;
      otherwise nothing changes. */
  lemma FillCellStep(t: seq<Word>, W: Size, H: Size, cx: Size, y: Size, j: Size,
                     color: Word, clip: Clip)
    requires |t| == W * H && j + 1 < SizeLimit
    requires Passes(clip, W, H, cx, Offset(y, j)) ==> 0 <= cx + Offset(y, j) * W < |t|
    ensures Fill(t, W, H, cx, y, 1, j + 1, color, clip)
         == if Passes(clip, W, H, cx, Offset(y, j))
            then Fill(t, W, H, cx, y, 1, j, color, clip)[cx + Offset(y, j) * W := color]
            else Fill(t, W, H, cx, y, 1, j, color, clip)
  {
    var cy := Offset(y, j);
    var before := Fill(t, W, H, cx, y, 1, j, color, clip);
    var after := Fill(t, W, H, cx, y, 1, j + 1, color, clip);
    forall k | 0 <= k < |t|
      ensures after[k] == if CellWrites(clip, W, H, cx, y, 0, j, k) then color else before[k]
    {
      PaintedCellStep(clip, W, H, cx, y, j, k);
    }
  }

  /** The rectangle sits inside the frame, so no size_t sum wraps and
      no cell is clipped: the painted pixels are exactly those with
      `x <= px < x + rw` and `y <= py < y + rh`, whichever clipping test is used. */
  lemma FillInside(s: seq<Word>, W: Size, H: Size, x: Size, y: Size, rw: Size, rh: Size,
                   color: Word, clip: Clip, k: int)
    requires |s| == W * H && 0 <= k < |s|
    requires x + rw <= W && y + rh <= H
    ensures Fill(s, W, H, x, y, rw, rh, color, clip)[k] ==
      if x <= k % W < x + rw && y <= k / W < y + rh then color else s[k]
  {
    RowBound(k, W, H);
    CoversShifted(x, rw, k % W);
    CoversShifted(y, rh, k / W);
    CoversShifted(x, rw, W);
  }

  /** The two clipping tests agree on a rectangle that does not reach the
      column `cx == W`. */
  lemma ClipsAgree(s: seq<Word>, W: Size, H: Size, x: Size, y: Size, rw: Size, rh: Size, color: Word)
    requires |s| == W * H && !Covers(x, rw, W)
    ensures Fill(s, W, H, x, y, rw, rh, color, ClipPastWidth)
         == Fill(s, W, H, x, y, rw, rh, color, ClipAtWidth)
  {
  }

  /** As written, the gameloop test lets the cell (W, cy) through, and it paints
      pixel (0, cy + 1), the first pixel of the next row. When the rectangle
      does not itself cover column 0, that pixel lies outside it. */
  lemma SpillIntoNextRow(s: seq<Word>, W: Size, H: Size, x: Size, y: Size, rw: Size, rh: Size,
                         color: Word, cy: Size)
    requires |s| == W * H && 0 < W
    requires Covers(x, rw, W) && Covers(y, rh, cy) && cy + 1 < H && !Covers(x, rw, 0)
    ensures (cy + 1) * W < |s|
    ensures !InRect(x, y, rw, rh, 0, cy + 1)
    ensures Fill(s, W, H, x, y, rw, rh, color, ClipPastWidth)[(cy + 1) * W] == color
  {
    IndexBound(0, cy + 1, W, H);
    IndexCoords((cy + 1) * W, W, 0, cy + 1);
  }

  /** The witness: on a 4 * 2 frame, a 1 * 1 rectangle at (4, 0), one column
      past the right edge, is invisible under the corrected test and paints
      pixel (0, 1) as written. */
  lemma SpillWitness(s: seq<Word>)
    requires |s| == 8 && s[4] != 7
    ensures Fill(s, 4, 2, 4, 0, 1, 1, 7, ClipAtWidth) == s
    ensures Fill(s, 4, 2, 4, 0, 1, 1, 7, ClipPastWidth) == s[4 := 7]
    ensures Fill(s, 4, 2, 4, 0, 1, 1, 7, ClipPastWidth) != Fill(s, 4, 2, 4, 0, 1, 1, 7, ClipAtWidth)
  {
    var fixed := Fill(s, 4, 2, 4, 0, 1, 1, 7, ClipAtWidth);
    var asWritten := Fill(s, 4, 2, 4, 0, 1, 1, 7, ClipPastWidth);
    forall k | 0 <= k < 8 ensures fixed[k] == s[k] && asWritten[k] == s[4 := 7][k] {
      CoversOne(4, k % 4);
      CoversOne(4, 4);
      CoversOne(0, k / 4);
      CoversOne(0, k / 4 - 1);
    }
  }

  /** No cell written by the gameloop loop lands past the end of the vector:
      a cell in column W writes `(cy + 1) * W`, which must stay below `W * H`. */
  predicate NoOverrun(W: Size, H: Size, x: Size, y: Size, rw: Size, rh: Size)
  {
    Covers(x, rw, W) ==> forall cy :: 0 <= cy < H && Covers(y, rh, cy) ==> 0 < W && cy < H - 1
  }

  /** Under NoOverrun, a cell in column W that passes the test writes inside
      the vector. */
  lemma SpillInBounds(W: Size, H: Size, x: Size, y: Size, rw: Size, rh: Size, i: Size, j: Size)
    requires NoOverrun(W, H, x, y, rw, rh) && i < rw && j < rh
    requires Offset(x, i) == W && Offset(y, j) < H
    ensures 0 <= W + Offset(y, j) * W < W * H
  {
    var cy := Offset(y, j);
    OffsetAt(x, i, W);
    OffsetAt(y, j, cy);
    assert Covers(y, rh, cy);
    IndexBound(0, cy + 1, W, H);
    assert W + cy * W == 0 + (cy + 1) * W;
  }

  /** Under NoOverrun, every cell that passes the test of src/gameloop.cpp
      writes inside the vector. */
  lemma ClippedCellInBounds(W: Size, H: Size, x: Size, y: Size, rw: Size, rh: Size, i: Size, j: Size)
    requires NoOverrun(W, H, x, y, rw, rh) && i < rw && j < rh
    requires Passes(ClipPastWidth, W, H, Offset(x, i), Offset(y, j))
    ensures 0 <= Offset(x, i) + Offset(y, j) * W < W * H
  {
    if Offset(x, i) < W {
      IndexBound(Offset(x, i), Offset(y, j), W, H);
    } else {
      SpillInBounds(W, H, x, y, rw, rh, i, j);
    }
  }

  /** `draw_rectangle` of src/gameloop.cpp, as written. */
  method DrawRectangleClipping(image: array<Word>, W: Size, H: Size, x: Size, y: Size,
                               rw: Size, rh: Size, color: Word)
    requires image.Length == W * H
    requires NoOverrun(W, H, x, y, rw, rh)
    modifies image
    ensures image[..] == Fill(old(image[..]), W, H, x, y, rw, rh, color, ClipPastWidth)
  {
    FillNothing(image[..], W, H, x, y, 0, rh, color, ClipPastWidth);
    for i := 0 to rw
      invariant image[..] == Fill(old(image[..]), W, H, x, y, i, rh, color, ClipPastWidth)
    {
      ghost var column := image[..];
      FillNothing(column, W, H, Offset(x, i), y, 1, 0, color, ClipPastWidth);
      for j := 0 to rh
        invariant image[..] == Fill(column, W, H, Offset(x, i), y, 1, j, color, ClipPastWidth)
      {
        var cx := Offset(x, i);
        var cy := Offset(y, j);
        if cx > W || cy >= H {
          FillCellStep(column, W, H, cx, y, j, color, ClipPastWidth);
          continue;
        }
        ClippedCellInBounds(W, H, x, y, rw, rh, i, j);
        FillCellStep(column, W, H, cx, y, j, color, ClipPastWidth);
        image[cx + cy * W] := color;
      }
      FillColumnStep(old(image[..]), W, H, x, y, i, rh, color, ClipPastWidth);
    }
  }

  /** `draw_rectangle` of src/gameloop.cpp with the column test corrected to
      `cx >= W`: only cells inside the frame are written, and nothing can
      overrun the vector. */
  method DrawRectangleClippingFixed(image: array<Word>, W: Size, H: Size, x: Size, y: Size,
                                    rw: Size, rh: Size, color: Word)
    requires image.Length == W * H
    modifies image
    ensures image[..] == Fill(old(image[..]), W, H, x, y, rw, rh, color, ClipAtWidth)
  {
    FillNothing(image[..], W, H, x, y, 0, rh, color, ClipAtWidth);
    for i := 0 to rw
      invariant image[..] == Fill(old(image[..]), W, H, x, y, i, rh, color, ClipAtWidth)
    {
      ghost var column := image[..];
      FillNothing(column, W, H, Offset(x, i), y, 1, 0, color, ClipAtWidth);
      for j := 0 to rh
        invariant image[..] == Fill(column, W, H, Offset(x, i), y, 1, j, color, ClipAtWidth)
      {
        var cx := Offset(x, i);
        var cy := Offset(y, j);
        if cx >= W || cy >= H {
          FillCellStep(column, W, H, cx, y, j, color, ClipAtWidth);
          continue;
        }
        IndexBound(cx, cy, W, H);
        FillCellStep(column, W, H, cx, y, j, color, ClipAtWidth);
        image[cx + cy * W] := color;
      }
      FillColumnStep(old(image[..]), W, H, x, y, i, rh, color, ClipAtWidth);
    }
  }

  /** Every cell (i, j) of the rectangle passes the assertion in the
      asserting `draw_rectangle`: there are no cells, or every column
      `x + i` and every row `y + j` is inside the frame. */
  predicate CellsInside(W: Size, H: Size, x: Size, y: Size, rw: Size, rh: Size)
  {
    || rw == 0 || rh == 0
    || ((forall i :: 0 <= i < rw ==> Offset(x, i) < W) && (forall j :: 0 <= j < rh ==> Offset(y, j) < H))
  }

  /** The assertion holds for every cell exactly when the rectangle is empty
      or lies inside the frame: the first cell to leave the frame does so
      before any sum can wrap. */
  lemma AssertionHoldsIff(W: Size, H: Size, x: Size, y: Size, rw: Size, rh: Size)
    ensures CellsInside(W, H, x, y, rw, rh) <==> (rw == 0 || rh == 0 || (x + rw <= W && y + rh <= H))
  {
    if rw > 0 && rh > 0 && x + rw > W {
      var i := if x < W then W - x else 0;
      assert Offset(x, i) >= W;
    } else if rw > 0 && rh > 0 && y + rh > H {
      var j := if y < H then H - y else 0;
      assert Offset(y, j) >= H;
    } else if x + rw <= W && y + rh <= H {
      forall i | 0 <= i < rw ensures Offset(x, i) < W {
        assert Offset(x, i) == x + i;
      }
      forall j | 0 <= j < rh ensures Offset(y, j) < H {
        assert Offset(y, j) == y + j;
      }
    }
  }

  /** `draw_rectangle` of raycasterfiles/rangefinder.cpp: it asserts that every
      cell is inside the frame (see AssertionHoldsIff for when that holds). */
  method DrawRectangleAsserting(image: array<Word>, W: Size, H: Size, x: Size, y: Size,
                                rw: Size, rh: Size, color: Word)
    requires image.Length == W * H
    requires CellsInside(W, H, x, y, rw, rh)
    modifies image
    ensures image[..] == Fill(old(image[..]), W, H, x, y, rw, rh, color, ClipAtWidth)
  {
    FillNothing(image[..], W, H, x, y, 0, rh, color, ClipAtWidth);
    for i := 0 to rw
      invariant image[..] == Fill(old(image[..]), W, H, x, y, i, rh, color, ClipAtWidth)
    {
      ghost var column := image[..];
      FillNothing(column, W, H, Offset(x, i), y, 1, 0, color, ClipAtWidth);
      for j := 0 to rh
        invariant image[..] == Fill(column, W, H, Offset(x, i), y, 1, j, color, ClipAtWidth)
      {
        var cx := Offset(x, i);
        var cy := Offset(y, j);
        assert cx < W && cy < H;
        IndexBound(cx, cy, W, H);
        FillCellStep(column, W, H, cx, y, j, color, ClipAtWidth);
        image[cx + cy * W] := color;
      }
      FillColumnStep(old(image[..]), W, H, x, y, i, rh, color, ClipAtWidth);
    }
  }

  /** `std::fill` of the whole frame with one colour. */
  method Clear(image: array<Word>, color: Word)
    modifies image
    ensures forall k :: 0 <= k < image.Length ==> image[k] == color
  {
    for k := 0 to image.Length
      invariant forall m :: 0 <= m < k ==> image[m] == color
    {
      image[k] := color;
    }
  }
}
