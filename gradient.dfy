/** The test-pattern fill of raycasterfiles/main.cpp and
    raycasterfiles/rangefinder.cpp (the same nested loop in both): on a
    512 * 512 frame, pixel (i, j) gets red `255 * j / 512`, green
    `255 * i / 512`, blue 0 and alpha 255, packed with the ABGR `packcolor`.

    The channel values are computed in `float` and truncated to `uint8_t`.
    `255 * j` is below 2^24, so it converts to `float` exactly; dividing by
    512, a power of two, is exact too; the truncation is then the floor. The
    model therefore uses integer division. */
module Gradient {
  import opened Machine
  import opened Channels
  import AbgrCodec

  const Width: Size := 512   // window_width
  const Height: Size := 512  // window_height

  /** The colour of pixel (i, j): red ramps down the rows, green across the
      columns, both stay below 255, and the word is never the initial fill
      value 255 (alpha is 255, so the word is at least 0xFF00_0000). */
  function GradientPixel(i: nat, j: nat): (c: Word)
    requires i < Width && j < Height
    ensures Unpack(c).r == 255 * j / Height && Unpack(c).g == 255 * i / Width
    ensures Unpack(c).b == 0 && Unpack(c).a == 255
    ensures Unpack(c).r <= 254 && Unpack(c).g <= 254
    ensures c >= 0xFF00_0000
  {
    AbgrCodec.UnpackPack(255 * j / Height, 255 * i / Width, 0, 255);
    AbgrCodec.Pack(255 * j / Height, 255 * i / Width, 0)
  }

  /** The loop writes `i + j * window_height`. Because the frame is square,
      distinct (i, j) reach distinct indices and every index of the frame is
      reached, so each pixel is written exactly once. */
  lemma GradientIndexBijective(i: nat, j: nat, i': nat, j': nat, k: nat)
    requires i < Width && j < Height && i' < Width && j' < Height
    ensures i + j * Height < Width * Height
    ensures i + j * Height == i' + j' * Height ==> i == i' && j == j'
    ensures k < Width * Height ==> k % Height < Width && k == k % Height + (k / Height) * Height
  {
  }

  /** Index `i + j * window_height` lies in the frame and splits back into
      column i and row j. */
  lemma GradientIndex(i: nat, j: nat)
    requires i < Width && j < Height
    ensures i + j * Height < Width * Height
    ensures (i + j * Height) % Height == i && (i + j * Height) / Height == j
  {
  }

  /** The nested fill loop. Afterwards pixel k holds the colour of column
      `k % window_height` and row `k / window_height`. */
  method GradientFill(fb: array<Word>)
    requires fb.Length == Width * Height
    modifies fb
    ensures forall k :: 0 <= k < fb.Length ==> fb[k] == GradientPixel(k % Height, k / Height)
  {
    for j := 0 to Height
      invariant forall k :: 0 <= k < j * Height ==> fb[k] == GradientPixel(k % Height, k / Height)
    {
      for i := 0 to Width
        invariant forall k :: 0 <= k < j * Height + i ==> fb[k] == GradientPixel(k % Height, k / Height)
      {
        var r: Byte := 255 * j / Height;
        var g: Byte := 255 * i / Width;
        var b: Byte := 0;
        GradientIndex(i, j);
        fb[i + j * Height] := AbgrCodec.Pack(r, g, b);
      }
    }
  }

  /** The whole frame after the fill, as a sequence. */
  function GradientImage(): (s: seq<Word>)
    ensures |s| == Width * Height
  {
    seq(Width * Height, k requires 0 <= k < Width * Height => GradientPixel(k % Height, k / Height))
  }
}
