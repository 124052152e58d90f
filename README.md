# Raycaster pixel pipeline in Dafny

This project models the integer pixel pipeline of a small C++ software raycaster.
The repository has three programs that share it:

- `raycasterfiles/main.cpp` writes a 512 * 512 gradient test image to a PPM file.
- `raycasterfiles/rangefinder.cpp` draws the gradient, a 16 * 16 tile map as a
  minimap, a player marker and the trace of one ray, and writes the result as a PPM file.
- `src/gameloop.cpp` redraws a 1024 * 512 frame each pass of an SDL loop. Each
  frame gets the minimap, the marker and one wall column per ray, is presented,
  and is then cleared to light grey.

The model covers these parts:

- **Pixel packing.** `packcolor` and `unpack_color` in both layouts. AbgrCodec
  covers the two raycasterfiles programs, where alpha, blue, green, red run from
  the high byte to the low byte. ArgbCodec covers `src/gameloop.cpp`, where
  alpha, red, green, blue run from high to low. `unpack_color` is the same in
  all programs, in Channels.
- **`size_t` arithmetic.** Coordinates and extents are `size_t` and wrap modulo
  2^64 (Machine).
- **`draw_rectangle`.** It updates a flat row-major framebuffer in place, with
  pixel (x, y) at index `x + y * W`. The model keeps both forms: the clipping
  loop of `src/gameloop.cpp` and the asserting loop of
  `raycasterfiles/rangefinder.cpp` (Framebuffer).
- **The minimap loop** (Minimap, and the DrawMinimap methods).
- **The gradient fill** (Gradient).
- **The bytes `drop_ppm_image` emits** (Ppm).
- **The control flow of the ray march** (RayMarch). The float sample points
  enter as the integer map cell and pixel index the source derives from them.
- **Each program's `main`** (TestImage, Rangefinder, Gameloop).

Each in-place loop of the source is a Dafny `method` over an `array<Word>`.
Its postcondition ties the new array contents to a specification function on
sequences:

- `Fill` for `draw_rectangle`;
- `MinimapImage` for the minimap loop;
- `Traces` for the ray trace;
- `ColumnImage` for one ray of the game loop.

Lemmas then state what those functions mean pixel by pixel.

## Model

| member | source | states |
|---|---|---|
| Machine.Wrap | src/gameloop.cpp:90-91 | converting to `size_t` is reduction modulo 2^64: in-range values are unchanged and the result differs from the input by a multiple of 2^64 |
| Machine.CoversMeansSomeOffset | src/gameloop.cpp:88-91 | a value is reached by `x_pos + i` for some `i < rect_width` (mod 2^64) exactly when `Covers` holds |
| Machine.CoversShifted | src/gameloop.cpp:303-310 | a start computed below zero and wrapped to `size_t`, such as `window_height/2 - column_height/2`, covers exactly the integers in [t, t + n) |
| Channels.Unpack | raycasterfiles/main.cpp:33-38 | `unpack_color` takes red from byte 0, green from byte 1, blue from byte 2 and alpha from byte 3, and the four channels recompose to the input word |
| Channels.ComposeBytes | raycasterfiles/main.cpp:33-38 | every 32-bit word is the composition of the four bytes `unpack_color` reads |
| AbgrCodec.Pack | raycasterfiles/rangefinder.cpp:17-19 | `packcolor` gives a * 2^24 + b * 2^16 + g * 2^8 + r, below 2^32 without any loss, with r, g, b, a in bytes 0, 1, 2, 3; alpha defaults to 255 |
| AbgrCodec.UnpackPack | raycasterfiles/main.cpp:17-38 | unpack(pack(r, g, b, a)) == (r, g, b, a) for all byte values |
| AbgrCodec.PackUnpack | raycasterfiles/rangefinder.cpp:17-38 | pack(unpack(c)) == c for every 32-bit c |
| AbgrCodec.PackInjective | raycasterfiles/main.cpp:17-19 | distinct colours pack to distinct words |
| ArgbCodec.Pack | src/gameloop.cpp:18-20 | `packcolor` gives a * 2^24 + r * 2^16 + g * 2^8 + b, with b, g, r, a in bytes 0, 1, 2, 3; alpha defaults to 255 |
| ArgbCodec.UnpackPackSwapsRedBlue | src/gameloop.cpp:18-39 | as written, unpack(pack(r, g, b, a)) == (b, g, r, a): red and blue are exchanged |
| ArgbCodec.UnpackPackIdentityIff | src/gameloop.cpp:18-39 | the gameloop round trip is the identity exactly when r == b |
| ArgbCodec.CyanUnpacksAsYellow | src/gameloop.cpp:18-39 | the wall colour `packcolor(0, 255, 255)` is 0xFF00FFFF and unpacks as (255, 255, 0, 255) |
| ArgbCodec.UnpackArgb | src/gameloop.cpp:214-218 | the unpacking for the ARGB8888 layout reads red from byte 2 and blue from byte 0, and its channels recompose to the word |
| ArgbCodec.UnpackArgbPack | src/gameloop.cpp:18-20 | corrected round trip: UnpackArgb(pack(r, g, b, a)) == (r, g, b, a) |
| ArgbCodec.PackUnpackArgb | src/gameloop.cpp:18-20 | corrected round trip: pack(UnpackArgb(c)) == c for every word |
| Framebuffer.FillAt | src/gameloop.cpp:88-95 | after the blit, pixel k holds the colour exactly when some cell (i, j) of the rectangle passes the clipping test and has `cx + cy * W == k`; every other pixel is unchanged |
| Framebuffer.FillNothing | src/gameloop.cpp:88-89 | a rectangle with zero width or height changes nothing |
| Framebuffer.FillInside | raycasterfiles/rangefinder.cpp:77-85 | a rectangle inside the frame paints exactly the pixels with `x <= px < x + rw` and `y <= py < y + rh` and leaves the rest unchanged |
| Framebuffer.ClipsAgree | src/gameloop.cpp:92 | the `cx > W` test and the `cx >= W` test give the same frame when no cell lands on column W |
| Framebuffer.SpillIntoNextRow | src/gameloop.cpp:92-93 | as written, a cell with `cx == W` paints pixel (0, cy + 1); when the rectangle does not cover column 0, that pixel lies outside it |
| Framebuffer.SpillWitness | src/gameloop.cpp:92-93 | on a 4 * 2 frame a 1 * 1 rectangle at (4, 0) leaves the frame alone under `cx >= W` but paints pixel 4 as written |
| Framebuffer.ClippedCellInBounds | src/gameloop.cpp:92-93 | under NoOverrun, every cell that passes the as-written test indexes inside the vector |
| Framebuffer.DrawRectangleClipping | src/gameloop.cpp:79-97 | the clipping loop as written turns the frame into `Fill(old, ..., ClipPastWidth)`, given that the spill cannot pass the last row |
| Framebuffer.DrawRectangleClippingFixed | src/gameloop.cpp:79-97 | the clipping loop with `cx >= W` turns the frame into `Fill(old, ..., ClipAtWidth)`; it needs no precondition beyond the size assertion |
| Framebuffer.AssertionHoldsIff | raycasterfiles/rangefinder.cpp:79-81 | the per-cell assertion holds for every cell exactly when the rectangle is empty or `x + rw <= W` and `y + rh <= H` |
| Framebuffer.DrawRectangleAsserting | raycasterfiles/rangefinder.cpp:75-86 | when every cell passes the assertion, the loop turns the frame into `Fill(old, ..., ClipAtWidth)` |
| Framebuffer.Clear | src/gameloop.cpp:330-331 | after `std::fill`, every pixel equals the clear colour |
| Minimap.MinimapStep | src/gameloop.cpp:263-277 | visiting map cell (i, j) leaves the frame alone for a space; for any other symbol it fills the 32 * 32 square at (32 i, 32 j), which lies inside a 512 * 512 area |
| Minimap.MinimapConfined | raycasterfiles/rangefinder.cpp:161-172 | the minimap changes only pixels inside the square of a non-space map cell, all in the top-left 512 * 512 pixels |
| Minimap.MinimapStart | raycasterfiles/rangefinder.cpp:164 | before the first cell the frame is unchanged |
| Minimap.MinimapRowDone | raycasterfiles/rangefinder.cpp:164-165 | the end of map row j is the start of map row j + 1 |
| RayMarch.FirstWall | src/gameloop.cpp:298-302 | the march stops at the first sample whose map cell is not a space: every earlier sample is a space, and with no wall every sample is a space |
| RayMarch.TraceCount | raycasterfiles/rangefinder.cpp:176-179 | the number of samples that write a trace is at most the number of samples |
| RayMarch.TracesAt | raycasterfiles/rangefinder.cpp:180-182 | after the trace writes, a pixel holds the trace colour exactly when some sample's pixel index is k, and otherwise keeps its value |
| RayMarch.TraceRay | raycasterfiles/rangefinder.cpp:176-183 | the ray loop returns the first wall sample and writes a trace for exactly the samples before it |
| Gradient.GradientPixel | raycasterfiles/main.cpp:83-86 | pixel (i, j) unpacks to red 255 * j / 512 and green 255 * i / 512 (floor), both at most 254, with blue 0 and alpha 255; the word is never the initial fill 255 |
| Gradient.GradientIndexBijective | raycasterfiles/main.cpp:81-88 | on the square frame, `i + j * window_height` is in range and one-to-one, and every index is reached |
| Gradient.GradientIndex | raycasterfiles/rangefinder.cpp:141 | index `i + j * window_height` is in range and splits back into column i and row j |
| Gradient.GradientFill | raycasterfiles/rangefinder.cpp:136-143 | after the loop, pixel k holds the gradient colour of column `k % 512` and row `k / 512`, so every pixel is written |
| Ppm.Decimal | raycasterfiles/main.cpp:56 | `ofs << n` writes at least one decimal digit and no leading zero |
| Ppm.ParseDecimalOf | raycasterfiles/main.cpp:56 | reading the written digits gives back the number |
| Ppm.Header | raycasterfiles/main.cpp:56 | the header is `"P6\n" w " " h "\n255\n"` and is pure ASCII |
| Ppm.Header512 | raycasterfiles/rangefinder.cpp:184 | the header of a 512 * 512 image is "P6\n512 512\n255\n" |
| Ppm.AbgrPixelBytes | raycasterfiles/main.cpp:57-61 | a pixel packed by the raycasterfiles `packcolor(r, g, b, a)` is written as exactly r, g, b |
| Ppm.ArgbPixelBytes | src/gameloop.cpp:61-65 | a pixel packed by the gameloop `packcolor(r, g, b, a)` would be written as b, g, r |
| Ppm.Body | raycasterfiles/main.cpp:57-61 | the body holds exactly three bytes per pixel |
| Ppm.BodyAt | raycasterfiles/rangefinder.cpp:57-61 | pixel i gives body bytes 3i .. 3i + 2, which are its bytes 0, 1, 2; alpha never appears |
| Ppm.DropPpmImage | raycasterfiles/main.cpp:53-63 | the emitted bytes are the header followed by the body of the image |
| TestImage.RenderTestImage | raycasterfiles/main.cpp:76-92 | the program emits "P6\n512 512\n255\n" followed by the body of the gradient image, 15 + 3 * 512 * 512 bytes in all |
| TestImage.TestImagePixel | raycasterfiles/main.cpp:81-90 | pixel k of the output is the bytes 255 * row / 512, 255 * column / 512, 0 |
| Gameloop.GameMapWellFormed | src/gameloop.cpp:125-141 | the map literal holds `map_width * map_height` cells, as asserted |
| Gameloop.CellDimensions | src/gameloop.cpp:260-261 | `rect_width` and `rect_height` are both 32 |
| Gameloop.NewFramebuffer | src/gameloop.cpp:113-114 | the framebuffer starts as 1024 * 512 white pixels |
| Gameloop.CellClear | src/gameloop.cpp:265-275 | no minimap square reaches column `image_width`, so the off-by-one never fires there |
| Gameloop.MinimapCell | src/gameloop.cpp:265-275 | one minimap cell drawn with the clipping `draw_rectangle` is exactly one step of the minimap |
| Gameloop.DrawCell | src/gameloop.cpp:265-275 | the loop body for one map cell advances the frame by one minimap step |
| Gameloop.DrawMinimap | src/gameloop.cpp:263-278 | the minimap loop turns the frame into `MinimapImage(old, ..., cyan)` |
| Gameloop.MinimapLeftHalf | src/gameloop.cpp:260-277 | the minimap never changes a pixel of the right half |
| Gameloop.ColumnAt | src/gameloop.cpp:296-316 | after ray i: pixels in column 512 + i with row in [256 - h/2, 256 - h/2 + h) are cyan if the ray hit a wall; else traced pixels are grey; else unchanged. The `size_t` underflow of a tall column's top and the row clip cut the column to the window |
| Gameloop.CastColumn | src/gameloop.cpp:298-316 | the body of the column loop returns the first wall sample and turns the frame into `ColumnImage`; the column at x = 512 + i never reaches column `image_width`, so the as-written blit draws it exactly |
| Gameloop.ColumnRight | src/gameloop.cpp:303-310 | a ray whose trace stays in the left half changes a right-half pixel only in its own wall column |
| Gameloop.ColumnsRight | src/gameloop.cpp:296-317 | after the rays, a right-half pixel is cyan exactly when it lies in the wall column of its own ray; wall columns never overlap |
| Gameloop.ColumnsLeft | src/gameloop.cpp:296-317 | after the rays, a left-half pixel is grey exactly when some ray traced it, and otherwise unchanged |
| Gameloop.RenderFrame | src/gameloop.cpp:260-317 | minimap, marker and columns turn the frame into `FrameImage(old, ...)`; the minimap and the columns use the loop as written, which provably draws them exactly as the corrected test does, and the marker uses the corrected test |
| Gameloop.RunFrame | src/gameloop.cpp:260-331 | the presented frame is `FrameImage(old, ...)`, and afterwards every pixel is `packcolor(200, 200, 200)` |
| Gameloop.FrameRightHalf | src/gameloop.cpp:260-331 | in a frame drawn over the cleared buffer, a right-half pixel is cyan exactly when it is on its ray's wall column, and light grey otherwise |
| Rangefinder.RangeMapWellFormed | raycasterfiles/rangefinder.cpp:113-129 | the map literal holds `map_width * map_height` cells, as asserted |
| Rangefinder.CellDimensions | raycasterfiles/rangefinder.cpp:161-162 | `rect_width` and `rect_height` are both 32 |
| Rangefinder.MinimapCell | raycasterfiles/rangefinder.cpp:166-169 | each minimap square satisfies the assertion of `draw_rectangle` and is one step of the minimap |
| Rangefinder.DrawCell | raycasterfiles/rangefinder.cpp:166-169 | the loop body for one map cell advances the frame by one minimap step |
| Rangefinder.DrawMinimap | raycasterfiles/rangefinder.cpp:164-172 | the minimap loop turns the frame into `MinimapImage(old, ..., cyan)` |
| Rangefinder.RangefinderAt | raycasterfiles/rangefinder.cpp:136-183 | each output pixel is white if traced or under the marker, else cyan on a wall square, else its gradient colour |
| Rangefinder.RenderRangefinder | raycasterfiles/rangefinder.cpp:99-186 | the program emits the PPM header of a 512 * 512 image followed by the body of `RangefinderImage`, 15 + 3 * 512 * 512 bytes |

## Left out

- SDL: window, renderer and texture creation, `SDL_UpdateTexture` and presentation, event polling, frame timing and `SDL_Delay` (src/gameloop.cpp:179-346). `raycasterfiles/sdl2.cpp` is not part of this model; it holds only this plumbing. Gameloop.RunFrame returns the frame that would be presented.
- File I/O in `drop_ppm_image`: opening, writing and closing the stream. The model returns the byte sequence instead.
- Floating-point and trigonometry:
  - the player pose and keyboard movement (src/gameloop.cpp:143-146, 242-258);
  - the ray sample points and `column_height = window_height / t` (src/gameloop.cpp:297-302, raycasterfiles/rangefinder.cpp:176-179);
  - the float-to-`size_t` marker position (src/gameloop.cpp:283-284, raycasterfiles/rangefinder.cpp:174).
- Those floating-point values enter as integer inputs instead:
  - each ray sample as its map cell index and trace pixel index;
  - each wall column's height;
  - the marker's pixel position.
- The trace writes index the map and the framebuffer unchecked, so an out-of-range sample is undefined behaviour in the source. The model requires the sample cells and pixels to be in range (CellsWithin, PixelsWithin).
- Gameloop.FrameRightHalf and Gameloop.ColumnsRight: both assume the traces stay in the left half (TracesLeft). This holds when the sample points lie inside the 16 * 16 map. FrameRightHalf also assumes the marker lies in the left half.
- The `size_t` product `W * H` in the size assertions of `draw_rectangle` and `drop_ppm_image` can itself wrap. The model takes the vector length to be the exact product, which is all these programs ever pass.
- Framebuffer.DrawRectangleClipping: requires NoOverrun. A cell with `cx == W` on the last row would write one past the end of the vector, which is undefined behaviour in C++.
- Gameloop.RenderFrame and Gameloop.RunFrame: draw the player marker with the corrected column test (Framebuffer.DrawRectangleClippingFixed). With the test as written, a marker reaching column 1024 would also paint the first pixels of the following rows; see Findings.
- Framebuffer.DrawRectangleAsserting, Rangefinder.RangefinderAt and Rangefinder.RenderRangefinder: the per-cell `assert` of `draw_rectangle` (raycasterfiles/rangefinder.cpp:81) becomes a precondition (CellsInside, and for the player marker `markerX + 5 <= 512 && markerY + 5 <= 512`). The source would abort after the cells drawn so far, or write out of range when built with NDEBUG; the model excludes that path instead of modelling it. Framebuffer.AssertionHoldsIff states exactly when the assertion fails.
- Framebuffer.DrawRectangleClipping, Framebuffer.DrawRectangleClippingFixed, Framebuffer.DrawRectangleAsserting and Ppm.DropPpmImage: the size `assert` (src/gameloop.cpp:87, raycasterfiles/rangefinder.cpp:76, raycasterfiles/main.cpp:54) becomes `requires` on the length, so the abort when the vector has the wrong size is not modelled.
- The commented-out gradient loop and PPM export (src/gameloop.cpp:150-157, 175) are not modelled.
- The empty loop at src/gameloop.cpp:292-294 is not modelled.

## Findings

| source | as written | input that shows it | evidently intended | confidence | as-written member | corrected member |
|---|---|---|---|---|---|---|
| src/gameloop.cpp:18-39 | `packcolor` puts red in byte 2 and blue in byte 0 (ARGB, matching the texture format at line 215). The doc comment and `unpack_color` take red from byte 0, so the round trip exchanges red and blue | `packcolor(0, 255, 255)` = 0xFF00FFFF unpacks as r = 255, g = 255, b = 0 (yellow, not cyan) | an unpack matching the ARGB packing, so that unpack(pack(c)) == c | high (not executed) | ArgbCodec.UnpackPackSwapsRedBlue | ArgbCodec.UnpackArgbPack |
| src/gameloop.cpp:92 | the clipping test skips only `cx > image_width`, so a cell with `cx == image_width` writes `image_width + cy * image_width`. That is pixel (0, cy + 1) of the next row, or one past the end when cy is the last row | a 4 * 2 frame and a 1 * 1 rectangle at (4, 0): pixel 4 = (0, 1) is painted | skip `cx >= image_width`, so that only pixels inside the rectangle and the frame change | high (not executed) | Framebuffer.SpillWitness | Framebuffer.DrawRectangleClippingFixed |
