/** `main` of raycasterfiles/main.cpp: a 512 * 512 frame filled with 255,
    overwritten by the gradient, and written out as a PPM image. The output
    bytes are returned instead of being written to "./out.ppm". */
module TestImage {
  import opened Machine
  import opened Ppm
  import opened Gradient

  /** The whole program: allocate, fill, export. */
  method RenderTestImage() returns (ppm: seq<Byte>)
    ensures ppm == Ascii(Header(Width, Height)) + Body(GradientImage())
    ensures |ppm| == 15 + 3 * Width * Height
    ensures ppm[..15] == Ascii("P6\n512 512\n255\n")
  {
    var framebuffer := new Word[Width * Height](_ => 255);
    GradientFill(framebuffer);
    assert framebuffer[..] == GradientImage();
    ppm := DropPpmImage(framebuffer[..], Width, Height);
    Header512();
  }

  /** In the exported image, pixel k is the three bytes red = 255 * row / 512,
      green = 255 * column / 512, blue = 0. */
  lemma TestImagePixel(k: nat)
    requires k < Width * Height
    ensures Body(GradientImage())[3 * k .. 3 * k + 3] == [255 * (k / Height) / Height, 255 * (k % Height) / Width, 0]
  {
    BodyAt(GradientImage(), k);
  }
}
