/** The bytes that `drop_ppm_image` writes (the same function in all three
    programs): a binary PPM ("P6") header followed by three bytes per pixel,
    the red, green and blue that `unpack_color` gives, alpha dropped. The
    file itself (opening, writing, closing the stream) is not modelled, only
    the byte sequence. */
module Ppm {
  import opened Machine
  import opened Channels
  import AbgrCodec
  import ArgbCodec

  /** The character of the decimal digit d. */
  function Digit(d: nat): (c: char)
    requires d < 10
    ensures '0' <= c <= '9'
  {
    ('0' as int + d) as char
  }

  /** The value of a decimal digit character. */
  function DigitValue(c: char): (v: nat)
    requires '0' <= c <= '9'
  {
    c as int - '0' as int
  }

  predicate IsDigits(s: string)
  {
    forall i :: 0 <= i < |s| ==> '0' <= s[i] <= '9'
  }

  /** n in decimal, as `ofs << n` writes a `size_t`: at least one digit and no
      leading zero. */
  function Decimal(n: nat): (s: string)
    ensures |s| >= 1 && IsDigits(s)
    ensures s[0] == '0' ==> n == 0
  {
    if n < 10 then [Digit(n)] else Decimal(n / 10) + [Digit(n % 10)]
  }

  /** The value of a string of decimal digits. */
  function ParseDecimal(s: string): (n: nat)
    requires IsDigits(s)
  {
    if s == [] then 0 else 10 * ParseDecimal(s[..|s| - 1]) + DigitValue(s[|s| - 1])
  }

  /** A reader of the header gets back the number that was written. */
  lemma {:induction false} ParseDecimalOf(n: nat)
    ensures ParseDecimal(Decimal(n)) == n
  {
    var s := Decimal(n);
    if n >= 10 {
      ParseDecimalOf(n / 10);
      assert s[..|s| - 1] == Decimal(n / 10);
    }
  }

  /** `"P6\n" << width << " " << height << "\n255\n"`. */
  function Header(w: nat, h: nat): (s: string)
    ensures forall i :: 0 <= i < |s| ==> s[i] as int < 0x80
  {
    "P6\n" + Decimal(w) + " " + Decimal(h) + "\n255\n"
  }

  /** The header of the 512 * 512 images the two file-writing programs produce. */
  lemma Header512()
    ensures Header(512, 512) == "P6\n512 512\n255\n"
  {
    assert Decimal(5) == "5";
    assert Decimal(51) == "51";
    assert Decimal(512) == "512";
  }

  /** Characters of the header as the bytes the stream writes. */
  function Ascii(s: string): (b: seq<Byte>)
    requires forall i :: 0 <= i < |s| ==> s[i] as int < 0x100
    ensures |b| == |s|
  {
    seq(|s|, i requires 0 <= i < |s| => s[i] as int)
  }

  /** The three bytes written for one pixel: its unpacked r, g, b. */
  function RgbBytes(c: Word): (b: seq<Byte>)
    ensures |b| == 3
  {
    var ch := Unpack(c);
    [ch.r, ch.g, ch.b]
  }

  /** A pixel packed by the raycasterfiles `packcolor` is written as exactly
      the r, g, b it was packed from. */
  lemma AbgrPixelBytes(r: Byte, g: Byte, b: Byte, a: Byte)
    ensures RgbBytes(AbgrCodec.Pack(r, g, b, a)) == [r, g, b]
  {
    AbgrCodec.UnpackPack(r, g, b, a);
  }

  /** A pixel packed by the src/gameloop.cpp `packcolor` would be written blue
      first: that program's `drop_ppm_image` exchanges red and blue. */
  lemma ArgbPixelBytes(r: Byte, g: Byte, b: Byte, a: Byte)
    ensures RgbBytes(ArgbCodec.Pack(r, g, b, a)) == [b, g, r]
  {
    ArgbCodec.UnpackPackSwapsRedBlue(r, g, b, a);
  }

  /** The bytes of all pixels, in index order. */
  function Body(image: seq<Word>): (b: seq<Byte>)
    ensures |b| == 3 * |image|
  {
    if image == [] then [] else Body(image[..|image| - 1]) + RgbBytes(image[|image| - 1])
  }

  /** Pixel i contributes bytes 3i, 3i + 1 and 3i + 2 of the body, which are
      bytes 0, 1 and 2 of its packed word; its byte 3 (alpha) never appears. */
  lemma {:induction false} BodyAt(image: seq<Word>, i: nat)
    requires i < |image|
    ensures Body(image)[3 * i .. 3 * i + 3] == RgbBytes(image[i])
    ensures Body(image)[3 * i .. 3 * i + 3] == [ByteOf(image[i], 0), ByteOf(image[i], 1), ByteOf(image[i], 2)]
  {
    var n := |image| - 1;
    if i < n {
      BodyAt(image[..n], i);
      assert image[..n][i] == image[i];
    }
  }

  /** `drop_ppm_image`: requires the vector to hold `width * height` pixels, as
      the source asserts, and returns the bytes written to the file. */
  method DropPpmImage(image: seq<Word>, w: Size, h: Size) returns (out: seq<Byte>)
    requires |image| == w * h
    ensures out == Ascii(Header(w, h)) + Body(image)
  {
    out := Ascii(Header(w, h));
    for i := 0 to w * h
      invariant out == Ascii(Header(w, h)) + Body(image[..i])
    {
      var ch := Unpack(image[i]);
      out := out + [ch.r] + [ch.g] + [ch.b];
      assert image[..i + 1][..i] == image[..i];
    }
    assert image[..w * h] == image;
  }
}
