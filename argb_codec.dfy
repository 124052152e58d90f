/** `packcolor` of src/gameloop.cpp: alpha in the highest byte, then red,
    green, and blue in the lowest byte, which is the layout of the
    `SDL_PIXELFORMAT_ARGB8888` texture the program uploads to. Its doc comment
    calls this ABGR with red lowest, and its `unpack_color` reads red from the
    lowest byte; so a round trip through the two exchanges red and blue. The
    exchange is proved here, next to the unpacking that matches this
    packing. */
module ArgbCodec {
  import opened Machine
  import opened Channels

  /** `packcolor(r, g, b, a = 255)`, reduced to `uint32_t` as in AbgrCodec.Pack. */
  function Pack(r: Byte, g: Byte, b: Byte, a: Byte := 255): (c: Word)
    ensures c == 0x100_0000 * a + 0x1_0000 * r + 0x100 * g + b
    ensures ByteOf(c, 0) == b && ByteOf(c, 1) == g
    ensures ByteOf(c, 2) == r && ByteOf(c, 3) == a
  {
    ByteOfCompose(b, g, r, a);
    (a * 0x100_0000 + r * 0x1_0000 + g * 0x100 + b) % WordLimit
  }

  /** As written: unpacking what gameloop packs hands back blue as red and red
      as blue; green and alpha survive. */
  lemma UnpackPackSwapsRedBlue(r: Byte, g: Byte, b: Byte, a: Byte)
    ensures Unpack(Pack(r, g, b, a)) == Rgba(b, g, r, a)
  {
  }

  /** The round trip is the identity exactly on the colours whose red and
      blue agree. */
  lemma UnpackPackIdentityIff(r: Byte, g: Byte, b: Byte, a: Byte)
    ensures Unpack(Pack(r, g, b, a)) == Rgba(r, g, b, a) <==> r == b
  {
    UnpackPackSwapsRedBlue(r, g, b, a);
  }

  /** The witness: the wall colour, cyan (0, 255, 255), unpacks as yellow. */
  lemma CyanUnpacksAsYellow()
    ensures Pack(0, 255, 255) == 0xFF00_FFFF
    ensures Unpack(Pack(0, 255, 255)) == Rgba(255, 255, 0, 255)
  {
    UnpackPackSwapsRedBlue(0, 255, 255, 255);
  }

  /** The unpacking that matches this packing: red from byte 2 and blue from
      byte 0. */
  function UnpackArgb(c: Word): (ch: Rgba)
    ensures Compose(ch.b, ch.g, ch.r, ch.a) == c
  {
    ComposeBytes(c);
    Rgba(ByteOf(c, 2), ByteOf(c, 1), ByteOf(c, 0), ByteOf(c, 3))
  }

  /** Corrected: UnpackArgb inverts Pack on every colour. */
  lemma UnpackArgbPack(r: Byte, g: Byte, b: Byte, a: Byte)
    ensures UnpackArgb(Pack(r, g, b, a)) == Rgba(r, g, b, a)
  {
  }

  /** Corrected: Pack inverts UnpackArgb on every word. */
  lemma PackUnpackArgb(c: Word)
    ensures Pack(UnpackArgb(c).r, UnpackArgb(c).g, UnpackArgb(c).b, UnpackArgb(c).a) == c
  {
  }
}
