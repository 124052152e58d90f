/** `packcolor` of raycasterfiles/main.cpp and raycasterfiles/rangefinder.cpp
    (the two read the same): alpha in the highest byte, then blue, green, and
    red in the lowest byte. With this layout `unpack_color` is its exact
    inverse. */
module AbgrCodec {
  import opened Machine
  import opened Channels

  /** `packcolor(r, g, b, a = 255)`. The shifts act on `uint8_t` values
      promoted to `int`, so `a << 24` leaves the range of `int` once a >= 128;
      the `uint32_t` result is the sum reduced modulo 2^32, which is what the
      final reduction writes out. No channel overlaps another, so nothing is
      lost to the reduction. */
  function Pack(r: Byte, g: Byte, b: Byte, a: Byte := 255): (c: Word)
    ensures c == 0x100_0000 * a + 0x1_0000 * b + 0x100 * g + r
    ensures ByteOf(c, 0) == r && ByteOf(c, 1) == g
    ensures ByteOf(c, 2) == b && ByteOf(c, 3) == a
  {
    ByteOfCompose(r, g, b, a);
    (a * 0x100_0000 + b * 0x1_0000 + g * 0x100 + r) % WordLimit
  }

  /** Unpacking a packed colour gives back its four channels. */
  lemma UnpackPack(r: Byte, g: Byte, b: Byte, a: Byte)
    ensures Unpack(Pack(r, g, b, a)) == Rgba(r, g, b, a)
  {
  }

  /** Packing the channels of any 32-bit word gives back that word. */
  lemma PackUnpack(c: Word)
    ensures Pack(Unpack(c).r, Unpack(c).g, Unpack(c).b, Unpack(c).a) == c
  {
  }

  /** Two colours pack to the same word only if all their channels agree. */
  lemma PackInjective(r: Byte, g: Byte, b: Byte, a: Byte, r': Byte, g': Byte, b': Byte, a': Byte)
    requires Pack(r, g, b, a) == Pack(r', g', b', a')
    ensures r == r' && g == g' && b == b' && a == a'
  {
    UnpackPack(r, g, b, a);
    UnpackPack(r', g', b', a');
  }
}
