/** The byte view of a packed pixel: `unpack_color`, which reads the same in
    every program of the repository (byte 0 is returned as red, byte 1 as
    green, byte 2 as blue, byte 3 as alpha). The two programs disagree only in
    how they pack; see AbgrCodec and ArgbCodec. */
module Channels {
  import opened Machine

  /** Four 8-bit channels, as `unpack_color` hands them back. */
  datatype Rgba = Rgba(r: Byte, g: Byte, b: Byte, a: Byte)

  /** The weight of byte k (0 = lowest) in a 32-bit word: 2^(8k). */
  function Weight(k: nat): (w: nat)
    requires k < 4
  {
    match k
    case 0 => 1
    case 1 => 0x100
    case 2 => 0x1_0000
    case 3 => 0x100_0000
  }

  /** `(color >> 8k) & 255`. */
  function ByteOf(c: Word, k: nat): (b: Byte)
    requires k < 4
  {
    (c / Weight(k)) % ByteLimit
  }

  /** The word whose bytes, from lowest to highest, are b0, b1, b2, b3. */
  function Compose(b0: Byte, b1: Byte, b2: Byte, b3: Byte): (c: Word)
  {
    b0 + 0x100 * b1 + 0x1_0000 * b2 + 0x100_0000 * b3
  }

  /** Composing four bytes and then reading byte k gives back the k-th one. */
  lemma ByteOfCompose(b0: Byte, b1: Byte, b2: Byte, b3: Byte)
    ensures ByteOf(Compose(b0, b1, b2, b3), 0) == b0
    ensures ByteOf(Compose(b0, b1, b2, b3), 1) == b1
    ensures ByteOf(Compose(b0, b1, b2, b3), 2) == b2
    ensures ByteOf(Compose(b0, b1, b2, b3), 3) == b3
  {
    var c := Compose(b0, b1, b2, b3);
    assert c / 0x100 == b1 + 0x100 * b2 + 0x1_0000 * b3;
    assert c / 0x1_0000 == b2 + 0x100 * b3;
    assert c / 0x100_0000 == b3;
  }

  /** Every word is the composition of its four bytes. */
  lemma ComposeBytes(c: Word)
    ensures Compose(ByteOf(c, 0), ByteOf(c, 1), ByteOf(c, 2), ByteOf(c, 3)) == c
  {
    var q1 := c / 0x100;
    var q2 := c / 0x1_0000;
    var q3 := c / 0x100_0000;
    assert q2 == q1 / 0x100;
    assert q3 == q2 / 0x100;
    assert c == ByteOf(c, 0) + 0x100 * q1;
    assert q1 == ByteOf(c, 1) + 0x100 * q2;
    assert q2 == ByteOf(c, 2) + 0x100 * q3;
    assert q3 == ByteOf(c, 3);
  }

  /** `unpack_color`: red from byte 0, green from byte 1, blue from byte 2,
      alpha from byte 3; the four channels together determine the word. */
  function Unpack(c: Word): (ch: Rgba)
    ensures Compose(ch.r, ch.g, ch.b, ch.a) == c
  {
    ComposeBytes(c);
    Rgba(ByteOf(c, 0), ByteOf(c, 1), ByteOf(c, 2), ByteOf(c, 3))
  }
}
