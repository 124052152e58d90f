/** The fixed-width unsigned integers of the renderer, as Dafny integers with
    their ranges, and the modulo-2^64 arithmetic of `size_t`. */
module Machine {

  const ByteLimit: int := 0x100
  const WordLimit: int := 0x1_0000_0000
  const SizeLimit: int := 0x1_0000_0000_0000_0000

  /** `uint8_t`: one colour channel or one output byte. */
  type Byte = x: int | 0 <= x < 0x100

  /** `uint32_t`: one packed pixel. */
  type Word = x: int | 0 <= x < 0x1_0000_0000

  /** `size_t` on a 64-bit target: coordinates, extents and indices. */
  type Size = x: int | 0 <= x < 0x1_0000_0000_0000_0000

  /** Conversion of an integer to `size_t`: reduction modulo 2^64. */
  function Wrap(x: int): (r: Size)
    ensures 0 <= x < SizeLimit ==> r == x
    ensures (x - r) % SizeLimit == 0
  {
    x % SizeLimit
  }

  /** The `size_t` sum `p + k`, as `x_pos + i` is computed in `draw_rectangle`. */
  function Offset(p: Size, k: int): (r: Size)
  {
    Wrap(p + k)
  }

  /** The n values `p + 0`, ..., `p + (n - 1)`, each taken modulo 2^64,
      include v. */
  predicate Covers(p: Size, n: Size, v: int)
  {
    0 <= v < SizeLimit && (v - p) % SizeLimit < n
  }

  /** Covers means what its comment says: some offset below n lands on v. */
  lemma CoversMeansSomeOffset(p: Size, n: Size, v: Size)
    ensures Covers(p, n, v) <==> exists k :: 0 <= k < n && Offset(p, k) == v
  {
    if Covers(p, n, v) {
      var k := (v - p) % SizeLimit;
      OffsetAt(p, k, v);
    }
    forall k | 0 <= k < n && Offset(p, k) == v
      ensures Covers(p, n, v)
    {
      OffsetAt(p, k, v);
    }
  }

  /** The offset k lands on v exactly when k is v - p modulo 2^64. */
  lemma OffsetAt(p: Size, k: Size, v: Size)
    ensures Offset(p, k) == v <==> (v - p) % SizeLimit == k
  {
    var q := (p + k) / SizeLimit;
    assert p + k == q * SizeLimit + Offset(p, k);
    assert 0 <= q <= 1;
    var d := (v - p) / SizeLimit;
    assert v - p == d * SizeLimit + (v - p) % SizeLimit;
    assert -1 <= d <= 0;
  }

  /** No offset below zero values. */
  lemma CoversNone(p: Size, v: int)
    ensures !Covers(p, 0, v)
  {
  }

  /** Taking one more offset adds exactly the value `p + n`. */
  lemma CoversStep(p: Size, n: Size, v: int)
    requires n + 1 < SizeLimit
    ensures Covers(p, n + 1, v) <==> Covers(p, n, v) || (0 <= v < SizeLimit && v == Offset(p, n))
  {
    if 0 <= v < SizeLimit {
      OffsetAt(p, n, v);
    }
  }

  /** A single offset covers exactly the value `p`. */
  lemma CoversOne(p: Size, v: int)
    ensures Covers(p, 1, v) <==> v == p
  {
    CoversStep(p, 0, v);
  }

  /** The offsets of a start `t` given as a mathematical integer, possibly
      negative (as `window_height/2 - column_height/2` is before it is
      reduced to `size_t`), cover v exactly when v lies in [t, t + n), provided
      the interval does not reach around the 2^64 circle back to v. */
  lemma CoversShifted(t: int, n: Size, v: Size)
    requires -SizeLimit < t < SizeLimit
    requires v - t < SizeLimit
    requires t + n <= SizeLimit
    ensures Covers(Wrap(t), n, v) <==> t <= v < t + n
  {
    var p := Wrap(t);
    if t < 0 {
      assert p == t + SizeLimit;
    } else {
      assert p == t;
    }
    if v >= t {
      assert (v - p) % SizeLimit == v - t;
    } else {
      assert (v - p) % SizeLimit == v - t + SizeLimit;
    }
  }

  /** Multiplying by a non-negative factor keeps the order. */
  lemma MulMonotone(a: int, b: int, c: int)
    requires 0 <= c && a <= b
    ensures a * c <= b * c
  {
  }
}
