/** Chunk geometry: the side length of a chunk, its power-of-two shift and mask, the
    flat cell index `x + 32 z + 1024 y` the mesher walks, and the packed local position
    `x | y << 5 | z << 10` it uses to pick one axis out of a cell's coordinates. */
module Chunk {

  /** `CHUNK_SIZE.trailing_zeros()`: the number of low zero bits of a positive number. */
  function TrailingZeros(n: nat): nat
    requires n > 0
  {
    if n % 2 == 1 then 0 else 1 + TrailingZeros(n / 2)
  }

  function Pow(base: int, exp: nat): int
  {
    if exp == 0 then 1 else base * Pow(base, exp - 1)
  }

  const CHUNK_SIZE: int := 32
  const CHUNK_SIZE_SQUARED: int := Pow(CHUNK_SIZE, 2)
  const CHUNK_SIZE_CUBED: int := Pow(CHUNK_SIZE, 3)
  const CHUNK_SIZE_SHIFT: int := TrailingZeros(CHUNK_SIZE)
  const CHUNK_SIZE_MASK: int := CHUNK_SIZE - 1

  /** The constants have the values the mesher's index arithmetic relies on. */
  lemma ChunkConstants()
    ensures CHUNK_SIZE == 32 && CHUNK_SIZE_SQUARED == 1024 && CHUNK_SIZE_CUBED == 32768
    ensures CHUNK_SIZE_SHIFT == 5 && CHUNK_SIZE_MASK == 31
    ensures Pow(2, CHUNK_SIZE_SHIFT) == CHUNK_SIZE
  {
    assert TrailingZeros(32) == 5 by {
      assert TrailingZeros(1) == 0;
      assert TrailingZeros(2) == 1;
      assert TrailingZeros(4) == 2;
      assert TrailingZeros(8) == 3;
      assert TrailingZeros(16) == 4;
    }
  }

  /** For a non-negative i32, `v & CHUNK_SIZE_MASK` is `v % 32` and `v >> CHUNK_SIZE_SHIFT`
      is `v / 32`. */
  lemma MaskAndShift(v: bv32)
    requires v < 0x8000_0000
    ensures v & 31 == v % 32
    ensures v >> 5 == v / 32
  {
  }

  /** `CHUNK_SIZE_SHIFT` and `CHUNK_SIZE_MASK` as the bits of the i32 the mesher shifts
      and masks with. Every i32 that takes part in a bit operation there is
      non-negative and below 2^15, so its signed and unsigned readings agree. */
  const SHIFT_BITS: bv32 := 5
  const MASK_BITS: bv32 := 31
  const SIZE_BITS: bv32 := 32

  lemma BitConstants()
    ensures SHIFT_BITS as int == CHUNK_SIZE_SHIFT && MASK_BITS as int == CHUNK_SIZE_MASK
    ensures SIZE_BITS as int == CHUNK_SIZE
  {
    ChunkConstants();
  }

  /** A cell of a chunk. The coordinates are the mesher's i32 loop variables, held as
      their bits because they are packed into a local position. */
  datatype Pos = Pos(x: bv32, y: bv32, z: bv32)
  {
    predicate InChunk()
    {
      x < 32 && y < 32 && z < 32
    }

    /** The coordinate along axis `c`, numbered as the local position packs them:
        0 is x, 1 is y, 2 is z. */
    function Component(c: int): bv32
    {
      if c == 0 then x else if c == 1 then y else z
    }

    /** This position with the coordinate along axis `c` replaced by `v`. */
    function With(c: int, v: bv32): Pos
    {
      if c == 0 then Pos(v, y, z) else if c == 1 then Pos(x, v, z) else Pos(x, y, v)
    }
  }

  /** v is the coordinate along axis t of the cell k steps past p along that axis (with
      the i32 addition of the mesher's traversal). Stated axis by axis so that a case
      split on t yields the addition itself. */
  predicate Along(p: Pos, t: int, k: bv32, v: bv32)
  {
    v == p.Component(t) + k
  }

  /** The flat index of a cell in the decoded block array. */
  function Index(p: Pos): int
  {
    p.x as int + CHUNK_SIZE * p.z as int + CHUNK_SIZE_SQUARED * p.y as int
  }

  /** `INDEX_STEP_BY_NORMAL_INDEX[c]` for a positive axis c: how far the flat index moves
      when the coordinate along axis c grows by one. */
  function AxisStep(c: int): int
  {
    if c == 0 then 1 else if c == 1 then CHUNK_SIZE_SQUARED else CHUNK_SIZE
  }

  /** The flat index is a bijection between the cells of a chunk and [0, 32768). */
  lemma IndexBijection(p: Pos)
    requires p.InChunk()
    ensures 0 <= Index(p) < CHUNK_SIZE_CUBED
    ensures Index(p) % CHUNK_SIZE == p.x as int
    ensures (Index(p) / CHUNK_SIZE) % CHUNK_SIZE == p.z as int
    ensures Index(p) / CHUNK_SIZE_SQUARED == p.y as int
  {
    ChunkConstants();
    Coordinate(p.x);
    Coordinate(p.y);
    Coordinate(p.z);
    Digits(Index(p), p.x as int, p.y as int, p.z as int);
  }

  /** The range half of `IndexBijection`, for use where the digits are not needed. */
  lemma IndexInRange(p: Pos)
    requires p.InChunk()
    ensures 0 <= Index(p) < CHUNK_SIZE_CUBED
  {
    IndexBijection(p);
  }

  /** A coordinate below 32 as bits is one below 32 as a number. */
  lemma Coordinate(a: bv32)
    requires a < 32
    ensures 0 <= a as int < 32
  {
  }

  /** The base-32 digits of `x + 32 z + 1024 y`. */
  lemma Digits(i: int, x: int, y: int, z: int)
    requires 0 <= x < 32 && 0 <= y < 32 && 0 <= z < 32 && i == x + 32 * z + 1024 * y
    ensures 0 <= i < 32768 && i % 32 == x && (i / 32) % 32 == z && i / 1024 == y
  {
  }

  lemma IndexInjective(p: Pos, q: Pos)
    requires p.InChunk() && q.InChunk() && Index(p) == Index(q)
    ensures p == q
  {
    IndexBijection(p);
    IndexBijection(q);
    BitsInjective(p.x, q.x);
    BitsInjective(p.y, q.y);
    BitsInjective(p.z, q.z);
  }

  lemma BitsInjective(a: bv32, b: bv32)
    requires a as int == b as int
    ensures a == b
  {
    assert (a as int) as bv32 == a && (b as int) as bv32 == b;
  }

  /** One step along axis c moves the flat index by the step of that axis. */
  lemma IndexStep(p: Pos, c: int, v: bv32)
    requires 0 <= c < 3 && v < 32
    ensures Index(p.With(c, v + 1)) == Index(p.With(c, v)) + AxisStep(c)
  {
    ChunkConstants();
    Succ(v);
    if c == 0 {
      assert p.With(c, v + 1) == Pos(v + 1, p.y, p.z);
    } else if c == 1 {
      assert p.With(c, v + 1) == Pos(p.x, v + 1, p.z);
    } else {
      assert p.With(c, v + 1) == Pos(p.x, p.y, v + 1);
    }
  }

  /** Moving a cell to coordinate v along axis c moves its flat index by the axis
      step once per cell of distance. */
  lemma IndexAlong(p: Pos, c: int, v: bv32)
    requires p.InChunk() && 0 <= c < 3 && v < 32
    ensures p.With(c, v).InChunk()
    ensures Index(p.With(c, v)) == Index(p) + (v as int - p.Component(c) as int) * AxisStep(c)
  {
    if c == 0 {
      IndexAlongX(p, v);
    } else if c == 1 {
      IndexAlongY(p, v);
    } else {
      IndexAlongZ(p, v);
    }
  }

  lemma IndexAlongX(p: Pos, v: bv32)
    requires p.InChunk() && v < 32
    ensures Index(Pos(v, p.y, p.z)) == Index(p) + (v as int - p.x as int)
  {
  }

  lemma IndexAlongY(p: Pos, v: bv32)
    requires p.InChunk() && v < 32
    ensures Index(Pos(p.x, v, p.z)) == Index(p) + (v as int - p.y as int) * CHUNK_SIZE_SQUARED
  {
    ChunkConstants();
  }

  lemma IndexAlongZ(p: Pos, v: bv32)
    requires p.InChunk() && v < 32
    ensures Index(Pos(p.x, p.y, v)) == Index(p) + (v as int - p.z as int) * CHUNK_SIZE
  {
    ChunkConstants();
  }

  /** The cell k cells along axis c from p, while its coordinate stays inside the
      chunk, has a flat index inside the chunk. */
  lemma AlongInChunk(p: Pos, c: int, k: int)
    requires p.InChunk() && 0 <= c < 3 && 0 <= p.Component(c) as int + k < CHUNK_SIZE
    ensures 0 <= Index(p) + k * AxisStep(c) < CHUNK_SIZE_CUBED
  {
    ChunkConstants();
    var v := Bits(p.Component(c) as int + k);
    SmallBits(p.Component(c) as int + k);
    IndexAlong(p, c, v);
    IndexInRange(p.With(c, v));
  }

  /** The bits of a small non-negative i32: its low byte, zero-extended. */
  function Bits(v: int): bv32
    requires 0 <= v < 0x100
  {
    (v as bv8) as bv32
  }

  /** The cell at flat index i: the inverse of `Index`. */
  function PosOf(i: int): Pos
    requires 0 <= i < CHUNK_SIZE_CUBED
  {
    ChunkConstants();
    Pos(Bits(i % CHUNK_SIZE), Bits(i / CHUNK_SIZE_SQUARED), Bits((i / CHUNK_SIZE) % CHUNK_SIZE))
  }

  /** Decoding a cell's flat index gives the cell back. */
  lemma PosOfIndex(p: Pos)
    requires p.InChunk()
    ensures 0 <= Index(p) < CHUNK_SIZE_CUBED && PosOf(Index(p)) == p
  {
    IndexBijection(p);
    SameBits(p.x);
    SameBits(p.y);
    SameBits(p.z);
  }

  /** Encoding the cell at flat index i gives i back. */
  lemma IndexOfPos(i: int)
    requires 0 <= i < CHUNK_SIZE_CUBED
    ensures PosOf(i).InChunk() && Index(PosOf(i)) == i
  {
    ChunkConstants();
    SmallBits(i % 32);
    SmallBits(i / 1024);
    SmallBits((i / 32) % 32);
    Undigits(i);
  }

  /** The base-32 digits of a number below 32768 put back together. */
  lemma Undigits(i: int)
    requires 0 <= i < 32768
    ensures 0 <= i % 32 < 32 && 0 <= (i / 32) % 32 < 32 && 0 <= i / 1024 < 32
    ensures i == i % 32 + 32 * ((i / 32) % 32) + 1024 * (i / 1024)
  {
    var q := i / 32;
    assert i == i % 32 + 32 * q;
    assert q == q % 32 + 32 * (q / 32);
    assert q / 32 == i / 1024;
  }

  /** The mesher's loop variables x, y, z as a cell, and its flat index. */
  lemma CellOf(x: int, y: int, z: int)
    requires 0 <= x < CHUNK_SIZE && 0 <= y < CHUNK_SIZE && 0 <= z < CHUNK_SIZE
    ensures Pos(Bits(x), Bits(y), Bits(z)).InChunk()
    ensures Index(Pos(Bits(x), Bits(y), Bits(z))) == x + CHUNK_SIZE * z + CHUNK_SIZE_SQUARED * y
  {
    ChunkConstants();
    SmallBits(x);
    SmallBits(y);
    SmallBits(z);
  }

  lemma SameBits(a: bv32)
    requires a < 32
    ensures Bits(a as int) == a
  {
    SmallBits(a as int);
    BitsInjective(Bits(a as int), a);
  }

  /** An i32 in [0, 32) and its bits stand for the same number. */
  lemma SmallBits(v: int)
    requires 0 <= v < 32
    ensures Bits(v) as int == v && Bits(v) < 32
  {
    ByteBits(v);
    Widen(v as bv8);
  }

  lemma ByteBits(v: int)
    requires 0 <= v < 32
    ensures (v as bv8) as int == v && v as bv8 < 32
  {
  }

  lemma Widen(b: bv8)
    ensures (b as bv32) as int == b as int
  {
  }

  /** The i32 sum of two numbers below 32 does not carry out of the bits. */
  lemma NoCarry(a: bv32, k: bv32)
    requires a < 32 && k < 32
    ensures (a + k) as int == a as int + k as int
  {
  }

  /** A coordinate k cells past p along axis t, given as numbers, is the i32 sum of
      the bits. */
  lemma AlongOfInts(p: Pos, t: int, k: bv32, v: bv32)
    requires p.InChunk() && k < 32 && v as int == p.Component(t) as int + k as int
    ensures Along(p, t, k, v)
  {
    NoCarry(p.Component(t), k);
    BitsInjective(v, p.Component(t) + k);
  }

  /** The i32 increment of a small coordinate. */
  lemma Succ(v: bv32)
    requires v < 32
    ensures (v + 1) as int == v as int + 1
  {
  }

  /** The packed local position of a cell, `x | (y << CHUNK_SIZE_SHIFT) | (z <<
      CHUNK_SIZE_SHIFT << CHUNK_SIZE_SHIFT)`; the mesher's three masks take the
      coordinates back out. */
  function LocalPosition(p: Pos): bv32
    requires p.InChunk()
  {
    p.x | (p.y << SHIFT_BITS) | (p.z << SHIFT_BITS << SHIFT_BITS)
  }

  /** The three masks of the mesher take a cell's coordinates back out of its local
      position, which fits in 15 bits. */
  lemma LocalPositionFields(p: Pos)
    requires p.InChunk()
    ensures LocalPosition(p) & MASK_BITS == p.x
    ensures (LocalPosition(p) >> SHIFT_BITS) & MASK_BITS == p.y
    ensures (LocalPosition(p) >> (SHIFT_BITS * 2)) & MASK_BITS == p.z
    ensures LocalPosition(p) < 0x8000
  {
  }

  /** Changing one coordinate leaves the other two as they were. */
  lemma WithOther(p: Pos, t: int, v: bv32, c: int)
    requires 0 <= c < 3 && 0 <= t < 3 && c != t
    ensures p.With(t, v).Component(c) == p.Component(c)
    ensures p.With(t, v).With(c, p.Component(c)) == p.With(t, v)
  {
  }

  /** A coordinate of a cell replaced by one inside the chunk gives a cell of the chunk. */
  lemma WithInChunk(p: Pos, c: int, v: bv32)
    requires p.InChunk() && 0 <= c < 3 && v < 32
    ensures p.With(c, v).InChunk()
  {
  }

  /** `CHUNK_SIZE_SHIFT * c`, the shift of coordinate c in a local position, as the
      bits of a shift amount. */
  function AxisShift(c: int): (s: bv6)
    requires 0 <= c < 3
    ensures s as int == CHUNK_SIZE_SHIFT * c
  {
    ChunkConstants();
    if c == 0 then 0 else if c == 1 then 5 else 10
  }

  // `(local_position >> (CHUNK_SIZE_SHIFT * c)) & CHUNK_SIZE_MASK` and the masked form
  // `(local_position & (CHUNK_SIZE_MASK << s)) >> s` are coordinate c, one axis at a time.

  lemma ComponentX(p: Pos, c: int, s: bv6)
    requires p.InChunk() && c == 0 && s == 0
    ensures (LocalPosition(p) >> s) & MASK_BITS == p.Component(c)
    ensures (LocalPosition(p) & (MASK_BITS << s)) >> s == p.Component(c)
  {
  }

  lemma ComponentY(p: Pos, c: int, s: bv6)
    requires p.InChunk() && c == 1 && s == 5
    ensures (LocalPosition(p) >> s) & MASK_BITS == p.Component(c)
    ensures (LocalPosition(p) & (MASK_BITS << s)) >> s == p.Component(c)
  {
  }

  lemma ComponentZ(p: Pos, c: int, s: bv6)
    requires p.InChunk() && c == 2 && s == 10
    ensures (LocalPosition(p) >> s) & MASK_BITS == p.Component(c)
    ensures (LocalPosition(p) & (MASK_BITS << s)) >> s == p.Component(c)
  {
  }

  // Field arithmetic on local positions. Each coordinate below 32 has its own five
  // bits, so adding to one field never carries into the next, and masking a field
  // out and OR-ing a new value in replaces that coordinate alone.

  lemma AddAlongX(p: Pos, k: bv32)
    requires p.InChunk() && k < 32 && p.x + k < 32
    ensures LocalPosition(p) + (k << 0) == LocalPosition(Pos(p.x + k, p.y, p.z))
  {
  }

  lemma AddAlongY(p: Pos, k: bv32)
    requires p.InChunk() && k < 32 && p.y + k < 32
    ensures LocalPosition(p) + (k << 5) == LocalPosition(Pos(p.x, p.y + k, p.z))
  {
  }

  lemma AddAlongZ(p: Pos, k: bv32)
    requires p.InChunk() && k < 32 && p.z + k < 32
    ensures LocalPosition(p) + (k << 10) == LocalPosition(Pos(p.x, p.y, p.z + k))
  {
  }

  lemma ReplaceX(q: Pos, w: bv32)
    requires q.InChunk() && w < 32
    ensures (!(MASK_BITS << 0) & LocalPosition(q)) | (w << 0) == LocalPosition(Pos(w, q.y, q.z))
  {
  }

  lemma ReplaceY(q: Pos, w: bv32)
    requires q.InChunk() && w < 32
    ensures (!(MASK_BITS << 5) & LocalPosition(q)) | (w << 5) == LocalPosition(Pos(q.x, w, q.z))
  {
  }

  lemma ReplaceZ(q: Pos, w: bv32)
    requires q.InChunk() && w < 32
    ensures (!(MASK_BITS << 10) & LocalPosition(q)) | (w << 10) == LocalPosition(Pos(q.x, q.y, w))
  {
  }
}
