/** The greedy chunk mesher: decodes a 32x32x32 chunk, and for every non-air cell and
    every face not yet covered, grows a run of equal cells along one of the two
    perpendicular axes, culls against the faced cell (in this chunk or in the
    neighbouring chunk's palette), marks the covered faces, and pushes one quad per
    surviving run. */
module Mesher {
  import opened Common
  import opened Arith
  import opened Chunk
  import opened Blocks
  import opened BlockRegistry
  import Collections

  /** The four corner templates of each face, one packed i32 per corner. */
  const PACKED_VERTEX_BY_NORMAL_INDEX: seq<seq<bv32>> := [
    [0x58_1041, 0x58_1001, 0x58_0001, 0x58_0041],  // East
    [0x64_1040, 0x64_1041, 0x64_0041, 0x64_0040],  // Up
    [0x94_1040, 0x94_1000, 0x94_1001, 0x94_1041],  // North
    [0x50_0040, 0x50_0000, 0x50_1000, 0x50_1040],  // West
    [0x44_1001, 0x44_1000, 0x44_0000, 0x44_0001],  // Down
    [0x14_0041, 0x14_0001, 0x14_0000, 0x14_0040]   // South
  ]

  /** How far the flat cell index moves one cell along each face normal. */
  const INDEX_STEP_BY_NORMAL_INDEX: seq<int> :=
    [1, CHUNK_SIZE_SQUARED, CHUNK_SIZE, -1, -CHUNK_SIZE_SQUARED, -CHUNK_SIZE]

  /** Normals 0..2 point along +x, +y, +z and normals 3..5 along -x, -y, -z, so the
      step of normal n is the step of its axis n % 3, negated for n >= 3. */
  lemma IndexStepByNormal(n: int)
    requires 0 <= n < 6
    ensures INDEX_STEP_BY_NORMAL_INDEX[n] == if n < 3 then AxisStep(n) else -AxisStep(n - 3)
  {
    ChunkConstants();
  }

  // ---------------------------------------------------------------- face flags

  /** A `DIRECTION` set: one flag bit per face normal. */
  type Directions = bv8

  const NO_DIRECTIONS: Directions := 0

  /** `DIRECTION::from_bits_truncate((1 << n) as u8)`: face n is flag bit n. */
  function FaceDirection(n: int): (d: Directions)
    requires 0 <= n < 6
    ensures d != 0 && d & 0x3F == d
  {
    if n == 0 then 1 << 0
    else if n == 1 then 1 << 1
    else if n == 2 then 1 << 2
    else if n == 3 then 1 << 3
    else if n == 4 then 1 << 4
    else 1 << 5
  }

  /** bitflags' `contains`: every flag of `d` is set in `f`. */
  predicate Has(f: Directions, d: Directions)
  {
    f & d == d
  }

  /** Distinct normals are distinct flags. */
  lemma FaceDirectionInjective(n: int, m: int)
    requires 0 <= n < 6 && 0 <= m < 6 && n != m
    ensures !Has(FaceDirection(n), FaceDirection(m))
  {
  }

  /** Setting a flag makes it present. */
  lemma OrHas(a: Directions, d: Directions)
    ensures Has(a | d, d)
  {
  }

  /** `after` is `before` with some of the flags in `added` set, and no flag cleared. */
  predicate Widens(before: Directions, after: Directions, added: Directions)
  {
    after == before | (after & added)
  }

  /** Cell by cell, `after` widens `before` by flags of `added`. */
  ghost predicate Widened(before: seq<Directions>, after: seq<Directions>, added: Directions)
  {
    |after| == |before| && forall i {:trigger Widens(before[i], after[i], added)} :: 0 <= i < |before| ==> Widens(before[i], after[i], added)
  }

  lemma WidenedTrans(a: seq<Directions>, b: seq<Directions>, c: seq<Directions>, m1: Directions, m2: Directions, m: Directions)
    requires Widened(a, b, m1) && Widened(b, c, m2) && m1 & m == m1 && m2 & m == m2
    ensures Widened(a, c, m)
  {
    forall i | 0 <= i < |a|
      ensures Widens(a[i], c[i], m)
    {
      WidenStep(a[i], b[i], c[i], m1, m2, m);
    }
  }

  lemma WidenStep(a: Directions, b: Directions, c: Directions, m1: Directions, m2: Directions, m: Directions)
    requires Widens(a, b, m1) && Widens(b, c, m2) && m1 & m == m1 && m2 & m == m2
    ensures Widens(a, c, m)
  {
  }

  /** OR-ing flags of `m` into one cell widens by `m`. */
  lemma WidenedByUpdate(a: seq<Directions>, i: int, d: Directions, m: Directions)
    requires 0 <= i < |a| && d & m == d
    ensures Widened(a, a[i := a[i] | d], m)
  {
    forall j | 0 <= j < |a|
      ensures Widens(a[j], a[i := a[i] | d][j], m)
    {
      if j == i {
        OrWidens(a[i], d, m);
      } else {
        UnchangedWidens(a[j], m);
      }
    }
  }

  lemma OrWidens(a: Directions, d: Directions, m: Directions)
    requires d & m == d
    ensures Widens(a, a | d, m)
  {
  }

  lemma UnchangedWidens(a: Directions, m: Directions)
    ensures Widens(a, a, m)
  {
  }

  lemma WidenedRefl(a: seq<Directions>, m: Directions)
    ensures Widened(a, a, m)
  {
    forall j | 0 <= j < |a|
      ensures Widens(a[j], a[j], m)
    {
      UnchangedWidens(a[j], m);
    }
  }

  // ---------------------------------------------------------------- wrap

  /** Rust's `/` on i32: the quotient truncated toward zero. */
  function TruncDiv(a: int, b: int): int
    requires b != 0
  {
    var q := (if a < 0 then -a else a) / (if b < 0 then -b else b);
    if (a < 0) == (b < 0) then q else -q
  }

  /** Rust's `%` on i32: the remainder of the truncated quotient, signed like `a`. */
  function TruncRem(a: int, b: int): int
    requires b != 0
  {
    a - b * TruncDiv(a, b)
  }

  /** For a positive divisor, truncation agrees with Dafny's division on non-negative
      dividends and leaves a remainder in (-b, 0] on negative ones. */
  lemma TruncFacts(a: int, b: int)
    requires b > 0
    ensures a >= 0 ==> TruncDiv(a, b) == a / b && TruncRem(a, b) == a % b
    ensures a < 0 ==> -b < TruncRem(a, b) <= 0
  {
    if a < 0 {
      var q := (-a) / b;
      assert -a == q * b + (-a) % b;
    }
  }

  /** `wrap`: moves `value` by `delta` and folds the result back into
      `[min_val, max_val]`. */
  function Wrap(value: int, delta: int, minVal: int, maxVal: int): int
    requires (maxVal + 1) - minVal != 0
  {
    var modVal := (maxVal + 1) - minVal;
    var value1 := value + (delta - minVal);
    var value2 := value1 + (1 - TruncDiv(value1, modVal)) * modVal;
    TruncRem(value2, modVal) + minVal
  }

  /** `wrap` lands in `[min_val, max_val]` on a value congruent to `value + delta`
      modulo the width of that range. */
  lemma WrapRange(value: int, delta: int, minVal: int, maxVal: int)
    requires minVal <= maxVal
    ensures minVal <= Wrap(value, delta, minVal, maxVal) <= maxVal
    ensures (Wrap(value, delta, minVal, maxVal) - (value + delta)) % ((maxVal + 1) - minVal) == 0
  {
    WrapBounds(value, delta, minVal, maxVal);
    var modVal := (maxVal + 1) - minVal;
    var value1 := value + (delta - minVal);
    var q := TruncDiv(value1, modVal);
    TruncFacts(value1, modVal);
    assert value1 + (1 - q) * modVal == TruncRem(value1, modVal) + modVal by {
      MulSub(1, q, modVal);
    }
    TruncFacts(value1 + (1 - q) * modVal, modVal);
    RemainderCongruent(value1, 1 - q, modVal);
  }

  /** Adding a multiple of m and taking the remainder stays congruent modulo m. */
  lemma RemainderCongruent(a: int, j: int, m: int)
    requires m > 0 && a + j * m >= 0
    ensures ((a + j * m) % m - a) % m == 0
  {
    var d := (a + j * m) / m;
    assert (a + j * m) % m - a == (j - d) * m by {
      MulSub(j, d, m);
    }
    ModOfMultiple(j - d, m);
  }

  /** The range half of `WrapRange`: the shifted value is positive before the final
      remainder, so the remainder is a proper one. */
  lemma WrapBounds(value: int, delta: int, minVal: int, maxVal: int)
    requires minVal <= maxVal
    ensures minVal <= Wrap(value, delta, minVal, maxVal) <= maxVal
  {
    var modVal := (maxVal + 1) - minVal;
    var value1 := value + (delta - minVal);
    var q := TruncDiv(value1, modVal);
    var value2 := value1 + (1 - q) * modVal;
    TruncFacts(value1, modVal);
    assert value2 == TruncRem(value1, modVal) + modVal by {
      MulSub(1, q, modVal);
    }
    TruncFacts(value2, modVal);
  }

  lemma MulSub(a: int, b: int, m: int)
    ensures (a - b) * m == a * m - b * m
  {
  }

  lemma ModOfMultiple(k: int, m: int)
    requires m > 0
    ensures (k * m) % m == 0
  {
    DivModUnique(k * m, m, k, 0);
  }

  /** At the mesher's call site, `wrap(v + sign, CHUNK_SIZE, 0, CHUNK_SIZE_MASK)` steps
      off one face of the chunk onto the opposite face of the next one. */
  lemma WrapAcrossChunk()
    ensures Wrap(CHUNK_SIZE_MASK + 1, CHUNK_SIZE, 0, CHUNK_SIZE_MASK) == 0
    ensures Wrap(0 - 1, CHUNK_SIZE, 0, CHUNK_SIZE_MASK) == CHUNK_SIZE_MASK
  {
    ChunkConstants();
    assert TruncDiv(64, 32) == 2 && TruncRem(32, 32) == 0;
    assert TruncDiv(31, 32) == 0 && TruncRem(63, 32) == 31;
  }

  // ---------------------------------------------------------------- neighbour index

  /** `facing_neighbor`: the faced cell lies across the chunk boundary, because the
      coordinate along the normal's axis is the last one (positive normal) or the
      first one (negative normal). */
  predicate FacingNeighbor(isNegative: bool, facedAxisValue: bv32)
  {
    (!isNegative && facedAxisValue == SIZE_BITS - 1) || (isNegative && facedAxisValue == 0)
  }

  /** Lines 152-159 on the boundary: `wrap(component + sign, CHUNK_SIZE, 0,
      CHUNK_SIZE_MASK)` moves the faced component to the opposite end of the axis. */
  lemma WrappedAcross(facedComponent: bv32, isNegative: bool)
    requires FacingNeighbor(isNegative, facedComponent)
    ensures Wrap(facedComponent as int + (if isNegative then -1 else 1), CHUNK_SIZE, 0, CHUNK_SIZE_MASK)
         == if isNegative then CHUNK_SIZE_MASK else 0
  {
    WrapAcrossChunk();
  }

  /** Lines 147-148: the traversal cell's local position, `traversals` cells along the
      axis whose field starts at bit `traversalShift`. */
  function TraversalLocalPosition(localPosition: bv32, traversals: bv32, traversalShift: bv6): bv32
    requires traversalShift <= 10
  {
    localPosition + (traversals << traversalShift)
  }

  /** Lines 116-117 and 130-131: the coordinate of a local position whose field starts
      at bit `shift` (`(lp >> shift) & CHUNK_SIZE_MASK`). */
  function AxisValue(localPosition: bv32, shift: bv6): bv32
    requires shift <= 10
  {
    (localPosition >> shift) & MASK_BITS
  }

  /** The field of axis c of a cell's local position holds its coordinate along c. */
  lemma AxisValueOf(p: Pos, c: int, s: bv6)
    requires p.InChunk() && 0 <= c < 3 && s == AxisShift(c)
    ensures AxisValue(LocalPosition(p), s) == p.Component(c)
  {
    if c == 0 {
      AxisValueX(p, c, s);
    } else if c == 1 {
      AxisValueY(p, c, s);
    } else {
      AxisValueZ(p, c, s);
    }
  }

  lemma AxisValueX(p: Pos, c: int, s: bv6)
    requires p.InChunk() && c == 0 && s == 0
    ensures AxisValue(LocalPosition(p), s) == p.Component(c)
  {
    ComponentX(p, c, s);
  }

  lemma AxisValueY(p: Pos, c: int, s: bv6)
    requires p.InChunk() && c == 1 && s == 5
    ensures AxisValue(LocalPosition(p), s) == p.Component(c)
  {
    ComponentY(p, c, s);
  }

  lemma AxisValueZ(p: Pos, c: int, s: bv6)
    requires p.InChunk() && c == 2 && s == 10
    ensures AxisValue(LocalPosition(p), s) == p.Component(c)
  {
    ComponentZ(p, c, s);
  }

  /** Lines 152-153: the field of a local position starting at bit `shift`
      (`(lp & component_mask) >> component_shift`). */
  function FieldAt(localPosition: bv32, shift: bv6): bv32
    requires shift <= 10
  {
    (localPosition & (MASK_BITS << shift)) >> shift
  }

  /** Lines 150-159: the local position with the field starting at bit `shift` replaced
      by `value` (`(!component_mask & lp) | (value << component_shift)`). */
  function WithField(localPosition: bv32, shift: bv6, value: bv32): bv32
    requires shift <= 10
  {
    (!(MASK_BITS << shift) & localPosition) | (value << shift)
  }

  /** Lines 145-159: the local position of the cell across the boundary: the traversal
      cell's local position with its component along the normal's axis wrapped. */
  method NeighborLocalPosition(f: Face, traversalShift: bv6, traversals: bv32, ghost t: int, ghost total: bv32)
    returns (neighborLocalPosition: bv32)
    requires f.p.InChunk() && f.localPosition == LocalPosition(f.p)
    requires 0 <= f.component < 3 && f.componentShift == AxisShift(f.component)
    requires 0 <= t < 3 && t != f.component && traversalShift == AxisShift(t)
    requires traversals < 32 && Along(f.p, t, traversals, total) && total < 32
    requires FacingNeighbor(f.isNegative, f.p.Component(f.component))
    ensures AcrossBoundary(f.p.With(t, total), f.component, f.isNegative).InChunk()
    ensures neighborLocalPosition == LocalPosition(AcrossBoundary(f.p.With(t, total), f.component, f.isNegative))
  {
    ShiftedAcross(f.p, f.component, t, traversalShift, f.componentShift, traversals, total, if f.isNegative then MASK_BITS else 0);
    var traversalLocalPosition := TraversalLocalPosition(f.localPosition, traversals, traversalShift);
    var wrapped := WrapAtBoundary(FieldAt(traversalLocalPosition, f.componentShift), f.isNegative);
    neighborLocalPosition := WithField(traversalLocalPosition, f.componentShift, wrapped);
  }

  /** The `wrap` call of lines 152-159 for a cell on the boundary, where it is made:
      the faced component wraps round to the opposite end of the axis. */
  method WrapAtBoundary(facedComponent: bv32, isNegative: bool) returns (wrapped: bv32)
    requires FacingNeighbor(isNegative, facedComponent)
    ensures wrapped == if isNegative then MASK_BITS else 0
  {
    var sign := if isNegative then -1 else 1;
    WrappedAcross(facedComponent, isNegative);
    ChunkConstants();
    var value := Wrap(facedComponent as int + sign, CHUNK_SIZE, 0, CHUNK_SIZE_MASK);
    wrapped := Bits(value);
    SmallBits(value);
    BitsInjective(wrapped, if isNegative then MASK_BITS else 0);
  }

  /** Lines 165-173: the flat index of a local position's cell. */
  function BlocksIndex(localPosition: bv32): int
  {
    var x := localPosition & MASK_BITS;
    var y := (localPosition >> SHIFT_BITS) & MASK_BITS;
    var z := (localPosition >> (SHIFT_BITS * 2)) & MASK_BITS;
    x as int + CHUNK_SIZE * (z as int + CHUNK_SIZE * y as int)
  }

  lemma BlocksIndexOfLocalPosition(p: Pos)
    requires p.InChunk()
    ensures BlocksIndex(LocalPosition(p)) == Index(p)
  {
    LocalPositionFields(p);
    var lp := LocalPosition(p);
    assert lp & MASK_BITS == p.x && (lp >> SHIFT_BITS) & MASK_BITS == p.y && (lp >> (SHIFT_BITS * 2)) & MASK_BITS == p.z;
  }

  /** The cell on the far side of the boundary: in the neighbouring chunk, the
      traversal cell's coordinate along the normal's axis becomes the first one
      (positive normal) or the last one (negative normal). */
  function AcrossBoundary(q: Pos, c: int, isNegative: bool): Pos
  {
    q.With(c, if isNegative then MASK_BITS else 0)
  }

  /** The bit-level facts behind `NeighborLocalPosition`: `k` cells along axis t, the
      field of axis c still holds p's coordinate, and replacing that field by w gives
      the local position of the cell with coordinate w along c. */
  lemma ShiftedAcross(p: Pos, c: int, t: int, ts: bv6, cs: bv6, k: bv32, v: bv32, w: bv32)
    requires p.InChunk() && 0 <= c < 3 && 0 <= t < 3 && c != t && ts == AxisShift(t) && cs == AxisShift(c)
    requires k < 32 && Along(p, t, k, v) && v < 32 && w < 32
    ensures FieldAt(TraversalLocalPosition(LocalPosition(p), k, ts), cs) == p.Component(c)
    ensures p.With(t, v).With(c, w).InChunk()
    ensures WithField(TraversalLocalPosition(LocalPosition(p), k, ts), cs, w) == LocalPosition(p.With(t, v).With(c, w))
  {
    if c == 0 && t == 1 {
      AcrossXAlongY(p, c, t, ts, cs, k, v, w);
    } else if c == 0 && t == 2 {
      AcrossXAlongZ(p, c, t, ts, cs, k, v, w);
    } else if c == 1 && t == 0 {
      AcrossYAlongX(p, c, t, ts, cs, k, v, w);
    } else if c == 1 && t == 2 {
      AcrossYAlongZ(p, c, t, ts, cs, k, v, w);
    } else if c == 2 && t == 0 {
      AcrossZAlongX(p, c, t, ts, cs, k, v, w);
    } else {
      AcrossZAlongY(p, c, t, ts, cs, k, v, w);
    }
  }

  // One lemma per pair of axes: each fixes the shifts as literals and chains the
  // one-step facts below.

  lemma AcrossXAlongY(p: Pos, c: int, t: int, ts: bv6, cs: bv6, k: bv32, v: bv32, w: bv32)
    requires p.InChunk() && c == 0 && t == 1 && ts == 5 && cs == 0
    requires k < 32 && Along(p, t, k, v) && v < 32 && w < 32
    ensures FieldAt(TraversalLocalPosition(LocalPosition(p), k, ts), cs) == p.Component(c)
    ensures p.With(t, v).With(c, w).InChunk()
    ensures WithField(TraversalLocalPosition(LocalPosition(p), k, ts), cs, w) == LocalPosition(p.With(t, v).With(c, w))
  {
    var q := Pos(p.x, p.y + k, p.z);
    TraversedY(p, k);
    FieldX(q);
    WithFieldX(q, w);
    WithWith(p, c, t, v, w, Pos(w, p.y + k, p.z));
  }

  lemma AcrossXAlongZ(p: Pos, c: int, t: int, ts: bv6, cs: bv6, k: bv32, v: bv32, w: bv32)
    requires p.InChunk() && c == 0 && t == 2 && ts == 10 && cs == 0
    requires k < 32 && Along(p, t, k, v) && v < 32 && w < 32
    ensures FieldAt(TraversalLocalPosition(LocalPosition(p), k, ts), cs) == p.Component(c)
    ensures p.With(t, v).With(c, w).InChunk()
    ensures WithField(TraversalLocalPosition(LocalPosition(p), k, ts), cs, w) == LocalPosition(p.With(t, v).With(c, w))
  {
    var q := Pos(p.x, p.y, p.z + k);
    TraversedZ(p, k);
    FieldX(q);
    WithFieldX(q, w);
    WithWith(p, c, t, v, w, Pos(w, p.y, p.z + k));
  }

  lemma AcrossYAlongX(p: Pos, c: int, t: int, ts: bv6, cs: bv6, k: bv32, v: bv32, w: bv32)
    requires p.InChunk() && c == 1 && t == 0 && ts == 0 && cs == 5
    requires k < 32 && Along(p, t, k, v) && v < 32 && w < 32
    ensures FieldAt(TraversalLocalPosition(LocalPosition(p), k, ts), cs) == p.Component(c)
    ensures p.With(t, v).With(c, w).InChunk()
    ensures WithField(TraversalLocalPosition(LocalPosition(p), k, ts), cs, w) == LocalPosition(p.With(t, v).With(c, w))
  {
    var q := Pos(p.x + k, p.y, p.z);
    TraversedX(p, k);
    FieldY(q);
    WithFieldY(q, w);
    WithWith(p, c, t, v, w, Pos(p.x + k, w, p.z));
  }

  lemma AcrossYAlongZ(p: Pos, c: int, t: int, ts: bv6, cs: bv6, k: bv32, v: bv32, w: bv32)
    requires p.InChunk() && c == 1 && t == 2 && ts == 10 && cs == 5
    requires k < 32 && Along(p, t, k, v) && v < 32 && w < 32
    ensures FieldAt(TraversalLocalPosition(LocalPosition(p), k, ts), cs) == p.Component(c)
    ensures p.With(t, v).With(c, w).InChunk()
    ensures WithField(TraversalLocalPosition(LocalPosition(p), k, ts), cs, w) == LocalPosition(p.With(t, v).With(c, w))
  {
    var q := Pos(p.x, p.y, p.z + k);
    TraversedZ(p, k);
    FieldY(q);
    WithFieldY(q, w);
    WithWith(p, c, t, v, w, Pos(p.x, w, p.z + k));
  }

  lemma AcrossZAlongX(p: Pos, c: int, t: int, ts: bv6, cs: bv6, k: bv32, v: bv32, w: bv32)
    requires p.InChunk() && c == 2 && t == 0 && ts == 0 && cs == 10
    requires k < 32 && Along(p, t, k, v) && v < 32 && w < 32
    ensures FieldAt(TraversalLocalPosition(LocalPosition(p), k, ts), cs) == p.Component(c)
    ensures p.With(t, v).With(c, w).InChunk()
    ensures WithField(TraversalLocalPosition(LocalPosition(p), k, ts), cs, w) == LocalPosition(p.With(t, v).With(c, w))
  {
    var q := Pos(p.x + k, p.y, p.z);
    TraversedX(p, k);
    FieldZ(q);
    WithFieldZ(q, w);
    WithWith(p, c, t, v, w, Pos(p.x + k, p.y, w));
  }

  lemma AcrossZAlongY(p: Pos, c: int, t: int, ts: bv6, cs: bv6, k: bv32, v: bv32, w: bv32)
    requires p.InChunk() && c == 2 && t == 1 && ts == 5 && cs == 10
    requires k < 32 && Along(p, t, k, v) && v < 32 && w < 32
    ensures FieldAt(TraversalLocalPosition(LocalPosition(p), k, ts), cs) == p.Component(c)
    ensures p.With(t, v).With(c, w).InChunk()
    ensures WithField(TraversalLocalPosition(LocalPosition(p), k, ts), cs, w) == LocalPosition(p.With(t, v).With(c, w))
  {
    var q := Pos(p.x, p.y + k, p.z);
    TraversedY(p, k);
    FieldZ(q);
    WithFieldZ(q, w);
    WithWith(p, c, t, v, w, Pos(p.x, p.y + k, w));
  }

  /** Two coordinates replaced in turn. */
  lemma WithWith(p: Pos, c: int, t: int, v: bv32, w: bv32, r: Pos)
    requires 0 <= c < 3 && 0 <= t < 3 && c != t
    requires r.Component(c) == w && r.Component(t) == v
    requires r.Component(3 - c - t) == p.Component(3 - c - t)
    ensures p.With(t, v).With(c, w) == r
  {
  }

  // One-step facts, each unfolding one of the field functions at a fixed shift.

  lemma TraversedX(p: Pos, k: bv32)
    requires p.InChunk() && k < 32 && p.x + k < 32
    ensures TraversalLocalPosition(LocalPosition(p), k, 0) == LocalPosition(Pos(p.x + k, p.y, p.z))
  {
    AddAlongX(p, k);
  }

  lemma TraversedY(p: Pos, k: bv32)
    requires p.InChunk() && k < 32 && p.y + k < 32
    ensures TraversalLocalPosition(LocalPosition(p), k, 5) == LocalPosition(Pos(p.x, p.y + k, p.z))
  {
    AddAlongY(p, k);
  }

  lemma TraversedZ(p: Pos, k: bv32)
    requires p.InChunk() && k < 32 && p.z + k < 32
    ensures TraversalLocalPosition(LocalPosition(p), k, 10) == LocalPosition(Pos(p.x, p.y, p.z + k))
  {
    AddAlongZ(p, k);
  }

  lemma FieldX(q: Pos)
    requires q.InChunk()
    ensures FieldAt(LocalPosition(q), 0) == q.x
  {
    ComponentX(q, 0, 0);
  }

  lemma WithFieldX(q: Pos, w: bv32)
    requires q.InChunk() && w < 32
    ensures WithField(LocalPosition(q), 0, w) == LocalPosition(Pos(w, q.y, q.z))
  {
    ReplaceX(q, w);
  }

  lemma FieldY(q: Pos)
    requires q.InChunk()
    ensures FieldAt(LocalPosition(q), 5) == q.y
  {
    ComponentY(q, 1, 5);
  }

  lemma WithFieldY(q: Pos, w: bv32)
    requires q.InChunk() && w < 32
    ensures WithField(LocalPosition(q), 5, w) == LocalPosition(Pos(q.x, w, q.z))
  {
    ReplaceY(q, w);
  }

  lemma FieldZ(q: Pos)
    requires q.InChunk()
    ensures FieldAt(LocalPosition(q), 10) == q.z
  {
    ComponentZ(q, 2, 10);
  }

  lemma WithFieldZ(q: Pos, w: bv32)
    requires q.InChunk() && w < 32
    ensures WithField(LocalPosition(q), 10, w) == LocalPosition(Pos(q.x, q.y, w))
  {
    ReplaceZ(q, w);
  }

  // ---------------------------------------------------------------- culling

  /** The cell that the face of q with normal n looks at: one step along the normal. */
  function FacedCell(q: Pos, n: int): Pos
    requires 0 <= n < 6
  {
    var c := if n < 3 then n else n - 3;
    q.With(c, if n >= 3 then q.Component(c) - 1 else q.Component(c) + 1)
  }

  /** Lines 194-195: away from the boundary, adding the normal's index step to a cell's
      index gives the index of the faced cell, which is inside the chunk. */
  lemma FacedIndex(q: Pos, n: int)
    requires q.InChunk() && 0 <= n < 6 && !FacingNeighbor(n >= 3, q.Component(if n < 3 then n else n - 3))
    ensures FacedCell(q, n).InChunk()
    ensures Index(q) + INDEX_STEP_BY_NORMAL_INDEX[n] == Index(FacedCell(q, n))
  {
    IndexStepByNormal(n);
    if n < 3 {
      FacedUp(q, n);
    } else {
      FacedDown(q, n);
    }
  }

  lemma FacedUp(q: Pos, n: int)
    requires q.InChunk() && 0 <= n < 3 && q.Component(n) != MASK_BITS
    ensures FacedCell(q, n).InChunk()
    ensures Index(FacedCell(q, n)) == Index(q) + AxisStep(n)
  {
    StepUp(q, n, q.Component(n));
  }

  lemma FacedDown(q: Pos, n: int)
    requires q.InChunk() && 3 <= n < 6 && q.Component(n - 3) != 0
    ensures FacedCell(q, n).InChunk()
    ensures Index(FacedCell(q, n)) == Index(q) - AxisStep(n - 3)
  {
    StepDown(q, n - 3, q.Component(n - 3));
  }

  lemma StepUp(q: Pos, c: int, v: bv32)
    requires q.InChunk() && 0 <= c < 3 && v == q.Component(c) && v != MASK_BITS
    ensures q.With(c, v + 1).InChunk()
    ensures Index(q.With(c, v + 1)) == Index(q) + AxisStep(c)
  {
    assert q.With(c, v) == q;
    IndexStep(q, c, v);
  }

  lemma StepDown(q: Pos, c: int, v: bv32)
    requires q.InChunk() && 0 <= c < 3 && v == q.Component(c) && v != 0
    ensures q.With(c, v - 1).InChunk()
    ensures Index(q.With(c, v - 1)) == Index(q) - AxisStep(c)
  {
    assert q.With(c, (v - 1) + 1) == q;
    IndexStep(q, c, v - 1);
  }

  /** `get_block_attributes(id).contains(TRANSPARENT)`, read off the registry's
      definitions. */
  predicate Transparent(defs: seq<BlockDefinition>, id: u16)
    requires id < |defs|
  {
    Contains(defs[id].attribs, TRANSPARENT)
  }

  /** The blocks of a whole chunk, one per cell, every one of them registered. */
  ghost predicate ChunkCells(defs: seq<BlockDefinition>, cells: seq<Block>)
  {
    |cells| == CHUNK_SIZE_CUBED && forall i :: 0 <= i < |cells| ==> cells[i].id < |defs|
  }

  /** The decoded neighbours: per face normal, the cells of the chunk on that side, if
      there is one. */
  ghost predicate AroundCells(defs: seq<BlockDefinition>, around: seq<Option<seq<Block>>>)
  {
    |around| == 6 && forall n :: 0 <= n < 6 && around[n].Some? ==> ChunkCells(defs, around[n].value)
  }

  /** The registry's definitions are `defs`, and `neighbors` decodes to `around`. */
  ghost predicate Decoded(registry: BlockRegistry, neighbors: seq<Collections.Palette?>, defs: seq<BlockDefinition>, around: seq<Option<seq<Block>>>)
    reads registry, neighbors
  {
    && registry.definitions == defs
    && |neighbors| == |around| == 6
    && forall n :: 0 <= n < 6 ==> NeighborDecoded(neighbors[n], around[n])
  }

  /** A neighbouring chunk's palette, if there is one, holds the blocks `cells`. */
  ghost predicate NeighborDecoded(neighbor: Collections.Palette?, cells: Option<seq<Block>>)
    reads neighbor
  {
    && (neighbor == null <==> cells.None?)
    && (neighbor != null ==>
          && neighbor.Valid()
          && neighbor.len == |cells.value| == CHUNK_SIZE_CUBED
          && forall i :: 0 <= i < CHUNK_SIZE_CUBED ==> neighbor.Get(i) == cells.value[i])
  }

  /** Whether a face of block `id` is culled by the block `facedId` it looks at. A
      transparent block is culled only by the same block. An opaque block is culled by
      an opaque block across the chunk boundary (lines 184-187) but by a TRANSPARENT
      block inside the chunk (lines 202-205), where the test is the negation of the
      other. */
  predicate Occludes(defs: seq<BlockDefinition>, id: u16, facedId: u16, inside: bool)
    requires id < |defs| && facedId < |defs|
  {
    if Transparent(defs, id) then facedId == id
    else if inside then Transparent(defs, facedId)
    else !Transparent(defs, facedId)
  }

  /** For a transparent block the two sides test the same thing; for an opaque block
      they test opposite things, so no faced block occludes it on both sides. */
  lemma OccludesSides(defs: seq<BlockDefinition>, id: u16, facedId: u16)
    requires id < |defs| && facedId < |defs|
    ensures Transparent(defs, id) ==> (Occludes(defs, id, facedId, true) <==> Occludes(defs, id, facedId, false))
    ensures !Transparent(defs, id) ==> (Occludes(defs, id, facedId, true) <==> !Occludes(defs, id, facedId, false))
  {
  }

  /** Whether the mesher culls the face with normal n of a cell at q holding block
      `id` (lines 142-217). When the faced cell lies across the chunk boundary it is
      read from the neighbour on that side, and a missing neighbour culls nothing. */
  ghost predicate Culled(defs: seq<BlockDefinition>, cells: seq<Block>, around: seq<Option<seq<Block>>>, id: u16, n: int, q: Pos)
    requires ChunkCells(defs, cells) && AroundCells(defs, around)
    requires id < |defs| && 0 <= n < 6 && q.InChunk()
  {
    var c := if n < 3 then n else n - 3;
    var isNegative := n >= 3;
    if FacingNeighbor(isNegative, q.Component(c)) then
      var r := AcrossBoundary(q, c, isNegative);
      IndexInRange(r);
      around[n].Some? && Occludes(defs, id, around[n].value[Index(r)].id, false)
    else
      FacedInChunk(q, n);
      IndexInRange(FacedCell(q, n));
      Occludes(defs, id, cells[Index(FacedCell(q, n))].id, true)
  }

  lemma FacedInChunk(q: Pos, n: int)
    requires q.InChunk() && 0 <= n < 6 && !FacingNeighbor(n >= 3, q.Component(if n < 3 then n else n - 3))
    ensures FacedCell(q, n).InChunk()
  {
  }

  /** `(normal_index + 3) % 6`: the normal along the same axis, pointing the other way. */
  function Opposite(n: int): (m: int)
    requires 0 <= n < 6
    ensures 0 <= m < 6 && m % 3 == n % 3 && (m >= 3) != (n >= 3)
  {
    (n + 3) % 6
  }

  /** `culls` records, for every cell of the chunk, whether the face with normal n of
      block `id` would be culled there. */
  ghost predicate CullMap(defs: seq<BlockDefinition>, cells: seq<Block>, around: seq<Option<seq<Block>>>, id: u16, n: int, culls: seq<bool>)
    requires ChunkCells(defs, cells) && AroundCells(defs, around) && id < |defs| && 0 <= n < 6
  {
    && |culls| == CHUNK_SIZE_CUBED
    && forall q: Pos {:trigger Culled(defs, cells, around, id, n, q)} ::
         q.InChunk() && 0 <= Index(q) < |culls| ==> culls[Index(q)] == Culled(defs, cells, around, id, n, q)
  }

  // ---------------------------------------------------------------- traversal

  /** What the mesher has computed for one face of one cell before it traverses
      (lines 86-122): the cell, its flat index and local position, its block and that
      block's transparency, the normal, its flag, its sign, its axis, the shift of that
      axis in a local position, and whether the faced cell is across the boundary. */
  datatype Face = Face(
    p: Pos, index: int, localPosition: bv32, block: Block, transparent: bool,
    normal: int, direction: Directions, isNegative: bool,
    component: int, componentShift: bv6, facingNeighbor: bool)

  ghost predicate FaceOf(defs: seq<BlockDefinition>, f: Face)
  {
    && f.p.InChunk()
    && f.index == Index(f.p)
    && 0 <= f.index < CHUNK_SIZE_CUBED
    && f.localPosition == LocalPosition(f.p)
    && f.block.id < |defs|
    && f.transparent == Transparent(defs, f.block.id)
    && 0 <= f.normal < 6
    && f.direction == FaceDirection(f.normal)
    && f.isNegative == (f.normal >= 3)
    && f.component == (if f.normal < 3 then f.normal else f.normal - 3)
    && f.componentShift == AxisShift(f.component)
    && f.facingNeighbor == FacingNeighbor(f.isNegative, f.p.Component(f.component))
  }

  /** Lines 145-173: the index, in the neighbouring chunk's palette, of the cell across
      the boundary from the traversal cell `traversals` cells from the face's cell along
      axis t, whose coordinate there is `total`. */
  method NeighborBlocksIndex(f: Face, traversalShift: bv6, traversals: bv32, ghost t: int, ghost total: bv32)
    returns (neighborIndex: int)
    requires f.p.InChunk() && f.localPosition == LocalPosition(f.p)
    requires 0 <= f.component < 3 && f.componentShift == AxisShift(f.component)
    requires 0 <= t < 3 && t != f.component && traversalShift == AxisShift(t)
    requires traversals < 32 && Along(f.p, t, traversals, total) && total < 32
    requires FacingNeighbor(f.isNegative, f.p.Component(f.component))
    ensures AcrossBoundary(f.p.With(t, total), f.component, f.isNegative).InChunk()
    ensures neighborIndex == Index(AcrossBoundary(f.p.With(t, total), f.component, f.isNegative))
  {
    var neighborLocalPosition := NeighborLocalPosition(f, traversalShift, traversals, t, total);
    neighborIndex := BlocksIndex(neighborLocalPosition);
    BlocksIndexOfLocalPosition(AcrossBoundary(f.p.With(t, total), f.component, f.isNegative));
  }


  /** Line 178-181: the block of the neighbour on side n at `neighborIndex`, if there
      is a neighbour on that side. */
  method NeighborBlock(neighbors: seq<Collections.Palette?>, ghost defs: seq<BlockDefinition>, ghost around: seq<Option<seq<Block>>>,
                       registry: BlockRegistry, n: int, neighborIndex: int)
    returns (faced: Option<Block>)
    requires Decoded(registry, neighbors, defs, around) && 0 <= n < 6 && 0 <= neighborIndex < CHUNK_SIZE_CUBED
    ensures around[n].None? ==> faced == None
    ensures around[n].Some? ==> faced == Some(around[n].value[neighborIndex])
  {
    var neighbor := neighbors[n];
    if neighbor == null {
      return None;
    }
    faced := Some(neighbor.Get(neighborIndex));
  }

  /** Across the boundary, the face is culled exactly when there is a neighbour and
      its cell at `neighborIndex` occludes the face. */
  lemma CulledAcross(
    defs: seq<BlockDefinition>, cells: seq<Block>, around: seq<Option<seq<Block>>>,
    f: Face, t: int, total: bv32, neighborIndex: int)
    requires ChunkCells(defs, cells) && AroundCells(defs, around) && FaceOf(defs, f)
    requires 0 <= t < 3 && t != f.component && total < 32 && f.facingNeighbor
    requires neighborIndex == Index(AcrossBoundary(f.p.With(t, total), f.component, f.isNegative))
    ensures f.p.With(t, total).InChunk() && 0 <= neighborIndex < CHUNK_SIZE_CUBED
    ensures around[f.normal].Some? ==>
      && around[f.normal].value[neighborIndex].id < |defs|
      && (Culled(defs, cells, around, f.block.id, f.normal, f.p.With(t, total)) <==>
          Occludes(defs, f.block.id, around[f.normal].value[neighborIndex].id, false))
    ensures around[f.normal].None? ==> !Culled(defs, cells, around, f.block.id, f.normal, f.p.With(t, total))
  {
    WithInChunk(f.p, t, total);
    WithOther(f.p, t, total, f.component);
    CulledFacingNeighbor(defs, cells, around, f.block.id, f.normal, f.p.With(t, total));
  }

  /** Across the boundary, `Culled` reads the cell the neighbour on side n holds. */
  lemma CulledFacingNeighbor(defs: seq<BlockDefinition>, cells: seq<Block>, around: seq<Option<seq<Block>>>, id: u16, n: int, q: Pos)
    requires ChunkCells(defs, cells) && AroundCells(defs, around)
    requires id < |defs| && 0 <= n < 6 && q.InChunk()
    requires FacingNeighbor(n >= 3, q.Component(if n < 3 then n else n - 3))
    ensures var r := AcrossBoundary(q, if n < 3 then n else n - 3, n >= 3);
      && r.InChunk() && 0 <= Index(r) < CHUNK_SIZE_CUBED
      && (around[n].Some? ==> around[n].value[Index(r)].id < |defs|)
      && (Culled(defs, cells, around, id, n, q) <==>
            around[n].Some? && Occludes(defs, id, around[n].value[Index(r)].id, false))
  {
    var c := if n < 3 then n else n - 3;
    WithInChunk(q, c, if n >= 3 then MASK_BITS else 0);
    IndexInRange(AcrossBoundary(q, c, n >= 3));
  }

  /** Inside the chunk, `Culled` reads the cell the face looks at. */
  lemma CulledFacingInside(defs: seq<BlockDefinition>, cells: seq<Block>, around: seq<Option<seq<Block>>>, id: u16, n: int, q: Pos)
    requires ChunkCells(defs, cells) && AroundCells(defs, around)
    requires id < |defs| && 0 <= n < 6 && q.InChunk()
    requires !FacingNeighbor(n >= 3, q.Component(if n < 3 then n else n - 3))
    ensures FacedCell(q, n).InChunk() && 0 <= Index(FacedCell(q, n)) < CHUNK_SIZE_CUBED
    ensures cells[Index(FacedCell(q, n))].id < |defs|
    ensures Culled(defs, cells, around, id, n, q) <==> Occludes(defs, id, cells[Index(FacedCell(q, n))].id, true)
  {
    FacedInChunk(q, n);
    IndexInRange(FacedCell(q, n));
  }

  /** Inside the chunk, the face is culled exactly when the cell one index step along
      the normal from the traversal cell occludes it (lines 191-217). */
  lemma CulledInside(
    defs: seq<BlockDefinition>, cells: seq<Block>, around: seq<Option<seq<Block>>>,
    f: Face, t: int, total: bv32, traversalIndex: int)
    requires ChunkCells(defs, cells) && AroundCells(defs, around) && FaceOf(defs, f)
    requires 0 <= t < 3 && t != f.component && total < 32 && !f.facingNeighbor
    requires traversalIndex == Index(f.p.With(t, total))
    ensures f.p.With(t, total).InChunk() && FacedCell(f.p.With(t, total), f.normal).InChunk()
    ensures var i := traversalIndex + INDEX_STEP_BY_NORMAL_INDEX[f.normal];
      && i == Index(FacedCell(f.p.With(t, total), f.normal))
      && 0 <= i < CHUNK_SIZE_CUBED
      && cells[i].id < |defs|
      && (Culled(defs, cells, around, f.block.id, f.normal, f.p.With(t, total)) <==>
          Occludes(defs, f.block.id, cells[i].id, true))
  {
    var q := f.p.With(t, total);
    WithInChunk(f.p, t, total);
    WithOther(f.p, t, total, f.component);
    FacedIndex(q, f.normal);
    CulledFacingInside(defs, cells, around, f.block.id, f.normal, q);
  }

  /** Lines 142-217: the culling test of the traversal cell `traversals` cells from the
      face's cell along axis t, where its coordinate is `total` and its flat index
      `traversalIndex`. The result is whether the traversal stops there. Inside the
      chunk, an opaque block facing a transparent cell along a positive normal also
      flags the faced cell's opposite face as done (lines 206-213). */
  method CheckFace(
    registry: BlockRegistry, blocks: seq<Block>, faces: seq<Directions>, neighbors: seq<Collections.Palette?>,
    ghost defs: seq<BlockDefinition>, ghost around: seq<Option<seq<Block>>>,
    f: Face, t: int, traversalShift: bv6, traversals: bv32, ghost total: bv32, traversalIndex: int)
    returns (culled: bool, faces': seq<Directions>)
    requires Decoded(registry, neighbors, defs, around) && ChunkCells(defs, blocks) && AroundCells(defs, around)
    requires FaceOf(defs, f) && |faces| == CHUNK_SIZE_CUBED
    requires 0 <= t < 3 && t != f.component && traversalShift == AxisShift(t)
    requires traversals < 32 && Along(f.p, t, traversals, total) && total < 32
    requires traversalIndex == Index(f.p.With(t, total))
    ensures f.p.With(t, total).InChunk()
    ensures culled == Culled(defs, blocks, around, f.block.id, f.normal, f.p.With(t, total))
    ensures culled && !f.facingNeighbor && !f.transparent && !f.isNegative ==>
      && FacedCell(f.p.With(t, total), f.normal).InChunk()
      && var i := Index(FacedCell(f.p.With(t, total), f.normal));
         0 <= i < |faces|
         && faces' == faces[i := faces[i] | FaceDirection(Opposite(f.normal))]
    ensures !culled || f.facingNeighbor || f.transparent || f.isNegative ==> faces' == faces
    ensures Widened(faces, faces', FaceDirection(Opposite(f.normal)))
    ensures KeepsFlag(faces, faces', f.direction, -1)
  {
    if f.facingNeighbor {
      culled := CheckAcross(registry, blocks, neighbors, defs, around, f, t, traversalShift, traversals, total);
      faces' := faces;
      WidenedRefl(faces, FaceDirection(Opposite(f.normal)));
    } else {
      culled, faces' := CheckInside(registry, blocks, faces, defs, around, f, t, total, traversalIndex);
    }
  }

  /** Lines 142-190: the test against the neighbouring chunk. */
  method CheckAcross(
    registry: BlockRegistry, blocks: seq<Block>, neighbors: seq<Collections.Palette?>,
    ghost defs: seq<BlockDefinition>, ghost around: seq<Option<seq<Block>>>,
    f: Face, t: int, traversalShift: bv6, traversals: bv32, ghost total: bv32)
    returns (culled: bool)
    requires Decoded(registry, neighbors, defs, around) && ChunkCells(defs, blocks) && AroundCells(defs, around)
    requires FaceOf(defs, f) && f.facingNeighbor
    requires 0 <= t < 3 && t != f.component && traversalShift == AxisShift(t)
    requires traversals < 32 && Along(f.p, t, traversals, total) && total < 32
    ensures f.p.With(t, total).InChunk()
    ensures culled == Culled(defs, blocks, around, f.block.id, f.normal, f.p.With(t, total))
  {
    var neighborIndex := NeighborBlocksIndex(f, traversalShift, traversals, t, total);
    CulledAcross(defs, blocks, around, f, t, total, neighborIndex);
    var faced := NeighborBlock(neighbors, defs, around, registry, f.normal, neighborIndex);
    culled := false;
    if faced.Some? {
      if f.transparent {
        culled := f.block.id == faced.value.id;
      } else {
        culled := !registry.IsTransparent(faced.value.id);
      }
    }
  }

  /** Lines 191-217: the test against the faced cell inside the chunk, which flags the
      faced cell's opposite face when an opaque block faces a transparent one along a
      positive normal. */
  method CheckInside(
    registry: BlockRegistry, blocks: seq<Block>, faces: seq<Directions>,
    ghost defs: seq<BlockDefinition>, ghost around: seq<Option<seq<Block>>>,
    f: Face, t: int, ghost total: bv32, traversalIndex: int)
    returns (culled: bool, faces': seq<Directions>)
    requires registry.definitions == defs && ChunkCells(defs, blocks) && AroundCells(defs, around)
    requires FaceOf(defs, f) && !f.facingNeighbor && |faces| == CHUNK_SIZE_CUBED
    requires 0 <= t < 3 && t != f.component && total < 32
    requires traversalIndex == Index(f.p.With(t, total))
    ensures f.p.With(t, total).InChunk() && FacedCell(f.p.With(t, total), f.normal).InChunk()
    ensures culled == Culled(defs, blocks, around, f.block.id, f.normal, f.p.With(t, total))
    ensures culled && !f.transparent && !f.isNegative ==>
      && var i := Index(FacedCell(f.p.With(t, total), f.normal));
         0 <= i < |faces|
         && faces' == faces[i := faces[i] | FaceDirection(Opposite(f.normal))]
    ensures !culled || f.transparent || f.isNegative ==> faces' == faces
    ensures Widened(faces, faces', FaceDirection(Opposite(f.normal)))
    ensures KeepsFlag(faces, faces', f.direction, -1)
  {
    CulledInside(defs, blocks, around, f, t, total, traversalIndex);
    var facedIndex := traversalIndex + INDEX_STEP_BY_NORMAL_INDEX[f.normal];
    var facedId := blocks[facedIndex].id;
    culled := false;
    faces' := faces;
    if f.transparent {
      culled := f.block.id == facedId;
    } else if registry.IsTransparent(facedId) {
      if !f.isNegative {
        faces' := faces'[facedIndex := faces'[facedIndex] | FaceDirection(Opposite(f.normal))];
      }
      culled := true;
    }
    if faces' == faces {
      WidenedRefl(faces, FaceDirection(Opposite(f.normal)));
    } else {
      WidenedByUpdate(faces, facedIndex, FaceDirection(Opposite(f.normal)), FaceDirection(Opposite(f.normal)));
      MarksFacts(f.normal);
      KeepsFlagByUpdate(faces, facedIndex, FaceDirection(Opposite(f.normal)), f.direction);
    }
  }

  /** Lines 127-137: the start of the traversal along axis t, `traversals` cells past
      the face's cell: the shift and index step of the axis, the flat index of the
      starting cell and its coordinate along the axis (`total_traversal_len`). The
      counters are i32 values no larger than 64, so they are numbers here. */
  method TraversalStart(f: Face, t: int, traversals: int)
    returns (traversalShift: bv6, step: int, traversalIndex: int, total: int)
    requires f.p.InChunk() && f.index == Index(f.p) && f.localPosition == LocalPosition(f.p)
    requires 0 <= t < 3 && 0 <= traversals <= 1
    ensures traversalShift == AxisShift(t) && step == AxisStep(t)
    ensures total == f.p.Component(t) as int + traversals && traversals <= total <= CHUNK_SIZE
    ensures traversalIndex == RunIndex(f.p, t, traversals)
  {
    traversalShift := AxisShift(t);
    var axis := AxisValue(f.localPosition, traversalShift);
    AxisValueOf(f.p, t, traversalShift);
    step := INDEX_STEP_BY_NORMAL_INDEX[t];
    IndexStepByNormal(t);
    traversalIndex := f.index + traversals * step;
    Coordinate(axis);
    total := axis as int + traversals;
    ChunkConstants();
  }

  /** The cell `traversals` cells from the face's cell along axis t, whose coordinate
      there is `total`, as the i32 bits the culling test works with. */
  lemma TraversalCell(f: Face, t: int, traversals: int, traversalIndex: int, total: int)
    requires f.p.InChunk() && f.index == Index(f.p) && 0 <= t < 3
    requires 0 <= traversals && total == f.p.Component(t) as int + traversals && total < CHUNK_SIZE
    requires traversalIndex == f.index + traversals * AxisStep(t)
    ensures Bits(traversals) < 32 && Bits(total) < 32
    ensures Along(f.p, t, Bits(traversals), Bits(total))
    ensures f.p.With(t, Bits(total)).InChunk()
    ensures traversalIndex == Index(f.p.With(t, Bits(total)))
    ensures 0 <= traversalIndex < CHUNK_SIZE_CUBED
  {
    ChunkConstants();
    CellIndex(f.p, t, traversals, total);
    SmallBits(traversals);
    SmallBits(total);
    AlongOfInts(f.p, t, Bits(traversals), Bits(total));
  }

  lemma CellIndex(p: Pos, t: int, traversals: int, total: int)
    requires p.InChunk() && 0 <= t < 3
    requires 0 <= traversals && total == p.Component(t) as int + traversals && total < CHUNK_SIZE
    ensures Bits(total) < 32 && p.With(t, Bits(total)).InChunk()
    ensures Index(p.With(t, Bits(total))) == Index(p) + traversals * AxisStep(t)
    ensures 0 <= Index(p.With(t, Bits(total))) < CHUNK_SIZE_CUBED
  {
    ChunkConstants();
    SmallBits(total);
    IndexAlong(p, t, Bits(total));
    IndexInRange(p.With(t, Bits(total)));
  }

  /** The traversal along axis t is `traversals` cells past the face's cell, at flat
      index `traversalIndex` and coordinate `total` on the axis. */
  ghost predicate OnAxis(f: Face, t: int, traversals: int, traversalIndex: int, total: int)
    requires 0 <= t < 3
  {
    && total == f.p.Component(t) as int + traversals
    && traversalIndex == RunIndex(f.p, t, traversals)
    && (total < CHUNK_SIZE ==> 0 <= traversalIndex < CHUNK_SIZE_CUBED)
  }

  lemma OnAxisNext(f: Face, t: int, traversals: int, traversalIndex: int, total: int)
    requires f.p.InChunk() && f.index == Index(f.p) && 0 <= t < 3 && 0 <= traversals
    requires OnAxis(f, t, traversals, traversalIndex, total)
    ensures OnAxis(f, t, traversals + 1, traversalIndex + AxisStep(t), total + 1)
  {
    ChunkConstants();
    if total + 1 < CHUNK_SIZE {
      AlongInChunk(f.p, t, traversals + 1);
    }
  }

  // ---------------------------------------------------------------- runs

  /** The flags a traversal of the faces with normal n may set: the face's own flag on
      the cells it passes, and the opposite flag on the cells they face. */
  function Marks(n: int): Directions
    requires 0 <= n < 6
  {
    FaceDirection(n) | FaceDirection(Opposite(n))
  }

  /** A face's flag and its opposite's are distinct bits, both among the marks. */
  lemma MarksFacts(n: int)
    requires 0 <= n < 6
    ensures FaceDirection(n) & Marks(n) == FaceDirection(n)
    ensures FaceDirection(Opposite(n)) & Marks(n) == FaceDirection(Opposite(n))
    ensures FaceDirection(n) & FaceDirection(Opposite(n)) == 0
    ensures Marks(n) & Marks(n) == Marks(n)
  {
    if n == 0 {
    } else if n == 1 {
    } else if n == 2 {
    } else if n == 3 {
    } else if n == 4 {
    } else {
    }
  }

  /** Flag d is the same in `after` as in `before` on every cell but `except`, which is
      -1 when every cell keeps it. */
  ghost predicate KeepsFlag(before: seq<Directions>, after: seq<Directions>, d: Directions, except: int)
  {
    |after| == |before| && forall i {:trigger Has(after[i], d)} :: 0 <= i < |before| && i != except ==> (Has(after[i], d) <==> Has(before[i], d))
  }

  /** Setting flags that share no bit with d in one cell keeps flag d everywhere. */
  lemma KeepsFlagByUpdate(a: seq<Directions>, i: int, e: Directions, d: Directions)
    requires 0 <= i < |a| && d & e == 0
    ensures KeepsFlag(a, a[i := a[i] | e], d, -1)
  {
    forall j | 0 <= j < |a|
      ensures Has(a[i := a[i] | e][j], d) <==> Has(a[j], d)
    {
      if j == i {
        OrOther(a[i], d, e);
      }
    }
  }

  lemma OrOther(a: Directions, d: Directions, e: Directions)
    requires d & e == 0
    ensures Has(a | e, d) <==> Has(a, d)
  {
  }

  /** Widening by flags of m1 is widening by flags of any m that holds them. */
  lemma WidenedWithin(a: seq<Directions>, b: seq<Directions>, m1: Directions, m: Directions)
    requires Widened(a, b, m1) && m1 & m == m1
    ensures Widened(a, b, m)
  {
    WidenedRefl(b, m);
    WidenedTrans(a, b, b, m1, m, m);
  }

  /** The flat index of the cell k cells from p along axis t: k index steps of the
      axis past p's index. */
  function RunIndex(p: Pos, t: int, k: int): int
    requires 0 <= t < 3
  {
    Index(p) + k * AxisStep(t)
  }

  /** Along an axis, the flat index grows with the distance. */
  lemma RunIndexBefore(p: Pos, t: int, a: int, b: int)
    requires 0 <= t < 3 && a < b
    ensures RunIndex(p, t, a) < RunIndex(p, t, b)
  {
    MulSub(b, a, AxisStep(t));
    MulAtLeast(b - a, AxisStep(t));
  }

  /** The cell k cells from the face's cell along axis t can join the face's run: it is
      inside the chunk, holds the face's block, its face is not flagged in `faces`, and
      that face is not culled. */
  ghost predicate RunCell(blocks: seq<Block>, faces: seq<Directions>, culls: seq<bool>, f: Face, t: int, k: int)
    requires 0 <= t < 3
  {
    var i := RunIndex(f.p, t, k);
    && f.p.Component(t) as int + k < CHUNK_SIZE
    && 0 <= i < |blocks| && i < |faces| && i < |culls|
    && blocks[i].id == f.block.id && !Has(faces[i], f.direction) && !culls[i]
  }

  /** The cells `from` .. `till - 1` along axis t can all join the run. */
  ghost predicate Run(blocks: seq<Block>, faces: seq<Directions>, culls: seq<bool>, f: Face, t: int, from: int, till: int)
    requires 0 <= t < 3
  {
    forall k :: from <= k < till ==> RunCell(blocks, faces, culls, f, t, k)
  }

  /** The run along axis t cannot go on at distance k: that cell is past the chunk's
      edge, or its face is flagged already, or it holds another block, or its face is
      culled. */
  ghost predicate StopsAt(blocks: seq<Block>, faces: seq<Directions>, culls: seq<bool>, f: Face, t: int, k: int)
    requires 0 <= t < 3
  {
    var i := RunIndex(f.p, t, k);
    || f.p.Component(t) as int + k >= CHUNK_SIZE
    || (&& 0 <= i < |blocks| && i < |faces| && i < |culls|
        && (Has(faces[i], f.direction) || blocks[i].id != f.block.id || culls[i]))
  }

  /** The faces of the cells `from` .. `till - 1` along axis t are flagged. */
  ghost predicate Flagged(faces: seq<Directions>, f: Face, t: int, from: int, till: int)
    requires 0 <= t < 3
  {
    forall k {:trigger RunIndex(f.p, t, k)} :: from <= k < till ==>
      0 <= RunIndex(f.p, t, k) < |faces| && Has(faces[RunIndex(f.p, t, k)], f.direction)
  }

  /** Cell i is one of the cells `from` .. `till - 1` along axis t from p. */
  ghost predicate InRun(p: Pos, t: int, from: int, till: int, i: int)
    requires 0 <= t < 3
    decreases till - from
  {
    from < till && (i == RunIndex(p, t, till - 1) || InRun(p, t, from, till - 1, i))
  }

  /** Off the cells `from` .. `till - 1` along axis t, the face's flag is as it was. */
  ghost predicate Outside(before: seq<Directions>, after: seq<Directions>, f: Face, t: int, from: int, till: int)
    requires 0 <= t < 3
  {
    && |after| == |before|
    && forall i {:trigger InRun(f.p, t, from, till, i)} :: 0 <= i < |before| && !InRun(f.p, t, from, till, i) ==>
         (Has(after[i], f.direction) <==> Has(before[i], f.direction))
  }

  /** No cell at or past `to` is one of the run's cells. */
  lemma {:induction false} NotInRunAhead(p: Pos, t: int, from: int, till: int, j: int)
    requires 0 <= t < 3 && till <= j
    ensures !InRun(p, t, from, till, RunIndex(p, t, j))
    decreases till - from
  {
    if from < till {
      RunIndexBefore(p, t, till - 1, j);
      NotInRunAhead(p, t, from, till - 1, j);
    }
  }

  /** No cell before `from` is one of the run's cells. */
  lemma {:induction false} NotInRunBehind(p: Pos, t: int, from: int, till: int, j: int)
    requires 0 <= t < 3 && j < from
    ensures !InRun(p, t, from, till, RunIndex(p, t, j))
    decreases till - from
  {
    if from < till {
      RunIndexBefore(p, t, j, till - 1);
      NotInRunBehind(p, t, from, till - 1, j);
    }
  }

  /** A run from 0 is its first cell and the run from 1. */
  lemma {:induction false} InRunFirst(p: Pos, t: int, till: int, i: int)
    requires 0 <= t < 3 && 1 <= till
    ensures InRun(p, t, 0, till, i) <==> i == RunIndex(p, t, 0) || InRun(p, t, 1, till, i)
    decreases till
  {
    if till > 1 {
      InRunFirst(p, t, till - 1, i);
    }
  }

  /** Flags set by the culling test are among the marks of the normal. */
  lemma CheckedWithin(faces: seq<Directions>, checked: seq<Directions>, n: int)
    requires 0 <= n < 6 && Widened(faces, checked, FaceDirection(Opposite(n)))
    ensures Widened(faces, checked, Marks(n))
  {
    MarksFacts(n);
    WidenedWithin(faces, checked, FaceDirection(Opposite(n)), Marks(n));
  }

  /** Flagging the face of cell i after the culling test changes the face's flag there
      only, and sets no flag outside the marks of the normal. */
  lemma MarkCell(faces: seq<Directions>, checked: seq<Directions>, i: int, n: int)
    requires 0 <= n < 6 && 0 <= i < |checked|
    requires Widened(faces, checked, FaceDirection(Opposite(n))) && KeepsFlag(faces, checked, FaceDirection(n), -1)
    ensures var g := checked[i := checked[i] | FaceDirection(n)];
      && Widened(faces, g, Marks(n)) && KeepsFlag(faces, g, FaceDirection(n), i) && Has(g[i], FaceDirection(n))
  {
    var g := checked[i := checked[i] | FaceDirection(n)];
    CheckedWithin(faces, checked, n);
    OrHas(checked[i], FaceDirection(n));
    MarksFacts(n);
    WidenedByUpdate(checked, i, FaceDirection(n), Marks(n));
    WidenedTrans(faces, checked, g, Marks(n), Marks(n), Marks(n));
  }

  /** The traversal along axis t from `from` has reached `k`, and `g` is the flags then:
      the cells it passed can join the run in the flags it started from, their faces
      are now flagged, no other face flag changed, and no flag outside the marks of the
      normal was set. */
  ghost predicate Traversed(
    blocks: seq<Block>, faces: seq<Directions>, culls: seq<bool>, f: Face, t: int, from: int, k: int, g: seq<Directions>)
    requires 0 <= t < 3 && 0 <= f.normal < 6
  {
    && Run(blocks, faces, culls, f, t, from, k)
    && Flagged(g, f, t, from, k)
    && Outside(faces, g, f, t, from, k)
    && Widened(faces, g, Marks(f.normal))
  }

  lemma TraversedStart(blocks: seq<Block>, faces: seq<Directions>, culls: seq<bool>, f: Face, t: int, from: int)
    requires 0 <= t < 3 && 0 <= f.normal < 6
    ensures Traversed(blocks, faces, culls, f, t, from, from, faces)
  {
    WidenedRefl(faces, Marks(f.normal));
  }

  /** A cell that can join the run and whose face is then flagged, with nothing else
      changed in its flag, extends the run by one. */
  lemma TraversedNext(
    blocks: seq<Block>, faces: seq<Directions>, culls: seq<bool>, f: Face, t: int, from: int, k: int,
    g: seq<Directions>, g': seq<Directions>)
    requires 0 <= t < 3 && 0 <= f.normal < 6 && from <= k
    requires Traversed(blocks, faces, culls, f, t, from, k, g)
    requires RunCell(blocks, g, culls, f, t, k)
    requires Widened(g, g', Marks(f.normal)) && KeepsFlag(g, g', f.direction, RunIndex(f.p, t, k))
    requires Has(g'[RunIndex(f.p, t, k)], f.direction)
    ensures Traversed(blocks, faces, culls, f, t, from, k + 1, g')
  {
    var i := RunIndex(f.p, t, k);
    NotInRunAhead(f.p, t, from, k, k);
    assert RunCell(blocks, faces, culls, f, t, k);
    forall j | from <= j < k + 1
      ensures 0 <= RunIndex(f.p, t, j) < |g'| && Has(g'[RunIndex(f.p, t, j)], f.direction)
    {
      if j < k {
        RunIndexBefore(f.p, t, j, k);
      }
    }
    forall j | 0 <= j < |faces| && !InRun(f.p, t, from, k + 1, j)
      ensures Has(g'[j], f.direction) <==> Has(faces[j], f.direction)
    {
      assert j != i && !InRun(f.p, t, from, k, j);
    }
    WidenedTrans(faces, g, g', Marks(f.normal), Marks(f.normal), Marks(f.normal));
  }

  /** A step that changes no face flag keeps the traversal where it is. */
  lemma TraversedStay(
    blocks: seq<Block>, faces: seq<Directions>, culls: seq<bool>, f: Face, t: int, from: int, k: int,
    g: seq<Directions>, g': seq<Directions>)
    requires 0 <= t < 3 && 0 <= f.normal < 6
    requires Traversed(blocks, faces, culls, f, t, from, k, g)
    requires Widened(g, g', Marks(f.normal)) && KeepsFlag(g, g', f.direction, -1)
    ensures Traversed(blocks, faces, culls, f, t, from, k, g')
  {
    forall j | from <= j < k
      ensures 0 <= RunIndex(f.p, t, j) < |g'| && Has(g'[RunIndex(f.p, t, j)], f.direction)
    {
    }
    WidenedTrans(faces, g, g', Marks(f.normal), Marks(f.normal), Marks(f.normal));
  }

  /** One step of the traversal at distance k, which either found the face culled and
      changed no face flag, or flagged the face there. */
  lemma TraversedAfter(
    blocks: seq<Block>, faces: seq<Directions>, culls: seq<bool>, f: Face, t: int, from: int, k: int,
    g: seq<Directions>, g': seq<Directions>, culled: bool)
    requires 0 <= t < 3 && 0 <= f.normal < 6 && from <= k
    requires Traversed(blocks, faces, culls, f, t, from, k, g)
    requires |blocks| == |g| == |culls| && 0 <= RunIndex(f.p, t, k) < |culls| && culled == culls[RunIndex(f.p, t, k)]
    requires Widened(g, g', Marks(f.normal)) && KeepsFlag(g, g', f.direction, if culled then -1 else RunIndex(f.p, t, k))
    requires !culled ==> Has(g'[RunIndex(f.p, t, k)], f.direction)
    ensures culled ==> Traversed(blocks, faces, culls, f, t, from, k, g')
    ensures (&& !culled && f.p.Component(t) as int + k < CHUNK_SIZE
             && !Has(g[RunIndex(f.p, t, k)], f.direction) && blocks[RunIndex(f.p, t, k)].id == f.block.id) ==>
      Traversed(blocks, faces, culls, f, t, from, k + 1, g')
  {
    if culled {
      TraversedStay(blocks, faces, culls, f, t, from, k, g, g');
    } else if f.p.Component(t) as int + k < CHUNK_SIZE &&
      !Has(g[RunIndex(f.p, t, k)], f.direction) && blocks[RunIndex(f.p, t, k)].id == f.block.id {
      TraversedNext(blocks, faces, culls, f, t, from, k, g, g');
    }
  }

  /** Where the walk over `g` ends, at distance k, coordinate `total` and flat index
      `traversalIndex`, the run over the flags it started from stops; from the face's
      own cell, a run is empty exactly when the face there is culled. */
  lemma TraversedEnds(
    blocks: seq<Block>, faces: seq<Directions>, culls: seq<bool>, f: Face, t: int, from: int, k: int,
    g: seq<Directions>, traversalIndex: int, total: int)
    requires f.p.InChunk() && f.index == Index(f.p) && 0 <= f.index < CHUNK_SIZE_CUBED
    requires 0 <= t < 3 && 0 <= f.normal < 6 && 0 <= from <= k
    requires |blocks| == |faces| == |g| == |culls| == CHUNK_SIZE_CUBED
    requires Traversed(blocks, faces, culls, f, t, from, k, g) && OnAxis(f, t, k, traversalIndex, total)
    requires total < CHUNK_SIZE ==>
      Has(g[traversalIndex], f.direction) || blocks[traversalIndex].id != f.block.id || culls[traversalIndex]
    ensures StopsAt(blocks, faces, culls, f, t, k)
    ensures from == 0 && !Has(faces[f.index], f.direction) && blocks[f.index].id == f.block.id ==>
      (k == 0 <==> culls[f.index])
  {
    var i := RunIndex(f.p, t, k);
    if total < CHUNK_SIZE {
      assert traversalIndex == i;
      NotInRunAhead(f.p, t, from, k, k);
    }
    assert RunIndex(f.p, t, 0) == f.index;
    if from == 0 && k > 0 {
      assert RunCell(blocks, faces, culls, f, t, 0);
    }
  }

  /** One cell of a traversal: checks the face of the cell `traversals` cells along
      axis t, where the coordinate is `total` (which may flag the opposite face of the
      cell it faces), and, when that face is not culled, flags the face of the cell
      itself as meshed. */
  method TraverseStep(
    registry: BlockRegistry, blocks: seq<Block>, faces: seq<Directions>, neighbors: seq<Collections.Palette?>,
    ghost defs: seq<BlockDefinition>, ghost around: seq<Option<seq<Block>>>,
    f: Face, t: int, traversalShift: bv6, step: int, traversals: int, traversalIndex: int, total: int, ghost culls: seq<bool>)
    returns (culled: bool, faces': seq<Directions>, traversals': int, traversalIndex': int, total': int)
    requires Decoded(registry, neighbors, defs, around) && ChunkCells(defs, blocks) && AroundCells(defs, around)
    requires FaceOf(defs, f) && |faces| == CHUNK_SIZE_CUBED
    requires 0 <= t < 3 && t != f.component && traversalShift == AxisShift(t)
    requires 0 <= traversals && total == f.p.Component(t) as int + traversals && total < CHUNK_SIZE
    requires traversalIndex == RunIndex(f.p, t, traversals) && step == AxisStep(t)
    requires CullMap(defs, blocks, around, f.block.id, f.normal, culls)
    ensures 0 <= traversalIndex < CHUNK_SIZE_CUBED
    ensures culled == culls[traversalIndex]
    ensures |faces'| == CHUNK_SIZE_CUBED
    ensures Widened(faces, faces', Marks(f.normal))
    ensures KeepsFlag(faces, faces', f.direction, if culled then -1 else traversalIndex)
    ensures !culled ==> Has(faces'[traversalIndex], f.direction)
    ensures !culled ==> traversals' == traversals + 1 && OnAxis(f, t, traversals', traversalIndex', total')
  {
    TraversalCell(f, t, traversals, traversalIndex, total);
    var traversalBits := Bits(traversals);
    var checked;
    culled, checked := CheckFace(registry, blocks, faces, neighbors, defs, around, f, t, traversalShift, traversalBits, Bits(total), traversalIndex);
    faces' := checked;
    traversals', traversalIndex', total' := traversals, traversalIndex, total;
    if culled {
      CheckedWithin(faces, checked, f.normal);
    } else {
      faces' := faces'[traversalIndex := faces'[traversalIndex] | f.direction];
      MarkCell(faces, checked, traversalIndex, f.normal);
      OnAxisNext(f, t, traversals, traversalIndex, total);
      traversalIndex' := traversalIndex + step;
      total' := total + 1;
      traversals' := traversals + 1;
    }
  }

  /** Lines 127-223: the traversal along axis t. It starts `traversals0` cells from the
      face's cell (0 on the first perpendicular axis, 1 on the second after a run of
      one cell), walks while the cell is inside the chunk, its face is not flagged yet
      and it holds the same block, stops at the first culled cell, and flags the face
      of every cell it passes. The result is the new traversal count: the cells from
      `traversals0` up to it form a run, the run stops there, their faces and no
      others get the face's flag, and apart from them only opposite flags are set. On
      the first axis the count stays 0 exactly when the face of the cell itself is
      culled. */
  method Traverse(
    registry: BlockRegistry, blocks: seq<Block>, faces: seq<Directions>, neighbors: seq<Collections.Palette?>,
    ghost defs: seq<BlockDefinition>, ghost around: seq<Option<seq<Block>>>,
    f: Face, t: int, traversals0: int, ghost culls: seq<bool>)
    returns (traversals: int, faces': seq<Directions>)
    requires Decoded(registry, neighbors, defs, around) && ChunkCells(defs, blocks) && AroundCells(defs, around)
    requires FaceOf(defs, f) && |faces| == CHUNK_SIZE_CUBED
    requires 0 <= t < 3 && t != f.component && 0 <= traversals0 <= 1
    requires CullMap(defs, blocks, around, f.block.id, f.normal, culls)
    ensures traversals0 <= traversals <= CHUNK_SIZE && |faces'| == CHUNK_SIZE_CUBED
    ensures Run(blocks, faces, culls, f, t, traversals0, traversals)
    ensures StopsAt(blocks, faces, culls, f, t, traversals)
    ensures Flagged(faces', f, t, traversals0, traversals) && Outside(faces, faces', f, t, traversals0, traversals)
    ensures Widened(faces, faces', Marks(f.normal))
    ensures traversals0 == 0 && !Has(faces[f.index], f.direction) && blocks[f.index].id == f.block.id ==>
      (traversals == 0 <==> culls[f.index])
  {
    var traversalShift, step, traversalIndex, total := TraversalStart(f, t, traversals0);
    traversals := traversals0;
    if total < CHUNK_SIZE {
      AlongInChunk(f.p, t, traversals);
    }
    assert OnAxis(f, t, traversals, traversalIndex, total);
    faces' := faces;
    TraversedStart(blocks, faces, culls, f, t, traversals0);
    while total < CHUNK_SIZE && !Has(faces'[traversalIndex], f.direction) && blocks[traversalIndex].id == f.block.id
      invariant |faces'| == CHUNK_SIZE_CUBED
      invariant traversals0 <= traversals <= total <= CHUNK_SIZE
      invariant step == AxisStep(t) && OnAxis(f, t, traversals, traversalIndex, total)
      invariant Traversed(blocks, faces, culls, f, t, traversals0, traversals, faces')
      decreases CHUNK_SIZE - total
    {
      var culled, stepped, nextTraversals, nextIndex, nextTotal :=
        TraverseStep(registry, blocks, faces', neighbors, defs, around, f, t, traversalShift, step, traversals, traversalIndex, total, culls);
      TraversedAfter(blocks, faces, culls, f, t, traversals0, traversals, faces', stepped, culled);
      faces' := stepped;
      if culled {
        break;
      }
      traversals, traversalIndex, total := nextTraversals, nextIndex, nextTotal;
    }
    TraversedEnds(blocks, faces, culls, f, t, traversals0, traversals, faces', traversalIndex, total);
  }

  // ---------------------------------------------------------------- culling table

  /** For every cell of the chunk, whether the face with normal n of block `id` would
      be culled there. */
  ghost function CullTable(defs: seq<BlockDefinition>, cells: seq<Block>, around: seq<Option<seq<Block>>>, id: u16, n: int): (culls: seq<bool>)
    requires ChunkCells(defs, cells) && AroundCells(defs, around) && id < |defs| && 0 <= n < 6
    ensures |culls| == CHUNK_SIZE_CUBED
  {
    seq(CHUNK_SIZE_CUBED, i requires 0 <= i < CHUNK_SIZE_CUBED =>
      IndexOfPos(i);
      Culled(defs, cells, around, id, n, PosOf(i)))
  }

  lemma CullTableMap(defs: seq<BlockDefinition>, cells: seq<Block>, around: seq<Option<seq<Block>>>, id: u16, n: int)
    requires ChunkCells(defs, cells) && AroundCells(defs, around) && id < |defs| && 0 <= n < 6
    ensures CullMap(defs, cells, around, id, n, CullTable(defs, cells, around, id, n))
  {
    forall q: Pos | q.InChunk()
      ensures CullTable(defs, cells, around, id, n)[Index(q)] == Culled(defs, cells, around, id, n, q)
    {
      PosOfIndex(q);
    }
  }

  // ---------------------------------------------------------------- mesh output

  /** A corner of a quad: its packed position and its texture coordinates. */
  datatype PackedVertex = PackedVertex(xyz: bv32, uvz: bv32)

  /** Lines 252-260: the six indexes of a quad whose corners start at vertex `start`,
      two triangles sharing the diagonal from corner 1 to corner 3: every index names
      one of the quad's four corners, and every corner is named. */
  function QuadIndexes(start: int): (r: seq<int>)
    ensures |r| == 6 && forall i :: 0 <= i < 6 ==> start <= r[i] < start + 4
    ensures forall c :: start <= c < start + 4 ==> c in r
    ensures r[1] == r[3] && r[2] == r[5] && r[0] != r[4]
  {
    [start + 0, start + 1, start + 3, start + 1, start + 2, start + 3]
  }

  /** Lines 262-291: one corner of a quad, from the corner template: the cell's local
      position plus the template off the traversal axis, and on the traversal axis the
      template scaled by the run length `traversals` (an i32 product). */
  function Corner(localPosition: bv32, compressed: bv32, traversalShift: bv6, traversals: bv32): PackedVertex
    requires traversalShift <= 10
  {
    var traversalMask := MASK_BITS << traversalShift;
    PackedVertex((localPosition + (!traversalMask & compressed)) | ((compressed * traversals) & traversalMask), 0)
  }

  /** The four corners of the quad, from the corner template of its normal. */
  function QuadVertexes(localPosition: bv32, normal: int, traversalShift: bv6, traversals: bv32): seq<PackedVertex>
    requires 0 <= normal < 6 && traversalShift <= 10
  {
    var compressed := PACKED_VERTEX_BY_NORMAL_INDEX[normal];
    [ Corner(localPosition, compressed[0], traversalShift, traversals),
      Corner(localPosition, compressed[1], traversalShift, traversals),
      Corner(localPosition, compressed[2], traversalShift, traversals),
      Corner(localPosition, compressed[3], traversalShift, traversals) ]
  }

  /** The run length moves a corner only within the traversal axis's field: two corners
      for different lengths agree on every other bit, and their `uvz` is 0. */
  lemma CornerStretches(localPosition: bv32, compressed: bv32, traversalShift: bv6, t1: bv32, t2: bv32)
    requires traversalShift <= 10
    ensures var off := !(MASK_BITS << traversalShift);
      Corner(localPosition, compressed, traversalShift, t1).xyz & off == Corner(localPosition, compressed, traversalShift, t2).xyz & off
    ensures Corner(localPosition, compressed, traversalShift, t1).uvz == 0
  {
  }

  /** No more quads than this fit the u32 vertex numbers of the index buffer. */
  const MAX_QUADS: int := 0x4000_0000

  /** The shape of the two mesh buffers: one entry per quad in each, four corners per
      quad, and quad k's indexes naming its own corners 4k .. 4k + 3. */
  ghost predicate MeshShape(indexes: seq<seq<u32>>, vertexes: seq<seq<PackedVertex>>)
  {
    && |indexes| == |vertexes| <= MAX_QUADS
    && forall k :: 0 <= k < |indexes| ==> |vertexes[k]| == 4 && indexes[k] == QuadIndexes(4 * k)
  }

  /** What a quad was emitted for: the face with normal `normal` of the cells `length`
      cells long from p along axis `axis`. */
  datatype Origin = Origin(p: Pos, normal: int, axis: int, length: int)

  /** The quad covers a run of faces of one non-air block inside the chunk, along an
      axis perpendicular to the normal, none of which is culled. */
  ghost predicate VisibleFace(defs: seq<BlockDefinition>, cells: seq<Block>, around: seq<Option<seq<Block>>>, o: Origin)
    requires ChunkCells(defs, cells) && AroundCells(defs, around)
  {
    && o.p.InChunk() && 0 <= o.normal < 6 && 0 <= o.axis < 3 && o.axis != (if o.normal < 3 then o.normal else o.normal - 3)
    && 1 <= o.length && o.p.Component(o.axis) as int + o.length <= CHUNK_SIZE
    && (IndexInRange(o.p);
        && cells[Index(o.p)].id != AIR_ID
        && forall k {:trigger RunIndex(o.p, o.axis, k)} :: 0 <= k < o.length ==>
             var i := RunIndex(o.p, o.axis, k);
             && 0 <= i < CHUNK_SIZE_CUBED && cells[i].id == cells[Index(o.p)].id
             && (IndexOfPos(i); !Culled(defs, cells, around, cells[i].id, o.normal, PosOf(i))))
  }

  /** Every quad covers visible faces. */
  ghost predicate Visible(defs: seq<BlockDefinition>, cells: seq<Block>, around: seq<Option<seq<Block>>>, origins: seq<Origin>)
    requires ChunkCells(defs, cells) && AroundCells(defs, around)
  {
    forall k :: 0 <= k < |origins| ==> VisibleFace(defs, cells, around, origins[k])
  }

  /** The corners `v` are those of the quad for `o`. */
  ghost predicate QuadOf(o: Origin, v: seq<PackedVertex>)
  {
    && o.p.InChunk() && 0 <= o.normal < 6 && 0 <= o.axis < 3 && 0 <= o.length <= CHUNK_SIZE
    && v == QuadVertexes(LocalPosition(o.p), o.normal, AxisShift(o.axis), Bits(o.length))
  }

  /** Quad k of the vertex buffer is the quad for origin k. */
  ghost predicate Emitted(origins: seq<Origin>, vertexes: seq<seq<PackedVertex>>)
  {
    |origins| == |vertexes| && forall k :: 0 <= k < |origins| ==> QuadOf(origins[k], vertexes[k])
  }

  /** Appending a visible quad keeps every quad visible. */
  lemma VisibleAppend(defs: seq<BlockDefinition>, cells: seq<Block>, around: seq<Option<seq<Block>>>, origins: seq<Origin>, o: Origin)
    requires ChunkCells(defs, cells) && AroundCells(defs, around)
    requires Visible(defs, cells, around, origins) && VisibleFace(defs, cells, around, o)
    ensures Visible(defs, cells, around, origins + [o])
  {
    var os := origins + [o];
    forall k | 0 <= k < |os|
      ensures VisibleFace(defs, cells, around, os[k])
    {
      if k < |origins| {
        assert os[k] == origins[k];
      }
    }
  }

  /** Appending a quad together with its origin keeps quad k that of origin k. */
  lemma EmittedAppend(origins: seq<Origin>, vertexes: seq<seq<PackedVertex>>, o: Origin, v: seq<PackedVertex>)
    requires Emitted(origins, vertexes) && QuadOf(o, v)
    ensures Emitted(origins + [o], vertexes + [v])
  {
    var os, vs := origins + [o], vertexes + [v];
    forall k | 0 <= k < |os|
      ensures QuadOf(os[k], vs[k])
    {
      if k < |origins| {
        assert os[k] == origins[k] && vs[k] == vertexes[k];
      }
    }
  }

  /** Quads come out cell by cell in index order, and within a cell by normal. */
  predicate Before(a: Origin, b: Origin)
  {
    Index(a.p) < Index(b.p) || (Index(a.p) == Index(b.p) && a.normal < b.normal)
  }

  ghost predicate Ordered(origins: seq<Origin>)
  {
    forall i, j :: 0 <= i < j < |origins| ==> Before(origins[i], origins[j])
  }

  /** Every quad so far comes before the face with normal `normal` of cell `index`. */
  ghost predicate Precedes(origins: seq<Origin>, index: int, normal: int)
  {
    forall k :: 0 <= k < |origins| ==>
      Index(origins[k].p) < index || (Index(origins[k].p) == index && origins[k].normal < normal)
  }

  /** A quad for a face after all the others keeps the quads ordered. */
  lemma AppendOrdered(origins: seq<Origin>, o: Origin)
    requires Ordered(origins) && Precedes(origins, Index(o.p), o.normal)
    ensures Ordered(origins + [o]) && Precedes(origins + [o], Index(o.p), o.normal + 1)
  {
    var os := origins + [o];
    forall i, j | 0 <= i < j < |os|
      ensures Before(os[i], os[j])
    {
      if j < |origins| {
        assert Before(origins[i], origins[j]);
      }
    }
  }

  /** Ordered quads are for distinct faces: no two share both cell and normal. */
  lemma OrderedDistinct(origins: seq<Origin>)
    requires Ordered(origins)
    ensures forall i, j :: 0 <= i < j < |origins| ==> origins[i].p != origins[j].p || origins[i].normal != origins[j].normal
  {
    forall i, j | 0 <= i < j < |origins|
      ensures origins[i].p != origins[j].p || origins[i].normal != origins[j].normal
    {
      assert Before(origins[i], origins[j]);
    }
  }

  /** Lines 251-291: pushes one quad: its six indexes, which name the four corners
      pushed with it, and its four corners, for a run of `traversals` cells along the
      axis whose field starts at bit `traversalShift`. */
  method PushQuad(
    indexes: seq<seq<u32>>, vertexes: seq<seq<PackedVertex>>,
    localPosition: bv32, normal: int, traversalShift: bv6, traversals: int)
    returns (indexes': seq<seq<u32>>, vertexes': seq<seq<PackedVertex>>)
    requires MeshShape(indexes, vertexes) && |vertexes| < MAX_QUADS
    requires 0 <= normal < 6 && traversalShift <= 10 && 0 <= traversals <= CHUNK_SIZE
    ensures MeshShape(indexes', vertexes')
    ensures indexes' == indexes + [QuadIndexes(4 * |vertexes|)]
    ensures vertexes' == vertexes + [QuadVertexes(localPosition, normal, traversalShift, Bits(traversals))]
  {
    var indexesStart := (|vertexes| * 4) as u32;
    indexes' := indexes + [[indexesStart + 0, indexesStart + 1, indexesStart + 3, indexesStart + 1, indexesStart + 2, indexesStart + 3]];
    vertexes' := vertexes + [QuadVertexes(localPosition, normal, traversalShift, Bits(traversals))];
  }

  // ---------------------------------------------------------------- one face

  /** The state after the traversal along the first perpendicular axis found a run
      of exactly one cell: the face of the cell itself is not culled, the run along
      that axis stops after it, and of the face flags only that cell's changed. */
  ghost predicate FirstRunOfOne(blocks: seq<Block>, faces: seq<Directions>, culls: seq<bool>, f: Face, g1: seq<Directions>)
    requires 0 <= f.component < 3 && 0 <= f.normal < 6
  {
    var t1 := Perpendicular(f.component, 1);
    && 0 <= f.index < |culls| && !culls[f.index]
    && StopsAt(blocks, faces, culls, f, t1, 1)
    && Flagged(g1, f, t1, 0, 1) && Outside(faces, g1, f, t1, 0, 1) && Widened(faces, g1, Marks(f.normal))
  }

  /** The face's quad lies along `axis`, one of the two perpendicular axes, and spans
      `length` cells (0 for no quad): those cells form a run over the flags the face
      started from, and the run stops there; a run of one cell along the first axis
      is never the quad, and a quad along the second axis means the first run had one
      cell; the cells of the quad are the only ones whose face got flagged in `g`, and
      apart from them only opposite flags were set. */
  ghost predicate FaceMeshed(
    blocks: seq<Block>, faces: seq<Directions>, culls: seq<bool>, f: Face, g: seq<Directions>, axis: int, length: int)
    requires 0 <= f.component < 3 && 0 <= f.normal < 6
  {
    var t1 := Perpendicular(f.component, 1);
    var t2 := Perpendicular(f.component, 2);
    && 0 <= axis < 3 && (axis == t1 || axis == t2) && 0 <= length <= CHUNK_SIZE
    && Run(blocks, faces, culls, f, axis, 0, length) && StopsAt(blocks, faces, culls, f, axis, length)
    && (axis == t1 ==> length != 1)
    && (axis == t2 ==> StopsAt(blocks, faces, culls, f, t1, 1))
    && Flagged(g, f, axis, 0, length) && Outside(faces, g, f, axis, 0, length) && Widened(faces, g, Marks(f.normal))
  }

  /** After the traversal along the first perpendicular axis: a run of one cell moves
      on, any other run is the face's quad. */
  lemma FirstAxis(blocks: seq<Block>, faces: seq<Directions>, culls: seq<bool>, f: Face, g: seq<Directions>, n: int)
    requires 0 <= f.component < 3 && 0 <= f.normal < 6 && 0 <= n <= CHUNK_SIZE
    requires f.p.InChunk() && f.index == Index(f.p) && |culls| == CHUNK_SIZE_CUBED
    requires var t1 := Perpendicular(f.component, 1);
      && Run(blocks, faces, culls, f, t1, 0, n) && StopsAt(blocks, faces, culls, f, t1, n)
      && Flagged(g, f, t1, 0, n) && Outside(faces, g, f, t1, 0, n) && Widened(faces, g, Marks(f.normal))
    ensures n == 1 ==> FirstRunOfOne(blocks, faces, culls, f, g)
    ensures n != 1 ==> FaceMeshed(blocks, faces, culls, f, g, Perpendicular(f.component, 1), n)
  {
    if n == 1 {
      IndexInRange(f.p);
      assert RunCell(blocks, faces, culls, f, Perpendicular(f.component, 1), 0);
    }
  }

  /** After a run of one cell along the first perpendicular axis `t1`, the run along
      the second axis from one cell past the start, together with the face's own
      cell, is the face's quad. */
  lemma SecondAxis(
    blocks: seq<Block>, faces: seq<Directions>, g1: seq<Directions>, g2: seq<Directions>, culls: seq<bool>,
    f: Face, n: int)
    requires f.p.InChunk() && f.index == Index(f.p) && 0 <= f.normal < 6 && 0 <= f.component < 3 && 1 <= n <= CHUNK_SIZE
    requires |blocks| == |faces| == |culls| == CHUNK_SIZE_CUBED
    requires blocks[f.index].id == f.block.id && !Has(faces[f.index], f.direction)
    requires FirstRunOfOne(blocks, faces, culls, f, g1)
    requires var t2 := Perpendicular(f.component, 2);
      && Run(blocks, g1, culls, f, t2, 1, n) && StopsAt(blocks, g1, culls, f, t2, n)
      && Flagged(g2, f, t2, 1, n) && Outside(g1, g2, f, t2, 1, n) && Widened(g1, g2, Marks(f.normal))
    ensures FaceMeshed(blocks, faces, culls, f, g2, Perpendicular(f.component, 2), n)
  {
    var t1, t2 := Perpendicular(f.component, 1), Perpendicular(f.component, 2);
    IndexInRange(f.p);
    var home := RunIndex(f.p, t2, 0);
    assert home == f.index && RunIndex(f.p, t1, 0) == f.index;
    forall j | 1 <= j
      ensures RunIndex(f.p, t2, j) != f.index && !InRun(f.p, t1, 0, 1, RunIndex(f.p, t2, j))
    {
      RunIndexBefore(f.p, t2, 0, j);
    }
    forall k | 0 <= k < n
      ensures RunCell(blocks, faces, culls, f, t2, k)
    {
      if k > 0 {
        assert RunCell(blocks, g1, culls, f, t2, k);
      }
    }
    NotInRunBehind(f.p, t2, 1, n, 0);
    assert Has(g1[RunIndex(f.p, t1, 0)], f.direction);
    forall i | 0 <= i < |faces| && !InRun(f.p, t2, 0, n, i)
      ensures Has(g2[i], f.direction) <==> Has(faces[i], f.direction)
    {
      InRunFirst(f.p, t2, n, i);
      assert !InRun(f.p, t1, 0, 1, i);
    }
    WidenedTrans(faces, g1, g2, Marks(f.normal), Marks(f.normal), Marks(f.normal));
  }

  /** `(component_index + perpendicular) % 3`: the k-th axis perpendicular to axis c,
      for k = 1, 2, in the order the mesher visits them. */
  function Perpendicular(c: int, k: int): (t: int)
    requires 0 <= c < 3 && 1 <= k <= 2
    ensures 0 <= t < 3 && t != c
  {
    if c + k < 3 then c + k else c + k - 3
  }

  /** The two perpendicular axes are distinct and are the source's remainders. */
  lemma PerpendicularAxes(c: int)
    requires 0 <= c < 3
    ensures Perpendicular(c, 1) != Perpendicular(c, 2)
    ensures Perpendicular(c, 1) == (c + 1) % 3 && Perpendicular(c, 2) == (c + 2) % 3
  {
  }

  /** Lines 124-294: meshes a face not yet flagged meshed. It traverses the first
      perpendicular axis from the cell; a culled cell ends the face with no quad, and a
      run of one cell moves on to the second perpendicular axis, traversed from one
      cell past the start. The first run longer than one cell, or the run along the
      second axis, is pushed as a quad. The ghost results are the quad's axis and
      length: the length is 0, and nothing is pushed, exactly when the face of the
      cell itself is culled; otherwise the cells of the quad form a run that stops at
      its length, they are the only cells whose face gets flagged, and the quad pushed
      spans them. */
  method MeshFace(
    registry: BlockRegistry, blocks: seq<Block>, faces: seq<Directions>, neighbors: seq<Collections.Palette?>,
    ghost defs: seq<BlockDefinition>, ghost around: seq<Option<seq<Block>>>,
    f: Face, ghost culls: seq<bool>,
    indexes: seq<seq<u32>>, vertexes: seq<seq<PackedVertex>>, ghost origins: seq<Origin>)
    returns (faces': seq<Directions>, indexes': seq<seq<u32>>, vertexes': seq<seq<PackedVertex>>, ghost origins': seq<Origin>,
             ghost axis: int, ghost length: int)
    requires Decoded(registry, neighbors, defs, around) && ChunkCells(defs, blocks) && AroundCells(defs, around)
    requires FaceOf(defs, f) && |faces| == CHUNK_SIZE_CUBED
    requires blocks[f.index].id == f.block.id && !Has(faces[f.index], f.direction)
    requires CullMap(defs, blocks, around, f.block.id, f.normal, culls)
    requires MeshShape(indexes, vertexes) && |vertexes| < MAX_QUADS
    ensures |faces'| == CHUNK_SIZE_CUBED && MeshShape(indexes', vertexes')
    ensures FaceMeshed(blocks, faces, culls, f, faces', axis, length) && (length == 0 <==> culls[f.index])
    ensures length == 0 ==> indexes' == indexes && vertexes' == vertexes && origins' == origins
    ensures length > 0 ==>
      && indexes' == indexes + [QuadIndexes(4 * |vertexes|)]
      && vertexes' == vertexes + [QuadVertexes(f.localPosition, f.normal, AxisShift(axis), Bits(length))]
      && origins' == origins + [Origin(f.p, f.normal, axis, length)]
  {
    faces', indexes', vertexes', origins' := faces, indexes, vertexes, origins;
    var traversals := 0;
    axis, length := Perpendicular(f.component, 1), 0;
    for perpendicular := 1 to 3
      invariant perpendicular <= 2
      invariant |faces'| == CHUNK_SIZE_CUBED
      invariant indexes' == indexes && vertexes' == vertexes && origins' == origins
      invariant perpendicular == 1 ==> traversals == 0 && faces' == faces
      invariant perpendicular == 2 ==> traversals == 1 && FirstRunOfOne(blocks, faces, culls, f, faces')
    {
      var t := Perpendicular(f.component, perpendicular);
      ghost var before := faces';
      traversals, faces' := Traverse(registry, blocks, faces', neighbors, defs, around, f, t, traversals, culls);
      if perpendicular == 1 {
        FirstAxis(blocks, faces, culls, f, faces', traversals);
      } else {
        SecondAxis(blocks, faces, before, faces', culls, f, traversals);
      }
      axis, length := t, traversals;
      if traversals == 0 {
        break;
      } else if traversals == 1 && perpendicular == 1 {
        continue;
      }
      indexes', vertexes' := PushQuad(indexes', vertexes', f.localPosition, f.normal, AxisShift(t), traversals);
      origins' := origins' + [Origin(f.p, f.normal, axis, length)];
      break;
    }
  }

  // ---------------------------------------------------------------- one cell

  /** Lines 111-122: the face with normal n of the cell at p: the normal's sign, its
      axis `n % 3` and that axis's shift, the cell's coordinate along it, and whether
      the faced cell lies across the chunk boundary. */
  method FaceAt(
    ghost defs: seq<BlockDefinition>, p: Pos, index: int, block: Block, isTransparent: bool,
    localPosition: bv32, normalIndex: int, faceDirection: Directions)
    returns (f: Face)
    requires p.InChunk() && index == Index(p) && localPosition == LocalPosition(p)
    requires block.id < |defs| && isTransparent == Transparent(defs, block.id)
    requires 0 <= normalIndex < 6 && faceDirection == FaceDirection(normalIndex)
    ensures FaceOf(defs, f)
    ensures f.p == p && f.index == index && f.block == block && f.normal == normalIndex
  {
    var isNegative := normalIndex - 3 >= 0;
    var componentIndex := normalIndex % 3;
    var componentShift := AxisShift(componentIndex);
    var facedAxisValue := AxisValue(localPosition, componentShift);
    AxisValueOf(p, componentIndex, componentShift);
    var facingNeighbor := FacingNeighbor(isNegative, facedAxisValue);
    IndexInRange(p);
    f := Face(p, index, localPosition, block, isTransparent, normalIndex, faceDirection,
              isNegative, componentIndex, componentShift, facingNeighbor);
  }

  /** The quad for a run of the face's block from its cell, over the culling table of
      the face's normal, covers visible faces. */
  lemma RunVisible(
    defs: seq<BlockDefinition>, cells: seq<Block>, around: seq<Option<seq<Block>>>, faces: seq<Directions>,
    f: Face, culls: seq<bool>, axis: int, length: int)
    requires ChunkCells(defs, cells) && AroundCells(defs, around) && FaceOf(defs, f)
    requires cells[f.index] == f.block && f.block.id != AIR_ID
    requires culls == CullTable(defs, cells, around, f.block.id, f.normal)
    requires axis == Perpendicular(f.component, 1) || axis == Perpendicular(f.component, 2)
    requires 1 <= length && Run(cells, faces, culls, f, axis, 0, length)
    ensures VisibleFace(defs, cells, around, Origin(f.p, f.normal, axis, length))
  {
    assert RunCell(cells, faces, culls, f, axis, length - 1);
    forall k | 0 <= k < length
      ensures var i := RunIndex(f.p, axis, k);
        && 0 <= i < CHUNK_SIZE_CUBED && cells[i].id == f.block.id
        && (IndexOfPos(i); !Culled(defs, cells, around, cells[i].id, f.normal, PosOf(i)))
    {
      RunCellVisible(defs, cells, around, faces, f, culls, axis, k);
    }
  }

  lemma RunCellVisible(
    defs: seq<BlockDefinition>, cells: seq<Block>, around: seq<Option<seq<Block>>>, faces: seq<Directions>,
    f: Face, culls: seq<bool>, axis: int, k: int)
    requires ChunkCells(defs, cells) && AroundCells(defs, around) && FaceOf(defs, f) && 0 <= axis < 3
    requires culls == CullTable(defs, cells, around, f.block.id, f.normal)
    requires RunCell(cells, faces, culls, f, axis, k)
    ensures var i := RunIndex(f.p, axis, k);
      && 0 <= i < CHUNK_SIZE_CUBED && cells[i].id == f.block.id
      && (IndexOfPos(i); !Culled(defs, cells, around, cells[i].id, f.normal, PosOf(i)))
  {
  }

  /** Lines 103-294 for one normal of a non-air cell: a face already flagged meshed is
      skipped; otherwise a quad is pushed for it exactly when it is not culled, along
      the ghost `axis` and `length` cells long, covering visible faces and coming after
      every quad before it. */
  method MeshNormal(
    registry: BlockRegistry, blocks: seq<Block>, faces: seq<Directions>, neighbors: seq<Collections.Palette?>,
    ghost defs: seq<BlockDefinition>, ghost around: seq<Option<seq<Block>>>,
    p: Pos, index: int, block: Block, isTransparent: bool, localPosition: bv32, normalIndex: int,
    indexes: seq<seq<u32>>, vertexes: seq<seq<PackedVertex>>, ghost origins: seq<Origin>)
    returns (faces': seq<Directions>, indexes': seq<seq<u32>>, vertexes': seq<seq<PackedVertex>>, ghost origins': seq<Origin>,
             ghost axis: int, ghost length: int)
    requires Decoded(registry, neighbors, defs, around) && ChunkCells(defs, blocks) && AroundCells(defs, around)
    requires p.InChunk() && index == Index(p) && 0 <= index < CHUNK_SIZE_CUBED
    requires localPosition == LocalPosition(p) && |faces| == CHUNK_SIZE_CUBED
    requires blocks[index] == block && block.id != AIR_ID && isTransparent == Transparent(defs, block.id)
    requires 0 <= normalIndex < 6
    requires MeshShape(indexes, vertexes) && |vertexes| < MAX_QUADS
    requires Emitted(origins, vertexes) && Visible(defs, blocks, around, origins)
    requires Ordered(origins) && Precedes(origins, index, normalIndex)
    ensures |faces'| == CHUNK_SIZE_CUBED && MeshShape(indexes', vertexes') && Widened(faces, faces', Marks(normalIndex))
    ensures Emitted(origins', vertexes') && Visible(defs, blocks, around, origins')
    ensures Ordered(origins') && Precedes(origins', index, normalIndex + 1)
    ensures Has(faces[index], FaceDirection(normalIndex)) ==>
      faces' == faces && indexes' == indexes && vertexes' == vertexes && origins' == origins
    ensures 0 <= axis < 3 && 0 <= length <= CHUNK_SIZE
    ensures var emitted := !Has(faces[index], FaceDirection(normalIndex)) && !Culled(defs, blocks, around, block.id, normalIndex, p);
      && vertexes' == vertexes + (if emitted then [QuadVertexes(localPosition, normalIndex, AxisShift(axis), Bits(length))] else [])
      && origins' == origins + (if emitted then [Origin(p, normalIndex, axis, length)] else [])
  {
    faces', indexes', vertexes', origins' := faces, indexes, vertexes, origins;
    axis, length := 0, 0;
    var faceDirection := FaceDirection(normalIndex);
    if Has(faces[index], faceDirection) {
      WidenedRefl(faces, Marks(normalIndex));
      return;
    }
    var f := FaceAt(defs, p, index, block, isTransparent, localPosition, normalIndex, faceDirection);
    ghost var culls := CullTable(defs, blocks, around, block.id, normalIndex);
    CullTableMap(defs, blocks, around, block.id, normalIndex);
    assert culls[index] == Culled(defs, blocks, around, block.id, normalIndex, p);
    faces', indexes', vertexes', origins', axis, length :=
      MeshFace(registry, blocks, faces, neighbors, defs, around, f, culls, indexes, vertexes, origins);
    if length > 0 {
      ghost var o := Origin(p, normalIndex, axis, length);
      RunVisible(defs, blocks, around, faces, f, culls, axis, length);
      VisibleAppend(defs, blocks, around, origins, o);
      EmittedAppend(origins, vertexes, o, vertexes'[|vertexes|]);
      AppendOrdered(origins, o);
    }
  }

  /** The state after the cells before `next` have been meshed. */
  ghost predicate MeshedBefore(
    defs: seq<BlockDefinition>, cells: seq<Block>, around: seq<Option<seq<Block>>>,
    faces: seq<Directions>, indexes: seq<seq<u32>>, vertexes: seq<seq<PackedVertex>>, origins: seq<Origin>, next: int)
    requires ChunkCells(defs, cells) && AroundCells(defs, around)
  {
    && |faces| == CHUNK_SIZE_CUBED && MeshShape(indexes, vertexes) && |vertexes| <= 6 * next
    && Emitted(origins, vertexes) && Visible(defs, cells, around, origins)
    && Ordered(origins) && Precedes(origins, next, 0)
  }

  /** Lines 88-296 for the cell at x, y, z, whose flat index is `index`: an air cell is
      skipped; otherwise the block's transparency and the cell's local position are
      read and the six normals are meshed in turn. The quads added are all for this
      cell, at most one per normal, in the order of the normals. */
  method MeshBlock(
    registry: BlockRegistry, blocks: seq<Block>, faces: seq<Directions>, neighbors: seq<Collections.Palette?>,
    ghost defs: seq<BlockDefinition>, ghost around: seq<Option<seq<Block>>>,
    x: int, y: int, z: int, index: int,
    indexes: seq<seq<u32>>, vertexes: seq<seq<PackedVertex>>, ghost origins: seq<Origin>)
    returns (faces': seq<Directions>, indexes': seq<seq<u32>>, vertexes': seq<seq<PackedVertex>>, ghost origins': seq<Origin>)
    requires Decoded(registry, neighbors, defs, around) && ChunkCells(defs, blocks) && AroundCells(defs, around)
    requires 0 <= x < CHUNK_SIZE && 0 <= y < CHUNK_SIZE && 0 <= z < CHUNK_SIZE
    requires index == x + CHUNK_SIZE * z + CHUNK_SIZE_SQUARED * y && 0 <= index < CHUNK_SIZE_CUBED
    requires |faces| == CHUNK_SIZE_CUBED && MeshShape(indexes, vertexes) && |vertexes| <= 6 * index
    requires Emitted(origins, vertexes) && Visible(defs, blocks, around, origins)
    requires Ordered(origins) && Precedes(origins, index, 0)
    ensures |faces'| == CHUNK_SIZE_CUBED && MeshShape(indexes', vertexes')
    ensures Emitted(origins', vertexes') && Visible(defs, blocks, around, origins')
    ensures Ordered(origins') && Precedes(origins', index + 1, 0)
    ensures |origins| <= |origins'| <= |origins| + 6 && origins'[..|origins|] == origins
    ensures forall k :: |origins| <= k < |origins'| ==> Index(origins'[k].p) == index
    ensures blocks[index].id == AIR_ID ==>
      faces' == faces && indexes' == indexes && vertexes' == vertexes && origins' == origins
  {
    faces', indexes', vertexes', origins' := faces, indexes, vertexes, origins;
    var block := blocks[index];
    if block.id == 0 {
      return;
    }
    var isTransparent := registry.IsTransparent(block.id);
    CellOf(x, y, z);
    var p := Pos(Bits(x), Bits(y), Bits(z));
    var localPosition := LocalPosition(p);
    for normalIndex := 0 to 6
      invariant |faces'| == CHUNK_SIZE_CUBED && MeshShape(indexes', vertexes')
      invariant Emitted(origins', vertexes') && Visible(defs, blocks, around, origins')
      invariant Ordered(origins') && Precedes(origins', index, normalIndex)
      invariant |origins| <= |origins'| <= |origins| + normalIndex && origins'[..|origins|] == origins
      invariant forall k :: |origins| <= k < |origins'| ==> Index(origins'[k].p) == index
    {
      ghost var axis, length;
      faces', indexes', vertexes', origins', axis, length := MeshNormal(
        registry, blocks, faces', neighbors, defs, around, p, index, block, isTransparent, localPosition, normalIndex,
        indexes', vertexes', origins');
    }
  }

  // ---------------------------------------------------------------- one chunk

  ghost predicate AllAir(cells: seq<Block>)
  {
    forall i :: 0 <= i < |cells| ==> cells[i].id == AIR_ID
  }

  /** Lines 85-297, the innermost loop of `generate_packed_mesh`: the row of cells at
      y, z, visited in order of x, with `index` counting on from the cell before the
      row. Every cell of the row is meshed, and air yields no quad. */
  method MeshRow(
    registry: BlockRegistry, blocks: seq<Block>, faces: seq<Directions>, neighbors: seq<Collections.Palette?>,
    ghost defs: seq<BlockDefinition>, ghost around: seq<Option<seq<Block>>>,
    y: int, z: int, index: int,
    indexes: seq<seq<u32>>, vertexes: seq<seq<PackedVertex>>, ghost origins: seq<Origin>)
    returns (faces': seq<Directions>, index': int, indexes': seq<seq<u32>>, vertexes': seq<seq<PackedVertex>>, ghost origins': seq<Origin>)
    requires Decoded(registry, neighbors, defs, around) && ChunkCells(defs, blocks) && AroundCells(defs, around)
    requires 0 <= y < CHUNK_SIZE && 0 <= z < CHUNK_SIZE && index == 1024 * y + 32 * z - 1
    requires MeshedBefore(defs, blocks, around, faces, indexes, vertexes, origins, index + 1)
    requires AllAir(blocks) ==> indexes == [] && vertexes == []
    ensures index' == index + CHUNK_SIZE
    ensures MeshedBefore(defs, blocks, around, faces', indexes', vertexes', origins', index' + 1)
    ensures AllAir(blocks) ==> indexes' == [] && vertexes' == []
  {
    faces', index', indexes', vertexes', origins' := faces, index, indexes, vertexes, origins;
    ChunkConstants();
    for x := 0 to CHUNK_SIZE
      invariant index' == 1024 * y + 32 * z + x - 1
      invariant MeshedBefore(defs, blocks, around, faces', indexes', vertexes', origins', index' + 1)
      invariant AllAir(blocks) ==> indexes' == [] && vertexes' == []
    {
      index' := index' + 1;
      faces', indexes', vertexes', origins' := MeshBlock(
        registry, blocks, faces', neighbors, defs, around, x, y, z, index', indexes', vertexes', origins');
    }
  }

  /** Lines 63-300: `generate_packed_mesh`. Decodes the chunk's palette into one block
      per cell, then visits the cells in index order (y, then z, then x) and meshes
      each. The buffers keep their shape and hold at most six quads per cell; quad k
      of the vertex buffer is the quad of ghost origin k, which covers visible faces of
      a non-air block; no two quads were emitted for the same face of the same cell;
      and a chunk of air yields no quad. The source drops the buffers; here they are
      the result. */
  method GeneratePackedMesh(
    registry: BlockRegistry, blocksPalette: Collections.Palette, neighbors: seq<Collections.Palette?>,
    ghost defs: seq<BlockDefinition>, ghost around: seq<Option<seq<Block>>>)
    returns (indexes: seq<seq<u32>>, vertexes: seq<seq<PackedVertex>>, ghost cells: seq<Block>, ghost origins: seq<Origin>)
    requires Decoded(registry, neighbors, defs, around) && AroundCells(defs, around)
    requires blocksPalette.Valid() && blocksPalette.len == CHUNK_SIZE_CUBED
    requires forall i :: 0 <= i < CHUNK_SIZE_CUBED ==> blocksPalette.Get(i).id < |defs|
    ensures |cells| == CHUNK_SIZE_CUBED && forall i :: 0 <= i < CHUNK_SIZE_CUBED ==> cells[i] == blocksPalette.Get(i)
    ensures MeshShape(indexes, vertexes) && |vertexes| <= 6 * CHUNK_SIZE_CUBED
    ensures ChunkCells(defs, cells) && Emitted(origins, vertexes) && Visible(defs, cells, around, origins)
    ensures forall i, j :: 0 <= i < j < |origins| ==> origins[i].p != origins[j].p || origins[i].normal != origins[j].normal
    ensures (forall i :: 0 <= i < CHUNK_SIZE_CUBED ==> blocksPalette.Get(i).id == AIR_ID) ==> indexes == [] && vertexes == []
  {
    if blocksPalette.LookupLen() == 1 && blocksPalette.GetLookupValue(0).id == AIR_ID {
      // The source leaves this branch empty: an all-air chunk is meshed like any other.
    }
    indexes, vertexes, origins := [], [], [];
    var slice := new Block[CHUNK_SIZE_CUBED](_ => AIR);
    var faces := seq(CHUNK_SIZE_CUBED, _ => NO_DIRECTIONS);
    blocksPalette.CopyToSlice(slice);
    var blocks := slice[..];
    cells := blocks;
    ChunkConstants();
    var index := -1;
    for y := 0 to CHUNK_SIZE
      invariant index == 1024 * y - 1
      invariant MeshedBefore(defs, blocks, around, faces, indexes, vertexes, origins, index + 1)
      invariant AllAir(blocks) ==> vertexes == [] && indexes == []
    {
      for z := 0 to CHUNK_SIZE
        invariant index == 1024 * y + 32 * z - 1
        invariant MeshedBefore(defs, blocks, around, faces, indexes, vertexes, origins, index + 1)
        invariant AllAir(blocks) ==> vertexes == [] && indexes == []
      {
        faces, index, indexes, vertexes, origins := MeshRow(
          registry, blocks, faces, neighbors, defs, around, y, z, index, indexes, vertexes, origins);
      }
    }
    OrderedDistinct(origins);
  }
}
