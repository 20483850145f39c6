/** `RingIndex`: an index that counts up to a bound and wraps round to 0. */
module Ring {
  import opened Common
  import opened Arith

  /** `(c + 1) % max`: the index after c. */
  function Step(c: usize, max: usize): (r: usize)
    requires c < max
    ensures r == if c + 1 == max then 0 else c + 1
  {
    Wraps(c, max);
    (c + 1) % max
  }

  lemma Wraps(c: int, max: int)
    requires 0 <= c < max
    ensures (c + 1) % max == if c + 1 == max then 0 else c + 1
  {
    if c + 1 == max {
      DivModUnique(c + 1, max, 1, 0);
    } else {
      DivModUnique(c + 1, max, 0, c + 1);
    }
  }

  /** The index reached from c after k increments. */
  function Advance(c: usize, max: usize, k: nat): usize
    requires c < max
  {
    if k == 0 then c else Step(Advance(c, max, k - 1), max)
  }

  /** After k increments the index is c + k, reduced modulo the bound. */
  lemma {:induction false} AdvanceIsModular(c: usize, max: usize, k: nat)
    requires c < max
    ensures Advance(c, max, k) == (c + k) % max
  {
    if k == 0 {
      DivModUnique(c, max, 0, c);
    } else {
      var before := Advance(c, max, k - 1);
      AdvanceIsModular(c, max, k - 1);
      assert Advance(c, max, k) == (before + 1) % max;
      StepOfRemainder(c + k - 1, max);
    }
  }

  lemma StepOfRemainder(a: nat, max: nat)
    requires max > 0
    ensures ((a % max) + 1) % max == (a + 1) % max
  {
    var q, r := a / max, a % max;
    if r + 1 == max {
      DivModUnique(r + 1, max, 1, 0);
      assert a + 1 == (q + 1) * max + 0;
      DivModUnique(a + 1, max, q + 1, 0);
    } else {
      DivModUnique(r + 1, max, 0, r + 1);
      DivModUnique(a + 1, max, q, r + 1);
    }
  }

  /** `max` increments bring the index back to where it started. */
  lemma FullTurn(c: usize, max: usize)
    requires c < max
    ensures Advance(c, max, max) == c
  {
    AdvanceIsModular(c, max, max);
    DivModUnique(c + max, max, 1, c);
  }

  class RingIndex {
    var max: usize
    var current: usize

    /** The index is below the bound, or still at its starting value 0. */
    ghost predicate Valid()
      reads this
    {
      current == 0 || current < max
    }

    /** `RingIndex::new(max)`: starts at index 0. */
    constructor (max: usize)
      ensures Valid() && this.max == max && current == 0
    {
      this.max := max;
      current := 0;
    }

    /** `index`: the current index, below the bound whenever the bound is positive. */
    function Index(): (r: usize)
      reads this
      requires Valid()
      ensures max > 0 ==> r < max
      ensures r == 0 || r < max
    {
      current
    }

    /** `next_index`: the index after the current one, which wraps round to 0 at the
        bound. The remainder by a zero bound panics in the source, so the bound must be
        positive. */
    function NextIndex(): (r: usize)
      reads this
      requires Valid() && max > 0
      ensures r < max
      ensures r == if current + 1 == max then 0 else current + 1
    {
      Step(current, max)
    }

    /** `increment`: moves to the next index; the bound is unchanged. */
    method Increment()
      requires Valid() && max > 0
      modifies this`current
      ensures Valid() && current == old(NextIndex())
      ensures current == Advance(old(current), max, 1)
    {
      current := NextIndex();
    }
  }
}
