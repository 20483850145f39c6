/** The block value stored in every chunk cell: an id plus display attributes (a colour
    and a light level). Equality and ordering look at the id alone. */
module Blocks {
  import opened Common

  datatype Block = Block(id: u16, color: u16, lightLvl: u8)
  {
    function Id(): u16 { id }
    function Color(): u16 { color }
    function LightLvl(): u8 { lightLvl }
  }

  /** `Block::new`: the accessors give back exactly what was passed in. */
  function New(id: u16, color: u16, lightLvl: u8): (b: Block)
    ensures b.Id() == id && b.Color() == color && b.LightLvl() == lightLvl
  {
    Block(id, color, lightLvl)
  }

  /** `Block::AIR`, the background value. */
  const AIR: Block := New(0, 0, 0)

  /** `PartialEq::eq`: blocks are equal when their ids are. */
  predicate Eq(a: Block, b: Block)
  {
    a.id == b.id
  }

  datatype Ordering = Less | Equal | Greater

  /** `Ord::cmp`: `u16::cmp` on the ids. */
  function Cmp(a: Block, b: Block): Ordering
  {
    if a.id < b.id then Less else if a.id == b.id then Equal else Greater
  }

  /** `PartialOrd::partial_cmp`: `u16::partial_cmp` on the ids. */
  function PartialCmp(a: Block, b: Block): Option<Ordering>
  {
    Some(if a.id < b.id then Less else if a.id > b.id then Greater else Equal)
  }

  /** AIR has id 0 and no colour or light. */
  lemma AirIsBackground()
    ensures AIR.Id() == 0 && AIR.Color() == 0 && AIR.LightLvl() == 0
  {
  }

  /** Colour and light level never take part in equality. */
  lemma EqIgnoresAttributes(a: Block, color: u16, lightLvl: u8)
    ensures Eq(a, New(a.Id(), color, lightLvl))
  {
  }

  /** `cmp` reports Equal exactly when `==` holds, so Ord and Eq agree. */
  lemma CmpAgreesWithEq(a: Block, b: Block)
    ensures Cmp(a, b) == Equal <==> Eq(a, b)
  {
  }

  /** `partial_cmp` is always `Some` and agrees with `cmp`. */
  lemma PartialCmpAgreesWithCmp(a: Block, b: Block)
    ensures PartialCmp(a, b) == Some(Cmp(a, b))
  {
  }

  /** `cmp` is a total order on blocks up to `==`: antisymmetric and transitive. */
  lemma CmpIsTotalOrder(a: Block, b: Block, c: Block)
    ensures Cmp(a, b) == Less <==> Cmp(b, a) == Greater
    ensures Cmp(a, b) != Greater && Cmp(b, c) != Greater ==> Cmp(a, c) != Greater
    ensures Cmp(a, b) == Less && Cmp(b, c) == Less ==> Cmp(a, c) == Less
    ensures Eq(a, b) && Eq(b, c) ==> Eq(a, c)
  {
  }
}
