/** The block registry: hands out sequential `u16` ids, stores each block's full name
    ("group:name") and attribute flags, and answers the transparency question the mesher
    asks. The `RwLock`s and the `AtomicU16` of the source are interior mutability only;
    here they are plain fields of a class. */
module BlockRegistry {
  import opened Common

  /** The `Attributes` bitflags (a `u64`). */
  type Attributes = bv64

  const TRANSPARENT: Attributes := 1
  const COLLIDEABLE: Attributes := 2
  const DESCTRUCTIBLE: Attributes := 4
  const COLLECTABLE: Attributes := 8

  /** bitflags' `contains`: every flag of `other` is set in `a`. */
  predicate Contains(a: Attributes, other: Attributes)
  {
    a & other == other
  }

  datatype BlockDefinition = BlockDefinition(name: string, attribs: Attributes)

  const AIR_ID: u16 := 0
  const U16_MAX: int := 0xFFFF

  /** `format!("{}:{}", group, name)`. */
  function FullName(group: string, name: string): string
  {
    group + ":" + name
  }

  class BlockRegistry {
    var definitions: seq<BlockDefinition>
    var idLookup: map<string, u16>
    var nextId: u16

    /** Ids are handed out in order, so `definitions[id]` is the block registered with
        `id`; `idLookup` maps every registered name to the LATEST id registered under it. */
    ghost predicate Valid()
      reads this
    {
      && |definitions| == nextId
      && (forall name :: name in idLookup ==>
            idLookup[name] < |definitions| && definitions[idLookup[name]].name == name)
      && (forall id :: 0 <= id < |definitions| ==>
            definitions[id].name in idLookup && id <= idLookup[definitions[id].name])
    }

    /** `BlockRegistry::default()`: an empty registry in which "core:air" is registered,
        TRANSPARENT, and so receives id 0 (`AIR_ID`). */
    constructor Default()
      ensures Valid()
      ensures definitions == [BlockDefinition("core:air", TRANSPARENT)]
      ensures idLookup == map["core:air" := AIR_ID] && nextId == 1
    {
      definitions := [];
      idLookup := map[];
      nextId := 0;
      new;
      assert FullName("core", "air") == "core:air";
      var _ := RegisterBlock("core", "air", TRANSPARENT);
    }

    /** `next_id`: the current counter, post-incremented, until it reaches `u16::MAX`. */
    method NextId() returns (r: Option<u16>)
      modifies this`nextId
      ensures old(nextId) < U16_MAX ==> r == Some(old(nextId)) && nextId == old(nextId) + 1
      ensures old(nextId) >= U16_MAX ==> r == None && nextId == old(nextId)
    {
      if nextId < U16_MAX {
        r := Some(nextId);
        nextId := nextId + 1;
      } else {
        r := None;
      }
    }

    /** `register_block`: stores the definition under the next id and maps "group:name"
        to that id (overwriting an earlier id of the same name); panics with "Out of valid
        block IDs!" once the counter has reached `u16::MAX`, changing nothing. */
    method RegisterBlock(group: string, name: string, attribs: Attributes) returns (r: Outcome<u16>)
      requires Valid()
      modifies this
      ensures Valid()
      ensures r.Done? <==> old(nextId) < U16_MAX
      ensures r.Done? ==>
        && r.value == old(nextId)
        && definitions == old(definitions) + [BlockDefinition(FullName(group, name), attribs)]
        && idLookup == old(idLookup)[FullName(group, name) := r.value]
      ensures r.Done? ==>
        && BlockExists(r.value) && GetBlockId(FullName(group, name)) == Some(r.value)
        && GetBlockName(r.value) == FullName(group, name) && GetBlockAttributes(r.value) == attribs
        && (IsTransparent(r.value) <==> Contains(attribs, TRANSPARENT))
      ensures forall id :: old(BlockExists(id)) ==>
        BlockExists(id) && GetBlockName(id) == old(GetBlockName(id)) && GetBlockAttributes(id) == old(GetBlockAttributes(id))
      ensures r.Panic? ==> definitions == old(definitions) && idLookup == old(idLookup) && nextId == old(nextId)
    {
      var definition := BlockDefinition(FullName(group, name), attribs);
      var id := NextId();
      if id.None? {
        return Panic("Out of valid block IDs!");
      }
      idLookup := idLookup[definition.name := id.value];
      definitions := definitions + [definition];
      r := Done(id.value);
    }

    /** `block_exists`: exactly the ids the counter has handed out. */
    function BlockExists(id: u16): (b: bool)
      reads this
      ensures Valid() ==> (b <==> id < nextId)
    {
      id < |definitions|
    }

    /** `get_block_id`: the id last registered under `name`, if any. A name resolves
        exactly when some registered block has it, and it resolves to such a block. */
    function GetBlockId(name: string): (r: Option<u16>)
      reads this
      ensures Valid() ==> (r.Some? <==> exists id :: 0 <= id < |definitions| && definitions[id].name == name)
      ensures Valid() && r.Some? ==> BlockExists(r.value) && definitions[r.value].name == name
    {
      if name in idLookup then Some(idLookup[name]) else None
    }

    /** `get_block_name`; indexing past `definitions` panics in the source. The name
        resolves back to this id, or to a later one registered under the same name. */
    function GetBlockName(id: u16): (name: string)
      reads this
      requires BlockExists(id)
      ensures Valid() ==> GetBlockId(name).Some? && id <= GetBlockId(name).value
    {
      definitions[id].name
    }

    /** `get_block_attributes`; indexing past `definitions` panics in the source. */
    function GetBlockAttributes(id: u16): Attributes
      reads this
      requires BlockExists(id)
    {
      definitions[id].attribs
    }

    /** `get_block_attributes(id).contains(TRANSPARENT)`, the only question the mesher asks. */
    function IsTransparent(id: u16): bool
      reads this
      requires BlockExists(id)
    {
      Contains(GetBlockAttributes(id), TRANSPARENT)
    }
  }

  /** A name that `get_block_id` resolves names a registered block whose stored name is
      that name; every registered block's name resolves to it or to a later id. */
  lemma LookupConsistent(r: BlockRegistry, name: string, id: u16)
    requires r.Valid()
    ensures r.GetBlockId(name) == Some(id) ==> r.BlockExists(id) && r.GetBlockName(id) == name
    ensures r.BlockExists(id) ==> r.GetBlockId(r.GetBlockName(id)).Some? && id <= r.GetBlockId(r.GetBlockName(id)).value
  {
  }

  /** In the default registry, "core:air" resolves to `AIR_ID`, which is transparent. */
  lemma DefaultRegistersAir(r: BlockRegistry)
    requires r.Valid()
    requires r.definitions == [BlockDefinition("core:air", TRANSPARENT)]
    requires r.idLookup == map["core:air" := AIR_ID]
    ensures r.GetBlockId("core:air") == Some(AIR_ID)
    ensures r.BlockExists(AIR_ID) && r.IsTransparent(AIR_ID) && r.GetBlockName(AIR_ID) == "core:air"
    ensures !r.BlockExists(1)
  {
  }
}
