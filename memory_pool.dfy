/** The first-fit memory pool: a byte range split into a list of blocks, each free or
    owned. Renting walks the whole list, claims a free block that can hold the request
    (splitting off the alignment padding before it and the remainder after it), and
    counts the rented bytes and blocks; returning a slice only adjusts the counters.
    The `Mutex` is modelled by a `poisoned` flag (a panic while it is held poisons it),
    the atomics by plain fields, and a rented slice by its `(index, length)` handle:
    the raw pointer, the slice itself and the zeroing of its bytes are not modelled.
    Arithmetic on `usize` wraps, as in a release build. */
module MemoryPool {
  import opened Common
  import opened Arith
  import opened Words

  /** `usize` addition, `fetch_add` and multiplication as a release build performs them. */
  function WrappingAdd(a: usize, b: usize): (r: usize)
    ensures a + b < USIZE_MODULUS ==> r == a + b
  {
    if a + b < USIZE_MODULUS then a + b else a + b - USIZE_MODULUS
  }

  /** `usize` subtraction and `fetch_sub` as a release build performs them. */
  function WrappingSub(a: usize, b: usize): (r: usize)
    ensures b <= a ==> r == a - b
    ensures b > a ==> r > a
  {
    if b <= a then a - b else a - b + USIZE_MODULUS
  }

  function WrappingMul(a: usize, b: usize): usize
  {
    (a * b) % USIZE_MODULUS
  }

  /** A `MemoryBlock` of the pool's list. */
  datatype MemoryBlock = MemoryBlock(index: usize, size: usize, owned: bool)

  /** A rented `MemorySlice`, as the index of its block and the length of the slice. */
  datatype Rental = Rental(index: usize, len: usize)

  const POISONED: string := "Memory pool map mutex has been poisoned!"

  /** Lines 101-102: the bytes from `index` to the next multiple of the alignment. */
  function Padding(index: usize, alignment: usize): (p: usize)
    requires alignment > 0
    ensures p < alignment && (index + p) % alignment == 0
  {
    AlignUp(index, alignment);
    (alignment - (index % alignment)) % alignment
  }

  lemma AlignUp(index: nat, alignment: nat)
    requires alignment > 0
    ensures (index + (alignment - (index % alignment)) % alignment) % alignment == 0
  {
    var q, r := index / alignment, index % alignment;
    if r == 0 {
      DivModUnique(alignment, alignment, 1, 0);
      DivModUnique(index, alignment, q, 0);
    } else {
      DivModUnique(alignment - r, alignment, 0, alignment - r);
      assert index + (alignment - r) == (q + 1) * alignment + 0;
      DivModUnique(index + (alignment - r), alignment, q + 1, 0);
    }
  }

  /** Lines 106-112: the walk claims a free block when the padding leaves room for the
      request, either exactly (no padding, same size) or with bytes to spare. The
      wrapping `block.size - alignment_padding` is below the size exactly when the
      padding fits, so the overflow test of line 109 is the test that it fits. */
  predicate Claims(b: MemoryBlock, sizeInBytes: usize, alignment: usize): (c: bool)
    requires alignment > 0
    ensures c <==>
      && !b.owned
      && Padding(b.index, alignment) <= b.size
      && ((Padding(b.index, alignment) == 0 && b.size == sizeInBytes)
          || b.size - Padding(b.index, alignment) >= sizeInBytes)
  {
    var padding := Padding(b.index, alignment);
    var alignedSize := WrappingSub(b.size, padding);
    && !b.owned
    && alignedSize <= b.size
    && ((padding == 0 && b.size == sizeInBytes) || alignedSize >= sizeInBytes)
  }

  /** What claiming a block produces: the block as it is left in the list, and the
      blocks split off before and after it. */
  datatype Split = Split(block: MemoryBlock, before: Option<MemoryBlock>, after: Option<MemoryBlock>)

  /** Lines 110-137: claiming block b for a request of `sizeInBytes` bytes. The
      claimed block is owned, holds exactly the request and keeps its ORIGINAL index,
      not the aligned one; the padding block split off before it starts at that same
      index. The three blocks together hold the bytes of the original block. */
  function Claim(b: MemoryBlock, sizeInBytes: usize, alignment: usize): (s: Split)
    requires alignment > 0 && Claims(b, sizeInBytes, alignment)
    ensures s.block == MemoryBlock(b.index, sizeInBytes, true)
    ensures s.before.Some? ==> s.before.value == MemoryBlock(b.index, Padding(b.index, alignment), false) && Padding(b.index, alignment) > 0
    ensures SizeOf(s.before) + sizeInBytes + SizeOf(s.after) == b.size
  {
    var padding := Padding(b.index, alignment);
    if padding == 0 && b.size == sizeInBytes then
      Split(b.(owned := true), None, None)
    else
      var alignedIndex := WrappingAdd(b.index, padding);
      var before := if alignedIndex > b.index then Some(MemoryBlock(b.index, padding, false)) else None;
      var size := if alignedIndex > b.index then b.size - padding else b.size;
      Split(MemoryBlock(b.index, sizeInBytes, true), before,
            Some(MemoryBlock(WrappingAdd(b.index, sizeInBytes), size - sizeInBytes, false)))
  }

  function SizeOf(b: Option<MemoryBlock>): nat
  {
    if b.Some? then b.value.size else 0
  }

  /** Lines 99-140: what the walk does to one free block. It claims the block when it
      can hold the request, filling the padding and remainder cells the split needs; it
      panics exactly when one of those cells was already set by an earlier claim. */
  method VisitBlock(block: MemoryBlock, sizeInBytes: usize, alignment: usize,
                    beforeCell: Option<MemoryBlock>, afterCell: Option<MemoryBlock>)
    returns (block': MemoryBlock, beforeCell': Option<MemoryBlock>, afterCell': Option<MemoryBlock>, panicked: bool)
    requires alignment > 0
    ensures !Claims(block, sizeInBytes, alignment) ==>
      !panicked && block' == block && beforeCell' == beforeCell && afterCell' == afterCell
    ensures Claims(block, sizeInBytes, alignment) && beforeCell.None? && afterCell.None? ==>
      && !panicked
      && block' == Claim(block, sizeInBytes, alignment).block
      && beforeCell' == Claim(block, sizeInBytes, alignment).before
      && afterCell' == Claim(block, sizeInBytes, alignment).after
    ensures panicked <==>
      && Claims(block, sizeInBytes, alignment)
      && !(Padding(block.index, alignment) == 0 && block.size == sizeInBytes)
      && ((WrappingAdd(block.index, Padding(block.index, alignment)) > block.index && beforeCell.Some?) || afterCell.Some?)
    ensures Claims(block, sizeInBytes, alignment) && !panicked ==>
      var s := Claim(block, sizeInBytes, alignment);
      && block' == s.block && block'.owned
      && beforeCell' == (if s.before.Some? then s.before else beforeCell)
      && afterCell' == (if s.after.Some? then s.after else afterCell)
  {
    block', beforeCell', afterCell', panicked := block, beforeCell, afterCell, false;
    if block.owned {
      return;
    }
    var alignmentPadding := (alignment - (block.index % alignment)) % alignment;
    var alignedIndex := WrappingAdd(block.index, alignmentPadding);
    var alignedSize := WrappingSub(block.size, alignmentPadding);
    if alignedSize <= block.size {
      if alignmentPadding == 0 && block.size == sizeInBytes {
        block' := block'.(owned := true);
      } else if alignedSize >= sizeInBytes {
        if alignedIndex > block.index {
          if beforeCell.Some? {
            return block', beforeCell', afterCell', true;
          }
          beforeCell' := Some(MemoryBlock(block.index, alignmentPadding, false));
          block' := block'.(size := block'.size - alignmentPadding);
        }
        if afterCell.Some? {
          return block', beforeCell', afterCell', true;
        }
        afterCell' := Some(MemoryBlock(WrappingAdd(block'.index, sizeInBytes), block'.size - sizeInBytes, false));
        block' := block'.(size := sizeInBytes, owned := true);
      }
    }
  }

  /** The state of `rent_slice`'s walk: the list, the padding, remainder and slice
      cells, and the rented counters. */
  datatype WalkState = WalkState(
    blocks: seq<MemoryBlock>,
    beforeCell: Option<MemoryBlock>,
    afterCell: Option<MemoryBlock>,
    memorySlice: Option<Rental>,
    rentedBytes: usize,
    rentedBlocks: usize)

  /** The walk has visited the first `cursor` blocks of `blocks0` from `start` without
      panicking: nothing has changed while no visited block could hold the request,
      and once one could, that block is claimed and counted. */
  ghost predicate Walked(blocks0: seq<MemoryBlock>, cursor: nat, sizeInBytes: usize, alignment: usize,
                         start: WalkState, w: WalkState)
    requires alignment > 0 && cursor <= |blocks0|
  {
    var fits := FitCount(blocks0[..cursor], sizeInBytes, alignment);
    && |w.blocks| == |blocks0|
    && fits <= 1
    && (fits == 0 ==> w == start)
    && (fits == 1 ==>
          var k := FirstFit(blocks0[..cursor], sizeInBytes, alignment);
          var s := Claim(blocks0[k], sizeInBytes, alignment);
          && k < cursor
          && w == WalkState(blocks0[k := s.block], s.before, s.after, Some(Rental(blocks0[k].index, sizeInBytes)),
                            WrappingAdd(start.rentedBytes, sizeInBytes), WrappingAdd(start.rentedBlocks, 1)))
  }

  /** Lines 97-178, one turn of the walk: visiting block `cursor` either panics, because
      it is a second block that can hold the request, or extends the walk by one. */
  method WalkStep(ghost blocks0: seq<MemoryBlock>, cursor: nat, sizeInBytes: usize, alignment: usize,
                  ghost start: WalkState, w: WalkState)
    returns (w': WalkState, panicked: bool)
    requires alignment > 0 && cursor < |blocks0|
    requires start.blocks == blocks0 && start.beforeCell.None? && start.afterCell.None? && start.memorySlice.None?
    requires Walked(blocks0, cursor, sizeInBytes, alignment, start, w)
    ensures panicked ==> FitCount(blocks0[..cursor + 1], sizeInBytes, alignment) >= 2
    ensures !panicked ==> Walked(blocks0, cursor + 1, sizeInBytes, alignment, start, w')
  {
    FitCountStep(blocks0, cursor, sizeInBytes, alignment);
    w', panicked := w, false;
    var block := w.blocks[cursor];
    if !block.owned {
      var beforeCell, afterCell;
      block, beforeCell, afterCell, panicked := VisitBlock(block, sizeInBytes, alignment, w.beforeCell, w.afterCell);
      if panicked {
        return;
      }
      w' := w'.(blocks := w.blocks[cursor := block], beforeCell := beforeCell, afterCell := afterCell);
      if block.owned {
        w' := w'.(rentedBytes := WrappingAdd(w.rentedBytes, sizeInBytes), rentedBlocks := WrappingAdd(w.rentedBlocks, 1));
        if w.memorySlice.Some? {
          panicked := true;
          return;
        }
        w' := w'.(memorySlice := Some(Rental(block.index, sizeInBytes)));
      }
    }
  }

  /** The number of blocks of the list the walk would claim. */
  function FitCount(blocks: seq<MemoryBlock>, sizeInBytes: usize, alignment: usize): nat
    requires alignment > 0
  {
    if |blocks| == 0 then 0
    else FitCount(blocks[..|blocks| - 1], sizeInBytes, alignment)
         + (if Claims(blocks[|blocks| - 1], sizeInBytes, alignment) then 1 else 0)
  }

  /** The position of the first block the walk would claim, or the length when none. */
  function FirstFit(blocks: seq<MemoryBlock>, sizeInBytes: usize, alignment: usize): (k: nat)
    requires alignment > 0
    ensures k <= |blocks|
    ensures k < |blocks| ==> Claims(blocks[k], sizeInBytes, alignment) && FitCount(blocks[..k], sizeInBytes, alignment) == 0
    ensures k == |blocks| <==> FitCount(blocks, sizeInBytes, alignment) == 0
  {
    if |blocks| == 0 then 0
    else
      var init := blocks[..|blocks| - 1];
      if FitCount(init, sizeInBytes, alignment) > 0 then
        var k := FirstFit(init, sizeInBytes, alignment);
        assert init[..k] == blocks[..k];
        k
      else if Claims(blocks[|blocks| - 1], sizeInBytes, alignment) then
        assert blocks[..|blocks| - 1] == init;
        |blocks| - 1
      else
        |blocks|
  }

  /** The position of the first block whose index is `index`, if any. */
  function BlockAt(blocks: seq<MemoryBlock>, index: usize): (r: Option<nat>)
    ensures r.Some? ==>
      && r.value < |blocks| && blocks[r.value].index == index
      && forall j :: 0 <= j < r.value ==> blocks[j].index != index
    ensures r.None? ==> forall j :: 0 <= j < |blocks| ==> blocks[j].index != index
  {
    if |blocks| == 0 then None
    else if blocks[0].index == index then Some(0)
    else match BlockAt(blocks[1..], index)
      case None => None
      case Some(i) => Some(i + 1)
  }

  class MemoryPool {
    var blocks: seq<MemoryBlock>
    var totalBytes: usize
    var rentedBytes: usize
    var rentedBlocks: usize
    var poisoned: bool

    /** `MemoryPool::new(head, byte_len)`: one free block covering the whole range,
        nothing rented. */
    constructor (byteLen: usize)
      ensures blocks == [MemoryBlock(0, byteLen, false)]
      ensures totalBytes == byteLen && rentedBytes == 0 && rentedBlocks == 0 && !poisoned
    {
      blocks := [MemoryBlock(0, byteLen, false)];
      totalBytes := byteLen;
      rentedBytes := 0;
      rentedBlocks := 0;
      poisoned := false;
    }

    /** `remaining_bytes`: the bytes not rented out. */
    function RemainingBytes(): (r: usize)
      reads this
      ensures rentedBytes <= totalBytes ==> r + rentedBytes == totalBytes
    {
      WrappingSub(totalBytes, rentedBytes)
    }

    /** `rent_slice` for `size` elements of `elementSize` bytes each. A request larger
        than the remaining bytes, or one that no free block can hold, yields `None` and
        changes nothing. Otherwise the walk visits EVERY block: the one block that can
        hold the request is claimed, the rented counters grow by the request and by one,
        the padding block is appended at the back of the list and the remainder block
        pushed at the front (where a cursor past the end inserts them), and the slice
        starts at the block's original index. A second block that can hold the request
        makes a single-use cell panic, which poisons the mutex. */
    method RentSlice(size: usize, elementSize: usize, alignment: usize, zeroMemory: bool)
      returns (r: Outcome<Option<Rental>>)
      requires size > 0 && alignment > 0
      modifies this
      ensures old(poisoned) ==> r == Panic(POISONED) && unchanged(this)
      ensures !old(poisoned) ==>
        var sizeInBytes := WrappingMul(size, elementSize);
        var fits := FitCount(old(blocks), sizeInBytes, alignment);
        && totalBytes == old(totalBytes)
        && (sizeInBytes > old(RemainingBytes()) || fits == 0 ==>
              && r == Done(None) && blocks == old(blocks) && !poisoned
              && rentedBytes == old(rentedBytes) && rentedBlocks == old(rentedBlocks))
        && (sizeInBytes <= old(RemainingBytes()) && fits == 1 ==>
              var k := FirstFit(old(blocks), sizeInBytes, alignment);
              var s := Claim(old(blocks)[k], sizeInBytes, alignment);
              && r == Done(Some(Rental(old(blocks)[k].index, sizeInBytes)))
              && blocks == (if s.after.Some? then [s.after.value] else []) + old(blocks)[k := s.block]
                        + (if s.before.Some? then [s.before.value] else [])
              && rentedBytes == WrappingAdd(old(rentedBytes), sizeInBytes)
              && rentedBlocks == WrappingAdd(old(rentedBlocks), 1)
              && !poisoned)
        && (sizeInBytes <= old(RemainingBytes()) && fits >= 2 ==> r.Panic? && poisoned)
    {
      if poisoned {
        return Panic(POISONED);
      }
      var sizeInBytes := WrappingMul(size, elementSize);
      if sizeInBytes > RemainingBytes() {
        return Done(None);
      }
      ghost var blocks0 := blocks;
      var walk := WalkState(blocks, None, None, None, rentedBytes, rentedBlocks);
      ghost var start := walk;
      var cursor := 0;
      while cursor < |walk.blocks|
        invariant 0 <= cursor <= |blocks0|
        invariant Walked(blocks0, cursor, sizeInBytes, alignment, start, walk)
        invariant unchanged(this)
      {
        FitCountPrefix(blocks0, cursor + 1, sizeInBytes, alignment);
        var panicked;
        walk, panicked := WalkStep(blocks0, cursor, sizeInBytes, alignment, start, walk);
        if panicked {
          blocks, rentedBytes, rentedBlocks := walk.blocks, walk.rentedBytes, walk.rentedBlocks;
          poisoned := true;
          return Panic("");
        }
        cursor := cursor + 1;
      }
      assert blocks0[..cursor] == blocks0;
      blocks, rentedBytes, rentedBlocks := walk.blocks, walk.rentedBytes, walk.rentedBlocks;
      if walk.memorySlice.Some? {
        if walk.beforeCell.Some? {
          blocks := blocks + [walk.beforeCell.value];
        }
        if walk.afterCell.Some? {
          blocks := [walk.afterCell.value] + blocks;
        }
      }
      r := Done(walk.memorySlice);
    }

    /** `return_slice`: finds the first block whose index is the slice's and takes one
        block and that block's size off the rented counters. It returns from inside the
        walk, so the block stays owned and nothing is merged; a slice whose index no
        block has changes nothing. */
    method ReturnSlice(slice: Rental) returns (r: Outcome<()>)
      modifies this
      ensures old(poisoned) ==> r == Panic(POISONED) && unchanged(this)
      ensures !old(poisoned) ==>
        && r == Done(()) && blocks == old(blocks) && totalBytes == old(totalBytes) && !poisoned
        && match BlockAt(old(blocks), slice.index)
           case Some(k) =>
             && rentedBlocks == WrappingSub(old(rentedBlocks), 1)
             && rentedBytes == WrappingSub(old(rentedBytes), old(blocks)[k].size)
           case None =>
             rentedBlocks == old(rentedBlocks) && rentedBytes == old(rentedBytes)
    {
      if poisoned {
        return Panic(POISONED);
      }
      var cursor := 0;
      while cursor < |blocks|
        invariant 0 <= cursor <= |blocks|
        invariant forall j :: 0 <= j < cursor ==> blocks[j].index != slice.index
        invariant unchanged(this)
      {
        var block := blocks[cursor];
        if block.index == slice.index {
          rentedBlocks := WrappingSub(rentedBlocks, 1);
          rentedBytes := WrappingSub(rentedBytes, block.size);
          // Lines 213-219 only fill cells that are dropped on this return.
          return Done(());
        }
        cursor := cursor + 1;
      }
      // Lines 227-242 act on those cells, which are empty when no block matched.
      r := Done(());
    }
  }

  lemma FitCountStep(blocks: seq<MemoryBlock>, i: nat, sizeInBytes: usize, alignment: usize)
    requires alignment > 0 && i < |blocks|
    ensures FitCount(blocks[..i + 1], sizeInBytes, alignment)
         == FitCount(blocks[..i], sizeInBytes, alignment) + (if Claims(blocks[i], sizeInBytes, alignment) then 1 else 0)
    ensures FitCount(blocks[..i], sizeInBytes, alignment) == 0 && Claims(blocks[i], sizeInBytes, alignment) ==>
      FirstFit(blocks[..i + 1], sizeInBytes, alignment) == i
    ensures FitCount(blocks[..i], sizeInBytes, alignment) > 0 ==>
      FirstFit(blocks[..i + 1], sizeInBytes, alignment) == FirstFit(blocks[..i], sizeInBytes, alignment)
  {
    assert blocks[..i + 1][..i] == blocks[..i];
  }

  /** A prefix of the list has no more blocks to claim than the whole list. */
  lemma {:induction false} FitCountPrefix(blocks: seq<MemoryBlock>, i: nat, sizeInBytes: usize, alignment: usize)
    requires alignment > 0 && i <= |blocks|
    ensures FitCount(blocks[..i], sizeInBytes, alignment) <= FitCount(blocks, sizeInBytes, alignment)
    decreases |blocks|
  {
    if i < |blocks| {
      FitCountPrefix(blocks[..|blocks| - 1], i, sizeInBytes, alignment);
      assert blocks[..|blocks| - 1][..i] == blocks[..i];
    } else {
      assert blocks[..i] == blocks;
    }
  }
}
