# automata-rs voxel core in Dafny

This project models the core of automata-rs, a voxel engine written in Rust. It
covers the data structures the engine keeps per chunk and the algorithm that turns a
chunk into a packed mesh:

- `Collections.Palette` (palette.dfy) is the palette-compressed block array. A chunk's
  32 768 cells are stored as small codes packed into 64-bit words. Each code indexes a
  lookup table of distinct blocks, and the code width doubles whenever the table
  outgrows it. The model keeps the packed words as a `seq<Word>` field, where a `Word` is a
  sequence of 64 booleans with its numeric reading. Every method
  is proved against `Codes()`, the sequence of codes the words hold, and `Get(i)`,
  the block at cell `i`.
- `Chunk` (chunk.dfy) holds the chunk constants, positions inside a chunk, the cell
  index `x + 32 * z + 1024 * y` and the packed local position `x | y << 5 | z << 10`.
  The lemmas prove that both encodings are bijections onto the chunk and agree with
  the bit masks and shifts the mesher uses.
- `Blocks` and `BlockRegistry` (block.dfy, block_registry.dfy) hold the block value,
  its id-only equality and ordering, and the registry of block names and attributes.
- `Mesher` (mesher.dfy) is `generate_packed_mesh`, written as nested methods that
  mirror its loops: cells, normals, perpendicular axes, the greedy traversal and the
  quad emission. A face of a cell is *culled* (`Mesher.Culled`) when the cell it faces
  occludes it. That cell is in the neighbouring chunk when the face lies on the
  chunk's boundary, and inside the chunk otherwise. Each greedy traversal covers a
  run of cells that hold the block of the starting cell, whose face was not yet
  flagged and is not culled, and it stops at the first cell that breaks one of these
  conditions or at the chunk's edge. For every quad the mesher emits, every cell the
  quad spans holds the block of its first cell and none of their faces along the
  normal is culled (`Mesher.Visible`). No two quads come from the same face of the
  same cell.
- `MemoryPool` (memory_pool.dfy) is the first-fit byte pool: renting with alignment
  padding, splitting the free block, returning a rental, and the poisoned-mutex error
  path.
- `Input`, `Ring`, `Time` (input.dfy, ring.dfy, time.dfy) are the keyboard tracker,
  the ring index and the stopwatch.
- `Common`, `Words`, `Arith` hold shared definitions: `Option`, an `Outcome` that is
  either a value or a panic with its message, and the machine integer types. They
  also give 64-bit words as bit vectors with their numeric reading, and a few
  arithmetic lemmas.

A Rust panic with a message (`assert!`, `panic!`, `expect`) is modelled as
`Outcome.Panic(message)`. An out-of-range slice index is modelled as a precondition.
Where the program relies on release-mode arithmetic (the pool's counters), the
wrapping is written out.

Some behaviour is modelled as written, because it is what the code does:

- A palette's lookup table is appended to, not kept sorted, yet `set` finds entries
  with `binary_search`. On a table that is out of order the search can miss an entry
  that is present. The `assert!` in `allocate_lookup_entry` then panics.
  `Collections.BinarySearchMissesOnUnsorted` and `Collections.OutOfOrderSetPanics`
  exhibit this.
- Inside the chunk, an opaque cell's face is culled when the faced cell is
  *transparent*. Across a chunk boundary it is culled when the faced cell is
  *opaque*. `Mesher.Occludes` takes the side as an argument and states both.
- `Stopwatch::restart` does not add the stored duration to what elapses afterwards.
- `RingIndex::next_index` divides by `max`, so a ring of size 0 panics.

## Model

| member | source | states |
|---|---|---|
| Chunk.ChunkConstants | src/world/chunk/mod.rs:9-13 | The chunk is 32 cells wide, 1 024 per layer, 32 768 in all; the shift is 5 and the mask 31, and 2 to the shift is the size |
| Chunk.BitConstants | src/world/chunk/mod.rs:12-13 | The 32-bit shift, mask and size constants used on local positions equal the integer chunk constants |
| Chunk.MaskAndShift | src/world/chunk/mesher.rs:117-118 | Masking with 31 and shifting by 5 are remainder and quotient by 32 for non-negative 32-bit values |
| Chunk.IndexBijection | src/world/chunk/mesher.rs:82-88 | The running cell index of the y/z/x loops lies in the chunk and decodes back to x, z and y by remainder and quotient |
| Chunk.PosOfIndex | src/world/chunk/mesher.rs:82-88 | Decoding the index of any in-chunk position gives that position back |
| Chunk.IndexOfPos | src/world/chunk/mesher.rs:82-88 | Every index below 32 768 decodes to an in-chunk position whose index is that index again |
| Chunk.CellOf | src/world/chunk/mesher.rs:82-88 | The loop counters x, y, z name an in-chunk position whose index is `x + 32 * z + 1024 * y` |
| Chunk.IndexStep | src/world/chunk/mesher.rs:54-61 | Moving one cell along an axis moves the index by that axis's step: 1 for x, 1 024 for y, 32 for z |
| Chunk.LocalPositionFields | src/world/chunk/mesher.rs:96-97 | The packed local position holds x, y and z in separate 5-bit fields and stays below 2^15 |
| Chunk.AxisShift | src/world/chunk/mesher.rs:113-114 | The shift of an axis is 5 times its component index |
| Blocks.New | src/world/block/mod.rs:15-33 | The accessors of a new block give back the id, colour and light level it was built with |
| Blocks.AirIsBackground | src/world/block/mod.rs:13 | Air is id 0 with colour 0 and light level 0 |
| Blocks.EqIgnoresAttributes | src/world/block/mod.rs:36-41 | Two blocks with the same id are equal whatever their colour and light level |
| Blocks.CmpAgreesWithEq | src/world/block/mod.rs:43-47 | `cmp` returns Equal exactly when `eq` holds |
| Blocks.PartialCmpAgreesWithCmp | src/world/block/mod.rs:48-52 | `partial_cmp` always returns `Some` of `cmp` |
| Blocks.CmpIsTotalOrder | src/world/block/mod.rs:36-52 | `cmp` is antisymmetric and transitive, and `eq` is transitive |
| BlockRegistry.BlockRegistry.Default | src/world/block/block_registry.rs:93-105 | A new registry knows only "core:air", transparent, under id 0, and hands out 1 next |
| BlockRegistry.BlockRegistry.NextId | src/world/block/block_registry.rs:43-51 | Returns the next id and advances it while it is below `u16::MAX`; at the maximum returns None and stays |
| BlockRegistry.BlockRegistry.RegisterBlock | src/world/block/block_registry.rs:53-90 | Succeeds exactly when an id is left; then appends the definition "group:name", maps the name to the new id and keeps the registry consistent, so that the new id exists, `get_block_id` of the name finds it, and `get_block_name`, `get_block_attributes` and the transparency test read back the name and attributes just registered; earlier ids keep their name and attributes; on the panic nothing changes |
| BlockRegistry.BlockRegistry.BlockExists | src/world/block/block_registry.rs:74-76 | In a consistent registry an id exists exactly when the id counter has already handed it out |
| BlockRegistry.BlockRegistry.GetBlockId | src/world/block/block_registry.rs:78-80 | A name is found exactly when some registered block has that name, and the id found exists and carries that name |
| BlockRegistry.BlockRegistry.GetBlockName | src/world/block/block_registry.rs:82-86 | The name of an existing id is found again by `get_block_id`, at that id or at a later one registered under the same name |
| BlockRegistry.LookupConsistent | src/world/block/block_registry.rs:74-90 | An id found by name exists and carries that name; the name of an existing id looks up to that id or a later one (a re-registered name) |
| BlockRegistry.DefaultRegistersAir | src/world/block/block_registry.rs:41 | In the default registry air is found by name, exists, is transparent and is named "core:air"; id 1 does not exist |
| Collections.ComputeSlices | src/collections/palette.rs:16-18 | The word count is the least number of 64-bit words that holds `index_bits * len` bits |
| Collections.ComputeMask | src/collections/palette.rs:96-104 | The loop sets exactly the low `index_bits` bits, that is 2^bits - 1 |
| Collections.Geometry | src/collections/palette.rs:21-22 | For a width dividing 64 and a length that is a multiple of 64, the word index `index * bits / 64` is `index / per_slice`, the slot offset is `(index % per_slice) * bits`, the field fits in its word, and the word lies within the vector |
| Collections.CodeIsField | src/collections/palette.rs:33-38 | `get_lookup_index` reads the field of `index` in its word |
| Collections.SetValueAt | src/collections/palette.rs:20-31 | Overwriting the field of `index` changes that index's code and no other |
| Collections.BinarySearch | src/collections/palette.rs:115-118 | `Ok(i)` names an entry equal to the value; `Err(i)` is an insertion point within the table |
| Collections.BinarySearchSorted | src/collections/palette.rs:115-118 | On a sorted table the search fails exactly when the value is absent, and the failure index is where it belongs |
| Collections.BinarySearchMissesOnUnsorted | src/collections/palette.rs:47 | The lookup table grows by appending, so after air, 2, 1 the search for 1 reports it missing although it is there |
| Collections.Palette.constructor | src/collections/palette.rs:1-8 | A new palette is valid, has the default block as its only entry and width 1, and every cell reads the default |
| Collections.Palette.GetLookupIndex | src/collections/palette.rs:33-38 | The code read for an index always fits the current code width: it is below 2^index_bits |
| Collections.Palette.Len | src/collections/palette.rs:106-108 | The length is a multiple of 64, and the word vector has a slot for every one of the `len` codes |
| Collections.Palette.Get | src/collections/palette.rs:110-112 | The block read at an index is one of the palette's lookup entries |
| Collections.Palette.LookupLen | src/world/chunk/mesher.rs:68-70 | The lookup table fits the code width, and a palette with cells has at least one entry |
| Collections.Palette.GetLookupValue | src/world/chunk/mesher.rs:68-70 | Entry i is the block read at every cell whose code is i |
| Collections.Palette.SetValue | src/collections/palette.rs:20-31 | The code of `index` becomes `lookup_index`; every other code is kept |
| Collections.Palette.AllocateLookupEntry | src/collections/palette.rs:40-94 | Panics "lookup entry already present" on a duplicate and panics when the width is already 64; otherwise appends the entry, returns its index, doubles the width when the table outgrows the mask, and keeps every cell's code |
| Collections.Palette.Grow | src/collections/palette.rs:56-91 | The width doubles, the mask is the new width's low bits, and every cell keeps its code |
| Collections.Palette.Reencode | src/collections/palette.rs:59-84 | The new words hold every cell's old code at the doubled width |
| Collections.Palette.EncodeSlice | src/collections/palette.rs:68-78 | The new word holds, in slot k, the code of cell `first + k` |
| Collections.Palette.FindOrAllocate | src/collections/palette.rs:115-118 | Returns an index whose entry equals the value and keeps every code, or panics exactly when the search misses an entry that is present or the width is exhausted |
| Collections.Palette.Set | src/collections/palette.rs:114-121 | After a successful set, cell `index` reads a block equal to the value and every other cell reads what it read before; it panics exactly when the allocation panics |
| Collections.Palette.CopyToSlice | src/world/chunk/mesher.rs:80 | Cell i of the output array is `get(i)` for every cell |
| Collections.OutOfOrderSetPanics | src/collections/palette.rs:114-121 | Setting blocks 2, 1 and then 1 again into a fresh palette of air panics with "lookup entry already present" |
| Mesher.IndexStepByNormal | src/world/chunk/mesher.rs:54-61 | The index step of a normal is the axis step, with a minus sign for the three negative normals |
| Mesher.FaceDirection | src/world/chunk/mesher.rs:103-104 | A face direction is a single non-zero flag within the six direction bits |
| Mesher.FaceDirectionInjective | src/world/chunk/mesher.rs:103-104 | Different normals have disjoint direction flags |
| Mesher.Perpendicular | src/world/chunk/mesher.rs:124-126 | The traversal axis is an axis other than the normal's |
| Mesher.PerpendicularAxes | src/world/chunk/mesher.rs:124-126 | The two traversal axes are `(c + 1) % 3` and `(c + 2) % 3`, and they differ |
| Mesher.TruncFacts | src/world/chunk/mesher.rs:302-308 | Rust's truncating `/` and `%` agree with Euclidean ones on non-negative operands, and the remainder of a negative operand lies in `(-b, 0]` |
| Mesher.WrapRange | src/world/chunk/mesher.rs:302-308 | `wrap` lands in `[min, max]` and differs from `value + delta` by a multiple of the range |
| Mesher.WrapAcrossChunk | src/world/chunk/mesher.rs:152-159 | Wrapping 32 gives 0 and wrapping -1 gives 31 |
| Mesher.WrappedAcross | src/world/chunk/mesher.rs:120-122 | On a boundary face, stepping out of the chunk wraps to the opposite edge: 31 for a negative normal, 0 for a positive one |
| Mesher.WrapAtBoundary | src/world/chunk/mesher.rs:152-159 | The wrapped coordinate is the mask for a negative normal and 0 for a positive one |
| Mesher.NeighborLocalPosition | src/world/chunk/mesher.rs:143-159 | The computed neighbour position is the local position of the traversed cell moved across the boundary to the opposite edge |
| Mesher.BlocksIndexOfLocalPosition | src/world/chunk/mesher.rs:165-173 | Unpacking a local position into x, y, z and combining them gives the cell index |
| Mesher.FacedIndex | src/world/chunk/mesher.rs:194-196 | Away from the boundary, adding the normal's step to the index gives the index of the faced cell, which is inside the chunk |
| Mesher.Opposite | src/world/chunk/mesher.rs:211 | `(n + 3) % 6` is the normal on the same axis with the other sign |
| Mesher.NeighborBlock | src/world/chunk/mesher.rs:175-178 | With no neighbouring chunk there is no faced block; otherwise it is that chunk's cell at the neighbour index |
| Mesher.CulledFacingNeighbor | src/world/chunk/mesher.rs:142-190 | On a boundary face, culled exactly when a neighbouring chunk exists and its cell across the boundary occludes the face (same id for a transparent block, an opaque cell for an opaque one) |
| Mesher.CulledFacingInside | src/world/chunk/mesher.rs:191-216 | Away from the boundary, culled exactly when the faced cell occludes (same id for a transparent block, a transparent cell for an opaque one) |
| Mesher.OccludesSides | src/world/chunk/mesher.rs:184-205 | For a transparent block both sides test the same thing; for an opaque block the boundary test and the inside test are negations of each other |
| Mesher.CheckFace | src/world/chunk/mesher.rs:142-217 | Decides whether the traversed cell's face is culled; when an opaque block's positive face is culled inside the chunk it flags the faced cell's opposite face; otherwise the flags are unchanged |
| Mesher.CheckAcross | src/world/chunk/mesher.rs:142-190 | Decides culling across the chunk boundary |
| Mesher.CheckInside | src/world/chunk/mesher.rs:191-217 | Decides culling inside the chunk and flags the opposite face exactly on the culled, opaque, positive case |
| Mesher.TraversalStart | src/world/chunk/mesher.rs:127-136 | The traversal starts at the traversed axis's shift and step, with index and length advanced by the traversals already made |
| Mesher.TraverseStep | src/world/chunk/mesher.rs:142-222 | Reports whether the current cell's face is culled, as the culling table says; only this normal's and its opposite's flags are added, and no cell's flag for this normal changes except, when it is not culled, the current cell's, which is set; then index, length and count advance by one along the axis |
| Mesher.Traverse | src/world/chunk/mesher.rs:138-223 | The cells stepped over form a run along the axis: each holds the face's block, was not flagged and is not culled; the walk stops at the chunk's edge or at a cell that is flagged, holds another block or is culled; exactly the run's faces get flagged, no other cell's face flag for this normal changes, and only this normal's and its opposite's flags are ever added; a fresh traversal from an unflagged face makes no step exactly when that face is culled |
| Mesher.CullTableMap | src/world/chunk/mesher.rs:138-223 | The table of culled faces per cell, for one block id and normal, agrees with the culling rule at every cell |
| Mesher.PushQuad | src/world/chunk/mesher.rs:251-291 | Appends one quad: four indexes counting on from the vertices already emitted, and the four packed vertices of the face |
| Mesher.MeshFace | src/world/chunk/mesher.rs:124-294 | A culled face emits nothing; otherwise exactly one quad is pushed, with the indexes and corners for the first run longer than one cell, or else for the run along the second axis, recorded with that axis and length; the run is the quad's cells and the only cells whose face gets flagged, and it stops where the traversal stopped |
| Mesher.FirstAxis | src/world/chunk/mesher.rs:124-233 | A first traversal of one cell is kept aside: its single cell is flagged and the next axis is tried; a longer first run is the quad |
| Mesher.SecondAxis | src/world/chunk/mesher.rs:124-233 | After a one-cell first run, the run along the second axis starts from the face's own cell, and both runs' flags together are the only ones set |
| Mesher.QuadIndexes | src/world/chunk/mesher.rs:251-260 | The six indexes name only the quad's four corners, name every one of them, and form two triangles sharing the diagonal from corner 1 to corner 3 |
| Mesher.CornerStretches | src/world/chunk/mesher.rs:262-291 | The run length changes a corner only within the traversal axis's field; every other bit is the same whatever the length, and `uvz` is 0 |
| Mesher.RunVisible | src/world/chunk/mesher.rs:138-223 | The cells of a run from a non-air cell hold that cell's block and none of their faces along the normal is culled |
| Mesher.AppendOrdered | src/world/chunk/mesher.rs:83-99 | A quad for a later face, in cell-then-normal order, keeps the emitted quads in that order |
| Mesher.OrderedDistinct | src/world/chunk/mesher.rs:83-99 | Quads in cell-then-normal order come from distinct faces: no two share both cell and normal |
| Mesher.FaceAt | src/world/chunk/mesher.rs:100-122 | The per-normal setup describes the cell's face for that normal |
| Mesher.MeshNormal | src/world/chunk/mesher.rs:99-294 | A face already flagged emits nothing and changes nothing; an unflagged face appends exactly one quad and one origin at this cell and normal when it is not culled, and nothing otherwise; only this normal's and its opposite's flags are added; every emitted quad stays visible and the quads stay in cell-then-normal order |
| Mesher.MeshBlock | src/world/chunk/mesher.rs:88-296 | Air emits nothing and changes nothing; any other cell appends at most six quads, all at this cell and in increasing normal order after every earlier quad; every emitted quad stays visible |
| Mesher.MeshRow | src/world/chunk/mesher.rs:85-297 | The row of 32 cells at y, z is meshed in order of x: the index advances by 32, the quads stay visible and ordered, and air yields no quad |
| Mesher.GeneratePackedMesh | src/world/chunk/mesher.rs:63-300 | The cells copied from the palette are the palette's cells; quad k of the vertex buffer is the quad of origin k; every emitted quad spans cells of one non-air block whose faces along its normal are not culled; no two quads come from the same face of the same cell; at most six quads per cell; an all-air chunk emits nothing |
| MemoryPool.Padding | src/memory/memory_pool.rs:101-102 | The padding is below the alignment and moves the block start to a multiple of it |
| MemoryPool.Claims | src/memory/memory_pool.rs:103-108 | A free block is claimed exactly when the padding fits in it and either it fits exactly without padding or the aligned remainder holds the request |
| MemoryPool.Claim | src/memory/memory_pool.rs:106-138 | A claimed block becomes an owned block of the requested size; the padding before it and the remainder after it are free blocks, and the three sizes add up to the old size |
| MemoryPool.VisitBlock | src/memory/memory_pool.rs:99-140 | A block that does not fit is left alone; a fitting block is claimed and split, filling the padding and remainder cells the split needs; it panics exactly when such a cell was already set, while a second fit that needs no new cell is caught by `WalkStep` |
| MemoryPool.WalkStep | src/memory/memory_pool.rs:97-181 | One step of the walk panics exactly when two blocks fit so far, through a cell check or through the `memory_slice.set` of lines 170-179; otherwise it extends the walk: no fit leaves the state alone, and one fit has claimed that block, recorded the rental and counted the bytes and the block |
| MemoryPool.FirstFit | src/memory/memory_pool.rs:97-178 | The first block that fits, with no fit before it; the length exactly when none fits |
| MemoryPool.BlockAt | src/memory/memory_pool.rs:209-221 | The first block that starts at the given address, or None when no block does |
| MemoryPool.FitCountPrefix | src/memory/memory_pool.rs:97-178 | A prefix of the block list has no more fitting blocks than the whole list |
| MemoryPool.MemoryPool.constructor | src/memory/memory_pool.rs:52-67 | A new pool is one free block of the whole length, with nothing rented and the lock healthy |
| MemoryPool.MemoryPool.RemainingBytes | src/memory/memory_pool.rs:69-71 | The remaining and rented bytes add up to the total |
| MemoryPool.MemoryPool.RentSlice | src/memory/memory_pool.rs:73-197 | A poisoned lock panics and changes nothing; a request larger than what remains, or one no block fits, returns None; one fit returns a rental at that block, claims it, puts the padding block at the back and the remainder at the front, and counts the bytes and the block; two fits panic and poison the lock |
| MemoryPool.MemoryPool.ReturnSlice | src/memory/memory_pool.rs:199-243 | A poisoned lock panics; otherwise the blocks are kept and, when a block starts at the rental's address, one block and that block's size are uncounted |
| Input.InputEventQueue.Default | src/input.rs:23-29 | A new queue is empty |
| Input.InputEventQueue.PushEvent | src/input.rs:14-16 | The event joins the back of the queue |
| Input.InputEventQueue.PopEvent | src/input.rs:18-20 | An empty queue yields None; otherwise the front event is removed and returned |
| Input.FindKey | src/input.rs:37-42 | The first entry for the key, or None when no entry has it |
| Input.InputTracker.Default | src/input.rs:74-78 | A new tracker has no keys |
| Input.InputTracker.ConsumeInputEvent | src/input.rs:46-54 | An event without a key code changes nothing; a known key takes the new state in place; a new key is appended; keys stay distinct |
| Input.InputTracker.Maintain | src/input.rs:60-66 | Exactly the released keys are removed, in order, and keys stay distinct |
| Input.UnreleasedKeeps | src/input.rs:60-66 | An entry survives `maintain` exactly when it was present and not released, and the list does not grow |
| Input.UnreleasedDistinct | src/input.rs:60-66 | Removing released keys keeps the keys distinct |
| Input.InputTracker.Iter | src/input.rs:69-71 | The iteration yields the tracked entries in order |
| Ring.Step | src/ring.rs:19-21 | `(current + 1) % max` is the next value, returning to 0 after `max - 1` |
| Ring.AdvanceIsModular | src/ring.rs:15-21 | k increments from `c` land on `(c + k) % max` |
| Ring.FullTurn | src/ring.rs:15-21 | `max` increments return to the starting index |
| Ring.RingIndex.constructor | src/ring.rs:7-9 | A new ring index starts at 0 with the given size |
| Ring.RingIndex.Index | src/ring.rs:11-13 | The current index is below the size |
| Ring.RingIndex.NextIndex | src/ring.rs:19-21 | The next index is below the size and wraps to 0 after the last slot |
| Ring.RingIndex.Increment | src/ring.rs:15-17 | The current index advances by one step around the ring |
| Time.Since | src/time.rs:45-50 | The elapsed time added to the start gives the reading; a reading before the start gives zero |
| Time.MillisOfDuration | src/time.rs:52-55 | Whole seconds times 1 000 plus the milliseconds of the sub-second nanoseconds are the whole milliseconds of the duration |
| Time.Stopwatch.constructor | src/time.rs:12-17 | A new stopwatch is stopped with nothing elapsed |
| Time.Stopwatch.StartNew | src/time.rs:19-24 | A new stopwatch runs from the reading, and reads the time since then |
| Time.Stopwatch.Start | src/time.rs:26-28 | The stopwatch runs from the reading |
| Time.Stopwatch.Stop | src/time.rs:30-33 | The stopwatch stores what had elapsed and reads that value ever after |
| Time.Stopwatch.Restart | src/time.rs:35-38 | The stopwatch stores what had elapsed and runs again from the reading, reading only the time since then |
| Time.Stopwatch.Reset | src/time.rs:40-43 | The stopwatch is stopped and reads zero ever after |
| Time.Stopwatch.Elapsed | src/time.rs:45-50 | While running, the time since the start; while stopped, the stored duration |
| Time.Stopwatch.ElapsedMs | src/time.rs:52-55 | The whole milliseconds of the elapsed time |

## Left out

- Memory pool arithmetic: `usize` arithmetic is modelled with release-mode wrap-around. A debug build would panic on overflow instead.
- Mesher.Wrap: does not model the `i32` overflow of `value + delta` in `wrap`. Its arguments in the mesher are below 33.
- Collections.Palette.constructor: `Palette::new`, `copy_to_slice`, `lookup_len` and `get_lookup_value` are called by the mesher but are not in `src/collections/palette.rs`. They are modelled from their use. The constructor requires the length to be a multiple of 64, which every chunk meets.
- Collections.BinarySearch: a plain halving search. It returns the same `Ok`/`Err` kinds as the standard library's `binary_search` but may pick a different index among equal entries, and its results on an unsorted table may differ from the library's.
- Collections.Palette.SetValue: the `debug_assert_eq!` that re-reads the code is proved to hold, so it is not modelled as a panic.
- `DIRECTION`, `PackedVertex`, `QuadIndexes` and `QuadVertexes` are defined outside the modelled files. The model uses a byte of six direction flags and its own packed-vertex record.
- Mesher.PushQuad: the vertex corners are computed as in the source. The only geometric property proved of them is `Mesher.CornerStretches`: the run length moves a corner only within the traversal axis's field. The unused `uv_shift` is left out.
- Mesher.GeneratePackedMesh: the empty-chunk check on an all-air lookup table has no effect in the source, and none in the model. The mesh is returned instead of being dropped.
- Mesher.GeneratePackedMesh: completeness is not proved. Every emitted quad is visible, but not every visible face is shown to be covered by some quad.
- Mesher: the chunk's `blocks` and `faces` arrays are `seq` values threaded through the methods, not arrays updated in place.
- Mesher: a missing registry entry and an out-of-range cell index are preconditions. In the source they are panics.
- BlockRegistry: the unregistered-id panics of `get_block_name` and `get_block_attributes` are preconditions. Debug logging is left out.
- Time: `Instant::now()` is a parameter, and instants and durations are whole nanoseconds.
- Time.Stopwatch.ElapsedMs: the `u64` overflow of `as_secs() * 1000` is not modelled.
- Ring.RingIndex.NextIndex: requires a non-zero size, where the source panics on division by zero.
- Ring.RingIndex.Increment: requires a non-zero size, for the same reason.
- Input: `winit::KeyboardInput` is reduced to its virtual key code and key state.
- Input: `InputVector` and `InputSystem` (floating-point movement through the ECS) are left out.
- MemoryPool: the mutex is modelled as a poisoned flag. The raw pointer, the returned slice and `write_bytes` zeroing are left out. `Drop` is left out.
- MemoryPool.MemoryPool.RentSlice: requires a positive size and alignment, which `NonZeroUsize` guarantees. The `else` branch for zero alignment (lines 140-157) cannot run and is not modelled.
- MemoryPool.MemoryPool.RentSlice: when two blocks fit, it states only the panic and the poisoned flag, not the block list left behind.
- MemoryPool.MemoryPool.RentSlice: the rented byte and block counters are written back after the walk rather than inside it. No other thread observes them between the two.
- MemoryPool.Rental: the length of a rental is the byte count, the length the source passes to `from_raw_parts_mut`. Typed element counts are not modelled.
- MemoryPool.MemoryPool.ReturnSlice: the block-merging code after the match has no effect in the source and is not modelled.
- Not part of this model: `src/main.rs`, `src/opengl`, `src/render`, `src/concurrency`, `src/logger.rs` and `src/pos.rs`.
