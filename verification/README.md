# gelu-ascendc, modelled in Dafny

gelu-ascendc applies GELU element by element to a vector of floats on an Ascend NPU.
The host driver `GeluAscend` pads the vector to a whole number of 256-byte tiles per core and
launches the kernel `gelu_custom` on `block_dim` cores. Each core does three things:

- `KernelGelu::Init` takes a contiguous block of the vector. The first `vector_size % block_n`
  blocks get one extra element.
- `Init` cuts that block into `tile_num * BUFFER_NUM` tiles by the same rule. It sizes two
  double-buffered on-chip queues for the largest tile, rounded up to 32 elements.
- `Process` moves every tile through `CopyIn -> Compute -> CopyOut`. Each step goes through the
  input queue and the output queue.

The model has five modules:

- `Arith` holds the 32-bit bound and the round-up-to-a-multiple idiom that both sides use.
- `Partition` holds the remainder-distributing split, which is used for blocks and for tiles.
  It proves:
  - part sizes are balanced;
  - offsets are prefix sums;
  - the parts cover `[0, total)` without gap or overlap;
  - the element-to-part inverse `PartOf` is unique;
  - empty parts are exactly the trailing ones.
- `SlotQueue` holds the tensor queue as a class. It has `depth` slots of `capacity` elements
  and the slot lifecycle alloc -> enqueue -> dequeue -> free, kept in first-in first-out order.
- `Kernel` models `KernelGelu` as a class. `Init` and `UpdateProgress` assign its fields. The
  three stage methods change the queues and global output. `Process` is a loop whose invariants
  prove four things:
  - every index of the block is copied in and written back exactly once, in tile order;
  - the block of output ends up holding GELU of the block of input, and nothing else is written;
  - each queue is empty at every loop head and never holds more than one slot;
  - no tile exceeds its slot.

  `Locate` and `LocateUnique` lift coverage to all cores together: every element is handled by
  exactly one (core, tile, position).
- `Host` holds the padding arithmetic of `GeluAscend`. Its lemmas show four things:
  - the padded size is the least suitable multiple;
  - the device buffers hold every byte that is copied;
  - on the padded size, the block partition is even;
  - with a matching `tile_num`, every tile is exactly one 256-byte slot.

Floats are not modelled. Elements have an arbitrary type `T`, and GELU is an uninterpreted
per-element function `gelu: T -> T`. So the model states only that output element `k` is GELU
of input element `k`. Global memory is the input sequence and the output array, both indexed
from the start of the whole vector.

## Model

| member | source | states |
|---|---|---|
| Arith.RoundUp | gelu_custom.cpp:75 | `((n + m - 1) / m) * m` is a multiple of `m`, at least `n` and below `n + m`, and equals `n` when `n` is already a multiple |
| Arith.RoundUpIsLeast | main.cpp:55 | no multiple of `m` that is at least `n` is smaller than the rounded value, so it is the least such multiple |
| Partition.SizesBalanced | gelu_custom.cpp:60-62 | each part has `total / n` or `total / n + 1` elements; an earlier part is never smaller than a later one and at most one larger |
| Partition.OffsetStep | gelu_custom.cpp:63 | part 0 starts at 0 and part `i + 1` starts where part `i` ends |
| Partition.OffsetIsPrefixSum | gelu_custom.cpp:63 | the offset of part `k` is the sum of the sizes of parts `0 .. k-1` |
| Partition.PartsSumToTotal | gelu_custom.cpp:60-63 | the sizes of all `n` parts sum to `total`, and the offset one past the last part is `total` |
| Partition.OffsetMonotone | gelu_custom.cpp:63 | offsets never decrease with the part index |
| Partition.PartWithinTotal | gelu_custom.cpp:60-63 | every part lies inside `[0, total)` (for tiles: `curr_tile_offset + curr_tile_size <= block_size`) |
| Partition.PartsDisjoint | gelu_custom.cpp:60-63 | an earlier part ends at or before a later part starts, so no two parts overlap |
| Partition.PartOf | gelu_custom.cpp:60-63 | for each element of `[0, total)`, a part index below `n` whose range contains the element |
| Partition.PartOfUnique | gelu_custom.cpp:60-63 | an element lies in part `i` if and only if `i` is the part `PartOf` names: the parts cover `[0, total)` exactly once |
| Partition.EmptyPartsAreTheTail | gelu_custom.cpp:72-73 | a part is empty if and only if its index is at least `total`, so with more tiles than elements exactly the trailing tiles are empty |
| Partition.MaxPartSizeIsMax | gelu_custom.cpp:74 | `max_tile_size` bounds every part and part 0 attains it |
| Partition.SpanListsEachIndexOnce | gelu_custom.cpp:82-88 | the index log `Span(lo, hi)` contains every index of `[lo, hi)` exactly once and no other index |
| SlotQueue.TQue.InitBuffer | gelu_custom.cpp:77-78 | a queue of `num` slots of `len` elements, all free, no tensor pending |
| SlotQueue.TQue.AllocTensor | gelu_custom.cpp:28 | on a queue with a free slot, the producer holds one more slot; pending tensors and consumer slots are unchanged; the allocation count and peak occupancy are updated; the queue stays within its depth |
| SlotQueue.TQue.EnQue | gelu_custom.cpp:30 | a producer slot becomes the newest pending tensor, which must fit its slot |
| SlotQueue.TQue.DeQue | gelu_custom.cpp:34 | the consumer receives the oldest pending tensor (first in, first out), which fits a slot, and holds one more slot |
| SlotQueue.TQue.FreeTensor | gelu_custom.cpp:44 | a consumer slot returns to the free pool; the free count grows by one |
| Kernel.TileFitsSlot | gelu_custom.cpp:74-78 | every tile is at most `max_tile_size` elements, which is at most `aligned_tile_size`, a multiple of 32 below `max_tile_size + 32` |
| Kernel.KernelGelu.Init | gelu_custom.cpp:55-79 | the core's block is the partition's part `block_i` of `[0, vector_size)` and lies inside both buffers; there are `tile_num * 2` tiles; both queues have 2 slots sized `SlotSize`; both queues are empty |
| Kernel.KernelGelu.UpdateProgress | gelu_custom.cpp:21-24 | the current tile is part `progress` of the block's tile partition; for a real tile index it lies inside the block; it always fits a queue slot |
| Kernel.KernelGelu.CopyIn | gelu_custom.cpp:26-31 | exactly the current tile of global input becomes the newest pending input tensor; one input slot is allocated and enqueued, so the producer and consumer slot counts are as before; the tile's indices are appended to the copy-in log |
| Kernel.KernelGelu.Compute | gelu_custom.cpp:32-45 | the oldest input tensor is consumed and freed; GELU of each of its elements becomes the newest pending output tensor in a newly allocated output slot; the producer and consumer slot counts of both queues are as before |
| Kernel.KernelGelu.CopyOut | gelu_custom.cpp:46-51 | the oldest output tensor is written to exactly the current tile of global output; every other output element is unchanged; the slot is freed, so the producer and consumer slot counts are as before; the tile's indices are appended to the write-back log |
| Kernel.KernelGelu.ProcessTile | gelu_custom.cpp:82-87 | one loop iteration: tile `i` (which ends where tile `i + 1` starts, inside the block) is read and written once; output holds GELU of input on that tile only; each queue is allocated and freed once, is empty again, and peaks at one slot |
| Kernel.KernelGelu.Process | gelu_custom.cpp:80-88 | over the loop, both logs gain exactly the block's indices in increasing order; the block of output holds GELU of the block of input and nothing outside it changes; each queue sees `total_tiles` allocations and frees, ends empty, and never holds more than one slot |
| Kernel.GeluCustom | gelu_custom.cpp:92-97 | core `block_i` of `block_n` writes GELU of input into exactly its block of output, which lies inside `[0, vector_size)`, and changes no other output element |
| Kernel.Locate | gelu_custom.cpp:60-63 | each element of the vector is handled by a lane: a core below `block_n`, a tile of its block, and a position inside that tile, at that element's index |
| Kernel.LocateUnique | gelu_custom.cpp:21-24 | across all cores, a lane handles element `k` if and only if it is the lane `Locate` names, so every element is processed by exactly one core, tile and position |
| Kernel.LegacyBlockShift | gelu_custom.cpp:66 | with the commented-out offset `block_i * block_size`, blocks before the remainder start where they should, and later blocks start `vector_size % block_n` elements early |
| Kernel.LegacyOffsetBreaksCoverage | gelu_custom.cpp:66-69 | when the vector has at least one element per core and does not split evenly, the commented-out offset places blocks from the remainder on too early, and no block covers the last element |
| Host.SizeDeviceBuffers | main.cpp:50-58 | `padded_size` is a multiple of `block_dim * 128`, at least `vector_size` and below `vector_size + total_factor`, unchanged for an aligned vector, and fits in `int`; the buffer of `padded_byte_size` bytes holds the `vector_byte_size` bytes copied to and from it |
| Host.PaddedIsLeast | main.cpp:55 | `padded_size` is the least multiple of `total_factor` that holds the vector |
| Host.PerCoreShare | main.cpp:53-55 | `padded_size` divides evenly among the cores, and each core's share is a multiple of `BUFFER_NUM * TILE_SIZE` |
| Host.PaddedBlocksAreEven | main.cpp:71 | on the padded size passed to the kernel, every core's block is `padded_size / block_dim` elements at offset `i` times that, so the kernel's offset and the commented-out one agree |
| Host.PaddedTilesAreFull | main.cpp:51-54 | with `tile_num` equal to the core's share over `BUFFER_NUM * TILE_SIZE`, every tile has exactly `TILE_SIZE` elements and the queue slot is exactly one tile |

## Left out

- The ACL runtime is not modelled: device setup, streams, `aclrtMalloc`, `aclrtMemcpy`, `aclrtFree`, and the `CHECK_ACL` logging. It is device I/O. `Host` models only the sizes these calls are given.
- `GenerateRandomVector`, the timing and console output of `main`, and its argument check are not modelled. They are randomness and I/O.
- `GeluSequential` and `AbsoluteMaxDifference` are not modelled, because they are single-precision floating point.
- The `Muls`/`Erf`/`Adds`/`Mul` passes of `Compute` are not modelled either, for the same reason. GELU is the uninterpreted `gelu` applied per element (`Kernel.Elementwise`).
- Kernel.GeluCustom: models one core, parameterised by its index. The launch on `block_dim` cores is not modelled, and neither is the hardware overlap of copies and compute. Cross-core coverage is stated by `Kernel.LocateUnique` over indices.
- SlotQueue.TQue: the internals of AscendC `TPipe`, `TQue`, `GlobalTensor` and `DataCopy` are a foreign library. Each queue is reduced to slot counts, the pending tensors in order, and a capacity.
- SlotQueue.TQue.InitBuffer: the slot length is counted in elements. The source passes `aligned_tile_size * sizeof(float)` bytes, which is the same size for 4-byte floats.
- Kernel.KernelGelu.Init: requires `vector_size` and `tile_num * BUFFER_NUM` to fit in a 32-bit `int`. The model does not compute the wrapped values of an overflow.
- Host.SizeDeviceBuffers: requires `vector_size + total_factor - 1` to fit in `int`. The byte sizes, which are `size_t` in the source, are unbounded here.
- Empty tiles are not skipped: the loop at gelu_custom.cpp:82-87 has no zero-length test, so an empty tile still takes a slot in both queues and writes nothing (`Kernel.KernelGelu.ProcessTile` then writes over an empty range). `Partition.EmptyPartsAreTheTail` characterises these tiles.
- main.cpp:19 declares `gelu_custom_do` with five parameters. The definition at gelu_custom.cpp:99 has six, the last being `tile_num`, and the call at main.cpp:71 passes five. As written the host does not supply `tile_num`, and the program does not link. `Host.PaddedTilesAreFull` assumes `tile_num` is the core's share divided by `BUFFER_NUM * TILE_SIZE`, which is the value the host's padding is built for.
- `gelu_custom_do` (gelu_custom.cpp:99-101) only forwards its arguments to the launch. It is covered by `Kernel.GeluCustom` with `block_dim` as the core count.

## Findings

| source | as written | input that shows it | evidently intended | confidence | as-written member | corrected member |
|---|---|---|---|---|---|---|
| gelu_custom.cpp:66-69 | the global buffers are offset by `block_offset`, which is declared only in the commented-out line 66 as `block_i * block_size` | `vector_size = 3`, `block_n = 2`: core 1's block of one element starts at 1 instead of 2, so element 1 is processed by both cores and element 2 by none | offset the buffers by `offset` from line 63, the prefix sum of the block sizes | not executed; as written the file does not compile | Kernel.LegacyOffsetBreaksCoverage | Kernel.LocateUnique |
