/**
 * The per-core GELU kernel of gelu_custom.cpp: `KernelGelu::Init` partitions the vector
 * across cores and the core's block across tiles, and `Process` drives every tile through
 * CopyIn -> Compute -> CopyOut over two double-buffered slot queues.
 *
 * Elements are of an arbitrary type `T`; the single-precision GELU formula is the
 * uninterpreted per-element function `gelu`. Global memory is the input vector (read only)
 * and the output array, both indexed from the start of the whole vector.
 */
module Kernel {
  import opened Arith
  import opened Partition
  import opened SlotQueue

  /** Slots per queue (gelu_custom.cpp:4). */
  const BUFFER_NUM: nat := 2
  /** Slot sizes are rounded up to a multiple of this many elements (gelu_custom.cpp:75). */
  const SLOT_ALIGN: nat := 32

  /** Tiles per block: `tile_num` pairs, one tile per buffer (gelu_custom.cpp:71). */
  function TotalTiles(tileNum: nat): (tiles: nat) {
    tileNum * BUFFER_NUM
  }

  /** `aligned_tile_size`: the largest tile, rounded up to `SLOT_ALIGN` elements (gelu_custom.cpp:74-75). */
  function SlotSize(blockSize: nat, totalTiles: nat): (size: nat)
    requires totalTiles >= 1
  {
    RoundUp(MaxPartSize(blockSize, totalTiles), SLOT_ALIGN)
  }

  /** The vector-engine passes of `Compute`, seen as one per-element map. */
  function Elementwise<T>(f: T -> T, s: seq<T>): (r: seq<T>) {
    seq(|s|, j requires 0 <= j < |s| => f(s[j]))
  }

  /**
   * `after` holds `f` of `input` at every index in `[lo, hi)` and agrees with `before` at
   * every other index: the effect on global output of writing GELU over that range.
   */
  ghost predicate WrittenBetween<T>(before: seq<T>, after: seq<T>, input: seq<T>, f: T -> T, lo: nat, hi: nat)
  {
    && |after| == |before|
    && hi <= |input|
    && forall k :: 0 <= k < |after| ==> after[k] == if lo <= k < hi then f(input[k]) else before[k]
  }

  /** Writing `[lo, mid)` and then `[mid, hi)` writes `[lo, hi)`. */
  lemma WrittenBetweenConcat<T>(a: seq<T>, b: seq<T>, c: seq<T>, input: seq<T>, f: T -> T, lo: nat, mid: nat, hi: nat)
    requires lo <= mid <= hi
    requires WrittenBetween(a, b, input, f, lo, mid) && WrittenBetween(b, c, input, f, mid, hi)
    ensures WrittenBetween(a, c, input, f, lo, hi)
  {
  }

  /**
   * Every tile fits its slot: no tile exceeds the largest one, and the slot size is the
   * least multiple of 32 that holds the largest tile.
   */
  lemma TileFitsSlot(blockSize: nat, totalTiles: nat, i: nat)
    requires totalTiles >= 1 && i < totalTiles
    ensures PartSize(blockSize, totalTiles, i) <= MaxPartSize(blockSize, totalTiles) <= SlotSize(blockSize, totalTiles)
    ensures SlotSize(blockSize, totalTiles) % SLOT_ALIGN == 0
    ensures SlotSize(blockSize, totalTiles) < MaxPartSize(blockSize, totalTiles) + SLOT_ALIGN
  {
    MaxPartSizeIsMax(blockSize, totalTiles, i);
  }

  class KernelGelu<T> {
    /** Global memory: the whole input vector and the whole output buffer. */
    const input: seq<T>
    const output: array<T>
    /** The per-element GELU. */
    const gelu: T -> T
    const inputQueue: TQue<T>
    const outputQueue: TQue<T>

    /** This core's block of the vector: `offset` and `block_size` of `Init`. */
    const blockOffset: nat
    const blockSize: nat
    /** The tile partition of the block, fixed by `Init`. */
    const totalTiles: nat
    const baseTileSize: nat
    const tileRemainder: nat
    /** The tile being processed, relative to the block (set by `UpdateProgress`). */
    var currTileSize: nat
    var currTileOffset: nat

    /** Block-relative indices read from global input by `CopyIn` and written by `CopyOut`, in order. */
    ghost var copiedIn: seq<nat>
    ghost var copiedOut: seq<nat>

    ghost predicate Valid()
      reads this, inputQueue, outputQueue
    {
      && inputQueue != outputQueue
      && inputQueue.Valid() && outputQueue.Valid()
      && inputQueue.depth == BUFFER_NUM && outputQueue.depth == BUFFER_NUM
      && totalTiles >= 1
      && baseTileSize == blockSize / totalTiles && tileRemainder == blockSize % totalTiles
      && inputQueue.capacity == SlotSize(blockSize, totalTiles)
      && outputQueue.capacity == SlotSize(blockSize, totalTiles)
      && blockOffset + blockSize <= |input|
      && blockOffset + blockSize <= output.Length
    }

    /** No slot of either queue is out of its free pool. */
    ghost predicate Idle()
      reads inputQueue, outputQueue
    {
      inputQueue.Occupancy() == 0 && outputQueue.Occupancy() == 0
    }

    /**
     * `Init` (gelu_custom.cpp:55-79): the core's block from the core count and index, the
     * tile partition of the block, and two queues of `BUFFER_NUM` slots sized for the
     * largest tile. The block's global offset is `offset` of line 63.
     */
    constructor Init(input: seq<T>, output: array<T>, vectorSize: nat, tileNum: nat,
                     blockNum: nat, blockIdx: nat, gelu: T -> T)
      requires blockNum >= 1 && blockIdx < blockNum && tileNum >= 1
      requires FitsInt32(vectorSize) && FitsInt32(TotalTiles(tileNum))
      requires vectorSize <= |input| && vectorSize <= output.Length
      ensures Valid() && Idle()
      ensures this.input == input && this.output == output && this.gelu == gelu
      ensures blockOffset == PartOffset(vectorSize, blockNum, blockIdx)
      ensures blockSize == PartSize(vectorSize, blockNum, blockIdx)
      ensures totalTiles == TotalTiles(tileNum)
      ensures fresh(inputQueue) && fresh(outputQueue)
      ensures inputQueue.allocs == 0 && inputQueue.frees == 0 && inputQueue.peak == 0
      ensures outputQueue.allocs == 0 && outputQueue.frees == 0 && outputQueue.peak == 0
      ensures copiedIn == [] && copiedOut == []
    {
      var baseBlockSize := vectorSize / blockNum;
      var remainder := vectorSize % blockNum;
      var size := if blockIdx < remainder then baseBlockSize + 1 else baseBlockSize;
      var offset := if blockIdx < remainder then blockIdx * (baseBlockSize + 1)
                    else remainder * (baseBlockSize + 1) + (blockIdx - remainder) * baseBlockSize;
      PartWithinTotal(vectorSize, blockNum, blockIdx);

      var tiles := tileNum * BUFFER_NUM;
      var baseTile := size / tiles;
      var tileRem := size % tiles;
      var maxTileSize := if tileRem > 0 then baseTile + 1 else baseTile;
      var alignedTileSize := ((maxTileSize + 31) / 32) * 32;
      assert size == PartSize(vectorSize, blockNum, blockIdx);
      assert offset == PartOffset(vectorSize, blockNum, blockIdx);
      assert tiles >= 1;
      assert maxTileSize == MaxPartSize(size, tiles);
      assert alignedTileSize == SlotSize(size, tiles);

      this.input, this.output, this.gelu := input, output, gelu;
      blockSize, blockOffset := size, offset;
      totalTiles, baseTileSize, tileRemainder := tiles, baseTile, tileRem;
      currTileSize, currTileOffset := 0, 0;
      copiedIn, copiedOut := [], [];
      inputQueue := new TQue.InitBuffer(BUFFER_NUM, alignedTileSize);
      outputQueue := new TQue.InitBuffer(BUFFER_NUM, alignedTileSize);
    }

    /**
     * `UpdateProgress` (gelu_custom.cpp:21-24): selects tile `progress` of the block's
     * tile partition. A tile of the partition lies inside the block and fits a slot.
     */
    method UpdateProgress(progress: nat)
      requires Valid()
      modifies this`currTileSize, this`currTileOffset
      ensures Valid()
      ensures currTileSize == PartSize(blockSize, totalTiles, progress)
      ensures currTileOffset == PartOffset(blockSize, totalTiles, progress)
      ensures progress < totalTiles ==> currTileOffset + currTileSize <= blockSize
      ensures currTileSize <= inputQueue.capacity
    {
      var size := if progress < tileRemainder then baseTileSize + 1 else baseTileSize;
      var offset := if progress < tileRemainder then progress * (baseTileSize + 1)
                    else tileRemainder * (baseTileSize + 1) + (progress - tileRemainder) * baseTileSize;
      assert size == PartSize(blockSize, totalTiles, progress);
      assert offset == PartOffset(blockSize, totalTiles, progress);
      if progress < totalTiles {
        PartWithinTotal(blockSize, totalTiles, progress);
        TileFitsSlot(blockSize, totalTiles, progress);
      } else {
        TileFitsSlot(blockSize, totalTiles, 0);
      }
      currTileSize, currTileOffset := size, offset;
    }

    /**
     * `CopyIn` (gelu_custom.cpp:26-31): allocates an input slot, copies the current tile of
     * global input into it and enqueues it.
     */
    method CopyIn()
      requires Valid()
      requires currTileOffset + currTileSize <= blockSize && currTileSize <= inputQueue.capacity
      requires inputQueue.Occupancy() < inputQueue.depth
      modifies this`copiedIn, inputQueue
      ensures Valid()
      ensures inputQueue.ready == old(inputQueue.ready)
                + [input[blockOffset + currTileOffset .. blockOffset + currTileOffset + currTileSize]]
      ensures inputQueue.producing == old(inputQueue.producing) && inputQueue.consuming == old(inputQueue.consuming)
      ensures inputQueue.Occupancy() == old(inputQueue.Occupancy()) + 1
      ensures inputQueue.allocs == old(inputQueue.allocs) + 1 && inputQueue.frees == old(inputQueue.frees)
      ensures inputQueue.peak == MaxNat(old(inputQueue.peak), inputQueue.Occupancy())
      ensures copiedIn == old(copiedIn) + Span(currTileOffset, currTileOffset + currTileSize)
    {
      inputQueue.AllocTensor();
      var inputLocal := input[blockOffset + currTileOffset .. blockOffset + currTileOffset + currTileSize];
      inputQueue.EnQue(inputLocal);
      copiedIn := copiedIn + Span(currTileOffset, currTileOffset + currTileSize);
    }

    /**
     * `Compute` (gelu_custom.cpp:32-45): dequeues the oldest input slot, allocates an output
     * slot, writes GELU of every element into it, enqueues it and frees the input slot.
     */
    method Compute()
      requires Valid() && inputQueue.ready != []
      requires outputQueue.Occupancy() < outputQueue.depth
      modifies inputQueue, outputQueue
      ensures Valid()
      ensures inputQueue.ready == old(inputQueue.ready)[1..]
      ensures outputQueue.ready == old(outputQueue.ready) + [Elementwise(gelu, old(inputQueue.ready)[0])]
      ensures inputQueue.producing == old(inputQueue.producing) && inputQueue.consuming == old(inputQueue.consuming)
      ensures outputQueue.producing == old(outputQueue.producing) && outputQueue.consuming == old(outputQueue.consuming)
      ensures inputQueue.Occupancy() == old(inputQueue.Occupancy()) - 1
      ensures outputQueue.Occupancy() == old(outputQueue.Occupancy()) + 1
      ensures inputQueue.allocs == old(inputQueue.allocs) && inputQueue.frees == old(inputQueue.frees) + 1
      ensures outputQueue.allocs == old(outputQueue.allocs) + 1 && outputQueue.frees == old(outputQueue.frees)
      ensures inputQueue.peak == old(inputQueue.peak)
      ensures outputQueue.peak == MaxNat(old(outputQueue.peak), outputQueue.Occupancy())
    {
      var inputLocal := inputQueue.DeQue();
      outputQueue.AllocTensor();
      var outputLocal := Elementwise(gelu, inputLocal);
      outputQueue.EnQue(outputLocal);
      inputQueue.FreeTensor();
    }

    /**
     * `CopyOut` (gelu_custom.cpp:46-51): dequeues the oldest output slot, copies it to the
     * current tile of global output and frees the slot. Nothing else in global output changes.
     */
    method CopyOut()
      requires Valid() && outputQueue.ready != [] && |outputQueue.ready[0]| == currTileSize
      requires currTileOffset + currTileSize <= blockSize
      modifies this`copiedOut, outputQueue, output
      ensures Valid()
      ensures outputQueue.ready == old(outputQueue.ready)[1..]
      ensures outputQueue.producing == old(outputQueue.producing) && outputQueue.consuming == old(outputQueue.consuming)
      ensures outputQueue.Occupancy() == old(outputQueue.Occupancy()) - 1
      ensures outputQueue.allocs == old(outputQueue.allocs) && outputQueue.frees == old(outputQueue.frees) + 1
      ensures outputQueue.peak == old(outputQueue.peak)
      ensures forall k :: blockOffset + currTileOffset <= k < blockOffset + currTileOffset + currTileSize ==>
                output[k] == old(outputQueue.ready)[0][k - (blockOffset + currTileOffset)]
      ensures forall k :: 0 <= k < output.Length && !(blockOffset + currTileOffset <= k < blockOffset + currTileOffset + currTileSize) ==>
                output[k] == old(output[k])
      ensures copiedOut == old(copiedOut) + Span(currTileOffset, currTileOffset + currTileSize)
    {
      var outputLocal := outputQueue.DeQue();
      var start := blockOffset + currTileOffset;
      forall j | 0 <= j < |outputLocal| {
        output[start + j] := outputLocal[j];
      }
      outputQueue.FreeTensor();
      copiedOut := copiedOut + Span(currTileOffset, currTileOffset + currTileSize);
    }

    /**
     * One iteration of the loop in `Process` (gelu_custom.cpp:83-86): tile `i` goes through
     * both queues and lands in global output.
     */
    method ProcessTile(i: nat)
      requires Valid() && Idle() && i < totalTiles
      modifies this, inputQueue, outputQueue, output
      ensures Valid() && Idle()
      ensures currTileOffset == PartOffset(blockSize, totalTiles, i)
      ensures currTileOffset + currTileSize == PartOffset(blockSize, totalTiles, i + 1) <= blockSize
      ensures copiedIn == old(copiedIn) + Span(currTileOffset, currTileOffset + currTileSize)
      ensures copiedOut == old(copiedOut) + Span(currTileOffset, currTileOffset + currTileSize)
      ensures WrittenBetween(old(output[..]), output[..], input, gelu,
                             blockOffset + currTileOffset, blockOffset + currTileOffset + currTileSize)
      ensures inputQueue.allocs == old(inputQueue.allocs) + 1 && inputQueue.frees == old(inputQueue.frees) + 1
      ensures outputQueue.allocs == old(outputQueue.allocs) + 1 && outputQueue.frees == old(outputQueue.frees) + 1
      ensures inputQueue.peak == MaxNat(old(inputQueue.peak), 1)
      ensures outputQueue.peak == MaxNat(old(outputQueue.peak), 1)
    {
      UpdateProgress(i);
      OffsetStep(blockSize, totalTiles, i);
      ghost var start := blockOffset + currTileOffset;
      ghost var tile := input[start .. start + currTileSize];
      CopyIn();
      assert inputQueue.ready == [tile];
      Compute();
      assert outputQueue.ready == [Elementwise(gelu, tile)];
      CopyOut();
      forall k | start <= k < start + currTileSize
        ensures output[k] == gelu(input[k])
      {
        assert output[k] == Elementwise(gelu, tile)[k - start];
      }
    }

    /**
     * `Process` (gelu_custom.cpp:80-88): tiles `0 .. totalTiles-1` in order. Every index of
     * the block is copied in and written back exactly once, in increasing order; the block
     * of global output then holds GELU of the block of global input and nothing outside the
     * block changes. Each queue is allocated from and freed to once per tile, is empty
     * between tiles, and never holds more than one slot.
     */
    method Process()
      requires Valid() && Idle()
      modifies this, inputQueue, outputQueue, output
      ensures Valid() && Idle()
      ensures copiedIn == old(copiedIn) + Span(0, blockSize)
      ensures copiedOut == old(copiedOut) + Span(0, blockSize)
      ensures WrittenBetween(old(output[..]), output[..], input, gelu, blockOffset, blockOffset + blockSize)
      ensures inputQueue.allocs == old(inputQueue.allocs) + totalTiles
      ensures inputQueue.frees == old(inputQueue.frees) + totalTiles
      ensures outputQueue.allocs == old(outputQueue.allocs) + totalTiles
      ensures outputQueue.frees == old(outputQueue.frees) + totalTiles
      ensures inputQueue.peak == MaxNat(old(inputQueue.peak), 1)
      ensures outputQueue.peak == MaxNat(old(outputQueue.peak), 1)
    {
      OffsetStep(blockSize, totalTiles, 0);
      ghost var done: nat := 0;
      ghost var before := output[..];
      for i := 0 to totalTiles
        invariant Valid() && Idle()
        invariant done == PartOffset(blockSize, totalTiles, i) && done <= blockSize
        invariant copiedIn == old(copiedIn) + Span(0, done)
        invariant copiedOut == old(copiedOut) + Span(0, done)
        invariant WrittenBetween(before, output[..], input, gelu, blockOffset, blockOffset + done)
        invariant inputQueue.allocs == old(inputQueue.allocs) + i && inputQueue.frees == old(inputQueue.frees) + i
        invariant outputQueue.allocs == old(outputQueue.allocs) + i && outputQueue.frees == old(outputQueue.frees) + i
        invariant inputQueue.peak == MaxNat(old(inputQueue.peak), if i == 0 then 0 else 1)
        invariant outputQueue.peak == MaxNat(old(outputQueue.peak), if i == 0 then 0 else 1)
      {
        ghost var mid := output[..];
        ProcessTile(i);
        WrittenBetweenConcat(before, mid, output[..], input, gelu, blockOffset, blockOffset + done, blockOffset + done + currTileSize);
        AppendSpans(old(copiedIn), 0, done, done + currTileSize);
        AppendSpans(old(copiedOut), 0, done, done + currTileSize);
        done := done + currTileSize;
      }
      PartsSumToTotal(blockSize, totalTiles);
    }
  }

  /**
   * The kernel entry `gelu_custom` (gelu_custom.cpp:92-97) as run by core `blockIdx` of
   * `blockNum`: GELU of the core's block of input lands in the same block of output, and
   * the core writes nothing else.
   */
  method GeluCustom<T>(input: seq<T>, output: array<T>, vectorSize: nat, tileNum: nat,
                       blockNum: nat, blockIdx: nat, gelu: T -> T)
    requires blockNum >= 1 && blockIdx < blockNum && tileNum >= 1
    requires FitsInt32(vectorSize) && FitsInt32(TotalTiles(tileNum))
    requires vectorSize <= |input| && vectorSize <= output.Length
    modifies output
    ensures var lo, n := PartOffset(vectorSize, blockNum, blockIdx), PartSize(vectorSize, blockNum, blockIdx);
      lo + n <= vectorSize && WrittenBetween(old(output[..]), output[..], input, gelu, lo, lo + n)
  {
    PartWithinTotal(vectorSize, blockNum, blockIdx);
    ghost var before := output[..];
    var op := new KernelGelu.Init(input, output, vectorSize, tileNum, blockNum, blockIdx, gelu);
    assert output[..] == before;
    op.Process();
  }

  /** The core, the tile within the core's block, and the position within the tile that handle one element. */
  datatype Lane = Lane(block: nat, tile: nat, index: nat)

  /** The global index of the element that `lane` handles, under the block and tile partitions. */
  function LaneElement(vectorSize: nat, blockNum: nat, tileNum: nat, lane: Lane): (k: nat)
    requires blockNum >= 1 && tileNum >= 1
  {
    var blockSize := PartSize(vectorSize, blockNum, lane.block);
    PartOffset(vectorSize, blockNum, lane.block) + PartOffset(blockSize, TotalTiles(tileNum), lane.tile) + lane.index
  }

  /** A lane that exists: a core below `blockNum`, a tile of its block and a position inside that tile. */
  predicate IsLane(vectorSize: nat, blockNum: nat, tileNum: nat, lane: Lane)
    requires blockNum >= 1 && tileNum >= 1
  {
    && lane.block < blockNum
    && lane.tile < TotalTiles(tileNum)
    && lane.index < PartSize(PartSize(vectorSize, blockNum, lane.block), TotalTiles(tileNum), lane.tile)
  }

  /**
   * The lane that handles element `k` of the vector: the block that holds `k`, then the tile
   * of that block that holds it.
   */
  function Locate(vectorSize: nat, blockNum: nat, tileNum: nat, k: nat): (lane: Lane)
    requires blockNum >= 1 && tileNum >= 1 && k < vectorSize
    ensures IsLane(vectorSize, blockNum, tileNum, lane)
    ensures LaneElement(vectorSize, blockNum, tileNum, lane) == k
  {
    var b := PartOf(vectorSize, blockNum, k);
    var blockOffset, blockSize := PartOffset(vectorSize, blockNum, b), PartSize(vectorSize, blockNum, b);
    var t := PartOf(blockSize, TotalTiles(tileNum), k - blockOffset);
    Lane(b, t, k - blockOffset - PartOffset(blockSize, TotalTiles(tileNum), t))
  }

  /**
   * Across all cores together every element of the vector is handled by exactly one lane:
   * a lane handles `k` if and only if it is the lane `Locate` names.
   */
  lemma LocateUnique(vectorSize: nat, blockNum: nat, tileNum: nat, k: nat, lane: Lane)
    requires blockNum >= 1 && tileNum >= 1 && k < vectorSize
    requires IsLane(vectorSize, blockNum, tileNum, lane)
    ensures LaneElement(vectorSize, blockNum, tileNum, lane) == k <==> lane == Locate(vectorSize, blockNum, tileNum, k)
  {
    if LaneElement(vectorSize, blockNum, tileNum, lane) == k {
      var blockSize := PartSize(vectorSize, blockNum, lane.block);
      var tiles := TotalTiles(tileNum);
      var blockOffset := PartOffset(vectorSize, blockNum, lane.block);
      PartWithinTotal(blockSize, tiles, lane.tile);
      PartOfUnique(vectorSize, blockNum, k, lane.block);
      PartOfUnique(blockSize, tiles, k - blockOffset, lane.tile);
    }
  }

  /**
   * The block offset lines 68-69 of gelu_custom.cpp refer to as `block_offset`, as the
   * commented-out declaration of line 66 computes it: the core index times the core's own
   * block size (line 62).
   */
  function LegacyBlockOffset(vectorSize: nat, blockNum: nat, blockIdx: nat): (offset: nat)
    requires blockNum >= 1
  {
    blockIdx * PartSize(vectorSize, blockNum, blockIdx)
  }

  /** One block under the legacy offset: right before the remainder, `remainder` too early after it. */
  lemma LegacyBlockShift(vectorSize: nat, blockNum: nat, i: nat)
    requires blockNum >= 1
    ensures i < vectorSize % blockNum ==> LegacyBlockOffset(vectorSize, blockNum, i) == PartOffset(vectorSize, blockNum, i)
    ensures i >= vectorSize % blockNum ==>
              LegacyBlockOffset(vectorSize, blockNum, i) + vectorSize % blockNum == PartOffset(vectorSize, blockNum, i)
  {
    var base, rem := vectorSize / blockNum, vectorSize % blockNum;
    if i >= rem {
      assert rem * (base + 1) + (i - rem) * base == i * base + rem;
    }
  }

  /**
   * With the legacy offset and a vector that does not split evenly (and has at least one
   * element per core), the blocks before index `remainder` are placed correctly, every block
   * from index `remainder` on starts too early (its first element belongs to an earlier
   * core's block), and no block reaches the last element of the vector: that element is
   * never written.
   */
  lemma LegacyOffsetBreaksCoverage(vectorSize: nat, blockNum: nat)
    requires blockNum >= 1 && vectorSize >= blockNum && vectorSize % blockNum != 0
    ensures forall i: nat :: i < vectorSize % blockNum ==>
              LegacyBlockOffset(vectorSize, blockNum, i) == PartOffset(vectorSize, blockNum, i)
    ensures forall i: nat :: vectorSize % blockNum <= i < blockNum ==>
              LegacyBlockOffset(vectorSize, blockNum, i) < PartOffset(vectorSize, blockNum, i)
    ensures forall i: nat :: i < blockNum ==>
              LegacyBlockOffset(vectorSize, blockNum, i) + PartSize(vectorSize, blockNum, i) < vectorSize
  {
    var rem := vectorSize % blockNum;
    DivMod(vectorSize, blockNum);
    PartWithinTotal(vectorSize, blockNum, rem);
    assert PartSize(vectorSize, blockNum, rem) >= 1 by {
      EmptyPartsAreTheTail(vectorSize, blockNum, rem);
    }
    forall i: nat | i < blockNum
      ensures i < rem ==> LegacyBlockOffset(vectorSize, blockNum, i) == PartOffset(vectorSize, blockNum, i)
      ensures rem <= i ==> LegacyBlockOffset(vectorSize, blockNum, i) < PartOffset(vectorSize, blockNum, i)
      ensures LegacyBlockOffset(vectorSize, blockNum, i) + PartSize(vectorSize, blockNum, i) < vectorSize
    {
      LegacyBlockShift(vectorSize, blockNum, i);
      PartWithinTotal(vectorSize, blockNum, i);
      if i < rem {
        PartsDisjoint(vectorSize, blockNum, i, rem);
      }
    }
  }
}
