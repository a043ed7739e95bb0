/**
 * The padding arithmetic of the host driver `GeluAscend` (main.cpp:50-58): the vector is
 * padded up to a whole number of double-buffered 256-byte tiles per core, and the two
 * device buffers are allocated at the padded size while only the real elements are copied.
 */
module Host {
  import opened Arith
  import opened Partition
  import Kernel

  /** Slots per queue, as the host assumes it (main.cpp:51). */
  const BUFFER_NUM: nat := 2
  /** `sizeof(float)`. */
  const SIZEOF_FLOAT: nat := 4
  /** Elements of one 256-byte tile (main.cpp:52). */
  const TILE_SIZE: nat := 256 / SIZEOF_FLOAT
  /** Elements one core needs for one tile in each buffer (main.cpp:53). */
  const PER_BLOCK_FACTOR: nat := BUFFER_NUM * TILE_SIZE

  /** `total_factor`: the granularity the whole vector is padded to (main.cpp:54). */
  function TotalFactor(blockDim: nat): (factor: nat) {
    blockDim * PER_BLOCK_FACTOR
  }

  /** The sizes `GeluAscend` allocates and copies with. */
  datatype DeviceBuffers = DeviceBuffers(paddedSize: nat, vectorByteSize: nat, paddedByteSize: nat)

  /**
   * main.cpp:54-58: `padded_size` is `vector_size` rounded up to a multiple of
   * `total_factor`; the byte sizes are the element counts times `sizeof(float)`. The padded
   * size is the least multiple of `total_factor` that holds the vector, leaves an aligned
   * vector alone, and the device buffers hold every byte that is copied to and from them.
   * The rounding is computed in 32-bit `int`, which must not overflow.
   */
  function SizeDeviceBuffers(vectorSize: nat, blockDim: nat): (b: DeviceBuffers)
    requires blockDim >= 1
    requires FitsInt32(vectorSize + TotalFactor(blockDim) - 1)
    ensures b.paddedSize % TotalFactor(blockDim) == 0
    ensures vectorSize <= b.paddedSize < vectorSize + TotalFactor(blockDim)
    ensures vectorSize % TotalFactor(blockDim) == 0 ==> b.paddedSize == vectorSize
    ensures FitsInt32(b.paddedSize)
    ensures b.vectorByteSize == vectorSize * SIZEOF_FLOAT && b.paddedByteSize == b.paddedSize * SIZEOF_FLOAT
    ensures b.vectorByteSize <= b.paddedByteSize
  {
    var totalFactor := TotalFactor(blockDim);
    var paddedSize := RoundUp(vectorSize, totalFactor);
    DeviceBuffers(paddedSize, vectorSize * SIZEOF_FLOAT, paddedSize * SIZEOF_FLOAT)
  }

  /** No multiple of `total_factor` that holds the vector is smaller than the padded size. */
  lemma PaddedIsLeast(vectorSize: nat, blockDim: nat, c: nat)
    requires blockDim >= 1
    requires FitsInt32(vectorSize + TotalFactor(blockDim) - 1)
    requires c % TotalFactor(blockDim) == 0 && vectorSize <= c
    ensures SizeDeviceBuffers(vectorSize, blockDim).paddedSize <= c
  {
    RoundUpIsLeast(vectorSize, TotalFactor(blockDim), c);
  }

  /**
   * Each core's share of the padded vector is whole and a multiple of `PER_BLOCK_FACTOR`:
   * `padded_size / block_dim` is `PER_BLOCK_FACTOR` times the number of padding units.
   */
  lemma PerCoreShare(vectorSize: nat, blockDim: nat)
    requires blockDim >= 1
    requires FitsInt32(vectorSize + TotalFactor(blockDim) - 1)
    ensures var padded := SizeDeviceBuffers(vectorSize, blockDim).paddedSize;
      && padded % blockDim == 0
      && padded / blockDim == (padded / TotalFactor(blockDim)) * PER_BLOCK_FACTOR
      && (padded / blockDim) % PER_BLOCK_FACTOR == 0
  {
    var padded := SizeDeviceBuffers(vectorSize, blockDim).paddedSize;
    var tf := TotalFactor(blockDim);
    var q := padded / tf;
    DivMod(padded, tf);
    assert padded == blockDim * (q * PER_BLOCK_FACTOR);
    DivUnique(padded, blockDim, q * PER_BLOCK_FACTOR, 0);
    MultipleMod(q, PER_BLOCK_FACTOR);
  }

  /**
   * On the padded size the kernel's block partition is even: every core gets the same share
   * at offset `i` times that share. So the block offset of gelu_custom.cpp:63 and the
   * commented-out one of gelu_custom.cpp:66 coincide for the sizes this host passes.
   */
  lemma PaddedBlocksAreEven(vectorSize: nat, blockDim: nat, i: nat)
    requires blockDim >= 1
    requires FitsInt32(vectorSize + TotalFactor(blockDim) - 1)
    ensures var padded := SizeDeviceBuffers(vectorSize, blockDim).paddedSize;
      && PartSize(padded, blockDim, i) == padded / blockDim
      && PartOffset(padded, blockDim, i) == i * (padded / blockDim)
      && Kernel.LegacyBlockOffset(padded, blockDim, i) == PartOffset(padded, blockDim, i)
  {
    PerCoreShare(vectorSize, blockDim);
  }

  /**
   * With `tile_num` set to the number of padding units per core, each core's share splits
   * into `tile_num * BUFFER_NUM` tiles of exactly `TILE_SIZE` elements, and a kernel queue
   * slot is exactly one tile: no tile is short and no slot is padded.
   */
  lemma PaddedTilesAreFull(vectorSize: nat, blockDim: nat, tile: nat)
    requires blockDim >= 1 && vectorSize >= 1
    requires FitsInt32(vectorSize + TotalFactor(blockDim) - 1)
    ensures var padded := SizeDeviceBuffers(vectorSize, blockDim).paddedSize;
      var share := padded / blockDim;
      var tileNum := share / PER_BLOCK_FACTOR;
      && tileNum >= 1
      && Kernel.TotalTiles(tileNum) >= 1
      && PartSize(share, Kernel.TotalTiles(tileNum), tile) == TILE_SIZE
      && Kernel.SlotSize(share, Kernel.TotalTiles(tileNum)) == TILE_SIZE
  {
    var padded := SizeDeviceBuffers(vectorSize, blockDim).paddedSize;
    var tf := TotalFactor(blockDim);
    PerCoreShare(vectorSize, blockDim);
    var q := padded / tf;
    var share := padded / blockDim;
    assert share == q * PER_BLOCK_FACTOR;
    MultipleMod(q, PER_BLOCK_FACTOR);
    assert share / PER_BLOCK_FACTOR == q;
    assert q >= 1 by {
      DivMod(padded, tf);
      if q == 0 {
        assert false;
      }
    }
    var tiles := Kernel.TotalTiles(q);
    assert tiles == q * 2;
    assert share == tiles * TILE_SIZE;
    DivUnique(share, tiles, TILE_SIZE, 0);
    assert MaxPartSize(share, tiles) == TILE_SIZE;
  }
}
