/** extfs/superblock.c and extfs/block.c: the constants read_superblock derives from the block size, and the
    translation of a file position into a path through the direct and indirect blocks. */
module ExtGeometry {
  import opened Words

  const NDIR_BLOCKS: nat := 12
  const IND_BLOCK: nat := 12
  const DIND_BLOCK: nat := 13
  const TIND_BLOCK: nat := 14
  const N_BLOCKS: nat := 15

  const SUPER_MAGIC: nat := 0xEF53
  const SUPERBLOCK_SIZE: nat := 1024
  const MIN_BLOCK_SIZE: nat := 1024

  datatype Result<+T> = Ok(value: T) | Err(errno: Errno)
  datatype Errno = EINVAL | ENOSPC | EIO | EFBIG | ENOENT | ENAMETOOLONG | EEXIST

  datatype Geometry = Geometry(
    blockSize: nat,
    sectorsInBlock: nat,
    addrInBlock: nat,
    addrInBlock2: nat,
    doubInd: nat,
    tripleInd: nat,
    outRange: nat)

  /** The six block sizes a 16-bit variable holds, with the addresses in a block and their square. */
  predicate IsBlockSize(n: nat, a: nat, a2: nat) {
    || (n == 1024 && a == 256 && a2 == 0x1_0000)
    || (n == 2048 && a == 512 && a2 == 0x4_0000)
    || (n == 4096 && a == 1024 && a2 == 0x10_0000)
    || (n == 8192 && a == 2048 && a2 == 0x40_0000)
    || (n == 16384 && a == 4096 && a2 == 0x100_0000)
    || (n == 32768 && a == 8192 && a2 == 0x400_0000)
  }

  /** What a mounted volume's derived constants satisfy. */
  predicate ValidGeometry(g: Geometry) {
    && IsBlockSize(g.blockSize, g.addrInBlock, g.addrInBlock2)
    && g.sectorsInBlock == g.blockSize / 512
    && g.doubInd == NDIR_BLOCKS + g.addrInBlock
    && g.tripleInd == g.doubInd + g.addrInBlock2
    && g.outRange == 0xFFFF_0000
  }

  lemma SectorsInBlock(g: Geometry)
    requires ValidGeometry(g)
    ensures g.sectorsInBlock == g.blockSize / 512 && 2 <= g.sectorsInBlock <= 64
  {
  }

  lemma {:induction false} BlockSizeWraps(log: nat)
    requires log >= 6
    ensures MIN_BLOCK_SIZE * Pow2(log) % U16 == 0
  {
    if log > 6 {
      BlockSizeWraps(log - 1);
    } else {
      assert Pow2(6) == 64;
    }
  }

  lemma SmallBlockSizes(log: nat)
    requires log <= 5
    ensures var n := MIN_BLOCK_SIZE * Pow2(log); n < U16 && IsBlockSize(n, n / 4, (n / 4) * (n / 4))
  {
    assert Pow2(0) == 1 && Pow2(1) == 2 && Pow2(2) == 4 && Pow2(3) == 8 && Pow2(4) == 16 && Pow2(5) == 32;
    if log == 0 {} else if log == 1 {} else if log == 2 {} else if log == 3 {} else if log == 4 {} else {}
  }

  /** The block-size part of read_superblock. sb_block_size is a 16-bit variable, so 64 KiB and larger block
      sizes wrap to zero and are turned away by the comparison with the superblock's own size. */
  method ReadGeometry(magic: nat, logBlockSize: nat) returns (r: Result<Geometry>)
    ensures r.Ok? <==> magic == 0xEF53 && logBlockSize <= 5
    ensures r.Ok? ==> ValidGeometry(r.value) && r.value.blockSize == 1024 * Pow2(logBlockSize)
    ensures r.Ok? ==>
              var g := r.value;
              && 512 * g.sectorsInBlock == g.blockSize
              && 4 * g.addrInBlock == g.blockSize && g.addrInBlock2 == g.addrInBlock * g.addrInBlock
              && g.doubInd == 12 + g.addrInBlock
              && g.tripleInd == 12 + g.addrInBlock + g.addrInBlock2 && g.outRange == 0xFFFF_0000
    ensures r.Err? ==> r.errno == EINVAL
  {
    if magic != SUPER_MAGIC {
      return Err(EINVAL);
    }
    var blockSize := MIN_BLOCK_SIZE * Pow2(logBlockSize) % U16;
    if logBlockSize >= 6 {
      BlockSizeWraps(logBlockSize);
    } else {
      SmallBlockSizes(logBlockSize);
    }
    if blockSize % 512 != 0 {
      return Err(EINVAL);
    }
    if SUPERBLOCK_SIZE > blockSize {
      return Err(EINVAL);
    }
    var addrInBlock := blockSize / 4;
    var addrInBlock2 := addrInBlock * addrInBlock;
    var doubInd := NDIR_BLOCKS + addrInBlock;
    var tripleInd := doubInd + addrInBlock2;
    r := Ok(Geometry(blockSize, blockSize / 512, addrInBlock, addrInBlock2, doubInd, tripleInd, 0xFFFF_0000));
  }

  /** A slot of the inode's block array followed by one slot per indirect block on the way down. */
  type Path = seq<nat>

  /** How many indirect blocks lie below slot o of the inode's block array. */
  function Depth(o: nat): nat {
    if o < NDIR_BLOCKS then 0 else o - 11
  }

  /** A path from the inode down to an indirect block or a data block; a slots per indirect block. */
  predicate ValidPath(a: nat, p: Path) {
    && 1 <= |p|
    && p[0] < N_BLOCKS
    && |p| <= Depth(p[0]) + 1
    && forall k :: 1 <= k < |p| ==> p[k] < a
  }

  /** The path of an indirect block. */
  predicate Interior(a: nat, p: Path) {
    ValidPath(a, p) && |p| <= Depth(p[0])
  }

  /** The path of a data block. */
  predicate IsLeaf(a: nat, p: Path) {
    ValidPath(a, p) && |p| == Depth(p[0]) + 1
  }

  /** The file block a position falls in; positions are truncated to 32 bits on the way in. */
  function BlockIndex(g: Geometry, position: nat): nat
    requires g.blockSize > 0
  {
    position % U32 / g.blockSize
  }

  /** calc_block_indirection_offsets after its division by the block size. */
  function PathOf(g: Geometry, blockPos: nat): Result<Path>
    requires ValidGeometry(g)
  {
    if blockPos >= g.outRange then
      Err(EINVAL)
    else if blockPos < NDIR_BLOCKS then
      Ok([blockPos])
    else if blockPos < g.doubInd then
      Ok([IND_BLOCK, blockPos - NDIR_BLOCKS])
    else if blockPos < g.tripleInd then
      Ok([DIND_BLOCK, (blockPos - g.doubInd) / g.addrInBlock, (blockPos - g.doubInd) % g.addrInBlock])
    else
      var rest := blockPos - g.tripleInd;
      Ok([TIND_BLOCK,
          rest / g.addrInBlock2,
          rest % g.addrInBlock2 / g.addrInBlock,
          rest % g.addrInBlock2 % g.addrInBlock])
  }

  function CalcOffsets(g: Geometry, position: nat): Result<Path>
    requires ValidGeometry(g)
  {
    PathOf(g, BlockIndex(g, position))
  }

  /** The file block index a data path stands for. */
  function IndexOf(g: Geometry, p: Path): nat
    requires IsLeaf(g.addrInBlock, p)
  {
    if p[0] < NDIR_BLOCKS then p[0]
    else if p[0] == IND_BLOCK then NDIR_BLOCKS + p[1]
    else if p[0] == DIND_BLOCK then g.doubInd + p[1] * g.addrInBlock + p[2]
    else g.tripleInd + p[1] * g.addrInBlock2 + p[2] * g.addrInBlock + p[3]
  }

  /** The data path of a file block below 4 GiB: none is rejected, in spite of the placeholder bound, and every
      slot is inside its block. */
  function LeafPath(g: Geometry, idx: nat): (p: Path)
    requires ValidGeometry(g) && idx < FileBlocks(g)
    ensures PathOf(g, idx) == Ok(p)
    ensures IsLeaf(g.addrInBlock, p)
  {
    assert idx <= 0xFFFF_FFFF / 1024;
    PathOf(g, idx).value
  }

  /** The number of file blocks 32-bit positions reach. */
  function FileBlocks(g: Geometry): (n: nat)
    requires ValidGeometry(g)
    ensures n * g.blockSize == U32
  {
    U32 / g.blockSize
  }

  lemma OffsetsAccepted(g: Geometry, position: nat)
    requires ValidGeometry(g)
    ensures BlockIndex(g, position) < FileBlocks(g)
    ensures CalcOffsets(g, position) == Ok(LeafPath(g, BlockIndex(g, position)))
  {
  }

  /** The path determines the file block, by an explicit inverse. */
  lemma IndexOfLeafPath(g: Geometry, idx: nat)
    requires ValidGeometry(g) && idx < FileBlocks(g)
    ensures IndexOf(g, LeafPath(g, idx)) == idx
  {
    if idx >= g.tripleInd {
      var rest, a, a2 := idx - g.tripleInd, g.addrInBlock, g.addrInBlock2;
      assert rest == rest / a2 * a2 + rest % a2;
      assert rest % a2 == rest % a2 / a * a + rest % a2 % a;
    } else if idx >= g.doubInd {
      var rest, a := idx - g.doubInd, g.addrInBlock;
      assert rest == rest / a * a + rest % a;
    }
  }

  /** Two positions share a path exactly when they lie in the same file block. */
  lemma OffsetsInjective(g: Geometry, pos1: nat, pos2: nat)
    requires ValidGeometry(g)
    ensures CalcOffsets(g, pos1) == CalcOffsets(g, pos2) <==> BlockIndex(g, pos1) == BlockIndex(g, pos2)
  {
    OffsetsAccepted(g, pos1);
    OffsetsAccepted(g, pos2);
    hide PathOf, LeafPath, IndexOf;
    IndexOfLeafPath(g, BlockIndex(g, pos1));
    IndexOfLeafPath(g, BlockIndex(g, pos2));
  }

  lemma TripleDigits(a: nat, p1: nat, p2: nat, p3: nat)
    requires p2 < a && p3 < a
    ensures var a2, n := a * a, p1 * (a * a) + p2 * a + p3;
            && a2 > 0
            && n / a2 == p1 && n % a2 / a == p2 && n % a2 % a == p3
  {
    MulStep(p2, a, a);
    var inner := p2 * a + p3;
    DivModOf(p1, inner, a * a);
    DivModOf(p2, p3, a);
    assert p1 * (a * a) + p2 * a + p3 == p1 * (a * a) + inner;
  }

  lemma PathOfIndex(g: Geometry, p: Path)
    requires ValidGeometry(g) && IsLeaf(g.addrInBlock, p)
    requires IndexOf(g, p) < g.outRange
    ensures PathOf(g, IndexOf(g, p)) == Ok(p)
  {
    var a, a2 := g.addrInBlock, g.addrInBlock2;
    assert a2 == a * a;
    if p[0] == DIND_BLOCK {
      MulStep(p[1], a, a);
      DivModOf(p[1], p[2], a);
    } else if p[0] == TIND_BLOCK {
      TripleDigits(a, p[1], p[2], p[3]);
      assert IndexOf(g, p) - g.tripleInd == p[1] * a2 + p[2] * a + p[3];
    }
    assert PathOf(g, IndexOf(g, p)).value == p;
  }

  /** Every data path whose block starts below 4 GiB is the path of that block's first byte. */
  lemma OffsetsSurjective(g: Geometry, p: Path)
    requires ValidGeometry(g) && IsLeaf(g.addrInBlock, p) && IndexOf(g, p) < FileBlocks(g)
    ensures CalcOffsets(g, IndexOf(g, p) * g.blockSize) == Ok(p)
  {
    var idx := IndexOf(g, p);
    MulStep(idx, FileBlocks(g), g.blockSize);
    DivModOf(idx, 0, g.blockSize);
    assert BlockIndex(g, idx * g.blockSize) == idx;
    PathOfIndex(g, p);
  }
}
