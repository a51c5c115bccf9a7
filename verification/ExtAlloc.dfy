/** The block allocator's data: group descriptors, their bitmaps in the store, and the free counters. */
module ExtAlloc {
  import opened Words
  import opened BlockStore
  import opened ExtBitmap

  datatype GroupDesc = GroupDesc(
    blockBitmap: nat,
    inodeBitmap: nat,
    inodeTable: nat,
    freeBlocks: nat,
    freeInodes: nat)

  /** The superblock fields the allocator reads; meta is the set of blocks that hold the file system's own data. */
  datatype Layout = Layout(
    firstDataBlock: nat,
    blocksCount: nat,
    blocksPerGroup: nat,
    inodeTableBlocks: nat,
    meta: set<nat>)
  {
    /** Blocks a file may be given. */
    ghost predicate Usable(b: nat) {
      firstDataBlock <= b < blocksCount && b !in meta
    }

    ghost function FreeSet(used: set<nat>): set<nat> {
      set b | firstDataBlock <= b < blocksCount && b !in meta && b !in used
    }
  }

  /** The block that bit k of group g's bitmap stands for. */
  function BlockNo(lay: Layout, g: nat, k: nat): (b: nat)
    ensures b >= lay.firstDataBlock
  {
    lay.firstDataBlock + g * lay.blocksPerGroup + k
  }

  /** The group block b lies in, and its bit in that group's bitmap. */
  function GroupOf(lay: Layout, b: nat): int
    requires lay.firstDataBlock <= b && 0 < lay.blocksPerGroup
  {
    (b - lay.firstDataBlock) / lay.blocksPerGroup
  }

  function BitOf(lay: Layout, b: nat): int
    requires lay.firstDataBlock <= b && 0 < lay.blocksPerGroup
  {
    (b - lay.firstDataBlock) % lay.blocksPerGroup
  }

  function FreeSum(gds: seq<GroupDesc>): nat {
    if |gds| == 0 then 0 else FreeSum(gds[..|gds| - 1]) + gds[|gds| - 1].freeBlocks
  }

  lemma {:induction false} FreeSumUpdate(gds: seq<GroupDesc>, g: nat, d: GroupDesc)
    requires g < |gds|
    ensures FreeSum(gds[g := d]) == FreeSum(gds) - gds[g].freeBlocks + d.freeBlocks
    ensures FreeSum(gds) >= gds[g].freeBlocks
  {
    var n := |gds| - 1;
    if g < n {
      FreeSumUpdate(gds[..n], g, d);
      assert gds[g := d][..n] == gds[..n][g := d];
    } else {
      assert gds[g := d][..n] == gds[..n];
    }
  }

  lemma {:induction false} FreeSumZero(gds: seq<GroupDesc>)
    ensures FreeSum(gds) == 0 <==> forall g :: 0 <= g < |gds| ==> gds[g].freeBlocks == 0
  {
    if |gds| > 0 {
      FreeSumZero(gds[..|gds| - 1]);
      assert forall g :: 0 <= g < |gds| - 1 ==> gds[g] == gds[..|gds| - 1][g];
    }
  }

  /** What mke2fs lays out: the groups cover the volume, and each group's bitmaps and inode table are metadata. */
  ghost predicate LayoutOk(lay: Layout, gds: seq<GroupDesc>, a: nat) {
    && 0 < lay.blocksPerGroup <= 32 * a
    && 0 < |gds|
    && lay.firstDataBlock < lay.blocksCount < U32
    && lay.blocksCount <= BlockNo(lay, |gds|, 0)
    && BlockNo(lay, |gds| - 1, 0) < lay.blocksCount
    && (lay.firstDataBlock > 0 || 0 in lay.meta)
    && (forall g :: 0 <= g < |gds| ==>
          && gds[g].blockBitmap < lay.blocksCount && gds[g].blockBitmap in lay.meta
          && gds[g].inodeBitmap in lay.meta
          && forall b :: gds[g].inodeTable <= b < gds[g].inodeTable + lay.inodeTableBlocks ==> b in lay.meta)
    && (forall g, h :: 0 <= g < h < |gds| ==> gds[g].blockBitmap != gds[h].blockBitmap)
  }

  /** The group count read_superblock computes is the number of groups it takes to cover the volume. */
  lemma GroupsCover(firstDataBlock: nat, blocksCount: nat, blocksPerGroup: nat, n: nat)
    requires firstDataBlock < blocksCount && 0 < blocksPerGroup && n > 0
    ensures n == (blocksCount - firstDataBlock - 1) / blocksPerGroup + 1 <==>
            (firstDataBlock + (n - 1) * blocksPerGroup < blocksCount <= firstDataBlock + n * blocksPerGroup)
  {
    var x := blocksCount - firstDataBlock - 1;
    var q, r := x / blocksPerGroup, x % blocksPerGroup;
    assert x == q * blocksPerGroup + r;
    assert n * blocksPerGroup == (n - 1) * blocksPerGroup + blocksPerGroup;
    if (n - 1) * blocksPerGroup <= x < n * blocksPerGroup {
      QuotUnique(blocksPerGroup, q, r, n - 1, x - (n - 1) * blocksPerGroup);
    }
  }

  /** Set bits are exactly metadata, padding past the end of the volume, and used blocks. */
  ghost predicate BitsOk(lay: Layout, gds: seq<GroupDesc>, st: seq<Block>, used: set<nat>) {
    forall g: nat, k: nat :: g < |gds| && gds[g].blockBitmap < |st| && k < lay.blocksPerGroup ==>
      (BitAt(st[gds[g].blockBitmap], k) <==>
        (BlockNo(lay, g, k) >= lay.blocksCount || BlockNo(lay, g, k) in lay.meta || BlockNo(lay, g, k) in used))
  }

  /** Each group's counter is the number of clear bits in its bitmap, and the superblock's is their sum. */
  ghost predicate CountersOk(lay: Layout, gds: seq<GroupDesc>, st: seq<Block>, free: nat) {
    && free == FreeSum(gds)
    && forall g :: 0 <= g < |gds| && gds[g].blockBitmap < |st| ==>
         gds[g].freeBlocks == |FreeBits(st[gds[g].blockBitmap], lay.blocksPerGroup)|
  }

  ghost predicate AllocOk(lay: Layout, gds: seq<GroupDesc>, st: seq<Block>, used: set<nat>, free: nat, a: nat) {
    && LayoutOk(lay, gds, a)
    && |st| == lay.blocksCount
    && (forall b :: 0 <= b < |st| ==> |st[b]| == a)
    && (forall b :: b in used ==> lay.Usable(b))
    && BitsOk(lay, gds, st, used)
    && CountersOk(lay, gds, st, free)
  }

  lemma BlockNoInjective(lay: Layout, g: nat, k: nat, h: nat, l: nat)
    requires k < lay.blocksPerGroup && l < lay.blocksPerGroup
    requires BlockNo(lay, g, k) == BlockNo(lay, h, l)
    ensures g == h && k == l
  {
    QuotUnique(lay.blocksPerGroup, g, k, h, l);
  }

  lemma BlockNoOrder(lay: Layout, g: nat, k: nat, h: nat, l: nat)
    requires k < lay.blocksPerGroup && l < lay.blocksPerGroup
    requires g < h || (g == h && k <= l)
    ensures BlockNo(lay, g, k) <= BlockNo(lay, h, l)
  {
    if g < h {
      MulStep(g, h, lay.blocksPerGroup);
    }
  }

  /** Every block number inside the volume is some bit of some group. */
  lemma GroupAndBit(lay: Layout, gds: seq<GroupDesc>, a: nat, b: nat)
    requires LayoutOk(lay, gds, a) && lay.firstDataBlock <= b < lay.blocksCount
    ensures var g, k := GroupOf(lay, b), BitOf(lay, b);
            0 <= g < |gds| && 0 <= k < lay.blocksPerGroup && BlockNo(lay, g, k) == b
  {
    DivLess(b - lay.firstDataBlock, lay.blocksPerGroup, |gds|);
  }

  /** A clear bit below the group size is a free block, and a free block is a clear bit. */
  lemma FreeBitIsFreeBlock(lay: Layout, gds: seq<GroupDesc>, st: seq<Block>, used: set<nat>, g: nat, k: nat)
    requires BitsOk(lay, gds, st, used)
    requires g < |gds| && k < lay.blocksPerGroup && gds[g].blockBitmap < |st|
    ensures !BitAt(st[gds[g].blockBitmap], k) <==> BlockNo(lay, g, k) in lay.FreeSet(used)
  {
    hide BlockNo;
  }

  function Flip(bm: Block, k: nat, taken: bool): Block
    requires k / 32 < |bm|
  {
    if taken then WithBit(bm, k) else WithoutBit(bm, k)
  }

  function Adjust(d: GroupDesc, taken: bool): GroupDesc
    requires taken ==> d.freeBlocks > 0
  {
    d.(freeBlocks := if taken then d.freeBlocks - 1 else d.freeBlocks + 1)
  }

  function TakeOrGive(used: set<nat>, b: nat, taken: bool): set<nat> {
    if taken then used + {b} else used - {b}
  }

  lemma BitsFlipped(lay: Layout, gds: seq<GroupDesc>, st: seq<Block>, used: set<nat>, a: nat, g: nat, k: nat,
                    taken: bool)
    requires LayoutOk(lay, gds, a) && BitsOk(lay, gds, st, used)
    requires |st| == lay.blocksCount && forall b :: 0 <= b < |st| ==> |st[b]| == a
    requires g < |gds| && k < lay.blocksPerGroup && k / 32 < a && lay.Usable(BlockNo(lay, g, k))
    ensures BitsOk(lay, gds, st[gds[g].blockBitmap := Flip(st[gds[g].blockBitmap], k, taken)],
                   TakeOrGive(used, BlockNo(lay, g, k), taken))
  {
    var b, bm := BlockNo(lay, g, k), st[gds[g].blockBitmap];
    var st2 := st[gds[g].blockBitmap := Flip(bm, k, taken)];
    forall h: nat, l: nat | h < |gds| && l < lay.blocksPerGroup
      ensures BitAt(st2[gds[h].blockBitmap], l) == if h == g && l == k then taken else BitAt(st[gds[h].blockBitmap], l)
      ensures BlockNo(lay, h, l) == b <==> h == g && l == k
    {
      WithBitAt(bm, k, l);
      WithoutBitAt(bm, k, l);
      if BlockNo(lay, h, l) == b {
        BlockNoInjective(lay, g, k, h, l);
      }
    }
  }

  lemma CountersFlipped(lay: Layout, gds: seq<GroupDesc>, st: seq<Block>, free: nat, a: nat, g: nat, k: nat,
                        taken: bool)
    requires LayoutOk(lay, gds, a) && CountersOk(lay, gds, st, free)
    requires |st| == lay.blocksCount && forall b :: 0 <= b < |st| ==> |st[b]| == a
    requires g < |gds| && k < lay.blocksPerGroup && k / 32 < a
    requires BitAt(st[gds[g].blockBitmap], k) <==> !taken
    ensures taken ==> gds[g].freeBlocks > 0 && free > 0
    ensures CountersOk(lay, gds[g := Adjust(gds[g], taken)],
                       st[gds[g].blockBitmap := Flip(st[gds[g].blockBitmap], k, taken)],
                       if taken then free - 1 else free + 1)
  {
    var bm := st[gds[g].blockBitmap];
    WithBitFree(bm, k, lay.blocksPerGroup);
    WithoutBitFree(bm, k, lay.blocksPerGroup);
    FreeSumUpdate(gds, g, gds[g]);
    FreeSumUpdate(gds, g, Adjust(gds[g], taken));
  }

  lemma LayoutAdjusted(lay: Layout, gds: seq<GroupDesc>, a: nat, g: nat, taken: bool)
    requires LayoutOk(lay, gds, a) && g < |gds|
    ensures (taken ==> gds[g].freeBlocks > 0) ==> LayoutOk(lay, gds[g := Adjust(gds[g], taken)], a)
  {
    hide BlockNo;
  }

  /** Flipping the bit of one block and adjusting the two counters keeps the allocator's books. */
  lemma BitFlipped(lay: Layout, gds: seq<GroupDesc>, st: seq<Block>, used: set<nat>, free: nat, a: nat,
                   g: nat, k: nat, taken: bool)
    requires AllocOk(lay, gds, st, used, free, a)
    requires g < |gds| && k < lay.blocksPerGroup && k / 32 < a && lay.Usable(BlockNo(lay, g, k))
    requires taken <==> BlockNo(lay, g, k) !in used
    ensures taken ==> gds[g].freeBlocks > 0 && free > 0
    ensures AllocOk(lay, gds[g := Adjust(gds[g], taken)],
                    st[gds[g].blockBitmap := Flip(st[gds[g].blockBitmap], k, taken)],
                    TakeOrGive(used, BlockNo(lay, g, k), taken),
                    if taken then free - 1 else free + 1,
                    a)
  {
    assert gds[g].blockBitmap < |st|;
    LayoutAdjusted(lay, gds, a, g, taken);
    hide LayoutOk, BlockNo;
    FreeBitIsFreeBlock(lay, gds, st, used, g, k);
    hide BitsOk, CountersOk;
    BitsFlipped(lay, gds, st, used, a, g, k, taken);
    CountersFlipped(lay, gds, st, free, a, g, k, taken);
  }

  /** Writes outside the block bitmaps leave the allocator's books alone. */
  lemma AllocFrame(lay: Layout, gds: seq<GroupDesc>, st: seq<Block>, used: set<nat>, free: nat, a: nat, st2: seq<Block>)
    requires AllocOk(lay, gds, st, used, free, a)
    requires |st2| == |st| && (forall b :: 0 <= b < |st2| ==> |st2[b]| == a)
    requires forall b: nat :: b < |st| && b in lay.meta ==> st2[b] == st[b]
    ensures AllocOk(lay, gds, st2, used, free, a)
  {
  }

  lemma FreeBlockCounted(lay: Layout, gds: seq<GroupDesc>, st: seq<Block>, used: set<nat>, free: nat, a: nat, b: nat)
    requires AllocOk(lay, gds, st, used, free, a) && b in lay.FreeSet(used)
    ensures free > 0
  {
    GroupAndBit(lay, gds, a, b);
    var g, k := GroupOf(lay, b), BitOf(lay, b);
    FreeBitIsFreeBlock(lay, gds, st, used, g, k);
    assert k in FreeBits(st[gds[g].blockBitmap], lay.blocksPerGroup);
    FreeSumZero(gds);
  }

  /** A group that counts a free block has a clear bit, in a bitmap block of the store. */
  lemma CountedGroup(lay: Layout, gds: seq<GroupDesc>, st: seq<Block>, used: set<nat>, free: nat, a: nat, g: nat)
    requires AllocOk(lay, gds, st, used, free, a) && g < |gds| && gds[g].freeBlocks > 0
    ensures 0 < lay.blocksPerGroup <= 32 * a && gds[g].blockBitmap < |st| && gds[g].blockBitmap in lay.meta
    ensures exists k: nat :: k < lay.blocksPerGroup && !BitAt(st[gds[g].blockBitmap], k)
  {
    var k :| k in FreeBits(st[gds[g].blockBitmap], lay.blocksPerGroup);
  }

  /** The free counter is zero exactly when no block is free. */
  lemma FreeZero(lay: Layout, gds: seq<GroupDesc>, st: seq<Block>, used: set<nat>, free: nat, a: nat)
    requires AllocOk(lay, gds, st, used, free, a)
    ensures free == 0 <==> lay.FreeSet(used) == {}
  {
    FreeSumZero(gds);
    if b :| b in lay.FreeSet(used) {
      FreeBlockCounted(lay, gds, st, used, free, a, b);
    }
    if g: nat :| g < |gds| && gds[g].freeBlocks != 0 {
      var k :| k in FreeBits(st[gds[g].blockBitmap], lay.blocksPerGroup);
      FreeBitIsFreeBlock(lay, gds, st, used, g, k);
    }
  }

  /** The first clear bit of the first group with a clear bit is the lowest free block. */
  lemma LowestFree(lay: Layout, gds: seq<GroupDesc>, st: seq<Block>, used: set<nat>, free: nat, a: nat, g: nat, k: nat)
    requires AllocOk(lay, gds, st, used, free, a) && g < |gds| && k < lay.blocksPerGroup
    requires !BitAt(st[gds[g].blockBitmap], k)
    requires forall h :: 0 <= h < g ==> gds[h].freeBlocks == 0
    requires forall l: nat :: l < k ==> BitAt(st[gds[g].blockBitmap], l)
    ensures BlockNo(lay, g, k) in lay.FreeSet(used)
    ensures forall b :: b in lay.FreeSet(used) ==> BlockNo(lay, g, k) <= b
    ensures k / 32 < a
  {
    FreeBitIsFreeBlock(lay, gds, st, used, g, k);
    forall b | b in lay.FreeSet(used) ensures BlockNo(lay, g, k) <= b {
      GroupAndBit(lay, gds, a, b);
      var h, l := GroupOf(lay, b), BitOf(lay, b);
      FreeBitIsFreeBlock(lay, gds, st, used, h, l);
      assert l in FreeBits(st[gds[h].blockBitmap], lay.blocksPerGroup);
      BlockNoOrder(lay, g, k, h, l);
    }
  }

  /** check_block_number's reasons to panic. */
  predicate SystemBlock(lay: Layout, d: GroupDesc, block: nat) {
    || block == d.inodeBitmap
    || block == d.blockBitmap
    || d.inodeTable <= block < d.inodeTable + lay.inodeTableBlocks
    || block >= lay.blocksCount
  }

  /** No block that a file may have makes check_block_number panic. */
  lemma NotSystem(lay: Layout, gds: seq<GroupDesc>, st: seq<Block>, used: set<nat>, free: nat, a: nat, g: nat, b: nat)
    requires AllocOk(lay, gds, st, used, free, a) && g < |gds| && lay.Usable(b)
    ensures !SystemBlock(lay, gds[g], b)
  {
  }

  /** The bit of a block in use is set, in a bitmap block of the store. */
  lemma UsedBlockBit(lay: Layout, gds: seq<GroupDesc>, st: seq<Block>, used: set<nat>, free: nat, a: nat, b: nat)
    requires AllocOk(lay, gds, st, used, free, a) && b in used
    ensures 0 < lay.blocksPerGroup && lay.Usable(b)
    ensures var g, k := GroupOf(lay, b), BitOf(lay, b);
            && 0 <= g < |gds| && 0 <= k < lay.blocksPerGroup && k / 32 < a && BlockNo(lay, g, k) == b
            && gds[g].blockBitmap < |st| && gds[g].blockBitmap in lay.meta
            && BitAt(st[gds[g].blockBitmap], k)
  {
    GroupAndBit(lay, gds, a, b);
    hide BlockNo;
  }

  /** Which bit of which bitmap stands for a block, and what it says: set for the file system's own blocks and for those
      in use. */
  lemma BitmapOnDisk(lay: Layout, gds: seq<GroupDesc>, st: seq<Block>, used: set<nat>, free: nat, a: nat, b: nat)
    requires AllocOk(lay, gds, st, used, free, a) && lay.firstDataBlock <= b < lay.blocksCount
    ensures 0 < lay.blocksPerGroup
    ensures var i := b - lay.firstDataBlock;
            var g, k := i / lay.blocksPerGroup, i % lay.blocksPerGroup;
            && 0 <= g < |gds| && gds[g].blockBitmap < |st| && k / 32 < |st[gds[g].blockBitmap]|
            && (st[gds[g].blockBitmap][k / 32] / Pow2(k % 32) % 2 == 1 <==> b in lay.meta || b in used)
  {
    GroupAndBit(lay, gds, a, b);
    var g, k := GroupOf(lay, b), BitOf(lay, b);
    BitInWord(st[gds[g].blockBitmap], k);
    hide BlockNo, BitAt, WithBit, WithoutBit;
  }

  lemma BlockNoInverse(lay: Layout, g: nat, k: nat)
    requires k < lay.blocksPerGroup
    ensures GroupOf(lay, BlockNo(lay, g, k)) == g && BitOf(lay, BlockNo(lay, g, k)) == k
  {
    DivModOf(g, k, lay.blocksPerGroup);
  }

  /** The whole effect of taking or giving back block b: the bit that stands for it, in its group's bitmap, and that
      group's counter. */
  ghost predicate Moved(lay: Layout, gds: seq<GroupDesc>, st: seq<Block>, gds2: seq<GroupDesc>, st2: seq<Block>, b: nat,
                        taken: bool)
  {
    && 0 < lay.blocksPerGroup && lay.firstDataBlock <= b
    && var g, k := GroupOf(lay, b), BitOf(lay, b);
       && 0 <= g < |gds| && gds[g].blockBitmap < |st| && k / 32 < |st[gds[g].blockBitmap]|
       && (BitAt(st[gds[g].blockBitmap], k) <==> !taken)
       && (taken ==> gds[g].freeBlocks > 0)
       && gds2 == gds[g := Adjust(gds[g], taken)]
       && st2 == st[gds[g].blockBitmap := Flip(st[gds[g].blockBitmap], k, taken)]
  }

  lemma MovedIs(lay: Layout, gds: seq<GroupDesc>, st: seq<Block>, g: nat, k: nat, taken: bool)
    requires g < |gds| && k < lay.blocksPerGroup && gds[g].blockBitmap < |st| && k / 32 < |st[gds[g].blockBitmap]|
    requires (BitAt(st[gds[g].blockBitmap], k) <==> !taken) && (taken ==> gds[g].freeBlocks > 0)
    ensures Moved(lay, gds, st, gds[g := Adjust(gds[g], taken)],
                  st[gds[g].blockBitmap := Flip(st[gds[g].blockBitmap], k, taken)], BlockNo(lay, g, k), taken)
  {
    BlockNoInverse(lay, g, k);
  }

  /** What becomes of the books when bit k of group g, the lowest clear one, is taken. */
  lemma TakeLowest(lay: Layout, gds: seq<GroupDesc>, st: seq<Block>, used: set<nat>, free: nat, a: nat, g: nat, k: nat)
    requires AllocOk(lay, gds, st, used, free, a) && g < |gds| && k < lay.blocksPerGroup
    requires gds[g].blockBitmap < |st| && !BitAt(st[gds[g].blockBitmap], k)
    requires forall h :: 0 <= h < g ==> gds[h].freeBlocks == 0
    requires forall l: nat :: l < k ==> BitAt(st[gds[g].blockBitmap], l)
    ensures BlockNo(lay, g, k) in lay.FreeSet(used) && BlockNo(lay, g, k) !in used
    ensures forall b :: b in lay.FreeSet(used) ==> BlockNo(lay, g, k) <= b
    ensures !SystemBlock(lay, gds[g], BlockNo(lay, g, k))
    ensures gds[g].freeBlocks > 0 && free > 0 && k / 32 < |st[gds[g].blockBitmap]|
    ensures var gds2, st2 := gds[g := Adjust(gds[g], true)],
                             st[gds[g].blockBitmap := Flip(st[gds[g].blockBitmap], k, true)];
            && AllocOk(lay, gds2, st2, used + {BlockNo(lay, g, k)}, free - 1, a)
            && Moved(lay, gds, st, gds2, st2, BlockNo(lay, g, k), true)
  {
    LowestFree(lay, gds, st, used, free, a, g, k);
    StoreWidth(lay, gds, st, used, free, a, gds[g].blockBitmap);
    hide AllocOk, BlockNo, Flip, BitAt, Moved;
    NotSystem(lay, gds, st, used, free, a, g, BlockNo(lay, g, k));
    BitFlipped(lay, gds, st, used, free, a, g, k, true);
    MovedIs(lay, gds, st, g, k, true);
  }

  lemma StoreWidth(lay: Layout, gds: seq<GroupDesc>, st: seq<Block>, used: set<nat>, free: nat, a: nat, b: nat)
    requires AllocOk(lay, gds, st, used, free, a) && b < |st|
    ensures |st[b]| == a
  {
  }

  /** What becomes of the books when a block in use is given back. */
  lemma GiveBack(lay: Layout, gds: seq<GroupDesc>, st: seq<Block>, used: set<nat>, free: nat, a: nat, b: nat)
    requires AllocOk(lay, gds, st, used, free, a) && b in used
    ensures 0 < lay.blocksPerGroup && lay.firstDataBlock <= b < lay.blocksCount
    ensures var g, k := GroupOf(lay, b), BitOf(lay, b);
            && 0 <= g < |gds| && 0 <= k < lay.blocksPerGroup && k / 32 < a
            && gds[g].blockBitmap < |st| && gds[g].blockBitmap in lay.meta && BitAt(st[gds[g].blockBitmap], k)
            && !SystemBlock(lay, gds[g], b) && |st[gds[g].blockBitmap]| == a
            && var gds2, st2 := gds[g := Adjust(gds[g], false)],
                                st[gds[g].blockBitmap := Flip(st[gds[g].blockBitmap], k, false)];
               && AllocOk(lay, gds2, st2, used - {b}, free + 1, a)
               && Moved(lay, gds, st, gds2, st2, b, false)
  {
    UsedBlockBit(lay, gds, st, used, free, a, b);
    hide AllocOk, BlockNo, GroupOf, BitOf, Moved, Flip, BitAt;
    var g, k := GroupOf(lay, b), BitOf(lay, b);
    StoreWidth(lay, gds, st, used, free, a, gds[g].blockBitmap);
    NotSystem(lay, gds, st, used, free, a, g, b);
    BitFlipped(lay, gds, st, used, free, a, g, k, false);
    MovedIs(lay, gds, st, g, k, false);
  }

  /** Taking a block and giving it back restores every bitmap and every group's counter. */
  lemma AllocThenFree(lay: Layout, gds: seq<GroupDesc>, st: seq<Block>, gds1: seq<GroupDesc>, st1: seq<Block>,
                      gds2: seq<GroupDesc>, st2: seq<Block>, b: nat)
    requires Moved(lay, gds, st, gds1, st1, b, true) && Moved(lay, gds1, st1, gds2, st2, b, false)
    ensures gds2 == gds && st2 == st
  {
    var g, k := GroupOf(lay, b), BitOf(lay, b);
    AllocThenClear(st[gds[g].blockBitmap], k);
    assert gds2 == gds;
    assert st2 == st;
  }
}
