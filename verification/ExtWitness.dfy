/** A small volume, and what becomes of its i_blocks where the block map operations miscount. */
module ExtWitness {
  import opened Words
  import opened ExtGeometry
  import opened BlockStore
  import opened BlockTree
  import opened ExtBitmap
  import opened ExtAlloc
  import opened ExtMapSpec
  import opened ExtVolume

  const INO: nat := 11

  /** Blocks of 1 KiB: 1 is the block bitmap, 2 the inode bitmap, 3 the inode table, 4 and 5 are data blocks. */
  const GEO: Geometry := Geometry(1024, 2, 256, 0x1_0000, 268, 65804, 0xFFFF_0000)
  const LAYOUT: Layout := Layout(1, 6, 8, 1, {1, 2, 3})
  const GROUP: GroupDesc := GroupDesc(1, 2, 3, 2, 0)

  /** The bitmap's first word: blocks 4 and 5 are free, and there are no blocks 6, 7 and 8. */
  const BITS: Word := 0xE7

  lemma TheBits(k: nat)
    requires k < 8
    ensures TestBit(BITS, k) <==> k != 3 && k != 4
  {
    assert TestBit(231, 1) == TestBit(115, 0) && TestBit(231, 2) == TestBit(115, 1) == TestBit(57, 0);
    assert TestBit(231, 3) == TestBit(115, 2) == TestBit(57, 1) == TestBit(28, 0);
    assert TestBit(231, 4) == TestBit(115, 3) == TestBit(57, 2) == TestBit(28, 1) == TestBit(14, 0);
    assert TestBit(231, 5) == TestBit(115, 4) == TestBit(57, 3) == TestBit(28, 2) == TestBit(14, 1) == TestBit(7, 0);
    assert TestBit(28, 3) == TestBit(14, 2) == TestBit(7, 1) == TestBit(3, 0);
    assert TestBit(231, 6) == TestBit(115, 5) == TestBit(57, 4) == TestBit(28, 3);
    assert TestBit(28, 4) == TestBit(14, 3) == TestBit(7, 2) == TestBit(3, 1) == TestBit(1, 0);
    assert TestBit(231, 7) == TestBit(115, 6) == TestBit(57, 5) == TestBit(28, 4);
  }

  /** Nothing is reached from an inode without blocks. */
  lemma {:induction false} NothingReached(ib: seq<Word>, st: seq<Block>, p: Path)
    requires |p| >= 1 && forall o :: 0 <= o < |ib| ==> ib[o] == 0
    ensures Entry(ib, st, p) == 0
  {
    if |p| > 1 {
      NothingReached(ib, st, p[..|p| - 1]);
    }
  }

  lemma SmallGroup(k: nat)
    ensures BlockNo(LAYOUT, 0, k) == k + 1
  {
  }

  lemma NextGroup()
    ensures BlockNo(LAYOUT, 1, 0) == 9
  {
  }

  lemma SmallLayout()
    ensures LayoutOk(LAYOUT, [GROUP], 256)
  {
    hide BlockNo;
    SmallGroup(0);
    NextGroup();
    assert forall g :: 0 <= g < |[GROUP]| ==> [GROUP][g] == GROUP;
  }

  lemma SmallBits(bm: seq<Word>)
    requires |bm| == 256 && bm[0] == BITS
    ensures forall k: nat :: k < 8 ==> (BitAt(bm, k) <==> k != 3 && k != 4)
    ensures |FreeBits(bm, 8)| == 2
  {
    forall k: nat | k < 8 ensures BitAt(bm, k) <==> k != 3 && k != 4 {
      TheBits(k);
    }
    assert FreeBits(bm, 8) == {3, 4};
  }

  lemma SmallBooks(st: seq<Block>)
    requires |st| == 6 && (forall b :: 0 <= b < 6 ==> |st[b]| == 256) && st[1][0] == BITS
    ensures AllocOk(LAYOUT, [GROUP], st, {}, 2, 256)
  {
    hide BitAt, FreeBits, LayoutOk, BlockNo;
    SmallLayout();
    SmallBits(st[1]);
    forall k: nat | k < 8
      ensures BitAt(st[1], k) <==> BlockNo(LAYOUT, 0, k) >= 6 || BlockNo(LAYOUT, 0, k) in LAYOUT.meta
    {
      SmallGroup(k);
      assert LAYOUT.meta == {1, 2, 3};
    }
    assert BitsOk(LAYOUT, [GROUP], st, {});
    assert FreeSum([]) == 0;
    assert [GROUP][..0] == [];
    assert FreeSum([GROUP]) == 2;
  }

  method NewBlock(first: Word) returns (b: array<Word>)
    ensures fresh(b) && b.Length == 256 && b[0] == first
  {
    b := new Word[256](_ => 0);
    b[0] := first;
  }

  method SmallStore() returns (dev: Store)
    ensures dev.Valid() && |dev.blocks| == 6 && dev.blockWords == 256 && fresh(dev.Bufs())
    ensures dev.Content()[1][0] == BITS
  {
    var blocks: seq<array<Word>> := [];
    for i := 0 to 6
      invariant |blocks| == i && forall b :: 0 <= b < i ==> blocks[b].Length == 256 && fresh(blocks[b])
      invariant forall b, c :: 0 <= b < c < i ==> blocks[b] != blocks[c]
      invariant i > 1 ==> blocks[1][0] == BITS
    {
      var block := NewBlock(if i == 1 then BITS else 0);
      blocks := blocks + [block];
    }
    dev := new Store.Of(256, blocks);
  }

  /** The small volume, mounted: one inode without blocks, and two free blocks. */
  method Mount() returns (v: Volume)
    ensures fresh(v) && fresh(v.groupDescs) && fresh(v.dev.Bufs())
    ensures v.Valid() && v.inodes.Keys == {INO} && v.freeBlocks == 2 && v.held == {}
    ensures v.geo == GEO && v.Map(INO) == map[] && v.AccountedFor(INO) && v.NoEmpty()
  {
    hide AllocOk, Tree.Valid, Entry, FileMap, NoEmptyNodes, Accounted;
    var dev := SmallStore();
    var groupDescs := new GroupDesc[][GROUP];
    var ib: seq<Word> := Zeros(N_BLOCKS);
    v := new Volume.Mount(GEO, LAYOUT, dev, groupDescs, 2, map[INO := Inode(ib, 0, 0, true)], map[]);
    SmallBooks(dev.Content());
    assert v.Gds() == [GROUP];
    assert v.Used() == {};
    SmallTree(v.T());
    NothingMapped(v.T());
    NothingCharged(v.S(INO));
  }

  lemma SmallTree(t: Tree)
    requires t.roots.Keys == {INO} && |t.roots[INO]| == N_BLOCKS && t.owner == map[]
    requires forall o :: 0 <= o < N_BLOCKS ==> t.roots[INO][o] == 0
    requires forall b :: 0 <= b < |t.store| ==> |t.store[b]| == 256
    ensures t.Valid(256) && forall p: Path :: |p| >= 1 ==> t.At(INO, p) == 0
  {
    hide Entry;
    forall p: Path | |p| >= 1 ensures t.At(INO, p) == 0 {
      NothingReached(t.roots[INO], t.store, p);
    }
  }

  lemma NothingMapped(t: Tree)
    requires t.roots.Keys == {INO} && t.owner == map[] && forall p: Path :: |p| >= 1 ==> t.At(INO, p) == 0
    ensures FileMap(t, GEO, INO) == map[] && NoEmptyNodes(t, 256)
  {
    hide Entry, PathOf;
  }

  lemma NothingCharged(s: Snap)
    requires s.t.owner == map[] && s.sectors == 0
    ensures Accounted(s, 2, INO)
  {
    assert OwnedBy(s.t.owner, INO) == {};
    ChargeNone(0, 2);
  }

  /** delete_map_entry at a hole takes a block's sectors off i_blocks all the same. */
  method DeleteHole() returns (v: Volume)
    ensures v.Valid() && v.inodes.Keys == {INO} && v.Map(INO) == map[] && !v.AccountedFor(INO)
  {
    hide Volume.Booked, Volume.Mapped, Volume.Map, Volume.AccountedFor, Volume.PathAt, Pruned, SameData;
    v := Mount();
    DirectSlot(v);
    v.DeleteMapEntry(INO, 0);
  }

  lemma DirectSlot(v: Volume)
    requires v.Wired() && INO in v.inodes && v.geo == GEO
    ensures BlockIndex(v.geo, 0) == 0 && v.PathAt(0) == [0] && !v.SlotMissing(INO, 0)
  {
    hide Entry;
    v.OffsetsOf(0);
  }

  /** It takes one free block to map the first block of a file that has none there. */
  lemma DirectCost(v: Volume)
    requires v.Wired() && INO in v.inodes && v.geo == GEO
    ensures v.Cost(INO, 0) <= 1 && Missing(v.T(), INO, v.PathAt(0), 1) == 0
  {
    hide Entry;
    DirectSlot(v);
  }

  /** The small volume with the file's first block mapped. */
  method MapFirst() returns (v: Volume)
    ensures fresh(v) && fresh(v.groupDescs) && fresh(v.dev.Bufs())
    ensures v.Valid() && v.geo == GEO && v.inodes.Keys == {INO} && v.Map(INO).Keys == {0} && v.AccountedFor(INO)
    ensures v.freeBlocks >= 1
  {
    hide Volume.Booked, Volume.Mapped, Volume.Map, Volume.AccountedFor, Volume.PathAt, Entry, Volume.Cost, SameBlocks,
      DataBlocks, NoEmptyNodes;
    v := Mount();
    DirectSlot(v);
    DirectCost(v);
    var block := v.NewBlock(INO, 0);
  }

  /** enter_map_entry at a mapped position adds a block's sectors to i_blocks all the same. */
  method EnterTwice() returns (v: Volume)
    ensures v.Valid() && v.inodes.Keys == {INO} && v.Map(INO).Keys == {0} && !v.AccountedFor(INO)
  {
    hide Volume.Booked, Volume.Mapped, Volume.Map, Volume.AccountedFor, Volume.PathAt, SameData, Entry, Volume.Cost,
      Missing, Moved, SameBlocks, DataBlocks, NoEmptyNodes;
    v := MapFirst();
    label Mapped:
    var second := v.AllocBlock();
    v.StillMapped@Mapped();
    assert v.Standing()[INO] == old@Mapped(v.Standing())[INO];
    DirectSlot(v);
    DirectCost(v);
    v.InUseInStore();
    var sc := v.EnterMapEntry(INO, 0, second);
  }
}
