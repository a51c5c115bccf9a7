/** extfs/block.c: a mounted volume, its block allocator and the block maps of its inodes. */
module ExtVolume {
  import opened Words
  import opened ExtGeometry
  import opened BlockStore
  import opened BlockTree
  import opened ExtBitmap
  import opened ExtAlloc
  import opened ExtMapSpec

  datatype Inode = Inode(iBlock: seq<Word>, iBlocks: Word, iSize: Word, hasSize: bool)

  /** Between two states of the inode table and of the inodes' standing, nothing but inode ino's map and account
      differs; its size does not. */
  ghost predicate OthersSame(ix: map<nat, Inode>, m: map<nat, (map<nat, Word>, bool)>,
                             ix2: map<nat, Inode>, m2: map<nat, (map<nat, Word>, bool)>, ino: nat) {
    && ix2.Keys == ix.Keys == m.Keys == m2.Keys
    && ino in ix2
    && ix2[ino].iSize == ix[ino].iSize && ix2[ino].hasSize == ix[ino].hasSize
    && forall j :: j in ix2 && j != ino ==> ix2[j] == ix[j] && m2[j] == m[j]
  }

  /** Inode ino's block array and i_blocks may differ, nothing else in the inode table. */
  ghost predicate OnlyMap(ix: map<nat, Inode>, ix2: map<nat, Inode>, ino: nat) {
    && ix2.Keys == ix.Keys
    && ino in ix2
    && (forall j :: j in ix2 && j != ino ==> ix2[j] == ix[j])
    && ix2[ino].iSize == ix[ino].iSize && ix2[ino].hasSize == ix[ino].hasSize
  }

  lemma OnlyMapRefl(ix: map<nat, Inode>, ino: nat)
    requires ino in ix
    ensures OnlyMap(ix, ix, ino)
  {
  }

  lemma OnlyMapTrans(ix: map<nat, Inode>, ix1: map<nat, Inode>, ix2: map<nat, Inode>, ino: nat)
    requires OnlyMap(ix, ix1, ino) && OnlyMap(ix1, ix2, ino)
    ensures OnlyMap(ix, ix2, ino)
  {
  }

  lemma OthersRefl(ix: map<nat, Inode>, m: map<nat, (map<nat, Word>, bool)>, ino: nat)
    requires ix.Keys == m.Keys && ino in ix
    ensures OthersSame(ix, m, ix, m, ino)
  {
  }

  lemma OthersFacts(ix: map<nat, Inode>, m: map<nat, (map<nat, Word>, bool)>,
                    ix2: map<nat, Inode>, m2: map<nat, (map<nat, Word>, bool)>, ino: nat)
    requires OthersSame(ix, m, ix2, m2, ino)
    ensures ix2.Keys == ix.Keys && ino in ix2
    ensures ix2[ino].iSize == ix[ino].iSize && ix2[ino].hasSize == ix[ino].hasSize
  {
  }

  lemma OthersTrans(ix: map<nat, Inode>, m: map<nat, (map<nat, Word>, bool)>,
                    ix1: map<nat, Inode>, m1: map<nat, (map<nat, Word>, bool)>,
                    ix2: map<nat, Inode>, m2: map<nat, (map<nat, Word>, bool)>, ino: nat)
    requires OthersSame(ix, m, ix1, m1, ino) && OthersSame(ix1, m1, ix2, m2, ino)
    ensures OthersSame(ix, m, ix2, m2, ino)
  {
  }

  /** A write to slot k of the indirect block at path p of inode i, which exchanges block u there for v. */
  lemma SlotWritten(lay: Layout, gds: seq<GroupDesc>, free: nat, t: Tree, held: set<nat>, a: nat, i: nat, p: Path,
                    k: nat, v: Word)
    requires t.Valid(a) && t.owner.Keys !! held && AllocOk(lay, gds, t.store, t.owner.Keys + held, free, a)
    requires i in t.roots && Interior(a, p) && k < a && t.At(i, p) != 0 && (v == 0 || v in held)
    requires Interior(a, p + [k]) ==> t.EmptyBlock(t.At(i, p + [k])) && t.EmptyBlock(v)
    ensures t.At(i, p) < |t.store| && k < |t.store[t.At(i, p)]|
    ensures var u, o := t.At(i, p + [k]), Owner(i, p + [k]);
            var t2 := Tree(t.roots, PutWord(t.store, t.At(i, p), k, v), Reown(t.owner, u, v, o));
            && t2.Valid(a) && ChangedAt(t, t2, a, i, p + [k], v)
            && t2.owner.Keys !! Rehold(held, u, v)
            && AllocOk(lay, gds, t2.store, t2.owner.Keys + Rehold(held, u, v), free, a)
  {
    UsedInStore(lay, gds, t.store, t.owner.Keys + held, free, a);
    ExtendPath(a, p, k);
    OwnedThere(t, a, i, p);
    OwnedThere(t, a, i, p + [k]);
    hide AllocOk, Tree.Valid, Entry, ChangedAt, Tree.EmptyBlock, PutWord;
    PutValid(t, a, i, p, k, v);
    SameUse(t.owner, held, t.At(i, p + [k]), v, Owner(i, p + [k]));
    PutBooked(lay, gds, t.store, t.owner.Keys + held, free, a, t.At(i, p), k, v);
  }

  lemma OwnedThere(t: Tree, a: nat, i: nat, p: Path)
    requires t.Valid(a) && i in t.roots && ValidPath(a, p)
    ensures t.At(i, p) != 0 ==> t.At(i, p) in t.owner && t.owner[t.At(i, p)] == Owner(i, p)
  {
  }

  lemma UsedInStore(lay: Layout, gds: seq<GroupDesc>, st: seq<Block>, used: set<nat>, free: nat, a: nat)
    requires AllocOk(lay, gds, st, used, free, a)
    ensures forall b :: b in used ==> lay.Usable(b) && 0 < b < |st|
    ensures 0 !in used
  {
  }

  lemma PutBooked(lay: Layout, gds: seq<GroupDesc>, st: seq<Block>, used: set<nat>, free: nat, a: nat, b: nat, k: nat,
                  v: Word)
    requires AllocOk(lay, gds, st, used, free, a) && b in used && b < |st| && k < |st[b]|
    ensures AllocOk(lay, gds, PutWord(st, b, k, v), used, free, a)
  {
    UsedInStore(lay, gds, st, used, free, a);
    AllocFrame(lay, gds, st, used, free, a, PutWord(st, b, k, v));
  }

  class Volume {
    const geo: Geometry
    const lay: Layout
    const dev: Store
    const groupDescs: array<GroupDesc>
    var freeBlocks: nat
    var inodes: map<nat, Inode>

    /** The owner of every block reachable from an inode. */
    ghost var owner: map<nat, Owner>
    /** Blocks allocated and in the hands of a caller: not yet entered in a map, or removed from one. */
    ghost var held: set<nat>

    constructor Mount(geo: Geometry, lay: Layout, dev: Store, groupDescs: array<GroupDesc>, freeBlocks: nat,
                      inodes: map<nat, Inode>, ghost owner: map<nat, Owner>)
      ensures this.geo == geo && this.lay == lay && this.dev == dev && this.groupDescs == groupDescs
      ensures this.freeBlocks == freeBlocks && this.inodes == inodes && this.owner == owner && held == {}
    {
      this.geo, this.lay, this.dev, this.groupDescs := geo, lay, dev, groupDescs;
      this.freeBlocks, this.inodes := freeBlocks, inodes;
      this.owner, this.held := owner, {};
    }

    ghost function Roots(): map<nat, seq<Word>>
      reads this`inodes
    {
      map i | i in inodes :: inodes[i].iBlock
    }

    ghost function T(): Tree
      requires dev.Valid()
      reads this`inodes, this`owner, dev.Bufs()
    {
      Tree(Roots(), dev.Content(), owner)
    }

    ghost function Gds(): (gds: seq<GroupDesc>)
      reads groupDescs
      ensures |gds| == groupDescs.Length && forall g :: 0 <= g < |gds| ==> gds[g] == groupDescs[g]
    {
      groupDescs[..]
    }

    ghost function Used(): set<nat>
      reads this`owner, this`held
    {
      owner.Keys + held
    }

    ghost predicate Wired() {
      && ValidGeometry(geo)
      && dev.Valid()
      && dev.blockWords == geo.addrInBlock
    }

    /** The allocator's bitmaps and counters agree with the blocks in use. */
    ghost predicate Booked()
      requires dev.Valid()
      reads this`owner, this`held, this`freeBlocks, groupDescs, dev.Bufs()
    {
      AllocOk(lay, Gds(), dev.Content(), Used(), freeBlocks, geo.addrInBlock)
    }

    /** The block maps are disjoint trees, and nothing held is in one. */
    ghost predicate Mapped()
      requires dev.Valid()
      reads this`inodes, this`owner, this`held, dev.Bufs()
    {
      T().Valid(geo.addrInBlock) && owner.Keys !! held
    }

    ghost predicate Valid()
      reads this, groupDescs, dev.Bufs()
    {
      Wired() && Booked() && Mapped()
    }

    /** Blocks in use that hold no slots: data blocks, and blocks in a caller's hands. */
    ghost function Data(): set<nat>
      reads this`owner, this`held
    {
      DataBlocks(geo.addrInBlock, owner, held)
    }

    /** Only metadata blocks differ from the old store. */
    twostate predicate OnlyMetaChanged()
      requires dev.Valid()
      reads dev.Bufs()
    {
      forall b: nat :: b < |dev.blocks| && b !in lay.meta ==> dev.Content()[b] == old(dev.Content())[b]
    }

    /** Writes to metadata blocks alone do not show in any block map. */
    twostate lemma MetaWrite()
      requires old(Valid()) && OnlyMetaChanged()
      requires inodes == old(inodes) && owner == old(owner)
      ensures T().Valid(geo.addrInBlock)
      ensures SameEntries(old(T()), T(), geo.addrInBlock)
    {
      var t := old(T());
      FrameValid(t, geo.addrInBlock, dev.Content());
      assert T() == t.(store := dev.Content());
    }

    twostate lemma MetaIsNotData()
      requires old(Valid()) && OnlyMetaChanged()
      ensures SameBlocks(old(Data()), old(dev.Content()), dev.Content())
    {
      hide Tree.Valid, Entry, Interior;
      assert forall b :: b in old(Data()) ==> b in old(Used());
    }

    /** alloc_bit on a group's block bitmap. */
    method TakeBit(bb: nat) returns (bit: int)
      requires Wired() && bb < |dev.blocks| && lay.blocksPerGroup <= 32 * geo.addrInBlock
      modifies dev.Bufs()
      ensures bit == -1 || 0 <= bit < lay.blocksPerGroup
      ensures var bm := old(dev.Content())[bb];
              if bit == -1 then
                dev.Content() == old(dev.Content()) && forall k: nat :: k < lay.blocksPerGroup ==> BitAt(bm, k)
              else
                && dev.Content() == old(dev.Content())[bb := Flip(bm, bit, true)]
                && !BitAt(bm, bit)
                && forall k: nat :: k < bit ==> BitAt(bm, k)
    {
      bit := AllocBit(dev.blocks[bb], lay.blocksPerGroup, 0);
      dev.OneBlockChanged(bb);
    }

    /** What alloc_block does once it has come to a group that counts a free block. */
    method AllocInGroup(group: nat) returns (block: nat)
      requires Wired() && Booked() && group < groupDescs.Length && groupDescs[group].freeBlocks > 0
      requires forall g :: 0 <= g < group ==> groupDescs[g].freeBlocks == 0
      modifies this`freeBlocks, this`held, groupDescs, dev.Bufs()
      ensures Booked()
      ensures block in lay.FreeSet(old(Used()))
      ensures forall b :: b in lay.FreeSet(old(Used())) ==> block <= b
      ensures held == old(held) + {block} && freeBlocks == old(freeBlocks) - 1
      ensures OnlyMetaChanged()
      ensures Moved(lay, old(Gds()), old(dev.Content()), Gds(), dev.Content(), block, true)
    {
      hide AllocOk, BlockNo, Flip, BitAt, Moved, SystemBlock, Layout.FreeSet, Layout.Usable, ValidGeometry;
      ghost var gds, st, used, free := Gds(), dev.Content(), Used(), freeBlocks;
      ghost var bb, a := gds[group].blockBitmap, geo.addrInBlock;
      CountedGroup(lay, gds, st, used, free, a, group);
      var bit := TakeBit(groupDescs[group].blockBitmap);
      if bit == -1 {
        // The source panics when a group that counts a free block has no clear bit.
        assert false;
      }
      ghost var st2 := dev.Content();
      block := BlockNo(lay, group, bit);
      TakeLowest(lay, gds, st, used, free, a, group, bit);
      assert !SystemBlock(lay, groupDescs[group], block);
      groupDescs[group] := groupDescs[group].(freeBlocks := groupDescs[group].freeBlocks - 1);
      freeBlocks := freeBlocks - 1;
      held := held + {block};
      assert Used() == used + {block};
      assert Gds() == gds[group := Adjust(gds[group], true)];
      assert dev.Content() == st2;
    }

    /** alloc_block's search. The goal the source computes never reaches it: the lowest free block is taken. */
    method AllocLowest() returns (block: nat)
      requires Wired() && Booked()
      modifies this`freeBlocks, this`held, groupDescs, dev.Bufs()
      ensures Booked()
      ensures block == 0 <==> old(freeBlocks) == 0
      ensures block == 0 ==> dev.Content() == old(dev.Content()) && held == old(held) && freeBlocks == old(freeBlocks)
      ensures block != 0 ==> block in lay.FreeSet(old(Used()))
      ensures block != 0 ==> forall b :: b in lay.FreeSet(old(Used())) ==> block <= b
      ensures block != 0 ==> held == old(held) + {block} && freeBlocks == old(freeBlocks) - 1
      ensures block == 0 ==> Gds() == old(Gds())
      ensures block != 0 ==> Moved(lay, old(Gds()), old(dev.Content()), Gds(), dev.Content(), block, true)
      ensures OnlyMetaChanged()
    {
      hide AllocOk, Moved, Layout.FreeSet, ValidGeometry;
      InGroups();
      if freeBlocks == 0 {
        return 0;
      }
      ghost var gds, st := Gds(), dev.Content();
      var i := 0;
      while i <= groupDescs.Length
        invariant Gds() == gds && dev.Content() == st
        invariant held == old(held) && freeBlocks == old(freeBlocks)
        invariant forall g :: 0 <= g < i && g < |gds| ==> gds[g].freeBlocks == 0
      {
        var group := i % groupDescs.Length;
        SmallMod(i, groupDescs.Length);
        assert groupDescs[group] == gds[group];
        if groupDescs[group].freeBlocks == 0 {
          i := i + 1;
          continue;
        }
        block := AllocInGroup(group);
        return;
      }
      assert false;
    }

    /** There are groups, every usable block's number is positive, and some group counts a free block if any is. */
    lemma InGroups()
      requires Wired() && Booked()
      ensures groupDescs.Length > 0
      ensures (forall g :: 0 <= g < groupDescs.Length ==> groupDescs[g].freeBlocks == 0) ==> freeBlocks == 0
      ensures 0 !in lay.FreeSet(Used())
      ensures freeBlocks == 0 <==> lay.FreeSet(Used()) == {}
    {
      FreeSumZero(Gds());
      FreeZero(lay, Gds(), dev.Content(), Used(), freeBlocks, geo.addrInBlock);
    }

    /** alloc_block. */
    method AllocBlock() returns (block: nat)
      requires Valid()
      modifies this`freeBlocks, this`held, groupDescs, dev.Bufs()
      ensures Valid()
      ensures block == 0 <==> old(freeBlocks) == 0
      ensures block == 0 <==> lay.FreeSet(old(Used())) == {}
      ensures block == 0 ==> dev.Content() == old(dev.Content()) && held == old(held) && freeBlocks == old(freeBlocks)
      ensures block != 0 ==> block in lay.FreeSet(old(Used()))
      ensures block != 0 ==> forall b :: b in lay.FreeSet(old(Used())) ==> block <= b
      ensures block != 0 ==> held == old(held) + {block} && freeBlocks == old(freeBlocks) - 1
      ensures block == 0 ==> Gds() == old(Gds())
      ensures block != 0 ==> Moved(lay, old(Gds()), old(dev.Content()), Gds(), dev.Content(), block, true)
      ensures SameBlocks(old(Data()), old(dev.Content()), dev.Content())
      ensures Data() == if block == 0 then old(Data()) else old(Data()) + {block}
      ensures block != 0 ==> block !in old(Used())
      ensures SameEntries(old(T()), T(), geo.addrInBlock)
    {
      hide Tree.Valid, Entry, Moved, AllocOk, SameEntries, Volume.T, DataBlocks, ValidGeometry;
      InGroups();
      InUseInStore();
      ghost var d := Data();
      block := AllocLowest();
      MetaWrite();
      MetaIsNotData();
      DataTaken(geo.addrInBlock, owner, old(held), block);
    }

    /** clear_bit on a group's block bitmap. */
    method GiveBit(bb: nat, bit: nat) returns (sc: int)
      requires Wired() && bb < |dev.blocks| && bit < 32 * geo.addrInBlock
      modifies dev.Bufs()
      ensures sc == if BitAt(old(dev.Content())[bb], bit) then 0 else -1
      ensures sc == 0 ==> dev.Content() == old(dev.Content())[bb := Flip(old(dev.Content())[bb], bit, false)]
    {
      sc := ReleaseBit(dev.blocks[bb], bit);
      dev.OneBlockChanged(bb);
    }

    /** free_block's bookkeeping. */
    method FreeBit(block: nat)
      requires Wired() && Booked() && block in held
      requires block !in owner
      modifies this`freeBlocks, this`held, groupDescs, dev.Bufs()
      ensures Booked()
      ensures held == old(held) - {block} && freeBlocks == old(freeBlocks) + 1
      ensures Moved(lay, old(Gds()), old(dev.Content()), Gds(), dev.Content(), block, false)
      ensures OnlyMetaChanged()
    {
      hide AllocOk, BlockNo, GroupOf, BitOf, Moved, SystemBlock, Layout.Usable, Flip, BitAt, ValidGeometry;
      ghost var gds, st, used, free, a := Gds(), dev.Content(), Used(), freeBlocks, geo.addrInBlock;
      GiveBack(lay, gds, st, used, free, a, block);
      // Neither range panic is reachable for a block that was allocated.
      assert lay.firstDataBlock <= block < lay.blocksCount;
      var group := GroupOf(lay, block);
      var bit := BitOf(lay, block);
      assert !SystemBlock(lay, groupDescs[group], block);
      var sc := GiveBit(groupDescs[group].blockBitmap, bit);
      if sc != 0 {
        // The source panics when the block's bit is clear already.
        assert false;
      }
      ghost var st2 := dev.Content();
      groupDescs[group] := groupDescs[group].(freeBlocks := groupDescs[group].freeBlocks + 1);
      freeBlocks := freeBlocks + 1;
      held := held - {block};
      assert Used() == used - {block};
      assert Gds() == gds[group := Adjust(gds[group], false)];
      assert dev.Content() == st2;
    }

    /** free_block. */
    method FreeBlock(block: nat)
      requires Valid() && block in held
      modifies this`freeBlocks, this`held, groupDescs, dev.Bufs()
      ensures Valid()
      ensures held == old(held) - {block} && freeBlocks == old(freeBlocks) + 1
      ensures Moved(lay, old(Gds()), old(dev.Content()), Gds(), dev.Content(), block, false)
      ensures SameBlocks(old(Data()), old(dev.Content()), dev.Content())
      ensures Data() == old(Data()) - {block}
      ensures SameEntries(old(T()), T(), geo.addrInBlock)
    {
      hide Tree.Valid, Entry, AllocOk, Moved, SameEntries, Volume.T, DataBlocks, ValidGeometry;
      InUseInStore();
      FreeBit(block);
      MetaWrite();
      MetaIsNotData();
      DataGiven(geo.addrInBlock, owner, old(held), block);
    }

    /** A block taken and given back at once leaves the volume as it was, block for block and counter for counter. */
    method TakeAndGive() returns (block: nat)
      requires Valid()
      modifies this`freeBlocks, this`held, groupDescs, dev.Bufs()
      ensures Valid() && held == old(held) && freeBlocks == old(freeBlocks)
      ensures Gds() == old(Gds()) && dev.Content() == old(dev.Content())
      ensures block == 0 <==> old(freeBlocks) == 0
    {
      hide Volume.Standing, OthersSame, Volume.NoEmpty, Tree.Shape, Layout.Usable, ValidGeometry, Volume.Booked,
        Volume.Mapped, Moved;
      ghost var gds, st := Gds(), dev.Content();
      block := AllocBlock();
      if block != 0 {
        ghost var gds1, st1 := Gds(), dev.Content();
        FreeBlock(block);
        AllocThenFree(lay, gds, st, gds1, st1, Gds(), dev.Content(), block);
      }
    }

    /** Writes to data blocks alone touch neither the block maps nor the allocator's books. */
    twostate lemma DataWrite()
      requires old(Valid()) && inodes.Keys == old(inodes.Keys) && Roots() == old(Roots())
      requires owner == old(owner) && held == old(held) && freeBlocks == old(freeBlocks)
      requires Gds() == old(Gds())
      requires forall b: nat :: b < |dev.blocks| && b !in Data() ==> dev.Content()[b] == old(dev.Content())[b]
      ensures Valid()
      ensures SameEntries(old(T()), T(), geo.addrInBlock)
    {
      var t, a := old(T()), geo.addrInBlock;
      FrameValid(t, a, dev.Content());
      assert T() == t.(store := dev.Content());
      AllocFrame(lay, old(Gds()), t.store, old(Used()), old(freeBlocks), a, dev.Content());
    }

    /** Inode ino's block array may differ, nothing else in the inode table. */
    twostate predicate OnlyMapOf(ino: nat)
      reads this`inodes
    {
      ino in inodes && OnlyMap(old(inodes), inodes, ino)
    }

    /** An assignment to slot o of the inode's block array. */
    method SetRoot(ino: nat, o: nat, v: Word)
      requires Valid() && ino in inodes && o < N_BLOCKS
      requires v == 0 || v in held
      requires Interior(geo.addrInBlock, [o]) ==> T().EmptyBlock(T().At(ino, [o])) && T().EmptyBlock(v)
      modifies this`inodes, this`owner, this`held
      ensures Valid()
      ensures ChangedAt(old(T()), T(), geo.addrInBlock, ino, [o], v)
      ensures OnlyMapOf(ino) && inodes[ino].iBlocks == old(inodes)[ino].iBlocks
      ensures owner == Reown(old(owner), old(T()).At(ino, [o]), v, Owner(ino, [o]))
      ensures held == Rehold(old(held), old(T()).At(ino, [o]), v)
    {
      hide AllocOk, Tree.Valid, Entry, ChangedAt, Tree.EmptyBlock;
      InUseInStore();
      ghost var t, a := T(), geo.addrInBlock;
      ghost var u := t.At(ino, [o]);
      InTree(ino, [o]);
      var ib: seq<Word> := inodes[ino].iBlock[o := v];
      RootValid(t, a, ino, o, v, ib);
      SameUse(owner, held, u, v, Owner(ino, [o]));
      inodes := inodes[ino := inodes[ino].(iBlock := ib)];
      owner := Reown(owner, u, v, Owner(ino, [o]));
      held := Rehold(held, u, v);
      assert Roots() == t.roots[ino := ib];
      assert T() == Tree(t.roots[ino := ib], t.store, Reown(t.owner, u, v, Owner(ino, [o])));
      assert Used() == old(Used());
    }

    lemma InTree(ino: nat, p: Path)
      requires Valid() && ino in inodes && ValidPath(geo.addrInBlock, p)
      ensures T().At(ino, p) != 0 ==> T().At(ino, p) in owner && owner[T().At(ino, p)] == Owner(ino, p)
      ensures |inodes[ino].iBlock| == N_BLOCKS
    {
      assert |T().roots[ino]| == N_BLOCKS;
    }

    lemma InUseInStore()
      requires Valid()
      ensures |dev.blocks| > 0
      ensures forall b :: b in owner ==> lay.Usable(b) && 0 < b < |dev.blocks| && b < U32
      ensures forall b :: b in held ==> lay.Usable(b) && 0 < b < |dev.blocks| && b < U32
      ensures owner.Keys !! held && 0 !in owner && 0 !in held
      ensures Data() <= Used()
      ensures T().Shape(geo.addrInBlock)
    {
      assert forall b :: b in owner || b in held ==> b in Used();
    }

    /** write_indirect_block_entry, on the indirect block that inode ino reaches along path p. */
    method SetSlot(ghost ino: nat, ghost p: Path, block: nat, k: nat, v: Word)
      requires Valid() && ino in inodes && Interior(geo.addrInBlock, p) && k < geo.addrInBlock
      requires T().At(ino, p) == block != 0
      requires v == 0 || v in held
      requires Interior(geo.addrInBlock, p + [k]) ==> T().EmptyBlock(T().At(ino, p + [k])) && T().EmptyBlock(v)
      modifies this`owner, this`held, dev.Bufs()
      ensures Valid()
      ensures ChangedAt(old(T()), T(), geo.addrInBlock, ino, p + [k], v)
      ensures block < |dev.blocks| && dev.Content() == PutWord(old(dev.Content()), block, k, v)
      ensures owner == Reown(old(owner), old(T()).At(ino, p + [k]), v, Owner(ino, p + [k]))
      ensures held == Rehold(old(held), old(T()).At(ino, p + [k]), v)
    {
      hide AllocOk, Tree.Valid, Entry, ChangedAt, Tree.EmptyBlock, PutWord, Reown, Rehold, Interior, ValidGeometry;
      ghost var t, u := T(), T().At(ino, p + [k]);
      SlotWritten(lay, Gds(), freeBlocks, t, held, geo.addrInBlock, ino, p, k, v);
      dev.WriteWord(block, k, v);
      owner := Reown(owner, u, v, Owner(ino, p + [k]));
      held := Rehold(held, u, v);
      assert T() == Tree(t.roots, PutWord(t.store, block, k, v), Reown(t.owner, u, v, Owner(ino, p + [k])));
    }

    ghost function S(ino: nat): Snap
      requires dev.Valid() && ino in inodes
      reads this, dev.Bufs()
    {
      Snap(T(), held, freeBlocks, inodes[ino].iBlocks)
    }

    /** A cleared block from the free list, in the caller's hands: alloc_block and get_block with BLK_CLEAR. */
    method AllocCleared() returns (block: nat)
      requires Valid()
      modifies this`freeBlocks, this`held, groupDescs, dev.Bufs()
      ensures Valid()
      ensures block == 0 <==> old(freeBlocks) == 0
      ensures block == 0 ==> held == old(held) && freeBlocks == old(freeBlocks)
      ensures block != 0 ==> held == old(held) + {block} && freeBlocks == old(freeBlocks) - 1
      ensures block != 0 ==> block !in old(Used()) && T().EmptyBlock(block)
      ensures block != 0 ==> block !in old(Data()) && Data() == old(Data()) + {block}
      ensures block == 0 ==> Data() == old(Data())
      ensures SameBlocks(old(Data()), old(dev.Content()), dev.Content())
      ensures SameEntries(old(T()), T(), geo.addrInBlock)
    {
      hide Volume.Standing, OthersSame, Volume.NoEmpty, Moved, Tree.Shape, Layout.Usable, ValidGeometry,
        Volume.Booked, Volume.Mapped, Entry;
      block := AllocBlock();
      InUseInStore();
      label Allocated:
      if block != 0 {
        dev.Clear(block);
        DataWrite@Allocated();
      }
    }

    /** i_blocks += sb_sectors_in_block. */
    method AddSectors(ino: nat, ghost x: Word, ghost n: int)
      requires Valid() && ino in inodes && inodes[ino].iBlocks == AfterCharge(x, geo.sectorsInBlock, n)
      modifies this`inodes
      ensures Valid() && T() == old(T())
      ensures OnlyMapOf(ino) && inodes[ino].iBlock == old(inodes)[ino].iBlock
      ensures inodes[ino].iBlocks == AfterCharge(x, geo.sectorsInBlock, n + 1)
    {
      hide AllocOk, Tree.Valid, Entry, AfterCharge;
      ChargeOnce(x, geo.sectorsInBlock, n);
      inodes := inodes[ino := inodes[ino].(iBlocks := (inodes[ino].iBlocks + geo.sectorsInBlock) % U32)];
      assert T() == old(T()) by {
        assert Roots() == old(Roots());
      }
    }

    /** i_blocks -= sb_sectors_in_block. */
    method SubSectors(ino: nat, ghost x: Word, ghost n: int)
      requires Valid() && ino in inodes && inodes[ino].iBlocks == AfterCharge(x, geo.sectorsInBlock, n)
      modifies this`inodes
      ensures Valid() && T() == old(T())
      ensures OnlyMapOf(ino) && inodes[ino].iBlock == old(inodes)[ino].iBlock
      ensures inodes[ino].iBlocks == AfterCharge(x, geo.sectorsInBlock, n - 1)
    {
      hide AllocOk, Tree.Valid, Entry, AfterCharge;
      ChargeOnce(x, geo.sectorsInBlock, n);
      inodes := inodes[ino := inodes[ino].(iBlocks := (inodes[ino].iBlocks - geo.sectorsInBlock) % U32)];
      assert T() == old(T()) by {
        assert Roots() == old(Roots());
      }
    }

    /** The indirect block in one of the inode's own slots, supplied if it is missing. */
    method EnsureTop(ino: nat, o: nat) returns (block: nat)
      requires Valid() && ino in inodes && Interior(geo.addrInBlock, [o])
      modifies this, groupDescs, dev.Bufs()
      ensures Valid() && OnlyMapOf(ino)
      ensures Supplied(old(S(ino)), S(ino), geo.addrInBlock, geo.sectorsInBlock, ino, [o], block)
    {
      hide OnlyMap, Volume.Standing, OthersSame, Volume.NoEmpty, Moved, Tree.Shape, Layout.Usable, ValidGeometry,
        Volume.Booked, Volume.Mapped, SameBlocks, AfterCharge, Entry, ChangedAt, OwnedBy, DataBlocks, Reown, Rehold,
        Charged, Tree.EmptyBlock;
      ghost var ix := inodes;
      OnlyMapRefl(ix, ino);
      ghost var s0, a, sec := S(ino), geo.addrInBlock, geo.sectorsInBlock;
      InTree(ino, [o]);
      RootEntry(T(), ino, o);
      block := inodes[ino].iBlock[o];
      if block == 0 {
        block := AllocCleared();
        if block == 0 {
          ChargedIdle(s0, S(ino), a, sec, ino);
        } else {
          InUseInStore();
          ghost var t1 := T();
          EmptyZero(t1);
          ChargeNone(s0.sectors, sec);
          SetRoot(ino, o, block);
          ghost var ix1 := inodes;
          AddSectors(ino, s0.sectors, 0);
          OnlyMapTrans(ix, ix1, inodes, ino);
          ChargedLink(s0, S(ino), a, sec, ino, block, Owner(ino, [o]));
          ChangedAfterSame(s0.t, t1, T(), a, ino, [o], block);
        }
      } else {
        ChargedRefl(s0, a, sec, ino);
        ChangedNothing(s0.t, T(), a, ino, [o]);
      }
    }

    /** The indirect block in slot offs[t] of the indirect block at offs[..t], supplied if it is missing. */
    method EnsureNext(ino: nat, offs: Path, t: nat, block: nat) returns (next: nat)
      requires Valid() && ino in inodes && 1 <= t < |offs| && Interior(geo.addrInBlock, offs[..t + 1])
      requires block == T().At(ino, offs[..t]) != 0
      modifies this, groupDescs, dev.Bufs()
      ensures Valid() && OnlyMapOf(ino)
      ensures Supplied(old(S(ino)), S(ino), geo.addrInBlock, geo.sectorsInBlock, ino, offs[..t + 1], next)
    {
      hide OnlyMap, Volume.Standing, OthersSame, Volume.NoEmpty, Moved, Tree.Shape, Layout.Usable, ValidGeometry,
        Volume.Booked, Volume.Mapped, SameBlocks, AfterCharge, Entry, ChangedAt, OwnedBy, DataBlocks, Reown, Rehold,
        Charged, Tree.EmptyBlock, PutWord;
      ghost var ix := inodes;
      OnlyMapRefl(ix, ino);
      ghost var s0, a, sec, p, k := S(ino), geo.addrInBlock, geo.sectorsInBlock, offs[..t], offs[t];
      PathStep(a, offs, t);
      InTree(ino, p);
      InUseInStore();
      ChildEntry(T(), a, ino, p, k);
      next := dev.blocks[block][offs[t]];
      if next == 0 {
        next := AllocCleared();
        if next == 0 {
          ChargedIdle(s0, S(ino), a, sec, ino);
        } else {
          InUseInStore();
          InTree(ino, p);
          ghost var t1 := T();
          EmptyZero(t1);
          ChargeNone(s0.sectors, sec);
          NodeIsNotData(a, owner, s0.held, block);
          SetSlot(ino, p, block, offs[t], next);
          AddSectors(ino, s0.sectors, 0);
          SameBlocksPut(DataBlocks(a, s0.t.owner, s0.held), t1.store, block, k, next);
          SameBlocksTrans(DataBlocks(a, s0.t.owner, s0.held), s0.t.store, t1.store, dev.Content());
          ChargedLink(s0, S(ino), a, sec, ino, next, Owner(ino, p + [k]));
          ChangedAfterSame(s0.t, t1, T(), a, ino, p + [k], next);
        }
      } else {
        ChargedRefl(s0, a, sec, ino);
        ChangedNothing(s0.t, T(), a, ino, p + [k]);
      }
    }

    /** The finite map from file block index to block number that is inode ino's block map. */
    ghost function Map(ino: nat): map<nat, Word>
      requires Wired() && ino in inodes
      reads this`inodes, this`owner, dev.Bufs()
    {
      FileMap(T(), geo, ino)
    }

    ghost function PathAt(position: nat): (p: Path)
      requires Wired()
      ensures IsLeaf(geo.addrInBlock, p)
    {
      OffsetsAccepted(geo, position);
      LeafPath(geo, BlockIndex(geo, position))
    }

    lemma OffsetsOf(position: nat)
      requires Wired()
      ensures BlockIndex(geo, position) < FileBlocks(geo)
      ensures CalcOffsets(geo, position) == Ok(PathAt(position))
      ensures PathAt(position) == LeafPath(geo, BlockIndex(geo, position))
    {
      OffsetsAccepted(geo, position);
    }

    lemma MapLookup(ino: nat, position: nat)
      requires Wired() && ino in inodes
      ensures T().At(ino, PathAt(position)) != 0 <==> BlockIndex(geo, position) in Map(ino)
      ensures BlockIndex(geo, position) in Map(ino) ==>
                Map(ino)[BlockIndex(geo, position)] == T().At(ino, PathAt(position))
    {
      OffsetsOf(position);
      FileMapHas(T(), geo, ino, BlockIndex(geo, position));
    }

    /** read_map_entry. Its depth < 0 branch is never taken. */
    method ReadMapEntry(ino: nat, position: nat) returns (block: Word)
      requires Valid() && ino in inodes
      ensures block == T().At(ino, PathAt(position))
      ensures block != 0 <==> BlockIndex(geo, position) in Map(ino)
      ensures block != 0 ==> block == Map(ino)[BlockIndex(geo, position)]
    {
      hide Volume.Standing, OthersSame, Volume.NoEmpty, Moved, Tree.Shape, Layout.Usable, ValidGeometry,
        Volume.Booked, Volume.Mapped, Entry, PathOf, CalcOffsets, LeafPath, BlockIndex;
      OffsetsOf(position);
      var offs := CalcOffsets(geo, position).value;
      var depth := |offs| - 1;
      InTree(ino, offs);
      PathPrefix(geo.addrInBlock, offs, 1);
      RootEntry(T(), ino, offs[0]);
      assert offs[..1] == [offs[0]];
      block := inodes[ino].iBlock[offs[0]];
      var t := 1;
      while t <= depth && block != 0
        invariant Valid() && 1 <= t <= depth + 1
        invariant block == T().At(ino, offs[..t])
        decreases depth - t
      {
        PathPrefix(geo.addrInBlock, offs, t);
        PathPrefix(geo.addrInBlock, offs, t + 1);
        InTree(ino, offs[..t]);
        InUseInStore();
        ChildEntry(T(), geo.addrInBlock, ino, offs[..t], offs[t]);
        block := dev.blocks[block][offs[t]];
        t := t + 1;
      }
      assert offs[..depth + 1] == offs;
      if T().At(ino, offs) != 0 {
        AboveLeaf(T(), geo.addrInBlock, ino, offs, t);
      }
    }

    /** The descent of enter_map_entry: the lowest indirect block on the path, or 0 when the free blocks ran out. */
    method Descend(ino: nat, offs: Path) returns (block: nat, ghost made: nat)
      requires Valid() && ino in inodes && IsLeaf(geo.addrInBlock, offs) && |offs| > 1
      modifies this, groupDescs, dev.Bufs()
      ensures Valid() && OnlyMapOf(ino)
      ensures block == T().At(ino, offs[..|offs| - 1]) || block == 0
      ensures block != 0 ==>
                Growing(old(S(ino)), S(ino), geo.addrInBlock, geo.sectorsInBlock, ino, offs, |offs| - 1, made)
      ensures block == 0 ==>
                RanOut(old(S(ino)), S(ino), geo.addrInBlock, geo.sectorsInBlock, ino, offs, made)
    {
      hide OnlyMap, Volume.Standing, OthersSame, Volume.NoEmpty, Moved, Tree.Shape, Layout.Usable, ValidGeometry,
        Volume.Booked, Volume.Mapped, Supplied, Growing, RanOut, Entry, IsLeaf, Interior, ValidPath, Missing;
      ghost var ix := inodes;
      ghost var s0, a, sec := S(ino), geo.addrInBlock, geo.sectorsInBlock;
      LeafPrefix(a, offs, 1);
      assert offs[..1] == [offs[0]];
      made := 0;
      block := EnsureTop(ino, offs[0]);
      if block == 0 {
        RanOutFirst(s0, S(ino), a, sec, ino, offs);
        return;
      }
      GrowFirst(s0, S(ino), a, sec, ino, offs, block);
      made := if s0.t.At(ino, offs[..1]) == 0 then 1 else 0;
      var t := 1;
      while t < |offs| - 1
        invariant Valid() && OnlyMapOf(ino) && 1 <= t <= |offs| - 1
        invariant block == T().At(ino, offs[..t]) != 0
        invariant Growing(s0, S(ino), a, sec, ino, offs, t, made)
      {
        LeafPrefix(a, offs, t + 1);
        ghost var s1 := S(ino);
        ghost var ix1 := inodes;
        block := EnsureNext(ino, offs, t, block);
        OnlyMapTrans(ix, ix1, inodes, ino);
        if block == 0 {
          RanOutLater(s0, s1, S(ino), a, sec, ino, offs, t, made);
          return;
        }
        GrowStep(s0, s1, S(ino), a, sec, ino, offs, t, made, block);
        made := made + if s0.t.At(ino, offs[..t + 1]) == 0 then 1 else 0;
        t := t + 1;
      }
    }

    /** A data block in one of the inode's own slots. */
    method EnterDirect(ino: nat, offs: Path, newBlock: Word)
      requires Valid() && ino in inodes && IsLeaf(geo.addrInBlock, offs) && |offs| == 1 && newBlock in held
      modifies this`inodes, this`owner, this`held
      ensures Valid() && OnlyMapOf(ino)
      ensures EnterDone(old(S(ino)), S(ino), geo.addrInBlock, geo.sectorsInBlock, ino, offs, newBlock, true)
    {
      hide OnlyMap, Volume.Standing, OthersSame, Volume.NoEmpty, Moved, Tree.Shape, Layout.Usable, ValidGeometry,
        Volume.Booked, Volume.Mapped, SameBlocks, AfterCharge, Entry, ChangedAt, OwnedBy, DataBlocks, Reown, Rehold,
        Charged, Extends, Missing, EnterDone, Tree.EmptyBlock;
      ghost var ix := inodes;
      ghost var s0, a, sec := S(ino), geo.addrInBlock, geo.sectorsInBlock;
      InUseInStore();
      InTree(ino, offs);
      LeafIsNotInterior(a, offs);
      assert offs == [offs[0]];
      ExtendsRefl(s0.t, a, ino, offs);
      MissingEnd(s0.t, ino, offs);
      ChargedRefl(s0, a, sec, ino);
      ChargeNone(s0.sectors, sec);
      SetRoot(ino, offs[0], newBlock);
      ghost var ix1 := inodes;
      AddSectors(ino, s0.sectors, 0);
      OnlyMapTrans(ix, ix1, inodes, ino);
      assert dev.Content() == s0.t.store;
      SameBlocksRefl(DataBlocks(a, s0.t.owner, s0.held), s0.t.store);
      EnterLast(s0, s0, S(ino), a, sec, ino, offs, newBlock, 0);
    }

    /** The body of enter_map_entry, on a path. */
    method EnterAt(ino: nat, offs: Path, newBlock: Word) returns (sc: Result<()>)
      requires Valid() && ino in inodes && IsLeaf(geo.addrInBlock, offs) && |offs| >= 1 && newBlock in held
      modifies this, groupDescs, dev.Bufs()
      ensures Valid() && OnlyMapOf(ino)
      ensures sc.Err? ==> sc.errno == ENOSPC
      ensures EnterDone(old(S(ino)), S(ino), geo.addrInBlock, geo.sectorsInBlock, ino, offs, newBlock, sc.Ok?)
    {
      hide OnlyMap, Volume.Standing, OthersSame, Volume.NoEmpty, Moved, Tree.Shape, Layout.Usable, ValidGeometry,
        Volume.Booked, Volume.Mapped, SameBlocks, AfterCharge, Entry, ChangedAt, OwnedBy, DataBlocks, Reown, Rehold,
        Charged, Extends, Missing, EnterDone, RanOut, Growing, Tree.EmptyBlock, PutWord, IsLeaf, Interior, ValidPath;
      ghost var ix := inodes;
      if |offs| == 1 {
        EnterDirect(ino, offs, newBlock);
        return Ok(());
      }
      ghost var s0, a, sec := S(ino), geo.addrInBlock, geo.sectorsInBlock;
      InUseInStore();
      var block;
      ghost var made;
      block, made := Descend(ino, offs);
      ghost var s1 := S(ino);
      if block == 0 {
        EnterRanOut(s0, s1, a, sec, ino, offs, newBlock, made);
        return Err(ENOSPC);
      }
      ghost var p, k := offs[..|offs| - 1], offs[|offs| - 1];
      GrowEnd(s0, s1, a, sec, ino, offs, made);
      LeafSplit(a, offs);
      InUseInStore();
      InTree(ino, p);
      InTree(ino, offs);
      NodeIsNotData(a, owner, held, block);
      SetSlot(ino, p, block, offs[|offs| - 1], newBlock);
      ghost var ix1 := inodes;
      AddSectors(ino, s0.sectors, made);
      OnlyMapTrans(ix, ix1, inodes, ino);
      SameBlocksPut(DataBlocks(a, s1.t.owner, s1.held), s1.t.store, block, k, newBlock);
      EnterLast(s0, s1, S(ino), a, sec, ino, offs, newBlock, made);
      return Ok(());
    }

    /** i_blocks of inode ino counts the sectors of its data and indirect blocks. */
    ghost predicate AccountedFor(ino: nat)
      requires dev.Valid() && ino in inodes
      reads this, dev.Bufs()
    {
      Accounted(S(ino), geo.sectorsInBlock, ino)
    }

    lemma AccountedIs(ino: nat)
      requires Wired() && ino in inodes
      ensures AccountedFor(ino) <==>
              inodes[ino].iBlocks == geo.blockSize / 512 * |set b | b in owner && owner[b].ino == ino| % U32
    {
      SectorsInBlock(geo);
      assert OwnedBy(owner, ino) == set b | b in owner && owner[b].ino == ino;
    }

    /** No reachable indirect block is empty. */
    ghost predicate NoEmpty()
      requires dev.Valid()
      reads this`inodes, this`owner, dev.Bufs()
    {
      NoEmptyNodes(T(), geo.addrInBlock)
    }

    /** Each inode's map, and whether its account is right. */
    ghost function Standing(): (m: map<nat, (map<nat, Word>, bool)>)
      requires Wired()
      reads this, dev.Bufs()
      ensures m.Keys == inodes.Keys
      ensures forall j :: j in m ==> m[j] == (Map(j), AccountedFor(j))
    {
      map j | j in inodes :: (Map(j), AccountedFor(j))
    }

    /** Other inodes' maps and accounts do not change with inode ino's. */
    twostate predicate OthersKept(ino: nat)
      requires Wired()
      reads this, dev.Bufs()
    {
      OthersSame(old(inodes), old(Standing()), inodes, Standing(), ino)
    }

    /** Other inodes stand as they did when their maps and the number of their blocks do not change. */
    twostate lemma OthersStand(ino: nat)
      requires Wired() && OnlyMapOf(ino)
      requires forall j :: j in inodes && j != ino ==> FileMap(T(), geo, j) == FileMap(old(T()), geo, j)
      requires forall j :: j != ino ==> |OwnedBy(owner, j)| == |OwnedBy(old(owner), j)|
      ensures OthersKept(ino)
    {
      hide FileMap, OwnedBy, AfterCharge;
    }

    /** enter_map_entry: on success exactly the position's key is set; out of space, no key of any file changes. */
    method EnterMapEntry(ino: nat, position: nat, newBlock: Word) returns (sc: Result<()>)
      requires Valid() && ino in inodes && newBlock in held
      modifies this, groupDescs, dev.Bufs()
      ensures Valid() && OthersKept(ino) && ino in inodes
      ensures sc.Err? ==> sc.errno == ENOSPC && freeBlocks == 0 && Missing(T(), ino, PathAt(position), 1) > 0
      ensures sc.Ok? <==> old(freeBlocks) >= Missing(old(T()), ino, PathAt(position), 1)
      ensures sc.Ok? ==> freeBlocks == old(freeBlocks) - Missing(old(T()), ino, PathAt(position), 1)
      ensures Map(ino) == if sc.Ok? then old(Map(ino))[BlockIndex(geo, position) := newBlock] else old(Map(ino))
      ensures held == if sc.Ok? then Rehold(old(held), old(T()).At(ino, PathAt(position)), newBlock) else old(held)
      ensures SameData(old(S(ino)), S(ino), geo.addrInBlock)
      ensures inodes[ino].iBlocks ==
              (old(inodes[ino].iBlocks)
               + geo.blockSize / 512 * (old(freeBlocks) - freeBlocks + if sc.Ok? then 1 else 0)) % U32
      ensures old(AccountedFor(ino)) ==>
                (AccountedFor(ino) <==> sc.Err? || BlockIndex(geo, position) !in old(Map(ino)))
      ensures sc.Ok? && old(NoEmpty()) ==> NoEmpty()
    {
      hide Volume.OthersKept, Volume.Standing, Moved, Tree.Shape, Layout.Usable, ValidGeometry, Volume.Booked,
        Volume.Mapped, Entry, PathOf, CalcOffsets, LeafPath, BlockIndex, Extends, Missing, SameData, AfterCharge,
        Rehold, FileMap, OwnedBy, NoEmptyNodes, EnterDone;
      OffsetsOf(position);
      var offs := CalcOffsets(geo, position).value;
      ghost var s0, a, sec, idx := S(ino), geo.addrInBlock, geo.sectorsInBlock, BlockIndex(geo, position);
      InUseInStore();
      FileMapHas(s0.t, geo, ino, idx);
      sc := EnterAt(ino, offs, newBlock);
      EnterFacts(s0, S(ino), a, sec, ino, offs, newBlock, sc.Ok?);
      SectorsInBlock(geo);
      EnterSectors(s0, S(ino), a, sec, ino, offs, newBlock, sc.Ok?);
      EnterAccounts(s0, S(ino), a, sec, ino, offs, newBlock, sc.Ok?);
      if sc.Ok? {
        ExtendsFileMap(s0.t, T(), geo, ino, idx, newBlock);
        if old(NoEmpty()) {
          ExtendsKeepsNoEmpty(s0.t, T(), a, ino, offs, newBlock);
        }
      } else {
        ExtendsNothing(s0.t, T(), geo, ino, idx);
      }
      OthersStand(ino);
    }

    /** Steps that move no block in or out of a tree change no map and no account. */
    twostate lemma StillMapped()
      requires Wired() && inodes == old(inodes) && owner == old(owner)
      requires SameEntries(old(T()), T(), geo.addrInBlock)
      ensures Standing() == old(Standing())
      ensures NoEmpty() <==> old(NoEmpty())
    {
      hide FileMap, Entry, NoEmptyNodes, SameEntries, AfterCharge;
      SameFileMap(old(T()), T(), geo);
      SameEntriesBack(old(T()), T(), geo.addrInBlock);
      NoEmptySame(old(T()), T(), geo.addrInBlock);
      NoEmptySame(T(), old(T()), geo.addrInBlock);
    }

    /** How many free blocks it takes to have a block at a position: none where there is one, and at a hole the data
        block and the indirect blocks missing above it. */
    ghost function Cost(ino: nat, position: nat): nat
      requires Wired() && ino in inodes
      reads this`inodes, this`owner, dev.Bufs()
    {
      if BlockIndex(geo, position) in Map(ino) then 0 else 1 + Missing(T(), ino, PathAt(position), 1)
    }

    lemma CostAtMost(ino: nat, position: nat)
      requires Wired() && ino in inodes
      ensures Cost(ino, position) <= 4
    {
      MissingAtMost(T(), ino, PathAt(position), 1);
    }

    /** No block can be mapped at a position: the free blocks do not go round. */
    ghost predicate NoRoom(ino: nat, position: nat)
      requires Wired() && ino in inodes
      reads this, dev.Bufs()
    {
      freeBlocks < Cost(ino, position)
    }

    lemma FewIfNoRoom(ino: nat, position: nat)
      requires Wired() && ino in inodes && NoRoom(ino, position)
      ensures freeBlocks < 4
    {
      CostAtMost(ino, position);
    }

    lemma RoomIfMapped(ino: nat, position: nat)
      requires Wired() && ino in inodes && BlockIndex(geo, position) in Map(ino)
      ensures !NoRoom(ino, position)
    {
    }

    /** new_block's call of enter_map_entry, with the block given back when that fails. */
    method LinkNew(ino: nat, position: nat, b: Word) returns (ok: bool)
      requires Valid() && ino in inodes && BlockIndex(geo, position) !in Map(ino) && b in held
      modifies this, groupDescs, dev.Bufs()
      ensures Valid() && OthersKept(ino) && ino in inodes
      ensures ok <==> old(freeBlocks) >= Missing(old(T()), ino, PathAt(position), 1)
      ensures !ok ==> NoRoom(ino, position)
      ensures freeBlocks == if ok then old(freeBlocks) + 1 - old(Cost(ino, position)) else 1
      ensures Map(ino) == if ok then old(Map(ino))[BlockIndex(geo, position) := b] else old(Map(ino))
      ensures held == old(held) - {b}
      ensures old(AccountedFor(ino)) ==> AccountedFor(ino)
      ensures ok && old(NoEmpty()) ==> NoEmpty()
      ensures SameBlocks(old(Data()) - {b}, old(dev.Content()), dev.Content())
      ensures Data() == if ok then old(Data()) else old(Data()) - {b}
    {
      hide Volume.Standing, OthersSame, Volume.NoEmpty, Moved, Tree.Shape, Layout.Usable, ValidGeometry,
        Volume.Booked, Volume.Mapped, Entry, BlockIndex, Missing, SameBlocks, AfterCharge, Rehold, FileMap, OwnedBy,
        NoEmptyNodes, DataBlocks, SameEntries, LeafPath, Volume.Map, Volume.AccountedFor, Volume.PathAt;
      ghost var s0, a, offs, d := S(ino), geo.addrInBlock, PathAt(position), Data();
      InUseInStore();
      OffsetsOf(position);
      MapLookup(ino, position);
      ReholdGive(s0.held, b);
      var sc := EnterMapEntry(ino, position, b);
      ghost var s2 := S(ino);
      SameBlocksLess(d, d - {b}, s0.t.store, s2.t.store);
      if sc.Ok? {
        return true;
      }
      label Failed:
      FreeBlock(b);
      StillMapped@Failed();
      MissingSame(s2.t, T(), a, ino, offs, 1);
      SameBlocksLess(d, d - {b}, s2.t.store, dev.Content());
      SameBlocksTrans(d - {b}, s0.t.store, s2.t.store, dev.Content());
      return false;
    }

    /** new_block at an unmapped position, before the block is cleared. */
    method MapNew(ino: nat, position: nat) returns (block: Word)
      requires Valid() && ino in inodes && BlockIndex(geo, position) !in Map(ino)
      modifies this, groupDescs, dev.Bufs()
      ensures Valid() && OthersKept(ino) && ino in inodes
      ensures block == 0 <==> old(NoRoom(ino, position))
      ensures block == 0 ==> NoRoom(ino, position)
      ensures freeBlocks == if block == 0 then Least(old(freeBlocks), 1) else old(freeBlocks) - old(Cost(ino, position))
      ensures Map(ino) == if block == 0 then old(Map(ino)) else old(Map(ino))[BlockIndex(geo, position) := block]
      ensures held == old(held)
      ensures old(AccountedFor(ino)) ==> AccountedFor(ino)
      ensures block != 0 && old(NoEmpty()) ==> NoEmpty()
      ensures SameBlocks(old(Data()), old(dev.Content()), dev.Content())
      ensures Data() == if block == 0 then old(Data()) else old(Data()) + {block}
      ensures block !in old(Used())
    {
      hide Volume.Standing, OthersSame, Volume.NoEmpty, Moved, Tree.Shape, Layout.Usable, ValidGeometry,
        Volume.Booked, Volume.Mapped, Entry, BlockIndex, Missing, SameBlocks, AfterCharge, Rehold, FileMap, OwnedBy,
        NoEmptyNodes, DataBlocks, SameEntries, LeafPath, Volume.Map, Volume.AccountedFor, Volume.PathAt;
      ghost var s0, a, offs, d := S(ino), geo.addrInBlock, PathAt(position), Data();
      InUseInStore();
      OffsetsOf(position);
      var b := AllocBlock();
      StillMapped();
      MissingSame(s0.t, T(), a, ino, offs, 1);
      if b == 0 {
        OthersRefl(inodes, Standing(), ino);
        return 0;
      }
      InUseInStore();
      ghost var st1 := dev.Content();
      var ok := LinkNew(ino, position, b);
      SameBlocksLess(d + {b} - {b}, d, st1, dev.Content());
      SameBlocksTrans(d, s0.t.store, st1, dev.Content());
      return if ok then b else 0;
    }

    /** No map and no account of any inode has changed. */
    twostate predicate AllKept()
      requires Wired()
      reads this, dev.Bufs()
    {
      && inodes == old(inodes) && held == old(held) && Data() == old(Data())
      && Standing() == old(Standing())
      && (NoEmpty() <==> old(NoEmpty()))
    }

    /** get_block with BLK_CLEAR on a data block. */
    method ClearData(block: nat)
      requires Valid() && block in Data() && block < |dev.blocks|
      modifies dev.Bufs()
      ensures Valid() && AllKept()
      ensures dev.Content() == old(dev.Content())[block := Zeros(geo.addrInBlock)]
    {
      hide Volume.Standing, OthersSame, Volume.NoEmpty, Moved, Tree.Shape, Layout.Usable, ValidGeometry,
        Volume.Booked, Volume.Mapped, Entry, FileMap, OwnedBy, NoEmptyNodes, DataBlocks, SameEntries, Volume.Map,
        Volume.AccountedFor;
      dev.Clear(block);
      DataWrite();
      StillMapped();
    }

    /** readmsg into the buffer of a data block. */
    method WriteData(block: nat, off: nat, data: seq<Byte>)
      requires Valid() && block in Data() && block < |dev.blocks| && off + |data| <= 4 * geo.addrInBlock
      modifies dev.Bufs()
      ensures Valid() && AllKept()
      ensures dev.Content() == old(dev.Content())[block := WithBytes(old(dev.Content())[block], off, data)]
    {
      hide Volume.Standing, OthersSame, Volume.NoEmpty, Moved, Tree.Shape, Layout.Usable, ValidGeometry,
        Volume.Booked, Volume.Mapped, Entry, FileMap, OwnedBy, NoEmptyNodes, DataBlocks, SameEntries, Volume.Map,
        Volume.AccountedFor, WithBytes;
      dev.CopyIn(block, off, data);
      DataWrite();
      StillMapped();
    }

    /** How inodes stand depends on the trees and on each i_blocks alone. */
    twostate lemma SameStanding()
      requires Wired() && inodes.Keys == old(inodes.Keys) && T() == old(T())
      requires forall j :: j in inodes ==> inodes[j].iBlocks == old(inodes)[j].iBlocks
      ensures Standing() == old(Standing())
    {
      hide FileMap, OwnedBy, AfterCharge, Entry;
    }

    /** An assignment to i_size. */
    method SetSize(ino: nat, size: Word)
      requires Valid() && ino in inodes
      modifies this`inodes
      ensures Valid() && inodes == old(inodes)[ino := old(inodes)[ino].(iSize := size)]
      ensures T() == old(T()) && Standing() == old(Standing())
      ensures NoEmpty() <==> old(NoEmpty())
    {
      hide Entry, AllocOk, Tree.Valid, Volume.Standing, NoEmptyNodes, ValidGeometry;
      inodes := inodes[ino := inodes[ino].(iSize := size)];
      assert Roots() == old(Roots());
      assert T() == old(T());
      SameStanding();
    }

    /** new_block before the block is cleared: the block at a position, allocated and mapped if there was none. */
    method BlockFor(ino: nat, position: nat) returns (block: Word)
      requires Valid() && ino in inodes
      modifies this, groupDescs, dev.Bufs()
      ensures Valid() && OthersKept(ino) && ino in inodes
      ensures block == 0 <==> old(NoRoom(ino, position))
      ensures block == 0 ==> NoRoom(ino, position)
      ensures freeBlocks == if block == 0 then Least(old(freeBlocks), 1) else old(freeBlocks) - old(Cost(ino, position))
      ensures Map(ino) == if block == 0 then old(Map(ino)) else old(Map(ino))[BlockIndex(geo, position) := block]
      ensures held == old(held)
      ensures old(AccountedFor(ino)) ==> AccountedFor(ino)
      ensures block != 0 && old(NoEmpty()) ==> NoEmpty()
      ensures block in old(Used()) <==> BlockIndex(geo, position) in old(Map(ino))
      ensures BlockIndex(geo, position) in old(Map(ino)) ==> block == old(Map(ino))[BlockIndex(geo, position)]
      ensures block != 0 ==> block in Data() && block < |dev.blocks|
      ensures SameBlocks(old(Data()), old(dev.Content()), dev.Content())
      ensures old(Data()) <= Data()
    {
      hide Volume.Standing, OthersSame, Volume.NoEmpty, Moved, Tree.Shape, Layout.Usable, ValidGeometry,
        Volume.Booked, Volume.Mapped, Entry, BlockIndex, Missing, SameBlocks, AfterCharge, Rehold, FileMap, OwnedBy,
        NoEmptyNodes, DataBlocks, SameEntries, LeafPath, Volume.Map, Volume.AccountedFor, Volume.PathAt, Volume.T;
      ghost var d0, st0 := Data(), dev.Content();
      HoleOrMapped(ino, position);
      InUseInStore();
      block := ReadMapEntry(ino, position);
      if block == 0 {
        block := MapNew(ino, position);
        InUseInStore();
      } else {
        SameBlocksRefl(d0, st0);
        OthersRefl(inodes, Standing(), ino);
      }
    }

    /** What there is to know of a position before a block is mapped there. */
    lemma HoleOrMapped(ino: nat, position: nat)
      requires Valid() && ino in inodes
      ensures BlockIndex(geo, position) in Map(ino) ==>
                var b := Map(ino)[BlockIndex(geo, position)];
                b as nat in Data() && b as nat in Used() && b != 0 && Cost(ino, position) == 0 && !NoRoom(ino, position)
    {
      hide Volume.Booked, Volume.Mapped, Entry, BlockIndex, LeafPath, FileMap, Missing;
      MapLookup(ino, position);
      LeafInData(ino, PathAt(position));
    }

    /** new_block: the block at a position, allocated and mapped if there was none, and in any case cleared. */
    method NewBlock(ino: nat, position: nat) returns (block: Word)
      requires Valid() && ino in inodes
      modifies this, groupDescs, dev.Bufs()
      ensures Valid() && OthersKept(ino) && ino in inodes
      ensures block == 0 <==> old(NoRoom(ino, position))
      ensures block == 0 ==> NoRoom(ino, position)
      ensures freeBlocks == if block == 0 then Least(old(freeBlocks), 1) else old(freeBlocks) - old(Cost(ino, position))
      ensures Map(ino) == if block == 0 then old(Map(ino)) else old(Map(ino))[BlockIndex(geo, position) := block]
      ensures held == old(held)
      ensures old(AccountedFor(ino)) ==> AccountedFor(ino)
      ensures block != 0 && old(NoEmpty()) ==> NoEmpty()
      ensures block != 0 ==> block in Data() && block < |dev.blocks| && dev.Content()[block] == Zeros(geo.addrInBlock)
      ensures block in old(Used()) <==> BlockIndex(geo, position) in old(Map(ino))
      ensures BlockIndex(geo, position) in old(Map(ino)) ==> block == old(Map(ino))[BlockIndex(geo, position)]
      ensures SameBlocks(old(Data()) - {block}, old(dev.Content()), dev.Content())
      ensures old(Data()) <= Data()
    {
      hide Volume.Standing, OthersSame, Volume.NoEmpty, Moved, Tree.Shape, Layout.Usable, ValidGeometry,
        Volume.Booked, Volume.Mapped, Entry, BlockIndex, Missing, SameBlocks, AfterCharge, Rehold, FileMap, OwnedBy,
        NoEmptyNodes, DataBlocks, SameEntries, LeafPath, Volume.Map, Volume.AccountedFor, Volume.PathAt, Volume.T,
        Volume.Cost, Volume.NoRoom;
      ghost var d0, st0 := Data(), dev.Content();
      block := BlockFor(ino, position);
      SameBlocksLess(d0, d0 - {block}, st0, dev.Content());
      if block == 0 {
        return;
      }
      ghost var st1 := dev.Content();
      ClearData(block);
      SameBlocksClear(d0, st1, block, Zeros(geo.addrInBlock));
      SameBlocksTrans(d0 - {block}, st0, st1, dev.Content());
    }

    /** A mapped data block is data. */
    lemma LeafInData(ino: nat, p: Path)
      requires Valid() && ino in inodes && IsLeaf(geo.addrInBlock, p)
      ensures T().At(ino, p) != 0 ==> T().At(ino, p) in Data() && T().At(ino, p) in Used()
    {
      hide Volume.Standing, OthersSame, Volume.NoEmpty, Moved, Tree.Shape, Layout.Usable, ValidGeometry,
        Volume.Booked, Volume.Mapped, Entry;
      InTree(ino, p);
      if T().At(ino, p) != 0 {
        LeafIsData(geo.addrInBlock, owner, held, T().At(ino, p));
      }
    }

    /** is_empty_indirect_block. */
    method IsEmptyIndirectBlock(block: nat) returns (empty: bool)
      requires Wired() && 0 < block < |dev.blocks|
      ensures empty <==> forall k: nat :: k < geo.addrInBlock ==> WordAt(dev.Content(), block, k) == 0
    {
      for i := 0 to geo.addrInBlock
        invariant forall k: nat :: k < i ==> WordAt(dev.Content(), block, k) == 0
      {
        assert WordAt(dev.Content(), block, i) == dev.blocks[block][i];
        if dev.blocks[block][i] != 0 {
          return false;
        }
      }
      return true;
    }

    /** get_indirect_blocks: the indirect blocks on the path from the top down, as far as they are there. Slot 0 is a
        dummy that lines the result up with the path. */
    method GetIndirectBlocks(ino: nat, offs: Path) returns (actual: nat, block: seq<Word>)
      requires Valid() && ino in inodes && IsLeaf(geo.addrInBlock, offs) && |offs| > 1
      ensures 0 <= actual < |offs| && |block| > actual
      ensures forall t :: 1 <= t <= actual ==> block[t] == T().At(ino, offs[..t]) != 0
      ensures actual + 1 < |offs| ==> T().At(ino, offs[..actual + 1]) == 0
    {
      hide Volume.Standing, OthersSame, Volume.NoEmpty, Moved, Tree.Shape, Layout.Usable, ValidGeometry,
        Volume.Booked, Volume.Mapped, Entry;
      var depth := |offs| - 1;
      PathPrefix(geo.addrInBlock, offs, 1);
      assert offs[..1] == [offs[0]];
      block := [0];
      actual := 0;
      while actual < depth
        invariant Valid() && 0 <= actual <= depth && |block| == actual + 1
        invariant forall t :: 1 <= t <= actual ==> block[t] == T().At(ino, offs[..t]) != 0
        invariant actual >= 1 ==> block[actual] == T().At(ino, offs[..actual]) != 0
      {
        var next;
        if actual == 0 {
          InTree(ino, offs[..1]);
          RootEntry(T(), ino, offs[0]);
          next := inodes[ino].iBlock[offs[0]];
        } else {
          PathPrefix(geo.addrInBlock, offs, actual);
          PathPrefix(geo.addrInBlock, offs, actual + 1);
          InTree(ino, offs[..actual]);
          InUseInStore();
          ChildEntry(T(), geo.addrInBlock, ino, offs[..actual], offs[actual]);
          next := dev.blocks[block[actual]][offs[actual]];
        }
        assert next == T().At(ino, offs[..actual + 1]);
        block := block + [next];
        if next == 0 {
          break;
        }
        actual := actual + 1;
      }
    }

    /** An emptied indirect block goes: its parent's slot is cleared, the block is freed, i_blocks shrinks. */
    method Unlink(ino: nat, offs: Path, t: nat, block: nat, child: nat)
      requires Valid() && ino in inodes && 1 <= t < |offs| && Interior(geo.addrInBlock, offs[..t + 1])
      requires block == T().At(ino, offs[..t]) != 0 && child == T().At(ino, offs[..t + 1]) != 0
      requires T().EmptyBlock(child)
      modifies this, groupDescs, dev.Bufs()
      ensures Valid() && OnlyMapOf(ino)
      ensures ChangedAt(old(T()), T(), geo.addrInBlock, ino, offs[..t + 1], 0)
      ensures Charged(old(S(ino)), S(ino), geo.addrInBlock, geo.sectorsInBlock, ino, -1)
    {
      hide OnlyMap, Volume.Standing, OthersSame, Volume.NoEmpty, Moved, Tree.Shape, Layout.Usable, ValidGeometry,
        Volume.Booked, Volume.Mapped, SameBlocks, AfterCharge, Entry, ChangedAt, OwnedBy, DataBlocks, Reown, Rehold,
        Charged, Tree.EmptyBlock, PutWord;
      ghost var s0, a, sec, p, k := S(ino), geo.addrInBlock, geo.sectorsInBlock, offs[..t], offs[t];
      ghost var d := DataBlocks(a, s0.t.owner, s0.held);
      PathStep(a, offs, t);
      InTree(ino, p);
      InTree(ino, p + [k]);
      InUseInStore();
      EmptyZero(T());
      ChargeNone(s0.sectors, sec);
      NodeIsNotData(a, owner, held, block);
      SetSlot(ino, p, block, offs[t], 0);
      ghost var t1 := T();
      SameBlocksPut(d, s0.t.store, block, k, 0);
      ReholdHas(s0.held, child);
      DataAfterUnlink(a, s0.t.owner, s0.held, child, Owner(ino, p + [k]));
      FreeBlock(child);
      SameBlocksLess(d + {child}, d, t1.store, dev.Content());
      SubSectors(ino, s0.sectors, 0);
      SameBlocksTrans(d, s0.t.store, t1.store, dev.Content());
      ChargedUnlink(s0, S(ino), a, sec, ino, child, Owner(ino, p + [k]));
      ChangedThenSame(s0.t, t1, T(), a, ino, p + [k], 0);
    }

    /** The end of the way up: the indirect block in the inode's own slot goes too if it emptied. */
    method UnlinkTop(ino: nat, offs: Path, child: nat)
      requires Valid() && ino in inodes && |offs| > 1 && IsLeaf(geo.addrInBlock, offs)
      requires child == T().At(ino, offs[..1]) != 0 && T().EmptyBlock(child)
      modifies this, groupDescs, dev.Bufs()
      ensures Valid() && OnlyMapOf(ino)
      ensures ChangedAt(old(T()), T(), geo.addrInBlock, ino, offs[..1], 0)
      ensures Charged(old(S(ino)), S(ino), geo.addrInBlock, geo.sectorsInBlock, ino, -1)
    {
      hide OnlyMap, Volume.Standing, OthersSame, Volume.NoEmpty, Moved, Tree.Shape, Layout.Usable, ValidGeometry,
        Volume.Booked, Volume.Mapped, SameBlocks, AfterCharge, Entry, ChangedAt, OwnedBy, DataBlocks, Reown, Rehold,
        Charged, Tree.EmptyBlock;
      ghost var ix := inodes;
      ghost var s0, a, sec := S(ino), geo.addrInBlock, geo.sectorsInBlock;
      ghost var d := DataBlocks(a, s0.t.owner, s0.held);
      PathPrefix(a, offs, 1);
      assert offs[..1] == [offs[0]];
      InTree(ino, [offs[0]]);
      InUseInStore();
      EmptyZero(T());
      ChargeNone(s0.sectors, sec);
      SetRoot(ino, offs[0], 0);
      ghost var t1 := T();
      ReholdHas(s0.held, child);
      DataAfterUnlink(a, s0.t.owner, s0.held, child, Owner(ino, [offs[0]]));
      FreeBlock(child);
      SameBlocksLess(d + {child}, d, t1.store, dev.Content());
      ghost var ix1 := inodes;
      SubSectors(ino, s0.sectors, 0);
      OnlyMapTrans(ix, ix1, inodes, ino);
      ChargedUnlink(s0, S(ino), a, sec, ino, child, Owner(ino, [offs[0]]));
      ChangedThenSame(s0.t, t1, T(), a, ino, [offs[0]], 0);
    }

    /** The data slot is cleared; a data block that was in it is the caller's from then on. */
    method ClearDataSlot(ino: nat, offs: Path, block: nat)
      requires Valid() && ino in inodes && |offs| > 1 && IsLeaf(geo.addrInBlock, offs)
      requires block == T().At(ino, offs[..|offs| - 1]) != 0
      modifies this, dev.Bufs()
      ensures Valid() && OnlyMapOf(ino)
      ensures SlotCleared(old(S(ino)), S(ino), geo.addrInBlock, geo.sectorsInBlock, ino, offs, true)
    {
      hide OnlyMap, Volume.Standing, OthersSame, Volume.NoEmpty, Moved, Tree.Shape, Layout.Usable, ValidGeometry,
        Volume.Booked, Volume.Mapped, SameBlocks, AfterCharge, Entry, ChangedAt, OwnedBy, DataBlocks, Reown, Rehold,
        SlotCleared, Tree.EmptyBlock, PutWord;
      ghost var s0, a, sec, depth := S(ino), geo.addrInBlock, geo.sectorsInBlock, |offs| - 1;
      ghost var p, k := offs[..depth], offs[depth];
      PathPrefix(a, offs, depth);
      assert offs == p + [k];
      LeafIsNotInterior(a, offs);
      InTree(ino, p);
      InTree(ino, offs);
      InUseInStore();
      ChargeNone(s0.sectors, sec);
      NodeIsNotData(a, owner, held, block);
      SetSlot(ino, offs[..|offs| - 1], block, offs[|offs| - 1], 0);
      SubSectors(ino, s0.sectors, 0);
      SameBlocksPut(DataBlocks(a, s0.t.owner, s0.held), s0.t.store, block, k, 0);
      ClearSlot(s0, S(ino), a, sec, ino, offs);
    }

    method ClearDirectSlot(ino: nat, offs: Path)
      requires Valid() && ino in inodes && |offs| == 1 && IsLeaf(geo.addrInBlock, offs)
      modifies this`inodes, this`owner, this`held
      ensures Valid() && OnlyMapOf(ino)
      ensures SlotCleared(old(S(ino)), S(ino), geo.addrInBlock, geo.sectorsInBlock, ino, offs, true)
    {
      hide OnlyMap, Volume.Standing, OthersSame, Volume.NoEmpty, Moved, Tree.Shape, Layout.Usable, ValidGeometry,
        Volume.Booked, Volume.Mapped, SameBlocks, AfterCharge, Entry, ChangedAt, OwnedBy, DataBlocks, Reown, Rehold,
        SlotCleared, Tree.EmptyBlock;
      ghost var ix := inodes;
      ghost var s0, a, sec := S(ino), geo.addrInBlock, geo.sectorsInBlock;
      assert offs == [offs[0]];
      LeafIsNotInterior(a, offs);
      InTree(ino, offs);
      InUseInStore();
      ChargeNone(s0.sectors, sec);
      SetRoot(ino, offs[0], 0);
      ghost var ix1 := inodes;
      SubSectors(ino, s0.sectors, 0);
      OnlyMapTrans(ix, ix1, inodes, ino);
      assert dev.Content() == s0.t.store;
      SameBlocksRefl(DataBlocks(a, s0.t.owner, s0.held), s0.t.store);
      ClearSlot(s0, S(ino), a, sec, ino, offs);
    }

    /** The body of delete_map_entry, on a path. */
    method DeleteAt(ino: nat, offs: Path)
      requires Valid() && ino in inodes && IsLeaf(geo.addrInBlock, offs)
      modifies this, groupDescs, dev.Bufs()
      ensures Valid() && OnlyMapOf(ino)
      ensures DeleteDone(old(S(ino)), S(ino), geo.addrInBlock, geo.sectorsInBlock, ino, offs)
    {
      hide OnlyMap, Volume.Standing, OthersSame, Volume.NoEmpty, Moved, Tree.Shape, Layout.Usable, ValidGeometry,
        Volume.Booked, Volume.Mapped, Entry, ChangedAt, Pruned, Pruning, SlotCleared, Charged, DeleteDone,
        Tree.EmptyBlock;
      ghost var ix := inodes;
      OnlyMapRefl(ix, ino);
      ghost var s0, a, sec := S(ino), geo.addrInBlock, geo.sectorsInBlock;
      if |offs| == 1 {
        ClearDirectSlot(ino, offs);
        SlotClearedFacts(s0, S(ino), a, sec, ino, offs, true);
        PrunedDirect(s0.t, T(), a, ino, offs);
        ChargedRefl(S(ino), a, sec, ino);
        DeleteAll(s0, S(ino), S(ino), a, sec, ino, offs, true, 0);
        return;
      }
      var depth := |offs| - 1;
      var actual, block := GetIndirectBlocks(ino, offs);
      ghost var reached := actual == depth;
      if !reached {
        AbsentBelow(s0.t, ino, offs, actual + 1, depth);
      }
      if actual == depth {
        ClearDataSlot(ino, offs, block[depth]);
      } else {
        InUseInStore();
        NoSlot(s0, a, sec, ino, offs, actual + 1);
      }
      ghost var s1 := S(ino);
      SlotClearedFacts(s0, s1, a, sec, ino, offs, reached);
      // If not even the first indirect block is there, nothing is left to do.
      if actual == 0 {
        PrunedMissing(s0.t, a, ino, offs);
        ChargedRefl(s1, a, sec, ino);
        DeleteAll(s0, s1, s1, a, sec, ino, offs, reached, 0);
        return;
      }
      PruneStart(s0.t, s1.t, a, ino, offs, actual);
      ghost var ix1 := inodes;
      ghost var freed := Ascend(ino, offs, actual, block, s0.t);
      OnlyMapTrans(ix, ix1, inodes, ino);
      DeleteAll(s0, s1, S(ino), a, sec, ino, offs, reached, freed);
    }

    /** One unlinking on the way up: the indirect block below level t, which has become empty. */
    method UnlinkBelow(ino: nat, offs: Path, t: nat, block: nat, child: nat, ghost t0: Tree, ghost s1: Snap,
                       ghost ix: map<nat, Inode>, ghost freed: int)
      requires Valid() && ino in inodes && IsLeaf(geo.addrInBlock, offs) && 1 <= t && t + 1 < |offs|
      requires OnlyMap(ix, inodes, ino) && Pruning(t0, T(), geo.addrInBlock, ino, offs, t, true) && ino in t0.roots
      requires block == t0.At(ino, offs[..t]) != 0 && child == t0.At(ino, offs[..t + 1])
      requires Charged(s1, S(ino), geo.addrInBlock, geo.sectorsInBlock, ino, freed)
      modifies this, groupDescs, dev.Bufs()
      ensures Valid() && ino in inodes && OnlyMap(ix, inodes, ino)
      ensures ChangedAt(old(T()), T(), geo.addrInBlock, ino, offs[..t + 1], 0) && T().At(ino, offs[..t]) == block
      ensures Charged(s1, S(ino), geo.addrInBlock, geo.sectorsInBlock, ino, freed - 1)
    {
      hide OnlyMap, Tree.Shape, Layout.Usable, ValidGeometry, Volume.Booked, Volume.Mapped, Entry, ChangedAt, Pruning,
        Charged, Tree.EmptyBlock, IsLeaf;
      ghost var ix1, s2, a := inodes, S(ino), geo.addrInBlock;
      LeafPrefix(a, offs, t);
      LeafPrefix(a, offs, t + 1);
      PruningKeeps(t0, T(), a, ino, offs, t, true, t);
      PruningFacts(t0, T(), a, ino, offs, t);
      Unlink(ino, offs, t, block, child);
      OnlyMapTrans(ix, ix1, inodes, ino);
      ChangedElsewhere(s2.t, T(), a, ino, offs[..t + 1], 0, offs[..t]);
      ChargedTrans(s1, s2, S(ino), a, geo.sectorsInBlock, ino, freed, -1);
    }

    /** The way up of delete_map_entry: indirect blocks that have become empty are unlinked and freed. */
    method Ascend(ino: nat, offs: Path, actual: nat, block: seq<Word>, ghost t0: Tree) returns (ghost freed: int)
      requires Valid() && ino in inodes && |offs| > 1 && IsLeaf(geo.addrInBlock, offs)
      requires ino in t0.roots && |t0.store| == |dev.blocks| && 1 <= actual < |offs| && actual < |block|
      requires forall t :: 1 <= t <= actual ==> block[t] == t0.At(ino, offs[..t]) != 0
      requires Pruning(t0, T(), geo.addrInBlock, ino, offs, actual, false)
      modifies this, groupDescs, dev.Bufs()
      ensures Valid() && OnlyMapOf(ino)
      ensures Pruned(t0, T(), geo.addrInBlock, ino, offs)
      ensures freed <= 0 && Charged(old(S(ino)), S(ino), geo.addrInBlock, geo.sectorsInBlock, ino, freed)
    {
      hide OnlyMap, Volume.Standing, OthersSame, Volume.NoEmpty, Moved, Tree.Shape, Layout.Usable, ValidGeometry,
        Volume.Booked, Volume.Mapped, Entry, ChangedAt, Pruned, Pruning, Charged, Tree.EmptyBlock, IsLeaf;
      ghost var ix := inodes;
      OnlyMapRefl(ix, ino);
      ghost var s1, a, sec := S(ino), geo.addrInBlock, geo.sectorsInBlock;
      ChargedRefl(s1, a, sec, ino);
      freed := 0;
      var lastEmpty := false;
      var t := actual;
      while t >= 1
        invariant Valid() && OnlyMapOf(ino) && 0 <= t <= actual
        invariant t == actual ==> !lastEmpty
        invariant Pruning(t0, T(), a, ino, offs, t, lastEmpty)
        invariant freed <= 0 && Charged(s1, S(ino), a, sec, ino, freed)
      {
        ghost var s2 := S(ino);
        LeafPrefix(a, offs, t);
        PruningKeeps(t0, T(), a, ino, offs, t, lastEmpty, t);
        if lastEmpty {
          UnlinkBelow(ino, offs, t, block[t], block[t + 1], t0, s1, ix, freed);
          freed := freed - 1;
        }
        ghost var below := lastEmpty;
        InTree(ino, offs[..t]);
        InUseInStore();
        lastEmpty := IsEmptyIndirectBlock(block[t]);
        PruneStep(t0, s2.t, T(), a, ino, offs, t, below, lastEmpty);
        t := t - 1;
      }
      ghost var s2 := S(ino);
      if lastEmpty {
        PruningFacts(t0, T(), a, ino, offs, 0);
        ghost var ix1 := inodes;
        UnlinkTop(ino, offs, block[1]);
        OnlyMapTrans(ix, ix1, inodes, ino);
        ChargedTrans(s1, s2, S(ino), a, sec, ino, freed, -1);
        freed := freed - 1;
      }
      PruneDone(t0, s2.t, T(), a, ino, offs, lastEmpty);
    }

    /** delete_map_entry: exactly the position's key goes, with the indirect blocks that emptied; the data block itself
        becomes the caller's. */
    method DeleteMapEntry(ino: nat, position: nat)
      requires Valid() && ino in inodes
      modifies this, groupDescs, dev.Bufs()
      ensures Valid() && OthersKept(ino) && ino in inodes
      ensures Map(ino) == old(Map(ino)) - {BlockIndex(geo, position)}
      ensures Pruned(old(T()), T(), geo.addrInBlock, ino, PathAt(position))
      ensures freeBlocks >= old(freeBlocks)
      ensures held == Rehold(old(held), old(T()).At(ino, PathAt(position)), 0)
      ensures SameData(old(S(ino)), S(ino), geo.addrInBlock)
      ensures inodes[ino].iBlocks ==
              (old(inodes[ino].iBlocks)
               - geo.blockSize / 512
                 * (freeBlocks - old(freeBlocks) + if old(SlotMissing(ino, position)) then 0 else 1)) % U32
      ensures old(AccountedFor(ino)) ==>
                (AccountedFor(ino) <==>
                 BlockIndex(geo, position) in old(Map(ino)) || old(SlotMissing(ino, position)))
      ensures old(NoEmpty()) ==> NoEmpty()
    {
      hide Volume.OthersKept, Volume.Standing, Moved, Tree.Shape, Layout.Usable, ValidGeometry, Volume.Booked,
        Volume.Mapped, Entry, PathOf, CalcOffsets, LeafPath, BlockIndex, Pruned, SameData, AfterCharge, Rehold,
        FileMap, OwnedBy, NoEmptyNodes, DeleteDone;
      OffsetsOf(position);
      var offs := CalcOffsets(geo, position).value;
      ghost var s0, a, sec, idx := S(ino), geo.addrInBlock, geo.sectorsInBlock, BlockIndex(geo, position);
      InUseInStore();
      FileMapHas(s0.t, geo, ino, idx);
      DeleteAt(ino, offs);
      DeleteFacts(s0, S(ino), a, sec, ino, offs);
      SectorsInBlock(geo);
      DeleteSectors(s0, S(ino), a, sec, ino, offs);
      if Accounted(s0, sec, ino) {
        DeleteAccounts(s0, S(ino), a, sec, ino, offs);
      }
      PrunedFileMap(s0.t, T(), geo, ino, idx);
      OthersStand(ino);
      if old(NoEmpty()) {
        PrunedKeepsNoEmpty(s0.t, T(), a, ino, offs);
      }
    }

    /** The position's data slot does not exist: an indirect block above it is missing. */
    ghost predicate SlotMissing(ino: nat, position: nat)
      requires Wired() && ino in inodes
      reads this`inodes, this`owner, dev.Bufs()
    {
      var p := PathAt(position);
      |p| > 1 && T().At(ino, p[..|p| - 1]) == 0
    }
  }
}
