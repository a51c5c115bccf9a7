/** extfs/inode.c: choosing a group for a new directory's inode and allocating it; and where inodes lie on disk. */
module InodeGroups {
  import opened Words
  import opened ExtBitmap

  const ROOT_INO: nat := 2
  const NO_INODE: nat := 0
  /** NO_GROUP. */
  const NO_GROUP: int := -1

  datatype Group = Group(freeInodes: nat, freeBlocks: nat, usedDirs: nat)

  function Sum(gs: seq<Group>): nat {
    if gs == [] then 0 else Sum(gs[..|gs| - 1]) + gs[|gs| - 1].freeInodes
  }

  lemma {:induction false} SumUpdate(gs: seq<Group>, g: nat, d: Group)
    requires g < |gs|
    ensures Sum(gs[g := d]) == Sum(gs) - gs[g].freeInodes + d.freeInodes && Sum(gs) >= gs[g].freeInodes
  {
    var n := |gs| - 1;
    if g < n {
      SumUpdate(gs[..n], g, d);
      assert gs[g := d][..n] == gs[..n][g := d];
    } else {
      assert gs[g := d][..n] == gs[..n];
    }
  }

  /** A group fit for a new directory: it has a free inode, and no fewer than the average. */
  predicate Fit(g: Group, avg: nat) {
    g.freeInodes > 0 && g.freeInodes >= avg
  }

  lemma {:induction false} SumAtMost(gs: seq<Group>, avg: nat)
    requires forall g :: 0 <= g < |gs| ==> !Fit(gs[g], avg)
    ensures avg == 0 ==> Sum(gs) == 0
    ensures avg > 0 ==> Sum(gs) <= |gs| * (avg - 1)
  {
    if gs != [] {
      var n := |gs| - 1;
      forall g | 0 <= g < n ensures !Fit(gs[..n][g], avg) {
        assert gs[..n][g] == gs[g];
      }
      SumAtMost(gs[..n], avg);
      if avg > 0 {
        assert (n + 1) * (avg - 1) == n * (avg - 1) + (avg - 1);
      }
    }
  }

  /** Not every group with free inodes can be below the average. */
  lemma SomeFit(gs: seq<Group>)
    requires gs != [] && forall g :: 0 <= g < |gs| ==> !Fit(gs[g], Sum(gs) / |gs|)
    ensures Sum(gs) == 0
  {
    SumAtMost(gs, Sum(gs) / |gs|);
    AverageIs(Sum(gs), |gs|);
  }

  lemma AverageIs(sum: nat, n: nat)
    requires n > 0
    ensures sum / n > 0 ==> sum > n * (sum / n - 1)
  {
    var avg := sum / n;
    assert sum == avg * n + sum % n;
    assert n * (avg - 1) == avg * n - n;
  }

  lemma NoneFree(gs: seq<Group>, g: nat)
    requires Sum(gs) == 0 && g < |gs|
    ensures gs[g].freeInodes == 0
  {
    SumUpdate(gs, g, gs[g]);
  }

  /** The group the scan comes to in step t. */
  function Scan(start: nat, t: nat, n: nat): (g: nat)
    requires n > 0
    ensures g < n
  {
    (start + t) % n
  }

  /** The scan from any group on comes past every group. */
  lemma Visited(start: nat, n: nat, g: nat) returns (t: nat)
    requires g < n
    ensures t < n && Scan(start, t, n) == g
  {
    var q, r := start / n, start % n;
    assert start == q * n + r;
    if g >= r {
      t := g - r;
      DivModOf(q, g, n);
    } else {
      t := g + n - r;
      assert (q + 1) * n == q * n + n;
      DivModOf(q + 1, g, n);
    }
  }

  /** How far behind group s, going round, group g comes. */
  function Ahead(s: nat, g: nat, n: nat): nat
    requires s < n
  {
    if g >= s then g - s else g + n - s
  }

  lemma AheadOfScan(start: nat, t: nat, n: nat)
    requires t < n
    ensures Ahead(start % n, Scan(start, t, n), n) == t
  {
    var q, r := start / n, start % n;
    assert start + t == q * n + (r + t);
    if r + t < n {
      DivModOf(q, r + t, n);
    } else {
      assert (q + 1) * n == q * n + n;
      DivModOf(q + 1, r + t - n, n);
    }
  }

  /** Group g, which the search comes to in step t, is not fit or no better than the best, which came up in step u. */
  predicate Beaten(gs: seq<Group>, g: nat, t: nat, avg: nat, best: int, u: nat) {
    g < |gs| && Fit(gs[g], avg) ==>
      && 0 <= best < |gs| && gs[g].freeBlocks <= gs[best].freeBlocks
      && (gs[g].freeBlocks == gs[best].freeBlocks ==> u <= t)
  }

  lemma AllBeaten(gs: seq<Group>, start: nat, avg: nat, best: int, u: nat)
    requires gs != [] && forall j: nat :: j < |gs| ==> Beaten(gs, Scan(start, j, |gs|), j, avg, best, u)
    ensures forall g: nat :: g < |gs| ==> Beaten(gs, g, Ahead(start % |gs|, g, |gs|), avg, best, u)
  {
    hide Scan, Beaten, Ahead;
    forall g: nat | g < |gs| ensures Beaten(gs, g, Ahead(start % |gs|, g, |gs|), avg, best, u) {
      var t := Visited(start, |gs|, g);
      AheadOfScan(start, t, |gs|);
    }
  }

  lemma NotFit(gs: seq<Group>, g: nat, t: nat, avg: nat, best: int, u: nat)
    requires g < |gs| && Beaten(gs, g, t, avg, best, u) && best < 0
    ensures !Fit(gs[g], avg)
  {
  }

  lemma FitAt(g: Group, avg: nat)
    ensures Fit(g, avg) <==> g.freeInodes > 0 && g.freeInodes >= avg
  {
  }

  /** The groups come to before step t, when the group come to in step t is passed over or becomes the best. */
  lemma BeatenBy(gs: seq<Group>, start: nat, t: nat, avg: nat, best: int, u: nat)
    requires t < |gs| && forall j: nat :: j < t ==> Beaten(gs, Scan(start, j, |gs|), j, avg, best, u)
    requires best == NO_GROUP || (0 <= best < |gs| && u < t)
    ensures var g := Scan(start, t, |gs|);
            if Fit(gs[g], avg) && (best == NO_GROUP || gs[g].freeBlocks > gs[best].freeBlocks)
            then forall j: nat :: j < t + 1 ==> Beaten(gs, Scan(start, j, |gs|), j, avg, g, t)
            else forall j: nat :: j < t + 1 ==> Beaten(gs, Scan(start, j, |gs|), j, avg, best, u)
  {
    hide Scan, Fit;
  }

  /** What it means that no group is better than the best, which is u groups ahead of group s. */
  lemma NoneBetter(gs: seq<Group>, s: nat, avg: nat, best: nat, u: nat)
    requires s < |gs| && best < |gs| && u == Ahead(s, best, |gs|)
    requires forall g: nat :: g < |gs| ==> Beaten(gs, g, Ahead(s, g, |gs|), avg, best, u)
    ensures forall g | 0 <= g < |gs| ::
              gs[g].freeInodes > 0 && gs[g].freeInodes >= avg ==> gs[g].freeBlocks <= gs[best].freeBlocks
    ensures forall g | 0 <= g < |gs| && gs[g].freeBlocks == gs[best].freeBlocks ::
              gs[g].freeInodes > 0 && gs[g].freeInodes >= avg ==>
                (if best >= s then best - s else best + |gs| - s) <= if g >= s then g - s else g + |gs| - s
  {
    hide Beaten;
    forall g | 0 <= g < |gs| && gs[g].freeInodes > 0 && gs[g].freeInodes >= avg
      ensures gs[g].freeBlocks <= gs[best].freeBlocks
      ensures gs[g].freeBlocks == gs[best].freeBlocks ==> u <= Ahead(s, g, |gs|)
    {
      IsBeaten(gs, g, Ahead(s, g, |gs|), avg, best, u);
    }
  }

  lemma IsBeaten(gs: seq<Group>, g: nat, t: nat, avg: nat, best: nat, u: nat)
    requires g < |gs| && best < |gs| && Beaten(gs, g, t, avg, best, u)
    requires gs[g].freeInodes > 0 && gs[g].freeInodes >= avg
    ensures gs[g].freeBlocks <= gs[best].freeBlocks && (gs[g].freeBlocks == gs[best].freeBlocks ==> u <= t)
  {
  }

  /** The inode that bit k of group g's bitmap stands for. */
  function InoAt(inodesPerGroup: nat, g: nat, k: nat): nat {
    g * inodesPerGroup + k + 1
  }

  /** Each group counts the clear bits of its bitmap. */
  ghost predicate CountsOk(gs: seq<Group>, bms: seq<seq<Word>>, inodesPerGroup: nat) {
    && |bms| == |gs|
    && (forall g :: 0 <= g < |bms| ==> inodesPerGroup <= 32 * |bms[g]|)
    && (forall g :: 0 <= g < |bms| ==> gs[g].freeInodes == |FreeBits(bms[g], inodesPerGroup)|)
  }

  /** Clear bits stand for inodes that may be handed out. */
  ghost predicate ClearOk(bms: seq<seq<Word>>, inodesPerGroup: nat, firstIno: nat, inodesCount: nat) {
    forall g: nat, k: nat :: g < |bms| && k < inodesPerGroup && !BitAt(bms[g], k) ==>
      firstIno <= InoAt(inodesPerGroup, g, k) <= inodesCount
  }

  /** A group that counts a free inode has a clear bit. */
  lemma CountedInode(gs: seq<Group>, bms: seq<seq<Word>>, inodesPerGroup: nat, g: nat)
    requires CountsOk(gs, bms, inodesPerGroup) && g < |gs| && gs[g].freeInodes > 0
    ensures inodesPerGroup <= 32 * |bms[g]| && exists k: nat :: k < inodesPerGroup && !BitAt(bms[g], k)
  {
    var k :| k in FreeBits(bms[g], inodesPerGroup);
  }

  /** What becomes of the counts when bit k of group g's bitmap is set: only that group's goes down, by one. */
  lemma InodeTaken(gs: seq<Group>, bms: seq<seq<Word>>, inodesPerGroup: nat, g: nat, k: nat, usedDirs: nat)
    requires CountsOk(gs, bms, inodesPerGroup) && g < |gs| && k < inodesPerGroup && !BitAt(bms[g], k)
    ensures k / 32 < |bms[g]| && gs[g].freeInodes > 0 && Sum(gs) > 0
    ensures var gs2 := gs[g := Group(gs[g].freeInodes - 1, gs[g].freeBlocks, usedDirs)];
            CountsOk(gs2, bms[g := WithBit(bms[g], k)], inodesPerGroup) && Sum(gs2) == Sum(gs) - 1
  {
    assert k in FreeBits(bms[g], inodesPerGroup);
    WithBitFree(bms[g], k, inodesPerGroup);
    hide FreeBits, BitAt, WithBit;
    SumUpdate(gs, g, Group(gs[g].freeInodes - 1, gs[g].freeBlocks, usedDirs));
  }

  lemma HandedOut(bms: seq<seq<Word>>, inodesPerGroup: nat, firstIno: nat, inodesCount: nat, g: nat, k: nat)
    requires ClearOk(bms, inodesPerGroup, firstIno, inodesCount) && g < |bms|
    requires k < inodesPerGroup && !BitAt(bms[g], k)
    ensures firstIno <= InoAt(inodesPerGroup, g, k) <= inodesCount
    ensures InoAt(inodesPerGroup, g, k) == g * inodesPerGroup + k + 1
  {
  }

  lemma StillClear(bms: seq<seq<Word>>, inodesPerGroup: nat, firstIno: nat, inodesCount: nat, g: nat, k: nat)
    requires ClearOk(bms, inodesPerGroup, firstIno, inodesCount) && g < |bms| && k / 32 < |bms[g]|
    ensures ClearOk(bms[g := WithBit(bms[g], k)], inodesPerGroup, firstIno, inodesCount)
  {
    hide BitAt, WithBit, InoAt;
    forall l: nat ensures BitAt(WithBit(bms[g], k), l) == (l == k || BitAt(bms[g], l)) {
      WithBitAt(bms[g], k, l);
    }
  }

  class InodeAllocator {
    const inodesPerGroup: nat
    const inodesCount: nat
    const firstIno: nat
    const groups: array<Group>
    const bitmaps: seq<array<Word>>
    var freeInodes: nat
    var dirsCounter: nat

    constructor Mount(inodesPerGroup: nat, inodesCount: nat, firstIno: nat, groups: array<Group>,
                      bitmaps: seq<array<Word>>, freeInodes: nat, dirsCounter: nat)
      ensures this.inodesPerGroup == inodesPerGroup && this.inodesCount == inodesCount && this.firstIno == firstIno
      ensures this.groups == groups && this.bitmaps == bitmaps
      ensures this.freeInodes == freeInodes && this.dirsCounter == dirsCounter
    {
      this.inodesPerGroup, this.inodesCount, this.firstIno := inodesPerGroup, inodesCount, firstIno;
      this.groups, this.bitmaps := groups, bitmaps;
      this.freeInodes, this.dirsCounter := freeInodes, dirsCounter;
    }

    ghost function Bufs(): set<array<Word>> {
      set a | a in bitmaps
    }

    ghost function Content(): (c: seq<seq<Word>>)
      reads Bufs()
      ensures |c| == |bitmaps| && forall g :: 0 <= g < |c| ==> c[g] == bitmaps[g][..]
    {
      seq(|bitmaps|, g requires 0 <= g < |bitmaps| reads Bufs() => bitmaps[g][..])
    }

    /** The superblock's count of free inodes is the sum of the groups'. */
    ghost predicate Summed()
      reads this`freeInodes, groups
    {
      groups.Length > 0 && inodesPerGroup > 0 && freeInodes == Sum(groups[..])
    }

    /** Moreover each group counts the clear bits of its bitmap, which stand for inodes that may be handed out. */
    ghost predicate Valid()
      reads this`freeInodes, groups, Bufs()
    {
      && Summed()
      && |bitmaps| == groups.Length
      && (forall g, h :: 0 <= g < h < |bitmaps| ==> bitmaps[g] != bitmaps[h])
      && CountsOk(groups[..], Content(), inodesPerGroup)
      && ClearOk(Content(), inodesPerGroup, firstIno, inodesCount)
    }

    /** find_free_inode_dir_group: of the groups with at least the average number of free inodes, the one with the most
        free blocks, and of several the first that comes up. rnd is what rand returns. */
    method FindFreeInodeDirGroup(parentIno: nat, rnd: nat) returns (bestGroup: int)
      requires Summed() && parentIno >= 1
      ensures bestGroup == NO_GROUP <==> freeInodes == 0
      ensures bestGroup != NO_GROUP ==>
                && 0 <= bestGroup < groups.Length && groups[bestGroup].freeInodes > 0
                && groups[bestGroup].freeInodes >= freeInodes / groups.Length
      ensures bestGroup != NO_GROUP ==>
                forall g | 0 <= g < groups.Length ::
                  groups[g].freeInodes > 0 && groups[g].freeInodes >= freeInodes / groups.Length ==>
                    groups[g].freeBlocks <= groups[bestGroup].freeBlocks
      ensures bestGroup != NO_GROUP ==>
                var n := groups.Length;
                var s := (if parentIno == ROOT_INO then rnd else (parentIno - 1) / inodesPerGroup) % n;
                forall g | 0 <= g < n && groups[g].freeBlocks == groups[bestGroup].freeBlocks ::
                  groups[g].freeInodes > 0 && groups[g].freeInodes >= freeInodes / n ==>
                    (if bestGroup >= s then bestGroup - s else bestGroup + n - s)
                    <= if g >= s then g - s else g + n - s
    {
      hide Scan, Beaten, Fit, Sum;
      var n := groups.Length;
      var avgFreeInodesPerGroup := freeInodes / n;
      var parentGroup;
      if parentIno == ROOT_INO {
        parentGroup := rnd % n;
        SmallMod(parentGroup, n);
      } else {
        parentGroup := (parentIno - 1) / inodesPerGroup;
      }
      ghost var s := parentGroup % n;
      assert s == (if parentIno == ROOT_INO then rnd else (parentIno - 1) / inodesPerGroup) % n;
      bestGroup := NO_GROUP;
      ghost var gs := groups[..];
      ghost var u := 0;
      for t := 0 to n
        invariant bestGroup == NO_GROUP || (0 <= bestGroup < n && Fit(gs[bestGroup], avgFreeInodesPerGroup))
        invariant bestGroup == NO_GROUP || (u < t && bestGroup == Scan(parentGroup, u, n))
        invariant forall j: nat :: j < t ==>
                    Beaten(gs, Scan(parentGroup, j, n), j, avgFreeInodesPerGroup, bestGroup, u)
      {
        var group := Scan(parentGroup, t, n);
        FitAt(gs[group], avgFreeInodesPerGroup);
        BeatenBy(gs, parentGroup, t, avgFreeInodesPerGroup, bestGroup, u);
        if groups[group].freeInodes == 0 || groups[group].freeInodes < avgFreeInodesPerGroup {
          continue;
        }
        if bestGroup == NO_GROUP || groups[group].freeBlocks > groups[bestGroup].freeBlocks {
          bestGroup := group;
          u := t;
        }
      }
      AllBeaten(gs, parentGroup, avgFreeInodesPerGroup, bestGroup, u);
      if bestGroup == NO_GROUP {
        forall g: nat | g < |gs| ensures !Fit(gs[g], Sum(gs) / |gs|) {
          NotFit(gs, g, Ahead(parentGroup % n, g, n), avgFreeInodesPerGroup, bestGroup, u);
        }
        SomeFit(gs);
      } else {
        SumUpdate(gs, bestGroup, gs[bestGroup]);
        AheadOfScan(parentGroup, u, n);
        FitAt(gs[bestGroup], avgFreeInodesPerGroup);
        NoneBetter(gs, s, avgFreeInodesPerGroup, bestGroup, u);
      }
    }

    /** alloc_inode_bit, in a group that counts a free inode: the lowest free inode of the group. None of the source's
        panics is reached. */
    method AllocInodeBit(group: nat, isDir: bool) returns (inoNr: nat, ghost bit: nat)
      requires Valid() && group < groups.Length && groups[group].freeInodes > 0
      modifies this`freeInodes, this`dirsCounter, groups, bitmaps[group]
      ensures Valid() && bit < inodesPerGroup && firstIno <= inoNr <= inodesCount
      ensures inoNr == group * inodesPerGroup + bit + 1
      ensures !BitAt(old(bitmaps[group][..]), bit) && forall k: nat :: k < bit ==> BitAt(old(bitmaps[group][..]), k)
      ensures bit / 32 < bitmaps[group].Length && bitmaps[group][..] == WithBit(old(bitmaps[group][..]), bit)
      ensures freeInodes == old(freeInodes) - 1 && dirsCounter == old(dirsCounter) + if isDir then 1 else 0
      ensures var g := old(groups[group]);
              groups[..] == old(groups[..])[group := Group(g.freeInodes - 1, g.freeBlocks,
                                                           g.usedDirs + if isDir then 1 else 0)]
    {
      hide CountsOk, ClearOk, BitAt, WithBit, InoAt;
      ghost var bms, gs := Content(), groups[..];
      CountedInode(gs, bms, inodesPerGroup, group);
      var b := AllocBit(bitmaps[group], inodesPerGroup, 0);
      if b == -1 {
        // The source panics when a group that counts a free inode has no clear bit.
        assert false;
      }
      bit := b;
      InodeTaken(gs, bms, inodesPerGroup, group, bit, gs[group].usedDirs + if isDir then 1 else 0);
      HandedOut(bms, inodesPerGroup, firstIno, inodesCount, group, bit);
      StillClear(bms, inodesPerGroup, firstIno, inodesCount, group, bit);
      inoNr := group * inodesPerGroup + b + 1;
      groups[group] := groups[group].(freeInodes := groups[group].freeInodes - 1);
      freeInodes := freeInodes - 1;
      if isDir {
        groups[group] := groups[group].(usedDirs := groups[group].usedDirs + 1);
        dirsCounter := dirsCounter + 1;
      }
      assert Content() == bms[group := WithBit(bms[group], bit)];
      assert groups[..] == gs[group := Group(gs[group].freeInodes - 1, gs[group].freeBlocks,
                                             gs[group].usedDirs + if isDir then 1 else 0)];
    }

    /** What alloc_inode does for a directory before it fetches the inode. It fails only when no inode is free. The
        inode is the lowest free one of a group find_free_inode_dir_group may choose, which counts one free inode less
        and one directory more. */
    method AllocDirInode(parentIno: nat, rnd: nat) returns (inoNr: nat)
      requires Valid() && parentIno >= 1
      modifies this`freeInodes, this`dirsCounter, groups, Bufs()
      ensures Valid()
      ensures inoNr == NO_INODE <==> old(freeInodes) == 0
      ensures inoNr == NO_INODE ==> freeInodes == old(freeInodes) && dirsCounter == old(dirsCounter)
      ensures inoNr == NO_INODE ==> groups[..] == old(groups[..]) && Content() == old(Content())
      ensures inoNr != NO_INODE ==>
                && firstIno <= inoNr <= inodesCount
                && freeInodes == old(freeInodes) - 1 && dirsCounter == old(dirsCounter) + 1
      ensures inoNr != NO_INODE ==>
                var gs, g, bit := old(groups[..]), (inoNr - 1) / inodesPerGroup, (inoNr - 1) % inodesPerGroup;
                && 0 <= g < |gs|
                && gs[g].freeInodes > 0 && gs[g].freeInodes >= old(freeInodes) / |gs|
                && (forall h :: 0 <= h < |gs| && gs[h].freeInodes > 0 && gs[h].freeInodes >= old(freeInodes) / |gs| ==>
                      gs[h].freeBlocks <= gs[g].freeBlocks)
                && groups[..] == gs[g := Group(gs[g].freeInodes - 1, gs[g].freeBlocks, gs[g].usedDirs + 1)]
                && var bms := old(Content());
                   && bit / 32 < |bms[g]| && Content() == bms[g := WithBit(bms[g], bit)]
                   && !BitAt(bms[g], bit) && forall k: nat :: k < bit ==> BitAt(bms[g], k)
    {
      hide CountsOk, ClearOk, BitAt, WithBit;
      var group := FindFreeInodeDirGroup(parentIno, rnd);
      if group == NO_GROUP {
        return NO_INODE;
      }
      ghost var gs, bms := groups[..], Content();
      ghost var bit;
      inoNr, bit := AllocInodeBit(group, true);
      assert inoNr - 1 == group * inodesPerGroup + bit;
      DivModOf(group, bit, inodesPerGroup);
      assert Content() == bms[group := WithBit(bms[group], bit)];
    }
  }

  /** The block of a group's inode table and the offset in it at which read_inode and write_inode find the inode with
      that index in its group. */
  function InodeBlock(inodeTable: nat, blockSize: nat, inodeSize: nat, index: nat): nat
    requires blockSize > 0
  {
    inodeTable + index * inodeSize / blockSize
  }

  function InodeOffset(blockSize: nat, inodeSize: nat, index: nat): (o: nat)
    requires blockSize > 0
    ensures o < blockSize
  {
    index * inodeSize % blockSize
  }

  lemma InodePlace(inodeTable: nat, blockSize: nat, inodeSize: nat, index: nat)
    requires blockSize > 0
    ensures InodeBlock(inodeTable, blockSize, inodeSize, index) * blockSize + InodeOffset(blockSize, inodeSize, index)
            == inodeTable * blockSize + index * inodeSize
  {
    var p := index * inodeSize;
    assert p == p / blockSize * blockSize + p % blockSize;
    assert (inodeTable + p / blockSize) * blockSize == inodeTable * blockSize + p / blockSize * blockSize;
  }

  /** Two inodes of a group share no byte, and none straddles two blocks when inodes fill a block evenly. */
  lemma InodesApart(inodeTable: nat, blockSize: nat, inodeSize: nat, i: nat, j: nat)
    requires inodeSize > 0 && blockSize > 0 && blockSize % inodeSize == 0 && i < j
    ensures InodeBlock(inodeTable, blockSize, inodeSize, i) * blockSize
            + InodeOffset(blockSize, inodeSize, i) + inodeSize
            <= InodeBlock(inodeTable, blockSize, inodeSize, j) * blockSize + InodeOffset(blockSize, inodeSize, j)
    ensures InodeOffset(blockSize, inodeSize, i) + inodeSize <= blockSize
  {
    InodePlace(inodeTable, blockSize, inodeSize, i);
    InodePlace(inodeTable, blockSize, inodeSize, j);
    MulStep(i, j, inodeSize);
    assert blockSize == blockSize / inodeSize * inodeSize;
    NoStraddle(blockSize / inodeSize, inodeSize, i);
  }

  lemma NoStraddle(perBlock: nat, inodeSize: nat, i: nat)
    requires inodeSize > 0 && perBlock > 0
    ensures perBlock * inodeSize > 0
    ensures i * inodeSize % (perBlock * inodeSize) + inodeSize <= perBlock * inodeSize
  {
    var q, r := i / perBlock, i % perBlock;
    assert i == q * perBlock + r;
    MulStep(r, perBlock, inodeSize);
    MulMono(1, perBlock, inodeSize);
    Distribute(q, perBlock, r, inodeSize);
    DivModOf(q, r * inodeSize, perBlock * inodeSize);
  }

  lemma Distribute(q: nat, p: nat, r: nat, s: nat)
    ensures (q * p + r) * s == q * (p * s) + r * s
  {
    assert (q * p + r) * s == q * p * s + r * s;
    assert q * p * s == q * (p * s);
  }
}
