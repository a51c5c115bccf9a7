/** fatfs/cluster.c: table entries and cluster chains of a FAT12 or FAT16 volume, through the sector cache. */
module FatVolume {
  import opened Words
  import opened BlockStore
  import opened CacheSpec
  import opened SectorCache
  import opened FatSpec
  import opened FatChain

  /** GetFirstCluster, from the low half of a directory entry's first cluster. */
  function FirstCluster(ty: FatType, lo: nat): nat {
    if EocMin(ty) <= lo <= Eoc(ty) then CLUSTER_EOC else if lo == Bad(ty) then CLUSTER_BAD else lo
  }

  /** What SetFirstCluster stores reads back as it was, for every value that fits an entry. */
  lemma FirstClusterRoundTrip(ty: FatType, c: nat)
    ensures FirstCluster(ty, Encoded(ty, c)) == c <==> c == CLUSTER_EOC || c == CLUSTER_BAD || c < Bad(ty)
  {
    CodecRoundTrip(ty, c);
  }

  function Times(k: nat, size: nat): nat { k * size }

  lemma TimesNext(k: nat, size: nat)
    ensures Times(k + 1, size) == Times(k, size) + size && Times(0, size) == 0
  {
  }

  lemma TimesIs(k: nat, size: nat)
    ensures Times(k, size) == k * size
  {
  }

  lemma TimesLess(k: nat, n: nat, size: nat)
    requires size > 0
    ensures Times(k, size) < Times(n, size) <==> k < n
  {
    if k < n {
      MulStep(k, n, size);
    } else {
      MulMono(n, k, size);
    }
  }

  /** A file's node: the fields of its directory entry that name its data, and the seek hint. */
  class FatNode {
    var firstClusterLo: nat
    var size: nat
    var hintCluster: nat
    var hintOffset: nat

    /** No hint, or a cluster of the chain with its offset in the file. */
    ghost predicate HintOk(l: seq<nat>, clusterSize: nat)
      reads this`hintCluster, this`hintOffset
    {
      if hintCluster == 0 then hintOffset == 0
      else exists k :: 0 <= k < |l| && l[k] == hintCluster && hintOffset == Times(k, clusterSize)
    }
  }

  class Volume {
    const sb: FatSB
    const cache: Cache
    var startSearchCluster: nat

    constructor Mount(sb: FatSB, cache: Cache)
      requires cache.Valid() && ValidSB(sb, |cache.Bytes()|)
      ensures Valid() && this.sb == sb && this.cache == cache
    {
      this.sb, this.cache, startSearchCluster := sb, cache, 2;
    }

    ghost predicate Valid()
      reads this, cache, cache.blkTable, cache.hashList
    {
      && cache.Valid() && ValidSB(sb, |cache.Bytes()|)
      && 2 <= startSearchCluster && (startSearchCluster > 2 ==> startSearchCluster < sb.clusterCnt)
    }

    /** The disk, byte by byte. */
    ghost function F(): (f: seq<Byte>)
      requires cache.Valid()
      reads cache, cache.blkTable, cache.hashList
    {
      cache.Bytes()
    }

    /** The table that is read. */
    ghost function T(): (t: seq<nat>)
      requires Valid()
      reads this, cache, cache.blkTable, cache.hashList
      ensures |t| == sb.clusterCnt + 2
    {
      Table(sb, F())
    }

    /** readSector. */
    method ReadSector(sector: nat, sectorOffset: nat, nbytes: nat) returns (mem: seq<Byte>)
      requires cache.Valid() && sectorOffset <= SECTOR_SIZE
      requires SECTOR_SIZE * (sb.partitionStart + sector) + sectorOffset + nbytes <= |F()|
      modifies cache, cache.blkTable, cache.hashList
      ensures cache.Valid() && F() == old(F())
      ensures var p := SECTOR_SIZE * (sb.partitionStart + sector) + sectorOffset; mem == F()[p..p + nbytes]
    {
      mem := cache.BufReadBlocks(sector + sb.partitionStart, sectorOffset, nbytes);
    }

    /** writeSector. */
    method WriteSector(mem: seq<Byte>, sector: nat, sectorOffset: nat)
      requires cache.Valid() && sectorOffset <= SECTOR_SIZE
      requires SECTOR_SIZE * (sb.partitionStart + sector) + sectorOffset + |mem| <= |F()|
      modifies cache, cache.blkTable, cache.hashList
      ensures cache.Valid() && |F()| == |old(F())|
      ensures F() == Splice(old(F()), SECTOR_SIZE * (sb.partitionStart + sector) + sectorOffset, mem)
    {
      cache.BufWriteBlocks(mem, sector + sb.partitionStart, sectorOffset, false);
    }

    /** ReadFATEntry. The loop over the copies ends with the first. */
    method ReadFATEntry(cluster: nat) returns (value: nat)
      requires Valid() && cluster < sb.clusterCnt + 2
      modifies cache, cache.blkTable, cache.hashList
      ensures Valid() && F() == old(F())
      ensures value == T()[cluster]
      ensures EntryReadAs(sb, F(), cluster, value)
    {
      hide Cache.Valid, Cache.Bytes, Normal, FatSector, FatStart, EntryReadAs;
      ghost var f := F();
      var fatOffset := Offset(sb.fatType, cluster);
      EntryInside(sb, cluster, |f|);
      CopyInside(sb, 0, |f|);
      var sector := FatSector(sb, 0, fatOffset);
      var sectorOffset := fatOffset % SECTOR_SIZE;
      var mem := ReadSector(sector, sectorOffset, 2);
      WordOfCopy(sb, f, 0, cluster);
      var word := mem[0] as nat + 256 * (mem[1] as nat);
      value := Normal(sb.fatType, Field(sb.fatType, word, cluster));
      TableOnDisk(sb, f, cluster);
    }

    /** WriteFATEntry: the entry in every copy. */
    method WriteFATEntry(cluster: nat, value: nat)
      requires Valid() && cluster < sb.clusterCnt + 2
      modifies cache, cache.blkTable, cache.hashList
      ensures Valid() && |F()| == |old(F())|
      ensures EntryWritten(sb, old(F()), F(), cluster, value)
      ensures EntryPut(sb, old(F()), F(), cluster, Encoded(sb.fatType, value), sb.fatCnt)
      ensures T() == old(T())[cluster := Normal(sb.fatType, Encoded(sb.fatType, value))]
    {
      hide EntryWritten, Cache.Valid, Cache.Bytes, Normal, NewWord, Copy, Offset, EntryPut, FatStart, Splice, FatSector;
      ghost var f := F();
      var v: nat := value;
      EntryPutNone(sb, f, cluster, Encoded(sb.fatType, value));
      for fi := 0 to sb.fatCnt
        invariant cache.Valid() && |F()| == |f|
        invariant Encoded(sb.fatType, v) == Encoded(sb.fatType, value)
        invariant EntryPut(sb, f, F(), cluster, Encoded(sb.fatType, value), fi)
      {
        v := if v == CLUSTER_EOC then Eoc(sb.fatType) else if v == CLUSTER_BAD then Bad(sb.fatType) else v;
        ghost var f1 := F();
        var fatOffset := Offset(sb.fatType, cluster);
        EntryInside(sb, cluster, |f|);
        CopyInside(sb, fi, |f|);
        var sector := FatSector(sb, fi, fatOffset);
        var sectorOffset := fatOffset % SECTOR_SIZE;
        var word := 0;
        WordOfCopy(sb, f1, fi, cluster);
        if sb.fatType.FAT12? {
          var mem := ReadSector(sector, sectorOffset, 2);
          word := mem[0] as nat + 256 * (mem[1] as nat);
        }
        var raw := v % Width(sb.fatType);
        NewWordFields(sb.fatType, word, cluster, raw);
        word := NewWord(sb.fatType, word, cluster, raw);
        PutInCopy(sb, f, f1, cluster, raw, fi);
        NewWordIgnores(sb.fatType, cluster, raw);
        WriteSector(TwoBytes(word), sector, sectorOffset);
      }
      TableAfterPut(sb, f, F(), cluster, value);
      PutOnDisk(sb, f, F(), cluster, value);
    }

    /** A chain of this volume's table. */
    ghost predicate Chain(first: nat, l: seq<nat>)
      requires Valid()
      reads this, cache, cache.blkTable, cache.hashList
    {
      IsChain(T(), first, l)
    }

    /** FindLastCluster: the last cluster of the file's chain, wherever the hint has it start. */
    method FindLastCluster(node: FatNode, ghost l: seq<nat>) returns (last: nat)
      requires Valid() && Chain(FirstCluster(sb.fatType, node.firstClusterLo), l)
      requires node.HintOk(l, ClusterSize(sb))
      modifies cache, cache.blkTable, cache.hashList, node`hintCluster, node`hintOffset
      ensures Valid() && F() == old(F())
      ensures last == if l == [] then CLUSTER_EOC else l[|l| - 1]
      ensures node.HintOk(l, ClusterSize(sb))
    {
      hide EntryReadAs, EntryWritten, Cache.Valid, Cache.Bytes, Table, IsChain, Stop, Times, ValidSB;
      ghost var t, first := T(), FirstCluster(sb.fatType, node.firstClusterLo);
      SmallTable(sb, |F()|);
      ChainAtEnd(t, first, l);
      if FirstCluster(sb.fatType, node.firstClusterLo) == CLUSTER_EOC {
        return CLUSTER_EOC;
      }
      var cluster := if node.hintCluster != 0 then node.hintCluster else FirstCluster(sb.fatType, node.firstClusterLo);
      ghost var k := 0;
      if node.hintCluster != 0 {
        k :| 0 <= k < |l| && l[k] == node.hintCluster && node.hintOffset == Times(k, ClusterSize(sb));
      }
      TimesNext(0, ClusterSize(sb));
      StopNext(t, first, l, 0);
      StopNext(t, first, l, k);
      var next := ReadFATEntry(cluster);
      while CLUSTER_ALLOC_MIN <= next <= CLUSTER_ALLOC_MAX
        invariant Valid() && F() == old(F())
        invariant 0 <= k < |l| && cluster == l[k] && next == Stop(t, first, l, k + 1)
        invariant node.hintOffset == Times(k, ClusterSize(sb)) && (node.hintCluster == 0 ==> k == 0)
        invariant node.hintCluster == 0 || node.hintCluster == l[k]
        decreases |l| - k
      {
        StopNext(t, first, l, k + 1);
        StopAt(t, first, l, k + 1);
        TimesNext(k, ClusterSize(sb));
        cluster := next;
        node.hintOffset := node.hintOffset + sb.sectorsPerCluster * SECTOR_SIZE;
        node.hintCluster := cluster;
        k := k + 1;
        next := ReadFATEntry(cluster);
      }
      StopNext(t, first, l, k + 1);
      return cluster;
    }

    /** FindCluster, for a file that is not the root directory: the cluster of a position, or an error past the last. */
    method FindCluster(node: FatNode, offset: nat, ghost l: seq<nat>) returns (sc: int, cluster: nat)
      requires Valid() && Chain(FirstCluster(sb.fatType, node.firstClusterLo), l)
      modifies cache, cache.blkTable, cache.hashList
      ensures Valid() && F() == old(F())
      ensures sc == 0 <==> ClusterIndex(sb, offset) < |l|
      ensures sc == 0 ==> cluster == l[ClusterIndex(sb, offset)]
    {
      hide EntryReadAs, EntryWritten, Cache.Valid, Cache.Bytes, Table, IsChain, Stop, Times, ValidSB;
      ghost var t, first := T(), FirstCluster(sb.fatType, node.firstClusterLo);
      SmallTable(sb, |F()|);
      var clusterSize := sb.sectorsPerCluster * SECTOR_SIZE;
      var target := offset / clusterSize * clusterSize;
      ghost var n := offset / clusterSize;
      var tempOffset := 0;
      cluster := FirstCluster(sb.fatType, node.firstClusterLo);
      ghost var k: nat := 0;
      StopNext(t, first, l, 0);
      TimesNext(0, clusterSize);
      TimesIs(n, clusterSize);
      while tempOffset < target
        invariant Valid() && F() == old(F())
        invariant k <= n && k <= |l| && tempOffset == Times(k, clusterSize)
        invariant cluster == Stop(t, first, l, k)
        decreases n - k
      {
        StopNext(t, first, l, k);
        TimesNext(k, clusterSize);
        TimesLess(k, n, clusterSize);
        if cluster < CLUSTER_ALLOC_MIN || cluster > CLUSTER_ALLOC_MAX {
          return -1, 0;
        }
        cluster := ReadFATEntry(cluster);
        tempOffset := tempOffset + clusterSize;
        k := k + 1;
      }
      TimesLess(k, n, clusterSize);
      StopNext(t, first, l, k);
      if cluster < CLUSTER_ALLOC_MIN || cluster > CLUSTER_ALLOC_MAX {
        return -1, 0;
      }
      return 0, cluster;
    }

    /** FindFreeCluster: the first free cluster from the start of the search on, or else from 2 on, now marked as an end
        of chain. Only cluster numbers below the cluster count are searched, so the last two clusters never go. */
    method FindFreeCluster() returns (sc: int, cluster: nat)
      requires Valid()
      modifies this`startSearchCluster, cache, cache.blkTable, cache.hashList
      ensures Valid() && |F()| == |old(F())|
      ensures sc != 0 <==> NoneFree(old(T()), sb.clusterCnt)
      ensures sc != 0 ==> F() == old(F()) && startSearchCluster == old(startSearchCluster)
      ensures sc == 0 ==> 2 <= cluster < sb.clusterCnt && old(T())[cluster] == CLUSTER_FREE
      ensures sc == 0 ==> startSearchCluster == cluster
      ensures sc == 0 ==>
                var start := old(startSearchCluster);
                forall c: nat :: 2 <= c < sb.clusterCnt && old(T())[c] == CLUSTER_FREE ==>
                  if c >= start then start <= cluster <= c else cluster >= start || cluster <= c
      ensures sc == 0 ==> EntryPut(sb, old(F()), F(), cluster, Encoded(sb.fatType, CLUSTER_EOC), sb.fatCnt)
      ensures sc == 0 ==> T() == old(T())[cluster := CLUSTER_EOC]
    {
      hide EntryReadAs, EntryWritten, Cache.Valid, Cache.Bytes, Table, EntryPut;
      CodecRoundTrip(sb.fatType, CLUSTER_EOC);
      ghost var t := T();
      cluster := startSearchCluster;
      while cluster < sb.clusterCnt
        invariant Valid() && F() == old(F()) && startSearchCluster == old(startSearchCluster)
        invariant startSearchCluster <= cluster
        invariant forall c: nat :: startSearchCluster <= c < cluster && c < sb.clusterCnt ==> t[c] != CLUSTER_FREE
      {
        var value := ReadFATEntry(cluster);
        if value == CLUSTER_FREE {
          WriteFATEntry(cluster, CLUSTER_EOC);
          startSearchCluster := cluster;
          return 0, cluster;
        }
        cluster := cluster + 1;
      }
      cluster := 2;
      while cluster < startSearchCluster
        invariant Valid() && F() == old(F()) && startSearchCluster == old(startSearchCluster)
        invariant 2 <= cluster <= startSearchCluster
        invariant forall c: nat :: 2 <= c < cluster ==> t[c] != CLUSTER_FREE
        invariant forall c: nat :: startSearchCluster <= c < sb.clusterCnt ==> t[c] != CLUSTER_FREE
      {
        var value := ReadFATEntry(cluster);
        if value == CLUSTER_FREE {
          WriteFATEntry(cluster, CLUSTER_EOC);
          startSearchCluster := cluster;
          return 0, cluster;
        }
        cluster := cluster + 1;
      }
      return -1, 0;
    }

    /** AppendCluster: a free cluster goes to the end of the file's chain, or becomes its first. */
    method AppendCluster(node: FatNode, ghost l: seq<nat>) returns (sc: int, cluster: nat)
      requires Valid() && Chain(FirstCluster(sb.fatType, node.firstClusterLo), l)
      requires node.HintOk(l, ClusterSize(sb))
      modifies this`startSearchCluster, cache, cache.blkTable, cache.hashList
      modifies node`hintCluster, node`hintOffset, node`firstClusterLo
      ensures Valid() && |F()| == |old(F())| && SameOutsideFat(sb, old(F()), F())
      ensures CopiesAgree(sb, old(F())) ==> CopiesAgree(sb, F())
      ensures sc != 0 <==> NoneFree(old(T()), sb.clusterCnt)
      ensures sc != 0 ==> F() == old(F()) && node.firstClusterLo == old(node.firstClusterLo)
      ensures sc != 0 ==> node.HintOk(l, ClusterSize(sb))
      ensures sc == 0 ==> 2 <= cluster < sb.clusterCnt && old(T())[cluster] == CLUSTER_FREE
      ensures sc == 0 ==> T() == Appended(old(T()), l, cluster)
      ensures sc == 0 ==> Chain(FirstCluster(sb.fatType, node.firstClusterLo), l + [cluster])
      ensures sc == 0 ==> node.HintOk(l + [cluster], ClusterSize(sb))
    {
      hide EntryWritten, Cache.Valid, Cache.Bytes, Table, IsChain, ValidSB, EntryPut, SameOutsideFat, NoneFree,
        CopiesAgree;
      ghost var t, first, f := T(), FirstCluster(sb.fatType, node.firstClusterLo), F();
      SmallTable(sb, |F()|);
      ChainAtEnd(t, first, l);
      var lastCluster := FindLastCluster(node, l);
      sc, cluster := FindFreeCluster();
      if sc != 0 {
        SameRefl(sb, f);
        return;
      }
      ghost var f1 := F();
      PutOutsideFat(sb, f, f1, cluster, Encoded(sb.fatType, CLUSTER_EOC));
      HintGrows(node, l, cluster, ClusterSize(sb));
      CodecRoundTrip(sb.fatType, cluster);
      if FirstCluster(sb.fatType, node.firstClusterLo) == CLUSTER_EOC {
        ChainStart(t, cluster);
        FirstClusterRoundTrip(sb.fatType, cluster);
        node.firstClusterLo := Encoded(sb.fatType, cluster);
        assert l + [cluster] == [cluster];
      } else {
        ChainAppend(t, first, l, cluster);
        WriteFATEntry(lastCluster, cluster);
        PutOutsideFat(sb, f1, F(), lastCluster, Encoded(sb.fatType, cluster));
        SameTrans(sb, f, f1, F());
      }
    }

    /** FreeClusters: the clusters met from first on, and no others, are freed. It ends even where links run in a
        circle, because the second visit to a cluster finds it free. */
    method FreeClusters(first: nat) returns (ghost p: seq<nat>)
      requires Valid() && LinksInRange(T()) && (IsLink(first) ==> first < sb.clusterCnt + 2)
      modifies cache, cache.blkTable, cache.hashList
      ensures Valid() && |F()| == |old(F())| && SameOutsideFat(sb, old(F()), F())
      ensures CopiesAgree(sb, old(F())) ==> CopiesAgree(sb, F())
      ensures Complete(old(T()), first, p) && T() == Freed(old(T()), p)
    {
      hide EntryReadAs, EntryWritten, Cache.Valid, Cache.Bytes, Table, ValidSB, EntryPut, SameOutsideFat, NoDup,
        LinksInRange, Trail, CopiesAgree;
      ghost var t, f := T(), F();
      SmallTable(sb, |F()|);
      CodecRoundTrip(sb.fatType, CLUSTER_FREE);
      SameRefl(sb, f);
      TrailStart(t, first);
      p := [];
      var cluster := first;
      // A cluster met again reads as free.
      ghost var circle := false;
      while CLUSTER_ALLOC_MIN <= cluster <= CLUSTER_ALLOC_MAX
        invariant Valid() && |F()| == |f| && SameOutsideFat(sb, f, F()) && T() == Freed(t, p)
        invariant CopiesAgree(sb, f) ==> CopiesAgree(sb, F())
        invariant Trail(t, first, p) && (p != [] ==> p[|p| - 1] < |t|)
        invariant if circle then Next(t, first, p) in p && cluster == CLUSTER_FREE else cluster == Next(t, first, p)
        decreases |t| - |p|, !circle
      {
        ghost var f1 := F();
        TrailStep(t, first, p);
        TrailShort(t, first, p);
        var next := ReadFATEntry(cluster);
        WriteFATEntry(cluster, CLUSTER_FREE);
        PutOutsideFat(sb, f1, F(), cluster, Encoded(sb.fatType, CLUSTER_FREE));
        SameTrans(sb, f, f1, F());
        if cluster in p {
          circle := true;
        } else {
          p := p + [cluster];
          TrailShort(t, first, p);
        }
        cluster := next;
      }
    }
  }

  /** No cluster that is searched for is free. */
  ghost predicate NoneFree(t: seq<nat>, cnt: nat) {
    forall c: nat :: 2 <= c < cnt && c < |t| ==> t[c] != CLUSTER_FREE
  }

  /** The clusters that are searched and free. */
  ghost function Free(t: seq<nat>, cnt: nat): set<nat> {
    set c: nat | 2 <= c < cnt && c < |t| && t[c] == CLUSTER_FREE
  }

  ghost function NumFree(t: seq<nat>, cnt: nat): nat {
    |Free(t, cnt)|
  }

  lemma NumFreeNone(t: seq<nat>, cnt: nat)
    ensures NumFree(t, cnt) == 0 <==> NoneFree(t, cnt)
  {
    if NumFree(t, cnt) == 0 {
      forall c: nat | 2 <= c < cnt && c < |t| ensures t[c] != CLUSTER_FREE {
        assert c !in Free(t, cnt);
      }
    } else {
      var c :| c in Free(t, cnt);
    }
  }

  /** A chain that has got a cluster has taken it from the free ones. */
  lemma NumFreeAppended(t: seq<nat>, first: nat, l: seq<nat>, c: nat, cnt: nat)
    requires IsChain(t, first, l) && 2 <= c < cnt && c < |t| && t[c] == CLUSTER_FREE
    ensures l != [] ==> l[|l| - 1] < |t|
    ensures NumFree(Appended(t, l, c), cnt) + 1 == NumFree(t, cnt)
  {
    if l != [] {
      ChainInUse(t, first, l, l[|l| - 1]);
    }
    assert Free(t, cnt) == Free(Appended(t, l, c), cnt) + {c};
  }

  /** FindFreeCluster fails with a free cluster left exactly when only the two it does not search are free. */
  lemma LastTwoNotSearched(t: seq<nat>, cnt: nat)
    requires |t| == cnt + 2
    ensures NoneFree(t, cnt) <==> forall c: nat :: 2 <= c < |t| && t[c] == CLUSTER_FREE ==> c == cnt || c == cnt + 1
  {
  }

  /** Such a table: a volume with one free cluster, which is never handed out. */
  lemma FreeNotFound(cnt: nat)
    requires cnt >= 2
    ensures var t := seq(cnt + 2, c => if c == cnt then CLUSTER_FREE else CLUSTER_EOC);
            NoneFree(t, cnt) && t[cnt] == CLUSTER_FREE
  {
  }

  /** The table once a free cluster has gone to the end of chain l. */
  function Appended(t: seq<nat>, l: seq<nat>, c: nat): seq<nat>
    requires c < |t| && (l != [] ==> l[|l| - 1] < |t|)
  {
    if l == [] then t[c := CLUSTER_EOC] else t[c := CLUSTER_EOC][l[|l| - 1] := c]
  }

  lemma HintGrows(node: FatNode, l: seq<nat>, c: nat, size: nat)
    requires node.HintOk(l, size)
    ensures node.HintOk(l + [c], size)
  {
    if node.hintCluster != 0 {
      var k :| 0 <= k < |l| && l[k] == node.hintCluster && node.hintOffset == Times(k, size);
      assert (l + [c])[k] == node.hintCluster;
    }
  }
}
