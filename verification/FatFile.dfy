/** fatfs/file.c: reading and writing files of a FAT12 or FAT16 volume other than the root directory. */
module FatFile {
  import opened Words
  import opened BlockStore
  import opened CacheSpec
  import opened SectorCache
  import opened FatSpec
  import opened FatChain
  import opened FatVolume
  import opened FatFileSpec

  /** How much of a request the file has: up to its size, and up to the end of its clusters. */
  ghost function Readable(sb: FatSB, l: seq<nat>, size: nat, count: nat, offset: nat): nat {
    var end := Least(size, Room(sb, l));
    if offset >= end then 0 else Least(count, end - offset)
  }

  /** A node's chain and its hint are in order. */
  ghost predicate NodeOk(v: Volume, node: FatNode, l: seq<nat>)
    requires v.Valid()
    reads v, v.cache, v.cache.blkTable, v.cache.hashList, node
  {
    v.Chain(FirstCluster(v.sb.fatType, node.firstClusterLo), l) && node.HintOk(l, ClusterSize(v.sb))
  }

  /** readFile. */
  method ReadFile(v: Volume, node: FatNode, count: nat, offset: nat, ghost l: seq<nat>) returns (buf: seq<Byte>)
    requires v.Valid() && NodeOk(v, node, l)
    modifies v.cache, v.cache.blkTable, v.cache.hashList
    ensures v.Valid() && NodeOk(v, node, l) && v.F() == old(v.F())
    ensures ClusterSize(v.sb) > 0 && buf == Span(v.sb, v.F(), l, offset, |buf|)
    ensures |buf| == Readable(v.sb, l, node.size, count, offset)
  {
    hide Cache.Valid, Cache.Bytes, ValidSB, Span, Room, ClusterIndex, Within, ClusterPos, IsChain, Table;
    ghost var f := v.F();
    SmallTable(v.sb, |f|);
    ChainClusters(v.sb, v.T(), FirstCluster(v.sb.fatType, node.firstClusterLo), l);
    var n := if offset >= node.size then 0 else if count < node.size - offset then count else node.size - offset;
    buf := [];
    var pos := offset;
    SpanNone(v.sb, f, l, offset);
    while |buf| < n
      invariant v.Valid() && v.F() == f && pos == offset + |buf| && |buf| <= n
      invariant buf == Span(v.sb, f, l, offset, |buf|)
      invariant |buf| > 0 ==> pos <= Room(v.sb, l)
    {
      var sc, cluster := v.FindCluster(node, pos, l);
      RoomIs(v.sb, l, pos);
      if sc != 0 {
        break;
      }
      var clusterOffset := Within(v.sb, pos);
      DataSector(v.sb, cluster, pos);
      var sector := ClusterToSector(v.sb, cluster) + clusterOffset / SECTOR_SIZE;
      var sectorOffset := pos % SECTOR_SIZE;
      var k := Least(Least(SECTOR_SIZE, n - |buf|), SECTOR_SIZE - sectorOffset);
      ReadInSector(v.sb, f, l, pos, k);
      if k > 0 {
        SameSector(v.sb, pos, k - 1);
        RoomIs(v.sb, l, pos + k - 1);
      }
      var mem := v.ReadSector(sector, sectorOffset, k);
      SpanAdd(v.sb, f, l, offset, |buf|, k);
      buf := buf + mem;
      pos := pos + k;
    }
  }

  lemma SpanNone(sb: FatSB, f: seq<Byte>, l: seq<nat>, from: nat)
    requires ClusterSize(sb) > 0
    ensures Span(sb, f, l, from, 0) == []
  {
  }

  /** A write to a file whose chain was l0 on disk f0, with l as long as the chain is now: d has gone in at offset. */
  ghost predicate Progress(sb: FatSB, f0: seq<Byte>, l0: seq<nat>, f: seq<Byte>, l: seq<nat>, size: nat, offset: nat,
                           d: seq<Byte>)
    requires ValidSB(sb, |f0|)
  {
    && |f| == |f0| && l0 <= l
    && (forall c: nat :: c in l && c !in l0 && c < sb.clusterCnt + 2 ==> Table(sb, f0)[c] == CLUSTER_FREE)
    && Kept(sb, f0, f, l0)
    && Put(sb, f0, l0, f, l, size, offset, d)
    && size <= Room(sb, l) && offset + |d| <= Room(sb, l)
  }

  /** The chain is the same; more data has gone in, and there was room for it. */
  lemma ProgressMore(sb: FatSB, f0: seq<Byte>, l0: seq<nat>, f1: seq<Byte>, f: seq<Byte>, l: seq<nat>, size: nat,
                     offset: nat, d1: seq<Byte>, d: seq<Byte>)
    requires ValidSB(sb, |f0|) && Progress(sb, f0, l0, f1, l, size, offset, d1)
    requires |f| == |f0| && Kept(sb, f0, f, l0) && Put(sb, f0, l0, f, l, size, offset, d)
    requires d == d1 || offset + |d| <= Room(sb, l)
    ensures Progress(sb, f0, l0, f, l, size, offset, d)
  {
    hide Kept, Put, Table, Room;
  }

  lemma ProgressStart(sb: FatSB, f: seq<Byte>, l: seq<nat>, size: nat, offset: nat)
    requires ValidSB(sb, |f|) && offset <= size <= Room(sb, l)
    ensures Progress(sb, f, l, f, l, size, offset, [])
  {
    hide Room, FileByte, Table;
    KeptRefl(sb, f, l);
  }

  /** The chain grew by a free cluster. */
  lemma ProgressLonger(sb: FatSB, f0: seq<Byte>, l0: seq<nat>, f1: seq<Byte>, l1: seq<nat>, first: nat, f2: seq<Byte>,
                       c: nat, size: nat, offset: nat, d: seq<Byte>)
    requires ValidSB(sb, |f0|) && Progress(sb, f0, l0, f1, l1, size, offset, d) && IsChain(Table(sb, f1), first, l1)
    requires c < sb.clusterCnt && Table(sb, f1)[c] == CLUSTER_FREE && IsCluster(sb, c)
    requires SameOutsideFat(sb, f1, f2) && |f2| == |f1|
    requires l1 != [] ==> l1[|l1| - 1] < sb.clusterCnt + 2
    requires Table(sb, f2) == Appended(Table(sb, f1), l1, c)
    ensures Progress(sb, f0, l0, f2, l1 + [c], size, offset, d)
  {
    hide Put, SameOutsideFat, SameBefore, ValidSB, Table, ClusterBytes;
    SmallTable(sb, |f0|);
    ChainClusters(sb, Table(sb, f1), first, l1);
    KeptByTable(sb, f1, f2, l1);
    KeptTrans(sb, f0, f1, f2, l0, l1);
    PutLonger(sb, f0, l0, f1, l1, f2, c, size, offset, d);
    MulMono(|l1|, |l1| + 1, ClusterSize(sb));
  }

  /** Data went into one sector. */
  lemma ProgressWritten(sb: FatSB, f0: seq<Byte>, l0: seq<nat>, f1: seq<Byte>, l: seq<nat>, first: nat, f2: seq<Byte>,
                        size: nat, offset: nat, d: seq<Byte>, e: seq<Byte>)
    requires ValidSB(sb, |f0|) && Progress(sb, f0, l0, f1, l, size, offset, d) && IsChain(Table(sb, f1), first, l)
    requires ClusterIndex(sb, offset + |d|) < |l| && IsCluster(sb, l[ClusterIndex(sb, offset + |d|)])
    requires (offset + |d|) % SECTOR_SIZE + |e| <= SECTOR_SIZE
    requires ClusterPos(sb, l[ClusterIndex(sb, offset + |d|)]) + Within(sb, offset + |d|) + |e| <= |f1|
    requires f2 == Splice(f1, ClusterPos(sb, l[ClusterIndex(sb, offset + |d|)]) + Within(sb, offset + |d|), e)
    ensures Progress(sb, f0, l0, f2, l, size, offset, d + e) && Table(sb, f2) == Table(sb, f1)
  {
    hide Put, SameOutsideFat, SameBefore, ValidSB, Table, ClusterBytes, ClusterIndex, Within, ClusterPos, Room,
      FileByte, Splice, Kept, Progress, IsChain;
    ProgressFacts(sb, f0, l0, f1, l, size, offset, d);
    SmallTable(sb, |f0|);
    ChainClusters(sb, Table(sb, f1), first, l);
    WriteInFile(sb, f1, l, offset + |d|, e);
    KeptTrans(sb, f0, f1, f2, l0, l);
    PutMore(sb, f0, l0, f1, l, f2, size, offset, d, e);
    if e != [] {
      SameSector(sb, offset + |d|, |e| - 1);
      RoomIs(sb, l, offset + |d| + |e| - 1);
    } else {
      assert d + e == d;
    }
    ProgressMore(sb, f0, l0, f1, f2, l, size, offset, d, d + e);
  }

  /** writeFile's inner loop: the cluster of a position, appended to the file if need be. Each pass makes the chain
      longer by a cluster that was free, so the loop ends. */
  method FindOrAppend(v: Volume, node: FatNode, pos: nat, ghost f0: seq<Byte>, ghost l0: seq<nat>, ghost l1: seq<nat>,
                      ghost offset: nat, ghost d: seq<Byte>)
    returns (sc: int, cluster: nat, ghost l: seq<nat>)
    requires v.Valid() && NodeOk(v, node, l1)
    requires ValidSB(v.sb, |f0|) && Progress(v.sb, f0, l0, v.F(), l1, node.size, offset, d)
    modifies v`startSearchCluster, v.cache, v.cache.blkTable, v.cache.hashList
    modifies node`hintCluster, node`hintOffset, node`firstClusterLo
    ensures v.Valid() && NodeOk(v, node, l)
    ensures Progress(v.sb, f0, l0, v.F(), l, node.size, offset, d)
    ensures NumFree(v.T(), v.sb.clusterCnt) + |l| == NumFree(old(v.T()), v.sb.clusterCnt) + |l1|
    ensures ClusterSize(v.sb) > 0 && (|l| <= |l1| || |l| <= ClusterIndex(v.sb, pos) + 1)
    ensures sc == 0 ==> ClusterSize(v.sb) > 0 && ClusterIndex(v.sb, pos) < |l|
                        && cluster == l[ClusterIndex(v.sb, pos)]
    ensures sc != 0 ==> ClusterSize(v.sb) > 0 && ClusterIndex(v.sb, pos) >= |l| && NoneFree(v.T(), v.sb.clusterCnt)
  {
    hide Cache.Valid, Cache.Bytes, ValidSB, ClusterIndex, IsChain, Table, NoneFree, SameOutsideFat, FatNode.HintOk,
      Progress, NumFree, Appended;
    SmallTable(v.sb, |f0|);
    l := l1;
    sc, cluster := v.FindCluster(node, pos, l);
    while sc != 0
      invariant v.Valid() && NodeOk(v, node, l)
      invariant Progress(v.sb, f0, l0, v.F(), l, node.size, offset, d)
      invariant sc == 0 <==> ClusterIndex(v.sb, pos) < |l|
      invariant sc == 0 ==> cluster == l[ClusterIndex(v.sb, pos)]
      invariant NumFree(v.T(), v.sb.clusterCnt) + |l| == NumFree(old(v.T()), v.sb.clusterCnt) + |l1|
      invariant |l| <= |l1| || |l| <= ClusterIndex(v.sb, pos) + 1
      decreases ClusterIndex(v.sb, pos) - |l|, sc != 0
    {
      ghost var f1, first, t1 := v.F(), FirstCluster(v.sb.fatType, node.firstClusterLo), v.T();
      ChainLast(v.T(), first, l);
      sc, cluster := v.AppendCluster(node, l);
      if sc != 0 {
        return;
      }
      NumFreeAppended(t1, first, l, cluster, v.sb.clusterCnt);
      ProgressLonger(v.sb, f0, l0, f1, l, first, v.F(), cluster, node.size, offset, d);
      l := l + [cluster];
      sc, cluster := v.FindCluster(node, pos, l);
    }
  }

  lemma LaterCluster(sb: FatSB, p: nat, q: nat)
    requires ClusterSize(sb) > 0 && p <= q
    ensures ClusterIndex(sb, p) <= ClusterIndex(sb, q)
  {
    var cs := ClusterSize(sb);
    if p / cs > q / cs {
      assert p == p / cs * cs + p % cs && q == q / cs * cs + q % cs;
      MulStep(q / cs, p / cs, cs);
    }
  }

  lemma ChainLast(t: seq<nat>, first: nat, l: seq<nat>)
    requires IsChain(t, first, l)
    ensures l != [] ==> l[|l| - 1] < |t|
  {
  }

  lemma ChainIsCluster(sb: FatSB, t: seq<nat>, first: nat, l: seq<nat>, k: nat)
    requires IsChain(t, first, l) && |t| == sb.clusterCnt + 2 && k < |l|
    ensures IsCluster(sb, l[k])
  {
  }

  /** writeFile, at a position not past the end of the file. When it takes all of data, the file is its old contents
      with data over them; in any case no other file changes. It stops short only when no cluster is free. */
  method WriteFile(v: Volume, node: FatNode, data: seq<Byte>, offset: nat, ghost l0: seq<nat>)
    returns (written: nat, ghost l: seq<nat>)
    requires v.Valid() && NodeOk(v, node, l0) && offset <= node.size <= Room(v.sb, l0)
    modifies v`startSearchCluster, v.cache, v.cache.blkTable, v.cache.hashList, node
    ensures v.Valid() && NodeOk(v, node, l) && node.size <= Room(v.sb, l)
    ensures l0 <= l && written <= |data| && |v.F()| == |old(v.F())|
    ensures Progress(v.sb, old(v.F()), l0, v.F(), l, old(node.size), offset, data[..written])
    ensures written == |data| ==>
              && ClusterSize(v.sb) > 0
              && Span(v.sb, v.F(), l, 0, node.size) ==
                 Overlay(Span(v.sb, old(v.F()), l0, 0, old(node.size)), offset, data)
    ensures written < |data| ==> node.size == old(node.size)
    ensures written < |data| ==> NoneFree(v.T(), v.sb.clusterCnt) && offset + written == Room(v.sb, l)
    ensures NumFree(v.T(), v.sb.clusterCnt) + |l| == NumFree(old(v.T()), v.sb.clusterCnt) + |l0|
    ensures ClusterSize(v.sb) > 0
    ensures |l| <= |l0| || (data != [] && |l| <= ClusterIndex(v.sb, offset + |data| - 1) + 1)
  {
    hide Cache.Valid, Cache.Bytes, ValidSB, Span, Room, ClusterIndex, Within, ClusterPos, IsChain, Table, Progress,
      NoneFree, FatNode.HintOk, Splice, Overlay, NumFree;
    ghost var f0 := v.F();
    SmallTable(v.sb, |f0|);
    ProgressStart(v.sb, f0, l0, node.size, offset);
    l, written := l0, 0;
    var pos := offset;
    assert data[..0] == [];
    while written < |data|
      invariant v.Valid() && NodeOk(v, node, l) && node.size == old(node.size)
      invariant written <= |data| && pos == offset + written
      invariant Progress(v.sb, f0, l0, v.F(), l, node.size, offset, data[..written])
      invariant NumFree(v.T(), v.sb.clusterCnt) + |l| == NumFree(old(v.T()), v.sb.clusterCnt) + |l0|
      invariant |l| <= |l0| || (data != [] && |l| <= ClusterIndex(v.sb, offset + |data| - 1) + 1)
    {
      LaterCluster(v.sb, pos, offset + |data| - 1);
      var sc, cluster;
      sc, cluster, l := FindOrAppend(v, node, pos, f0, l0, l, offset, data[..written]);
      if sc != 0 {
        ProgressFacts(v.sb, f0, l0, v.F(), l, node.size, offset, data[..written]);
        RoomIs(v.sb, l, pos);
        return;
      }
      ghost var f1, first := v.F(), FirstCluster(v.sb.fatType, node.firstClusterLo);
      ChainIsCluster(v.sb, v.T(), first, l, ClusterIndex(v.sb, pos));
      var clusterOffset := Within(v.sb, pos);
      DataSector(v.sb, cluster, pos);
      var sector := ClusterToSector(v.sb, cluster) + clusterOffset / SECTOR_SIZE;
      var sectorOffset := pos % SECTOR_SIZE;
      var k := Least(Least(SECTOR_SIZE, |data| - written), SECTOR_SIZE - sectorOffset);
      ReadInSector(v.sb, f1, l, pos, k);
      v.WriteSector(data[written..written + k], sector, sectorOffset);
      ProgressWritten(v.sb, f0, l0, f1, l, first, v.F(), node.size, offset, data[..written],
                      data[written..written + k]);
      assert data[..written] + data[written..written + k] == data[..written + k];
      pos := pos + k;
      written := written + k;
    }
    assert data[..|data|] == data;
    ProgressFacts(v.sb, f0, l0, v.F(), l, node.size, offset, data);
    PutContents(v.sb, f0, l0, v.F(), l, node.size, offset, data);
    if pos > node.size {
      node.size := pos;
    }
  }

  lemma ProgressFacts(sb: FatSB, f0: seq<Byte>, l0: seq<nat>, f: seq<Byte>, l: seq<nat>, size: nat, offset: nat,
                      d: seq<Byte>)
    requires ValidSB(sb, |f0|) && Progress(sb, f0, l0, f, l, size, offset, d)
    ensures |f| == |f0| && l0 <= l && ClusterSize(sb) > 0 && Put(sb, f0, l0, f, l, size, offset, d)
    ensures Kept(sb, f0, f, l0)
    ensures forall c: nat :: c in l && c !in l0 && c < sb.clusterCnt + 2 ==> Table(sb, f0)[c] == CLUSTER_FREE
    ensures size <= Room(sb, l) && offset + |d| <= Room(sb, l)
  {
  }

  /** After a write every other file has its chain and its bytes. */
  lemma OthersKept(sb: FatSB, f0: seq<Byte>, l0: seq<nat>, f: seq<Byte>, l: seq<nat>, size: nat, offset: nat,
                   d: seq<Byte>, first: nat, m: seq<nat>, n: nat)
    requires ValidSB(sb, |f0|) && Progress(sb, f0, l0, f, l, size, offset, d)
    requires IsChain(Table(sb, f0), first, m) && Apart(m, l0) && n <= Room(sb, m)
    ensures IsChain(Table(sb, f), first, m) && Apart(m, l)
    ensures Span(sb, f, m, 0, n) == Span(sb, f0, m, 0, n)
  {
    hide Room, Table, ValidSB, Put, Kept, Span, IsChain;
    SmallTable(sb, |f0|);
    OtherFileKept(sb, f0, f, l0, first, m, n);
    forall c: nat | c in m ensures c !in l {
      ChainInUse(Table(sb, f0), first, m, c);
    }
  }

  /** What was written reads back: a read after a complete write returns the spliced bytes. */
  lemma ReadsBack(sb: FatSB, f: seq<Byte>, l: seq<nat>, size: nat, old_: seq<Byte>, offset: nat, data: seq<Byte>,
                  buf: seq<Byte>, count: nat, from: nat)
    requires ClusterSize(sb) > 0 && size <= Room(sb, l) && offset <= |old_|
    requires size == |Overlay(old_, offset, data)| && Span(sb, f, l, 0, size) == Overlay(old_, offset, data)
    requires buf == Span(sb, f, l, from, |buf|) && |buf| == Readable(sb, l, size, count, from) && from <= size
    ensures |buf| == Least(count, size - from)
    ensures from + |buf| <= size && buf == Overlay(old_, offset, data)[from..from + |buf|]
  {
    hide Overlay, Room, FileByte;
    SpanPart(sb, f, l, size, from, |buf|);
  }

  lemma SpanPart(sb: FatSB, f: seq<Byte>, l: seq<nat>, size: nat, from: nat, n: nat)
    requires ClusterSize(sb) > 0 && from + n <= size
    ensures Span(sb, f, l, 0, size)[from..from + n] == Span(sb, f, l, from, n)
  {
    SpanAdd(sb, f, l, 0, from, n);
    SpanAdd(sb, f, l, 0, from + n, size - (from + n));
  }
}
