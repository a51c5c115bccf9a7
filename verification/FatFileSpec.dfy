/** The bytes of a file on a FAT volume, and what writes to clusters and table entries do to them. */
module FatFileSpec {
  import opened Words
  import opened BlockStore
  import opened CacheSpec
  import opened FatSpec
  import opened FatChain

  function Within(sb: FatSB, offset: nat): (r: nat)
    requires ClusterSize(sb) > 0
    ensures r < ClusterSize(sb)
  {
    offset % ClusterSize(sb)
  }

  /** The byte at a position of a file with clusters l. */
  ghost function FileByte(sb: FatSB, f: seq<Byte>, l: seq<nat>, p: nat): Byte
    requires ClusterSize(sb) > 0
  {
    var k := ClusterIndex(sb, p);
    if k < |l| && l[k] >= 2 && ClusterPos(sb, l[k]) + Within(sb, p) < |f|
        then f[ClusterPos(sb, l[k]) + Within(sb, p)] else 0
  }

  /** Where byte p of a file is on the disk. */
  lemma FileByteOnDisk(sb: FatSB, f: seq<Byte>, l: seq<nat>, p: nat)
    requires ValidSB(sb, |f|) && ClustersOk(sb, l)
    ensures var cs := 512 * sb.sectorsPerCluster;
            && cs > 0
            && (0 <= p / cs < |l| ==>
                  var o := 512 * (sb.partitionStart + sb.firstDataSector + (l[p / cs] - 2) * sb.sectorsPerCluster)
                           + p % cs;
                  0 <= o < |f| && FileByte(sb, f, l, p) == f[o])
  {
    var k := ClusterIndex(sb, p);
    if k < |l| {
      ClusterInside(sb, l[k], |f|);
    }
  }

  ghost function FileByteFrom(sb: FatSB, f: seq<Byte>, l: seq<nat>, from: nat, j: nat): Byte
    requires ClusterSize(sb) > 0
  {
    FileByte(sb, f, l, from + j)
  }

  /** n bytes of a file from a position on. */
  ghost function Span(sb: FatSB, f: seq<Byte>, l: seq<nat>, from: nat, n: nat): (c: seq<Byte>)
    requires ClusterSize(sb) > 0
    ensures |c| == n && forall j :: 0 <= j < n ==> c[j] == FileByte(sb, f, l, from + j)
  {
    seq(n, j requires 0 <= j < n => FileByteFrom(sb, f, l, from, j))
  }

  lemma SpanAdd(sb: FatSB, f: seq<Byte>, l: seq<nat>, from: nat, n: nat, m: nat)
    requires ClusterSize(sb) > 0
    ensures Span(sb, f, l, from, n) + Span(sb, f, l, from + n, m) == Span(sb, f, l, from, n + m)
  {
    hide FileByte;
    assert Span(sb, f, l, from, n + m)[..n] == Span(sb, f, l, from, n);
    assert Span(sb, f, l, from, n + m)[n..] == Span(sb, f, l, from + n, m);
  }

  /** The clusters of a chain hold that many bytes. */
  function Room(sb: FatSB, l: seq<nat>): nat {
    |l| * ClusterSize(sb)
  }

  lemma RoomIs(sb: FatSB, l: seq<nat>, p: nat)
    requires ClusterSize(sb) > 0
    ensures p < Room(sb, l) <==> ClusterIndex(sb, p) < |l|
  {
    var cs, k := ClusterSize(sb), p / ClusterSize(sb);
    assert p == k * cs + p % cs;
    if k < |l| {
      MulStep(k, |l|, cs);
    } else {
      MulMono(|l|, k, cs);
    }
  }

  lemma SectorInCluster(offset: nat, m: nat, r: nat, spc: nat, j: nat)
    requires offset == SECTOR_SIZE * m + r && r < SECTOR_SIZE * spc && offset % SECTOR_SIZE + j < SECTOR_SIZE
    ensures r % SECTOR_SIZE == offset % SECTOR_SIZE && r + j < SECTOR_SIZE * spc
  {
  }

  /** Positions that share a sector share a cluster. */
  lemma SameSector(sb: FatSB, offset: nat, j: nat)
    requires ClusterSize(sb) > 0 && offset % SECTOR_SIZE + j < SECTOR_SIZE
    ensures ClusterIndex(sb, offset + j) == ClusterIndex(sb, offset)
    ensures Within(sb, offset + j) == Within(sb, offset) + j
    ensures Within(sb, offset) % SECTOR_SIZE == offset % SECTOR_SIZE
  {
    var cs := ClusterSize(sb);
    var q, r := offset / cs, offset % cs;
    WholeClusters(q, sb.sectorsPerCluster);
    SectorInCluster(offset, q * sb.sectorsPerCluster, r, sb.sectorsPerCluster, j);
    DivModOf(q, r + j, cs);
  }

  lemma WholeClusters(q: nat, spc: nat)
    ensures q * (SECTOR_SIZE * spc) == SECTOR_SIZE * (q * spc)
  {
  }

  /** Two positions of a file are the same number of bytes apart in a cluster. */
  lemma SameCluster(sb: FatSB, p: nat, q: nat)
    requires ClusterSize(sb) > 0 && ClusterIndex(sb, p) == ClusterIndex(sb, q)
    ensures q - p == Within(sb, q) - Within(sb, p)
  {
    var cs := ClusterSize(sb);
    assert p == p / cs * cs + p % cs && q == q / cs * cs + q % cs;
  }

  /** Where the sector and offset the source computes for a position lie on the disk. */
  lemma DataSector(sb: FatSB, c: nat, offset: nat)
    requires ClusterSize(sb) > 0 && c >= 2
    ensures SECTOR_SIZE * (sb.partitionStart + (ClusterToSector(sb, c) + Within(sb, offset) / SECTOR_SIZE))
              + offset % SECTOR_SIZE == ClusterPos(sb, c) + Within(sb, offset)
  {
    SameSector(sb, offset, 0);
  }

  /** n bytes from one sector of a file. */
  lemma ReadInSector(sb: FatSB, f: seq<Byte>, l: seq<nat>, offset: nat, n: nat)
    requires ValidSB(sb, |f|) && ClusterIndex(sb, offset) < |l| && IsCluster(sb, l[ClusterIndex(sb, offset)])
    requires offset % SECTOR_SIZE + n <= SECTOR_SIZE
    ensures Within(sb, offset) + n <= ClusterSize(sb)
    ensures ClusterPos(sb, l[ClusterIndex(sb, offset)]) + Within(sb, offset) + n <= |f|
    ensures var p := ClusterPos(sb, l[ClusterIndex(sb, offset)]) + Within(sb, offset);
            f[p..p + n] == Span(sb, f, l, offset, n)
  {
    hide ClusterIndex, Within, ClusterPos, ValidSB;
    SmallTable(sb, |f|);
    ClusterInside(sb, l[ClusterIndex(sb, offset)], |f|);
    if n > 0 {
      SameSector(sb, offset, n - 1);
    }
    var p := ClusterPos(sb, l[ClusterIndex(sb, offset)]) + Within(sb, offset);
    forall j | 0 <= j < n ensures f[p..p + n][j] == Span(sb, f, l, offset, n)[j] {
      SameSector(sb, offset, j);
    }
  }

  /** The bytes of a cluster. */
  ghost function ClusterBytes(sb: FatSB, f: seq<Byte>, c: nat): (b: seq<Byte>)
    requires ValidSB(sb, |f|) && IsCluster(sb, c)
    ensures |b| == ClusterSize(sb)
  {
    ClusterInside(sb, c, |f|);
    f[ClusterPos(sb, c)..ClusterPos(sb, c) + ClusterSize(sb)]
  }

  lemma FileByteIs(sb: FatSB, f: seq<Byte>, l: seq<nat>, p: nat)
    requires ValidSB(sb, |f|) && ClusterIndex(sb, p) < |l| && IsCluster(sb, l[ClusterIndex(sb, p)])
    ensures FileByte(sb, f, l, p) == ClusterBytes(sb, f, l[ClusterIndex(sb, p)])[Within(sb, p)]
  {
    hide ClusterIndex, Within, ClusterPos;
    ClusterInside(sb, l[ClusterIndex(sb, p)], |f|);
  }

  /** A write inside one cluster changes that cluster, no other and not the table. */
  lemma WriteInCluster(sb: FatSB, f: seq<Byte>, c: nat, o: nat, d: seq<Byte>)
    requires ValidSB(sb, |f|) && IsCluster(sb, c) && o + |d| <= ClusterSize(sb)
    ensures ClusterPos(sb, c) + o + |d| <= |f|
    ensures var f2 := Splice(f, ClusterPos(sb, c) + o, d);
            && ClusterBytes(sb, f2, c) == Splice(ClusterBytes(sb, f, c), o, d)
            && (forall e: nat :: IsCluster(sb, e) && e != c ==> ClusterBytes(sb, f2, e) == ClusterBytes(sb, f, e))
            && Table(sb, f2) == Table(sb, f)
            && SameBefore(sb, f, f2)
  {
    hide ClusterPos, ValidSB, FatStart, Table, Splice, SameBefore, DataStart;
    ClusterInside(sb, c, |f|);
    var p := ClusterPos(sb, c) + o;
    var f2 := Splice(f, p, d);
    SplicePart(f, p, d, ClusterPos(sb, c), ClusterSize(sb));
    forall e: nat | IsCluster(sb, e) && e != c ensures ClusterBytes(sb, f2, e) == ClusterBytes(sb, f, e) {
      ClusterInside(sb, e, |f|);
      ClustersApart(sb, c, e);
      ClustersApart(sb, e, c);
      SplicePart(f, p, d, ClusterPos(sb, e), ClusterSize(sb));
    }
    DataAfterFat(sb, c, |f|);
    BeforeClusters(sb, f, p, d);
  }

  /** A write past the start of the clusters shows neither in the table nor in anything before them. */
  lemma BeforeClusters(sb: FatSB, f: seq<Byte>, p: nat, d: seq<Byte>)
    requires ValidSB(sb, |f|) && DataStart(sb) <= p && p + |d| <= |f|
    ensures Table(sb, Splice(f, p, d)) == Table(sb, f) && SameBefore(sb, f, Splice(f, p, d))
  {
    hide ValidSB, FatStart, DataStart, Splice, Raw;
    SmallTable(sb, |f|);
    FatBeforeData(sb, |f|);
    CopyInside(sb, 0, |f|);
    SplicePart(f, p, d, FatStart(sb, 0), FatBytes(sb));
    forall q | 0 <= q < |f| && q < DataStart(sb) ensures Splice(f, p, d)[q] == f[q] {
      SpliceAt(f, p, d, q);
    }
    assert Table(sb, Splice(f, p, d)) == Table(sb, f);
  }

  lemma DataAfterFat(sb: FatSB, c: nat, size: nat)
    requires ValidSB(sb, size) && IsCluster(sb, c)
    ensures FatStart(sb, sb.fatCnt) <= DataStart(sb) <= ClusterPos(sb, c)
  {
    FatBeforeData(sb, size);
    MulMono(0, c - 2, sb.sectorsPerCluster);
  }

  /** What lies before the clusters and is not the table: boot sectors and, for these volumes, the root directory. */
  ghost predicate SameBefore(sb: FatSB, f: seq<Byte>, f2: seq<Byte>) {
    && |f2| == |f|
    && forall p :: 0 <= p < |f| && (p < FatStart(sb, 0) || FatStart(sb, sb.fatCnt) <= p < DataStart(sb)) ==>
         f2[p] == f[p]
  }

  /** Nothing that is not the file's own has changed: clusters in use outside its chain l keep entry and bytes, and what
      lies before the clusters is as it was. */
  ghost predicate Kept(sb: FatSB, f: seq<Byte>, f2: seq<Byte>, l: seq<nat>)
    requires ValidSB(sb, |f|)
  {
    && SameBefore(sb, f, f2)
    && forall c: nat :: IsCluster(sb, c) && c !in l && Table(sb, f)[c] != CLUSTER_FREE ==>
         Table(sb, f2)[c] == Table(sb, f)[c] && ClusterBytes(sb, f2, c) == ClusterBytes(sb, f, c)
  }

  lemma KeptRefl(sb: FatSB, f: seq<Byte>, l: seq<nat>)
    requires ValidSB(sb, |f|)
    ensures Kept(sb, f, f, l)
  {
  }

  /** The chain may have grown by clusters that were free. */
  lemma KeptTrans(sb: FatSB, f: seq<Byte>, f1: seq<Byte>, f2: seq<Byte>, l: seq<nat>, l1: seq<nat>)
    requires ValidSB(sb, |f|) && |f1| == |f| && Kept(sb, f, f1, l) && Kept(sb, f1, f2, l1)
    requires forall c: nat :: c in l1 && c !in l && c < sb.clusterCnt + 2 ==> Table(sb, f)[c] == CLUSTER_FREE
    ensures Kept(sb, f, f2, l)
  {
    hide Table, ClusterBytes, ValidSB;
  }

  /** Every other file keeps its chain and its bytes. */
  lemma OtherFileKept(sb: FatSB, f: seq<Byte>, f2: seq<Byte>, l: seq<nat>, first: nat, m: seq<nat>, n: nat)
    requires ValidSB(sb, |f|) && Kept(sb, f, f2, l) && IsChain(Table(sb, f), first, m) && Apart(m, l)
    requires n <= Room(sb, m)
    ensures IsChain(Table(sb, f2), first, m)
    ensures Span(sb, f2, m, 0, n) == Span(sb, f, m, 0, n)
  {
    hide Table, ClusterBytes, ClusterIndex, Within, Room, FileByte, ValidSB;
    SmallTable(sb, |f|);
    forall c: nat | c in m && c < sb.clusterCnt + 2
      ensures Table(sb, f2)[c] == Table(sb, f)[c] && IsCluster(sb, c)
              && ClusterBytes(sb, f2, c) == ClusterBytes(sb, f, c)
    {
      ChainInUse(Table(sb, f), first, m, c);
    }
    ChainKept(Table(sb, f), Table(sb, f2), first, m);
    forall p | 0 <= p < n ensures FileByte(sb, f2, m, p) == FileByte(sb, f, m, p) {
      RoomIs(sb, m, p);
      var c := m[ClusterIndex(sb, p)];
      assert c in m;
      ChainInUse(Table(sb, f), first, m, c);
      FileByteIs(sb, f, m, p);
      FileByteIs(sb, f2, m, p);
    }
  }

  ghost predicate ClustersOk(sb: FatSB, l: seq<nat>) {
    NoDup(l) && forall k :: 0 <= k < |l| ==> IsCluster(sb, l[k])
  }

  lemma ChainClusters(sb: FatSB, t: seq<nat>, first: nat, l: seq<nat>)
    requires IsChain(t, first, l) && |t| == sb.clusterCnt + 2
    ensures ClustersOk(sb, l)
  {
  }

  /** Bytes written inside one sector of a file are the file's bytes there; no other byte of it differs, and nothing
      that is not its own. */
  lemma WriteInFile(sb: FatSB, f: seq<Byte>, l: seq<nat>, offset: nat, d: seq<Byte>)
    requires ValidSB(sb, |f|) && ClustersOk(sb, l) && ClusterIndex(sb, offset) < |l|
    requires offset % SECTOR_SIZE + |d| <= SECTOR_SIZE
    ensures ClusterPos(sb, l[ClusterIndex(sb, offset)]) + Within(sb, offset) + |d| <= |f|
    ensures var f2 := Splice(f, ClusterPos(sb, l[ClusterIndex(sb, offset)]) + Within(sb, offset), d);
            && Table(sb, f2) == Table(sb, f) && Kept(sb, f, f2, l)
            && forall p: nat :: FileByte(sb, f2, l, p) ==
                                if offset <= p < offset + |d| then d[p - offset] else FileByte(sb, f, l, p)
  {
    hide ClusterIndex, Within, ClusterPos, ValidSB, ClusterBytes, FileByte, Table, SameBefore;
    SmallTable(sb, |f|);
    var k, o := ClusterIndex(sb, offset), Within(sb, offset);
    ReadInSector(sb, f, l, offset, |d|);
    WriteInCluster(sb, f, l[k], o, d);
    var f2 := Splice(f, ClusterPos(sb, l[k]) + o, d);
    forall p: nat
      ensures FileByte(sb, f2, l, p) == if offset <= p < offset + |d| then d[p - offset] else FileByte(sb, f, l, p)
    {
      if offset <= p < offset + |d| {
        SameSector(sb, offset, p - offset);
      }
      ByteAfterWrite(sb, f, f2, l, offset, d, p);
    }
  }

  lemma ByteAfterWrite(sb: FatSB, f: seq<Byte>, f2: seq<Byte>, l: seq<nat>, offset: nat, d: seq<Byte>, p: nat)
    requires ValidSB(sb, |f|) && |f2| == |f| && ClustersOk(sb, l) && ClusterIndex(sb, offset) < |l|
    requires Within(sb, offset) + |d| <= ClusterSize(sb)
    requires offset <= p < offset + |d| ==> ClusterIndex(sb, p) == ClusterIndex(sb, offset)
    requires var c := l[ClusterIndex(sb, offset)];
             && ClusterBytes(sb, f2, c) == Splice(ClusterBytes(sb, f, c), Within(sb, offset), d)
             && forall e: nat :: IsCluster(sb, e) && e != c ==> ClusterBytes(sb, f2, e) == ClusterBytes(sb, f, e)
    ensures FileByte(sb, f2, l, p) == if offset <= p < offset + |d| then d[p - offset] else FileByte(sb, f, l, p)
  {
    hide ClusterIndex, Within, ClusterPos, ValidSB, ClusterBytes;
    SmallTable(sb, |f|);
    var k := ClusterIndex(sb, p);
    if k < |l| {
      FileByteIs(sb, f, l, p);
      FileByteIs(sb, f2, l, p);
      if k == ClusterIndex(sb, offset) {
        SameCluster(sb, offset, p);
      }
    }
  }

  /** What a write has done to a file of size bytes: data from offset on, and the rest of the file as before. */
  ghost predicate Put(sb: FatSB, f: seq<Byte>, l: seq<nat>, f2: seq<Byte>, l2: seq<nat>, size: nat, offset: nat,
                      data: seq<Byte>)
    requires ClusterSize(sb) > 0
  {
    forall p: nat :: p < size || offset <= p < offset + |data| ==>
      FileByte(sb, f2, l2, p) == if offset <= p < offset + |data| then data[p - offset] else FileByte(sb, f, l, p)
  }

  lemma PutMore(sb: FatSB, f: seq<Byte>, l: seq<nat>, f1: seq<Byte>, l1: seq<nat>, f2: seq<Byte>, size: nat,
                offset: nat, d: seq<Byte>, e: seq<Byte>)
    requires ClusterSize(sb) > 0 && Put(sb, f, l, f1, l1, size, offset, d)
    requires forall p: nat :: FileByte(sb, f2, l1, p) ==
                              if offset + |d| <= p < offset + |d| + |e| then e[p - (offset + |d|)]
                              else FileByte(sb, f1, l1, p)
    ensures Put(sb, f, l, f2, l1, size, offset, d + e)
  {
    hide FileByte;
  }

  /** A longer chain and other table entries do not show in the file's bytes. */
  lemma PutLonger(sb: FatSB, f: seq<Byte>, l: seq<nat>, f1: seq<Byte>, l1: seq<nat>, f2: seq<Byte>, c: nat, size: nat,
                  offset: nat, d: seq<Byte>)
    requires ValidSB(sb, |f1|) && SameOutsideFat(sb, f1, f2) && ClustersOk(sb, l1)
              && Put(sb, f, l, f1, l1, size, offset, d)
    requires size <= Room(sb, l1) && offset + |d| <= Room(sb, l1)
    ensures Put(sb, f, l, f2, l1 + [c], size, offset, d)
  {
    hide FileByte, ClusterIndex, Within, ClusterPos, ValidSB, ClusterBytes, Room, SameOutsideFat;
    SmallTable(sb, |f1|);
    forall p: nat | p < size || offset <= p < offset + |d|
      ensures FileByte(sb, f2, l1 + [c], p) == FileByte(sb, f1, l1, p)
    {
      RoomIs(sb, l1, p);
      var e := l1[ClusterIndex(sb, p)];
      assert (l1 + [c])[ClusterIndex(sb, p)] == e;
      SameClusterBytes(sb, f1, f2, e);
      FileByteIs(sb, f1, l1, p);
      FileByteIs(sb, f2, l1 + [c], p);
    }
  }

  lemma SameClusterBytes(sb: FatSB, f: seq<Byte>, f2: seq<Byte>, c: nat)
    requires ValidSB(sb, |f|) && SameOutsideFat(sb, f, f2) && IsCluster(sb, c)
    ensures |f2| == |f|
    ensures ClusterBytes(sb, f2, c) == ClusterBytes(sb, f, c)
  {
    hide ValidSB, ClusterPos, FatStart;
    ClusterInside(sb, c, |f|);
  }

  /** The table's entries for clusters that are neither free nor the file's stay. */
  lemma KeptByTable(sb: FatSB, f: seq<Byte>, f2: seq<Byte>, l: seq<nat>)
    requires ValidSB(sb, |f|) && SameOutsideFat(sb, f, f2)
    requires forall c: nat :: IsCluster(sb, c) && c !in l && Table(sb, f)[c] != CLUSTER_FREE ==>
               Table(sb, f2)[c] == Table(sb, f)[c]
    ensures Kept(sb, f, f2, l)
  {
    hide ValidSB, ClusterPos, FatStart, Table, ClusterBytes;
    forall c: nat | IsCluster(sb, c) ensures ClusterBytes(sb, f2, c) == ClusterBytes(sb, f, c) {
      SameClusterBytes(sb, f, f2, c);
    }
  }

  /** Byte by byte, what a write has done is an overlay. */
  lemma PutContents(sb: FatSB, f: seq<Byte>, l: seq<nat>, f2: seq<Byte>, l2: seq<nat>, size: nat, offset: nat,
                    data: seq<Byte>)
    requires ClusterSize(sb) > 0 && Put(sb, f, l, f2, l2, size, offset, data) && offset <= size
    ensures Span(sb, f2, l2, 0, if offset + |data| > size then offset + |data| else size)
            == Overlay(Span(sb, f, l, 0, size), offset, data)
  {
    hide FileByte;
    var n := if offset + |data| > size then offset + |data| else size;
    forall p | 0 <= p < n
      ensures Span(sb, f2, l2, 0, n)[p] == Overlay(Span(sb, f, l, 0, size), offset, data)[p]
    {
      assert 0 + p == p;
    }
  }
}
