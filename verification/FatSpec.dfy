/** Layout of a FAT12 or FAT16 volume: the entry codec, cluster chains and the bytes of a file. */
module FatSpec {
  import opened Words
  import opened BlockStore
  import opened CacheSpec

  const CLUSTER_FREE: nat := 0
  const CLUSTER_ALLOC_MIN: nat := 1
  const CLUSTER_ALLOC_MAX: nat := 0x0FFF_FFF6
  const CLUSTER_BAD: nat := 0x0FFF_FFF7
  const CLUSTER_EOC: nat := 0x0FFF_FFFF

  datatype FatType = FAT12 | FAT16

  /** The values of one entry: 12 or 16 bits. */
  function Width(ty: FatType): nat { if ty.FAT12? then 0x1000 else 0x1_0000 }

  function EocMin(ty: FatType): nat { if ty.FAT12? then 0xFF8 else 0xFFF8 }

  function Eoc(ty: FatType): nat { if ty.FAT12? then 0xFFF else 0xFFFF }

  function Bad(ty: FatType): nat { if ty.FAT12? then 0xFF7 else 0xFFF7 }

  /** The value an entry is read as. */
  function Normal(ty: FatType, raw: nat): nat {
    if raw >= EocMin(ty) then CLUSTER_EOC else if raw == Bad(ty) then CLUSTER_BAD else raw
  }

  /** The bits a value is written as. */
  function Encoded(ty: FatType, v: nat): (raw: nat)
    ensures raw < Width(ty)
  {
    (if v == CLUSTER_EOC then Eoc(ty) else if v == CLUSTER_BAD then Bad(ty) else v) % Width(ty)
  }

  /** Values that fit survive: ends of chains, bad clusters, and cluster numbers below the reserved ones. */
  lemma CodecRoundTrip(ty: FatType, v: nat)
    ensures Normal(ty, Encoded(ty, v)) == v <==> v == CLUSTER_EOC || v == CLUSTER_BAD || v < Bad(ty)
  {
  }

  /** Byte offset of entry c in a copy of the table; FAT12 packs two entries into three bytes. */
  function Offset(ty: FatType, c: nat): nat {
    if ty.FAT12? then c + c / 2 else 2 * c
  }

  function WordAt(b: seq<Byte>, o: nat): nat
    requires o + 2 <= |b|
  {
    b[o] as nat + 256 * (b[o + 1] as nat)
  }

  /** The bits of entry c. */
  function Raw(ty: FatType, b: seq<Byte>, c: nat): nat
    requires Offset(ty, c) + 2 <= |b|
  {
    Field(ty, WordAt(b, Offset(ty, c)), c)
  }

  /** The two bytes entry c lies in, once its bits have been replaced. */
  function NewWord(ty: FatType, w: nat, c: nat, raw: nat): nat {
    if ty.FAT16? then raw
    else if c % 2 == 1 then raw * 16 + w % 16
    else raw + w / 0x1000 * 0x1000
  }

  function TwoBytes(w: nat): (d: seq<Byte>)
    requires w < 0x1_0000
    ensures |d| == 2
  {
    [w % 256, w / 256]
  }

  function PutRaw(ty: FatType, b: seq<Byte>, c: nat, raw: nat): (b2: seq<Byte>)
    requires Offset(ty, c) + 2 <= |b| && raw < Width(ty)
    ensures |b2| == |b|
  {
    var w := NewWord(ty, WordAt(b, Offset(ty, c)), c, raw);
    NewWordFields(ty, WordAt(b, Offset(ty, c)), c, raw);
    Splice(b, Offset(ty, c), TwoBytes(w))
  }

  /** The bits of a word that belong to entry c. */
  function Field(ty: FatType, w: nat, c: nat): nat {
    if ty.FAT16? then w else if c % 2 == 1 then w / 16 else w % 0x1000
  }

  lemma NewWordFields(ty: FatType, w: nat, c: nat, raw: nat)
    requires w < 0x1_0000 && raw < Width(ty)
    ensures var n := NewWord(ty, w, c, raw);
            && n < 0x1_0000 && n == n % 256 + 256 * (n / 256)
            && Field(ty, n, c) == raw
            && (ty.FAT12? && c % 2 == 1 ==> n % 16 == w % 16)
            && (ty.FAT12? && c % 2 == 0 ==> n / 0x1000 == w / 0x1000)
  {
  }

  /** A word's low 12 bits come from its low byte and four bits of its high byte; its high 12 bits likewise. */
  lemma SharedByte(lo: nat, hi: nat)
    requires lo < 256 && hi < 256
    ensures (lo + 256 * hi) % 0x1000 == lo + 256 * (hi % 16)
    ensures (lo + 256 * hi) / 16 == lo / 16 + 16 * hi
    ensures (lo + 256 * hi) % 16 == lo % 16 && (lo + 256 * hi) / 0x1000 == hi / 16
  {
  }

  lemma PutRawBytes(ty: FatType, b: seq<Byte>, c: nat, raw: nat)
    requires Offset(ty, c) + 2 <= |b| && raw < Width(ty)
    ensures var b2, o := PutRaw(ty, b, c, raw), Offset(ty, c);
            && (forall k :: 0 <= k < |b| && k != o && k != o + 1 ==> b2[k] == b[k])
            && WordAt(b2, o) == NewWord(ty, WordAt(b, o), c, raw)
  {
    NewWordFields(ty, WordAt(b, Offset(ty, c)), c, raw);
  }

  lemma PutRawSelf(ty: FatType, b: seq<Byte>, c: nat, raw: nat)
    requires Offset(ty, c) + 2 <= |b| && raw < Width(ty)
    ensures Raw(ty, PutRaw(ty, b, c, raw), c) == raw
  {
    hide PutRaw, NewWord;
    PutRawBytes(ty, b, c, raw);
    NewWordFields(ty, WordAt(b, Offset(ty, c)), c, raw);
  }

  /** Entries that share no byte. */
  lemma PutRawApart(ty: FatType, b: seq<Byte>, c: nat, raw: nat, d: nat)
    requires Offset(ty, c) + 2 <= |b| && raw < Width(ty) && Offset(ty, d) + 2 <= |b|
    requires Offset(ty, d) + 1 < Offset(ty, c) || Offset(ty, c) + 1 < Offset(ty, d)
    ensures Raw(ty, PutRaw(ty, b, c, raw), d) == Raw(ty, b, d)
  {
    hide PutRaw, NewWord, Offset, Field;
    PutRawBytes(ty, b, c, raw);
  }

  /** The entry that shares the first byte of an odd one. */
  lemma PutRawBefore(b: seq<Byte>, c: nat, raw: nat)
    requires c % 2 == 1 && Offset(FAT12, c) + 2 <= |b| && raw < Width(FAT12)
    ensures Offset(FAT12, c - 1) == Offset(FAT12, c) - 1
    ensures Raw(FAT12, PutRaw(FAT12, b, c, raw), c - 1) == Raw(FAT12, b, c - 1)
  {
    var b2, o := PutRaw(FAT12, b, c, raw), Offset(FAT12, c);
    assert Offset(FAT12, c - 1) == o - 1;
    hide PutRaw, NewWord, Offset;
    PutRawBytes(FAT12, b, c, raw);
    NewWordFields(FAT12, WordAt(b, o), c, raw);
    SharedByte(b[o], b[o + 1]);
    SharedByte(b2[o], b2[o + 1]);
    SharedByte(b[o - 1], b[o]);
    SharedByte(b2[o - 1], b2[o]);
  }

  /** The entry that shares the second byte of an even one. */
  lemma PutRawAfter(b: seq<Byte>, c: nat, raw: nat)
    requires c % 2 == 0 && Offset(FAT12, c + 1) + 2 <= |b| && raw < Width(FAT12)
    ensures Offset(FAT12, c + 1) == Offset(FAT12, c) + 1
    ensures Raw(FAT12, PutRaw(FAT12, b, c, raw), c + 1) == Raw(FAT12, b, c + 1)
  {
    var b2, o := PutRaw(FAT12, b, c, raw), Offset(FAT12, c);
    assert Offset(FAT12, c + 1) == o + 1;
    hide PutRaw, NewWord, Offset;
    PutRawBytes(FAT12, b, c, raw);
    NewWordFields(FAT12, WordAt(b, o), c, raw);
    SharedByte(b[o], b[o + 1]);
    SharedByte(b2[o], b2[o + 1]);
    SharedByte(b[o + 1], b[o + 2]);
    SharedByte(b2[o + 1], b2[o + 2]);
  }

  /** Entry c reads what was put; every other entry, even one that shares a byte with it, reads as before. */
  lemma PutRawOne(ty: FatType, b: seq<Byte>, c: nat, raw: nat, d: nat)
    requires Offset(ty, c) + 2 <= |b| && raw < Width(ty) && Offset(ty, d) + 2 <= |b|
    ensures Raw(ty, PutRaw(ty, b, c, raw), d) == if d == c then raw else Raw(ty, b, d)
  {
    hide PutRaw, NewWord, Raw, WordAt;
    if d == c {
      PutRawSelf(ty, b, c, raw);
    } else if ty.FAT12? && d + 1 == c && c % 2 == 1 {
      PutRawBefore(b, c, raw);
    } else if ty.FAT12? && d == c + 1 && c % 2 == 0 {
      PutRawAfter(b, c, raw);
    } else {
      PutRawApart(ty, b, c, raw, d);
    }
  }

  datatype FatSB = FatSB(
    fatType: FatType,
    partitionStart: nat,
    reservedSectorsCnt: nat,
    fatCnt: nat,
    sectorsPerFat: nat,
    sectorsPerCluster: nat,
    firstDataSector: nat,
    clusterCnt: nat)

  /** Byte position of a copy of the table on the disk. */
  function FatStart(sb: FatSB, fi: nat): nat {
    SECTOR_SIZE * (sb.partitionStart + sb.reservedSectorsCnt + fi * sb.sectorsPerFat)
  }

  function FatBytes(sb: FatSB): nat { SECTOR_SIZE * sb.sectorsPerFat }

  function ClusterSize(sb: FatSB): nat { SECTOR_SIZE * sb.sectorsPerCluster }

  /** Which of its clusters a position of a file lies in. */
  function ClusterIndex(sb: FatSB, offset: nat): nat
    requires ClusterSize(sb) > 0
  {
    offset / ClusterSize(sb)
  }

  /** ClusterToSector, which is for cluster numbers from 2 on. */
  function ClusterToSector(sb: FatSB, c: nat): nat
    requires c >= 2
  {
    (c - 2) * sb.sectorsPerCluster + sb.firstDataSector
  }

  /** Byte position of a cluster on the disk. */
  function ClusterPos(sb: FatSB, c: nat): nat
    requires c >= 2
  {
    SECTOR_SIZE * (sb.partitionStart + ClusterToSector(sb, c))
  }

  /** A layout whose table copies hold an entry per cluster and whose parts lie one after the other on the disk. */
  predicate ValidSB(sb: FatSB, size: nat) {
    && sb.fatCnt >= 1
    && 1 <= sb.sectorsPerCluster <= 128
    && sb.clusterCnt < (if sb.fatType.FAT12? then 4085 else 65525)
    && Offset(sb.fatType, sb.clusterCnt + 1) + 2 <= FatBytes(sb)
    && sb.reservedSectorsCnt + sb.fatCnt * sb.sectorsPerFat <= sb.firstDataSector
    && SECTOR_SIZE * (sb.partitionStart + sb.firstDataSector + sb.clusterCnt * sb.sectorsPerCluster) <= size
  }

  /** A cluster number that has an entry and a place on the disk. */
  predicate IsCluster(sb: FatSB, c: nat) {
    2 <= c < sb.clusterCnt + 2
  }

  lemma SmallTable(sb: FatSB, size: nat)
    requires ValidSB(sb, size)
    ensures sb.fatCnt >= 1 && sb.sectorsPerCluster >= 1
    ensures sb.clusterCnt + 2 <= CLUSTER_ALLOC_MAX && ClusterSize(sb) > 0 && sb.clusterCnt + 1 < Bad(sb.fatType)
  {
  }

  lemma CopiesApart(sb: FatSB, fi: nat, fj: nat)
    ensures fi < fj ==> FatStart(sb, fi) + FatBytes(sb) <= FatStart(sb, fj)
  {
    if fi < fj {
      MulStep(fi, fj, sb.sectorsPerFat);
    }
  }

  lemma ClustersApart(sb: FatSB, c: nat, d: nat)
    requires c >= 2 && d >= 2
    ensures c < d ==> ClusterPos(sb, c) + ClusterSize(sb) <= ClusterPos(sb, d)
  {
    if c < d {
      MulStep(c - 2, d - 2, sb.sectorsPerCluster);
    }
  }

  lemma ClusterInside(sb: FatSB, c: nat, size: nat)
    requires ValidSB(sb, size) && IsCluster(sb, c)
    ensures FatStart(sb, sb.fatCnt) <= ClusterPos(sb, c) && ClusterPos(sb, c) + ClusterSize(sb) <= size
  {
    hide Offset;
    var a, b := (c - 2) * sb.sectorsPerCluster, sb.clusterCnt * sb.sectorsPerCluster;
    MulStep(c - 2, sb.clusterCnt, sb.sectorsPerCluster);
    MulMono(0, c - 2, sb.sectorsPerCluster);
    assert 0 <= a && a + sb.sectorsPerCluster <= b;
    assert ClusterPos(sb, c) == SECTOR_SIZE * (sb.partitionStart + (a + sb.firstDataSector));
    FatBeforeData(sb, size);
  }

  /** Byte position of the first cluster. */
  function DataStart(sb: FatSB): nat { SECTOR_SIZE * (sb.partitionStart + sb.firstDataSector) }

  lemma FatBeforeData(sb: FatSB, size: nat)
    requires ValidSB(sb, size)
    ensures FatStart(sb, sb.fatCnt) <= DataStart(sb)
  {
    hide Offset;
  }

  lemma CopyInside(sb: FatSB, fi: nat, size: nat)
    requires ValidSB(sb, size) && fi < sb.fatCnt
    ensures FatStart(sb, 0) <= FatStart(sb, fi) && FatStart(sb, fi) + FatBytes(sb) <= FatStart(sb, sb.fatCnt) <= size
  {
    MulStep(fi, sb.fatCnt, sb.sectorsPerFat);
  }

  lemma EntryInside(sb: FatSB, c: nat, size: nat)
    requires ValidSB(sb, size) && c < sb.clusterCnt + 2
    ensures Offset(sb.fatType, c) + 2 <= FatBytes(sb)
  {
  }

  /** The bytes of a copy of the table. */
  ghost function Copy(sb: FatSB, f: seq<Byte>, fi: nat): (b: seq<Byte>)
    requires ValidSB(sb, |f|) && fi < sb.fatCnt
    ensures |b| == FatBytes(sb)
  {
    CopyInside(sb, fi, |f|);
    f[FatStart(sb, fi)..FatStart(sb, fi) + FatBytes(sb)]
  }

  /** Entry c of a copy. */
  ghost function Entry(sb: FatSB, f: seq<Byte>, fi: nat, c: nat): nat
    requires ValidSB(sb, |f|) && fi < sb.fatCnt && c < sb.clusterCnt + 2
  {
    EntryInside(sb, c, |f|);
    Normal(sb.fatType, Raw(sb.fatType, Copy(sb, f, fi), c))
  }

  /** The first copy, the one that is read, as a sequence of values. */
  ghost function Table(sb: FatSB, f: seq<Byte>): (t: seq<nat>)
    requires ValidSB(sb, |f|)
    ensures |t| == sb.clusterCnt + 2 && forall c :: 0 <= c < |t| ==> t[c] == Entry(sb, f, 0, c)
  {
    seq(sb.clusterCnt + 2, c requires 0 <= c < sb.clusterCnt + 2 => Entry(sb, f, 0, c))
  }

  ghost predicate SameOutsideFat(sb: FatSB, f: seq<Byte>, f2: seq<Byte>) {
    |f2| == |f| && forall p :: 0 <= p < |f| && (p < FatStart(sb, 0) || FatStart(sb, sb.fatCnt) <= p) ==> f2[p] == f[p]
  }

  /** Entry c has been given the bits raw in the first n copies; no other copy and nothing else on the disk differs. */
  ghost predicate EntryPut(sb: FatSB, f: seq<Byte>, f2: seq<Byte>, c: nat, raw: nat, n: nat)
    requires ValidSB(sb, |f|) && c < sb.clusterCnt + 2 && raw < Width(sb.fatType)
  {
    && SameOutsideFat(sb, f, f2)
    && forall fi :: 0 <= fi < sb.fatCnt ==>
         Copy(sb, f2, fi) == if fi < n then PutRaw(sb.fatType, Copy(sb, f, fi), c, raw) else Copy(sb, f, fi)
  }

  /** The bytes written to the word entry c lies in. */
  ghost function WordBytes(sb: FatSB, f: seq<Byte>, fi: nat, c: nat, raw: nat): (d: seq<Byte>)
    requires ValidSB(sb, |f|) && fi < sb.fatCnt && c < sb.clusterCnt + 2 && raw < Width(sb.fatType)
    ensures |d| == 2
  {
    var w := NewWord(sb.fatType, WordAt(Copy(sb, f, fi), Offset(sb.fatType, c)), c, raw);
    NewWordFields(sb.fatType, WordAt(Copy(sb, f, fi), Offset(sb.fatType, c)), c, raw);
    TwoBytes(w)
  }

  lemma PutInCopy(sb: FatSB, f: seq<Byte>, f1: seq<Byte>, c: nat, raw: nat, n: nat)
    requires ValidSB(sb, |f|) && c < sb.clusterCnt + 2 && raw < Width(sb.fatType) && n < sb.fatCnt
    requires EntryPut(sb, f, f1, c, raw, n)
    ensures FatStart(sb, n) + Offset(sb.fatType, c) + 2 <= |f1|
    ensures var p := FatStart(sb, n) + Offset(sb.fatType, c);
            EntryPut(sb, f, Splice(f1, p, WordBytes(sb, f1, n, c, raw)), c, raw, n + 1)
  {
    hide NewWord, FatStart, FatBytes, Offset, ValidSB, Splice;
    CopyInside(sb, n, |f1|);
    CopyInside(sb, 0, |f1|);
    EntryInside(sb, c, |f1|);
    var o, d, p := Offset(sb.fatType, c), WordBytes(sb, f1, n, c, raw), FatStart(sb, n) + Offset(sb.fatType, c);
    var f2 := Splice(f1, p, d);
    forall fi | 0 <= fi < sb.fatCnt
      ensures Copy(sb, f2, fi) == if fi < n + 1 then PutRaw(sb.fatType, Copy(sb, f, fi), c, raw) else Copy(sb, f, fi)
    {
      CopyInside(sb, fi, |f1|);
      CopiesApart(sb, fi, n);
      CopiesApart(sb, n, fi);
      SplicePart(f1, p, d, FatStart(sb, fi), FatBytes(sb));
      if fi == n {
        assert Copy(sb, f2, n) == Splice(Copy(sb, f1, n), o, d);
      }
    }
    forall q | 0 <= q < |f| && (q < FatStart(sb, 0) || FatStart(sb, sb.fatCnt) <= q) ensures f2[q] == f[q] {
      SpliceAt(f1, p, d, q);
    }
  }

  /** A written entry reads as its value, normalised; every other entry of every copy reads as before. */
  lemma EntryAfterPut(sb: FatSB, f: seq<Byte>, f2: seq<Byte>, c: nat, v: nat, fi: nat, d: nat)
    requires ValidSB(sb, |f|) && c < sb.clusterCnt + 2 && d < sb.clusterCnt + 2 && fi < sb.fatCnt
    requires EntryPut(sb, f, f2, c, Encoded(sb.fatType, v), sb.fatCnt)
    ensures Entry(sb, f2, fi, d) ==
            if d == c then Normal(sb.fatType, Encoded(sb.fatType, v)) else Entry(sb, f, fi, d)
  {
    hide PutRaw, Raw, Normal, Encoded, Offset, FatBytes, Copy;
    EntryInside(sb, c, |f|);
    EntryInside(sb, d, |f|);
    PutRawOne(sb.fatType, Copy(sb, f, fi), c, Encoded(sb.fatType, v), d);
  }

  ghost predicate CopiesAgree(sb: FatSB, f: seq<Byte>)
    requires ValidSB(sb, |f|)
  {
    forall fi :: 0 <= fi < sb.fatCnt ==> Copy(sb, f, fi) == Copy(sb, f, 0)
  }

  /** Copies of the table that agree still agree after a write. */
  lemma CopiesStillAgree(sb: FatSB, f: seq<Byte>, f2: seq<Byte>, c: nat, raw: nat)
    requires ValidSB(sb, |f|) && c < sb.clusterCnt + 2 && raw < Width(sb.fatType)
    requires EntryPut(sb, f, f2, c, raw, sb.fatCnt) && CopiesAgree(sb, f)
    ensures CopiesAgree(sb, f2)
  {
    hide PutRaw, Offset, FatBytes, Copy;
  }

  /** The sector the source computes for byte offset o of a copy. */
  function FatSector(sb: FatSB, fi: nat, o: nat): (sector: nat)
    ensures SECTOR_SIZE * (sb.partitionStart + sector) + o % SECTOR_SIZE == FatStart(sb, fi) + o
  {
    MulMono(0, fi, sb.sectorsPerFat);
    sb.reservedSectorsCnt + o / SECTOR_SIZE + fi * sb.sectorsPerFat
  }

  lemma WordOfCopy(sb: FatSB, f: seq<Byte>, fi: nat, c: nat)
    requires ValidSB(sb, |f|) && fi < sb.fatCnt && c < sb.clusterCnt + 2
    ensures Offset(sb.fatType, c) + 2 <= FatBytes(sb)
    ensures var p := FatStart(sb, fi) + Offset(sb.fatType, c);
            p + 2 <= |f| && f[p..p + 2][0] as nat + 256 * (f[p..p + 2][1] as nat)
                            == WordAt(Copy(sb, f, fi), Offset(sb.fatType, c)) < 0x1_0000
  {
    CopyInside(sb, fi, |f|);
  }

  /** A FAT16 entry is a word of its own. */
  lemma NewWordIgnores(ty: FatType, c: nat, raw: nat)
    ensures ty.FAT16? ==> forall w :: NewWord(ty, w, c, raw) == raw
  {
  }

  lemma EntryPutNone(sb: FatSB, f: seq<Byte>, c: nat, raw: nat)
    requires ValidSB(sb, |f|) && c < sb.clusterCnt + 2 && raw < Width(sb.fatType)
    ensures EntryPut(sb, f, f, c, raw, 0)
  {
  }

  lemma TableAfterPut(sb: FatSB, f: seq<Byte>, f2: seq<Byte>, c: nat, v: nat)
    requires ValidSB(sb, |f|) && c < sb.clusterCnt + 2
    requires EntryPut(sb, f, f2, c, Encoded(sb.fatType, v), sb.fatCnt)
    ensures |f2| == |f| && Table(sb, f2) == Table(sb, f)[c := Normal(sb.fatType, Encoded(sb.fatType, v))]
  {
    hide Normal, Encoded, Copy, Offset, FatStart, FatBytes;
    forall d | 0 <= d < sb.clusterCnt + 2
      ensures Entry(sb, f2, 0, d) == if d == c then Normal(sb.fatType, Encoded(sb.fatType, v)) else Entry(sb, f, 0, d)
    {
      EntryAfterPut(sb, f, f2, c, v, 0, d);
    }
  }

  lemma SameRefl(sb: FatSB, f: seq<Byte>)
    ensures SameOutsideFat(sb, f, f)
  {
  }

  lemma SameTrans(sb: FatSB, f: seq<Byte>, f1: seq<Byte>, f2: seq<Byte>)
    requires SameOutsideFat(sb, f, f1) && SameOutsideFat(sb, f1, f2)
    ensures |f2| == |f| && SameOutsideFat(sb, f, f2)
  {
  }

  lemma PutOutsideFat(sb: FatSB, f: seq<Byte>, f2: seq<Byte>, c: nat, raw: nat)
    requires ValidSB(sb, |f|) && c < sb.clusterCnt + 2 && raw < Width(sb.fatType)
    requires EntryPut(sb, f, f2, c, raw, sb.fatCnt)
    ensures |f2| == |f| && SameOutsideFat(sb, f, f2)
    ensures CopiesAgree(sb, f) ==> CopiesAgree(sb, f2)
  {
    if CopiesAgree(sb, f) {
      CopiesStillAgree(sb, f, f2, c, raw);
    }
  }

  /** What entry c of the first copy is read as, from the disk's bytes: in FAT16 the word at every second byte, in FAT12
      the low or the high 12 bits of the word at every one and a half. */
  ghost predicate EntryReadAs(sb: FatSB, f: seq<Byte>, c: nat, v: nat) {
    && (sb.fatType.FAT16? ==>
          var o := 512 * (sb.partitionStart + sb.reservedSectorsCnt) + 2 * c;
          && o + 2 <= |f|
          && var e := f[o] as nat + 256 * (f[o + 1] as nat);
             v == if e >= 0xFFF8 then 0x0FFF_FFFF else if e == 0xFFF7 then 0x0FFF_FFF7 else e)
    && (sb.fatType.FAT12? ==>
          var o := 512 * (sb.partitionStart + sb.reservedSectorsCnt) + c + c / 2;
          && o + 2 <= |f|
          && var w := f[o] as nat + 256 * (f[o + 1] as nat);
             var e := if c % 2 == 0 then w % 0x1000 else w / 0x10;
             v == if e >= 0xFF8 then 0x0FFF_FFFF else if e == 0xFF7 then 0x0FFF_FFF7 else e)
  }

  lemma TableOnDisk(sb: FatSB, f: seq<Byte>, c: nat)
    requires ValidSB(sb, |f|) && c < sb.clusterCnt + 2
    ensures EntryReadAs(sb, f, c, Table(sb, f)[c])
  {
    hide Copy, ValidSB;
    SmallTable(sb, |f|);
    WordOfCopy(sb, f, 0, c);
    assert FatStart(sb, 0) == 512 * (sb.partitionStart + sb.reservedSectorsCnt);
  }

  /** w2 is word w with the bits of entry c, all 16 or the low or the high 12, holding the value v. */
  predicate WrittenWord(ty: FatType, w: nat, w2: nat, c: nat, v: nat) {
    if ty.FAT16? then
      w2 == if v == 0x0FFF_FFFF then 0xFFFF else if v == 0x0FFF_FFF7 then 0xFFF7 else v % 0x1_0000
    else
      var e := if v == 0x0FFF_FFFF then 0xFFF else if v == 0x0FFF_FFF7 then 0xFF7 else v % 0x1000;
      if c % 2 == 0 then w2 % 0x1000 == e && w2 / 0x1000 == w / 0x1000
      else w2 / 0x10 == e && w2 % 0x10 == w % 0x10
  }

  lemma NewWordBits(ty: FatType, w: nat, c: nat, v: nat)
    requires w < 0x1_0000
    ensures WrittenWord(ty, w, NewWord(ty, w, c, Encoded(ty, v)), c, v)
  {
    NewWordFields(ty, w, c, Encoded(ty, v));
  }

  /** Where the two bytes of entry c of a copy start: in FAT16 every two bytes, in FAT12 every one and a half. */
  function EntryPos(sb: FatSB, fi: nat, c: nat): nat {
    512 * (sb.partitionStart + sb.reservedSectorsCnt + fi * sb.sectorsPerFat)
    + if sb.fatType.FAT16? then 2 * c else c + c / 2
  }

  lemma EntryPosIs(sb: FatSB, fi: nat, c: nat)
    ensures EntryPos(sb, fi, c) == FatStart(sb, fi) + Offset(sb.fatType, c)
  {
  }

  /** In one copy of the table the bits of entry c hold the value v in f2; in FAT12 the other four bits of the two bytes
      are as in f. */
  ghost predicate CopyWritten(sb: FatSB, f: seq<Byte>, f2: seq<Byte>, c: nat, v: nat, fi: nat) {
    var o := EntryPos(sb, fi, c);
    && o + 2 <= |f| == |f2|
    && WrittenWord(sb.fatType, f[o] as nat + 256 * (f[o + 1] as nat), f2[o] as nat + 256 * (f2[o + 1] as nat), c, v)
  }

  /** Byte k of the disk is one of the two of entry c in some copy. */
  ghost predicate InEntry(sb: FatSB, c: nat, k: nat) {
    exists fi | 0 <= fi < sb.fatCnt :: EntryPos(sb, fi, c) <= k < EntryPos(sb, fi, c) + 2
  }

  /** f2 is f with value v written to entry c of every copy of the table, and every other byte as before. */
  ghost predicate EntryWritten(sb: FatSB, f: seq<Byte>, f2: seq<Byte>, c: nat, v: nat) {
    && |f2| == |f|
    && (forall fi | 0 <= fi < sb.fatCnt :: CopyWritten(sb, f, f2, c, v, fi))
    && (forall k | 0 <= k < |f| && f2[k] != f[k] :: InEntry(sb, c, k))
  }

  lemma WordOfPut(sb: FatSB, f: seq<Byte>, f2: seq<Byte>, c: nat, raw: nat, fi: nat)
    requires ValidSB(sb, |f|) && c < sb.clusterCnt + 2 && raw < Width(sb.fatType) && fi < sb.fatCnt
    requires EntryPut(sb, f, f2, c, raw, sb.fatCnt)
    ensures var o := FatStart(sb, fi) + Offset(sb.fatType, c);
            && o + 2 <= |f| == |f2| && WordAt(f, o) < 0x1_0000
            && WordAt(f2, o) == NewWord(sb.fatType, WordAt(f, o), c, raw)
  {
    hide Copy, Offset, FatStart, FatBytes, NewWord, ValidSB;
    WordOfCopy(sb, f, fi, c);
    WordOfCopy(sb, f2, fi, c);
    PutRawBytes(sb.fatType, Copy(sb, f, fi), c, raw);
  }

  /** A byte that differs is one of the two of the entry in some copy. */
  lemma OnlyInCopies(sb: FatSB, f: seq<Byte>, f2: seq<Byte>, c: nat, raw: nat, k: nat) returns (fi: nat)
    requires ValidSB(sb, |f|) && c < sb.clusterCnt + 2 && raw < Width(sb.fatType) && k < |f|
    requires EntryPut(sb, f, f2, c, raw, sb.fatCnt) && f2[k] != f[k]
    ensures fi < sb.fatCnt && EntryPos(sb, fi, c) <= k < EntryPos(sb, fi, c) + 2
  {
    fi := CopyOf(sb, k);
    EntryPosIs(sb, fi, c);
    hide EntryPos, Offset, FatStart, FatBytes, NewWord, ValidSB, PutRaw;
    CopyInside(sb, fi, |f|);
    EntryInside(sb, c, |f|);
    PutRawBytes(sb.fatType, Copy(sb, f, fi), c, raw);
    assert Copy(sb, f, fi)[k - FatStart(sb, fi)] == f[k] && Copy(sb, f2, fi)[k - FatStart(sb, fi)] == f2[k];
  }

  /** The copy of the table that holds byte k of the disk. */
  lemma CopyOf(sb: FatSB, k: nat) returns (fi: nat)
    requires FatStart(sb, 0) <= k < FatStart(sb, sb.fatCnt)
    ensures fi < sb.fatCnt && FatStart(sb, fi) <= k < FatStart(sb, fi) + FatBytes(sb)
  {
    var n := FatBytes(sb);
    FatStartFrom(sb, sb.fatCnt);
    assert k - FatStart(sb, 0) < sb.fatCnt * n;
    DivLess(k - FatStart(sb, 0), n, sb.fatCnt);
    fi := (k - FatStart(sb, 0)) / n;
    FatStartFrom(sb, fi);
  }

  lemma FatStartFrom(sb: FatSB, fi: nat)
    ensures FatStart(sb, fi) == FatStart(sb, 0) + fi * FatBytes(sb)
  {
    var n := sb.sectorsPerFat;
    assert 512 * (fi * n) == fi * (512 * n);
  }

  lemma CopyOnDisk(sb: FatSB, f: seq<Byte>, f2: seq<Byte>, c: nat, v: nat, fi: nat)
    requires ValidSB(sb, |f|) && c < sb.clusterCnt + 2 && fi < sb.fatCnt
    requires EntryPut(sb, f, f2, c, Encoded(sb.fatType, v), sb.fatCnt)
    ensures CopyWritten(sb, f, f2, c, v, fi)
  {
    EntryPosIs(sb, fi, c);
    hide EntryPut, EntryPos, FatStart, Offset, ValidSB, NewWord, WrittenWord, Encoded;
    WordOfPut(sb, f, f2, c, Encoded(sb.fatType, v), fi);
    NewWordBits(sb.fatType, WordAt(f, EntryPos(sb, fi, c)), c, v);
  }

  lemma PutOnDisk(sb: FatSB, f: seq<Byte>, f2: seq<Byte>, c: nat, v: nat)
    requires ValidSB(sb, |f|) && c < sb.clusterCnt + 2
    requires EntryPut(sb, f, f2, c, Encoded(sb.fatType, v), sb.fatCnt)
    ensures EntryWritten(sb, f, f2, c, v)
  {
    hide EntryPut, EntryPos, ValidSB, Encoded, SameOutsideFat, CopyWritten;
    PutOutsideFat(sb, f, f2, c, Encoded(sb.fatType, v));
    forall fi | 0 <= fi < sb.fatCnt ensures CopyWritten(sb, f, f2, c, v, fi) {
      CopyOnDisk(sb, f, f2, c, v, fi);
    }
    forall k | 0 <= k < |f| && f2[k] != f[k] ensures InEntry(sb, c, k) {
      var fi := OnlyInCopies(sb, f, f2, c, Encoded(sb.fatType, v), k);
    }
  }
}
