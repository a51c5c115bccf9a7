/** extfs/write.c and extfs/read.c: file data over the block map. */
module ExtFile {
  import opened Words
  import opened ExtGeometry
  import opened BlockStore
  import opened BlockTree
  import opened ExtMapSpec
  import opened ExtFileSpec
  import opened ExtVolume

  const MAX_FILE_POS: nat := 0x7FFF_FFFF

  ghost function FilesOf(v: Volume): (f: Files)
    requires v.Wired()
    reads v, v.dev.Bufs()
    ensures f.maps.Keys == v.inodes.Keys && forall j :: j in v.inodes ==> f.maps[j] == v.Map(j) == v.Standing()[j].0
    ensures f.store == v.dev.Content()
  {
    Files(map j | j in v.inodes :: v.Map(j), v.dev.Content())
  }

  /** Block b is ready for n bytes at a position of file ino: it is that file block, all other blocks of all files
      are as they were, and the part of it that will not be overwritten reads as the file did. */
  twostate predicate Ready(v: Volume, ino: nat, position: nat, n: nat, b: Word)
    requires v.Wired()
    reads v, v.dev.Bufs()
  {
    && b in v.Data() && b < |v.dev.blocks|
    && Prepared(old(FilesOf(v)), FilesOf(v), ino, BlockIndex(v.geo, position), b)
    && RestKept(v.geo, old(FilesOf(v)), FilesOf(v), ino, position, n, b)
  }

  /** The accounts that were right stay right, and no caller loses a block. */
  twostate predicate BooksKept(v: Volume, ino: nat)
    requires v.Wired() && old(ino in v.inodes) && ino in v.inodes
    reads v, v.dev.Bufs()
  {
    && v.held == old(v.held)
    && (old(v.AccountedFor(ino)) ==> v.AccountedFor(ino))
  }

  /** Files that stand as they did have the maps they had. */
  lemma FilesAfter(ix: map<nat, Inode>, m: map<nat, (map<nat, Word>, bool)>,
                   ix2: map<nat, Inode>, m2: map<nat, (map<nat, Word>, bool)>, ino: nat, f: Files, f2: Files)
    requires OthersSame(ix, m, ix2, m2, ino)
    requires f.maps.Keys == m.Keys && forall j :: j in m ==> f.maps[j] == m[j].0
    requires f2.maps.Keys == m2.Keys && forall j :: j in m2 ==> f2.maps[j] == m2[j].0
    ensures f2.maps.Keys == f.maps.Keys && forall j :: j in f.maps && j != ino ==> f2.maps[j] == f.maps[j]
  {
  }

  lemma SameMaps(f: Files, f2: Files, m: map<nat, (map<nat, Word>, bool)>)
    requires f.maps.Keys == m.Keys && forall j :: j in m ==> f.maps[j] == m[j].0
    requires f2.maps.Keys == m.Keys && forall j :: j in m ==> f2.maps[j] == m[j].0
    ensures f2.maps == f.maps
  {
  }

  /** write_chunk's call of new_block for a hole. */
  method FillHole(v: Volume, ino: nat, position: nat, n: nat) returns (block: Word)
    requires v.Valid() && ino in v.inodes && position < U32
    requires BlockIndex(v.geo, position) !in v.Map(ino)
    modifies v, v.groupDescs, v.dev.Bufs()
    ensures v.Valid() && v.OthersKept(ino) && ino in v.inodes && BooksKept(v, ino)
    ensures block == 0 <==> old(v.NoRoom(ino, position))
    ensures block == 0 ==> v.NoRoom(ino, position)
    ensures old(v.freeBlocks) <= v.freeBlocks + 4
    ensures block == 0 ==> Written(v.geo, old(FilesOf(v)), FilesOf(v), ino, position, [])
    ensures block != 0 ==> Ready(v, ino, position, n, block)
    ensures block != 0 && old(v.NoEmpty()) ==> v.NoEmpty()
  {
    hide Volume.T, Volume.NoEmpty, Volume.Standing, OthersSame, FilesOf, Volume.Booked, Volume.Mapped, FileByte,
      Entry, BlockIndex, Missing, SameBlocks, NoEmptyNodes, DataBlocks, Volume.Map, Volume.AccountedFor,
      Volume.PathAt, Volume.NoRoom, Volume.Cost, RestKept, Prepared, Written;
    ghost var f0, d, ix0, m0 := FilesOf(v), v.Data(), v.inodes, v.Standing();
    v.InUseInStore();
    FilesInData(v);
    v.CostAtMost(ino, position);
    if v.NoRoom(ino, position) {
      v.FewIfNoRoom(ino, position);
    }
    block := v.NewBlock(ino, position);
    FilesAfter(ix0, m0, v.inodes, v.Standing(), ino, f0, FilesOf(v));
    if block == 0 {
      SameBlocksLess(d - {0}, d, f0.store, v.dev.Content());
      WrittenSame(v.geo, f0, FilesOf(v), ino, position, d);
    } else {
      PreparedNew(f0, FilesOf(v), ino, BlockIndex(v.geo, position), block, d);
      RestOfHole(v.geo, f0, FilesOf(v), ino, position, n, block);
    }
  }

  /** write_chunk's choice between BLK_CLEAR and BLK_READ for a block the file has. */
  method FetchBlock(v: Volume, ino: nat, position: nat, off: nat, n: nat, block: Word)
    requires v.Valid() && ino in v.inodes && position < U32
    requires off == position % v.geo.blockSize && 0 < n && off + n <= v.geo.blockSize
    requires v.inodes[ino].iSize <= position ==> ZeroFrom(v.geo, v.Map(ino), v.dev.Content(), position)
    requires BlockIndex(v.geo, position) in v.Map(ino) && v.Map(ino)[BlockIndex(v.geo, position)] == block
    modifies v.dev.Bufs()
    ensures v.Valid() && v.OthersKept(ino) && ino in v.inodes && BooksKept(v, ino) && Ready(v, ino, position, n, block)
    ensures v.NoEmpty() <==> old(v.NoEmpty())
  {
    hide Volume.NoEmpty, Volume.Standing, OthersSame, Volume.Booked, Volume.Mapped, FileByte, Entry, BlockIndex,
      NoEmptyNodes, DataBlocks, Volume.Map, Volume.AccountedFor, Volume.PathAt, Volume.NoRoom, Volume.Cost, RestKept,
      Prepared, Written;
    ghost var f0, t0 := FilesOf(v), v.T();
    OthersRefl(v.inodes, v.Standing(), ino);
    v.MapLookup(ino, position);
    v.LeafInData(ino, v.PathAt(position));
    v.InUseInStore();
    FilesAreTrees(v);
    ghost var m0 := v.Standing();
    if n == v.geo.blockSize {
      v.ClearData(block);
      RestOfWhole(v.geo, f0, FilesOf(v), ino, position, block);
    } else if off == 0 && position >= v.inodes[ino].iSize {
      v.ClearData(block);
      RestPastEnd(v.geo, f0, FilesOf(v), ino, position, n, block);
    } else {
      RestOfBlock(v.geo, f0, ino, position, n, block);
    }
    SameMaps(f0, FilesOf(v), m0);
    PreparedMapped(t0, v.geo, f0, FilesOf(v), ino, BlockIndex(v.geo, position), block);
  }

  /** readmsg into a block that has been made ready. */
  method ReadIn(v: Volume, ino: nat, position: nat, off: nat, data: seq<Byte>, block: Word, ghost f0: Files)
    requires v.Valid() && position < U32 && off == position % v.geo.blockSize && off + |data| <= v.geo.blockSize
    requires block in v.Data() && block < |v.dev.blocks|
    requires Prepared(f0, FilesOf(v), ino, BlockIndex(v.geo, position), block)
    requires RestKept(v.geo, f0, FilesOf(v), ino, position, |data|, block)
    modifies v.dev.Bufs()
    ensures v.Valid() && v.AllKept()
    ensures Written(v.geo, f0, FilesOf(v), ino, position, data)
  {
    hide Volume.Booked, Volume.Mapped, FileByte, Entry, BlockIndex, NoEmptyNodes, DataBlocks, Volume.Map,
      Volume.AccountedFor, RestKept, Prepared, Written, WithBytes;
    ghost var f1 := FilesOf(v);
    v.WriteData(block, off, data);
    ChunkWritten(v.geo, f0, f1, FilesOf(v), ino, position, data, block);
  }

  /** write_chunk at a hole. */
  method WriteHole(v: Volume, ino: nat, position: nat, off: nat, data: seq<Byte>) returns (sc: Result<()>)
    requires v.Valid() && ino in v.inodes && position < U32
    requires off == position % v.geo.blockSize && 0 < |data| && off + |data| <= v.geo.blockSize
    requires BlockIndex(v.geo, position) !in v.Map(ino)
    modifies v, v.groupDescs, v.dev.Bufs()
    ensures v.Valid() && v.OthersKept(ino) && ino in v.inodes && BooksKept(v, ino)
    ensures sc.Err? <==> old(v.NoRoom(ino, position))
    ensures sc.Err? ==> sc.errno == EIO && v.NoRoom(ino, position)
    ensures old(v.freeBlocks) <= v.freeBlocks + 4
    ensures Written(v.geo, old(FilesOf(v)), FilesOf(v), ino, position, if sc.Ok? then data else [])
    ensures sc.Ok? && old(v.NoEmpty()) ==> v.NoEmpty()
  {
    hide Volume.Booked, Volume.Mapped, FileByte, Entry, BlockIndex, Missing, NoEmptyNodes, DataBlocks, Volume.Map,
      Volume.AccountedFor, Volume.PathAt, Volume.NoRoom, Volume.Cost, RestKept, Prepared, Written, WithBytes,
      Volume.Standing, FilesOf, OthersSame;
    ghost var f0 := FilesOf(v);
    var block := FillHole(v, ino, position, |data|);
    if block == 0 {
      return Err(EIO);
    }
    ReadIn(v, ino, position, off, data, block, f0);
    return Ok(());
  }

  /** write_chunk where the file has a block. */
  method WriteMapped(v: Volume, ino: nat, position: nat, off: nat, data: seq<Byte>, block: Word)
    requires v.Valid() && ino in v.inodes && position < U32
    requires off == position % v.geo.blockSize && 0 < |data| && off + |data| <= v.geo.blockSize
    requires v.inodes[ino].iSize <= position ==> ZeroFrom(v.geo, v.Map(ino), v.dev.Content(), position)
    requires BlockIndex(v.geo, position) in v.Map(ino) && v.Map(ino)[BlockIndex(v.geo, position)] == block
    modifies v.dev.Bufs()
    ensures v.Valid() && v.OthersKept(ino) && ino in v.inodes && BooksKept(v, ino)
    ensures Written(v.geo, old(FilesOf(v)), FilesOf(v), ino, position, data)
    ensures v.NoEmpty() <==> old(v.NoEmpty())
  {
    hide Volume.Booked, Volume.Mapped, FileByte, Entry, BlockIndex, Missing, NoEmptyNodes, DataBlocks, Volume.Map,
      Volume.AccountedFor, Volume.PathAt, Volume.NoRoom, Volume.Cost, RestKept, Prepared, Written, WithBytes,
      Volume.Standing, FilesOf, OthersSame;
    ghost var f0 := FilesOf(v);
    FetchBlock(v, ino, position, off, |data|, block);
    ReadIn(v, ino, position, off, data, block, f0);
  }

  /** write_chunk: the bytes of data that fall into one block go to a position of file ino, and nothing else changes
      in any file. It fails only when the position is a hole and too few blocks are free, and then nothing changes. */
  method WriteChunk(v: Volume, ino: nat, position: nat, off: nat, data: seq<Byte>) returns (sc: Result<()>)
    requires v.Valid() && ino in v.inodes && position < U32
    requires off == position % v.geo.blockSize && 0 < |data| && off + |data| <= v.geo.blockSize
    requires v.inodes[ino].iSize <= position ==> ZeroFrom(v.geo, v.Map(ino), v.dev.Content(), position)
    modifies v, v.groupDescs, v.dev.Bufs()
    ensures v.Valid() && v.OthersKept(ino) && BooksKept(v, ino)
    ensures sc.Err? <==> old(v.NoRoom(ino, position))
    ensures sc.Err? ==> sc.errno == EIO && v.NoRoom(ino, position)
    ensures old(v.freeBlocks) <= v.freeBlocks + 4
    ensures Written(v.geo, old(FilesOf(v)), FilesOf(v), ino, position, if sc.Ok? then data else [])
    ensures sc.Ok? && old(v.NoEmpty()) ==> v.NoEmpty()
  {
    hide Volume.Booked, Volume.Mapped, FileByte, Entry, BlockIndex, Missing, NoEmptyNodes, DataBlocks, Volume.Map,
      Volume.AccountedFor, Volume.PathAt, Volume.NoRoom, Volume.Cost, RestKept, Prepared, Written, WithBytes,
      Volume.Standing, FilesOf, OthersSame, ZeroFrom, Volume.T, Volume.NoEmpty, ValidGeometry;
    assert forall a :: a in v.dev.Bufs() ==> allocated(a);
    ghost var f0, m0 := FilesOf(v), v.Standing();
    var block := v.ReadMapEntry(ino, position);
    assert FilesOf(v) == f0 && v.Standing() == m0;
    if block == 0 {
      sc := WriteHole(v, ino, position, off, data);
    } else {
      v.RoomIfMapped(ino, position);
      WriteMapped(v, ino, position, off, data, block);
      sc := Ok(());
    }
  }

  /** A file's bytes, holes reading as zero. */
  ghost function FileContents(v: Volume, ino: nat): (c: seq<Byte>)
    requires v.Wired() && ino in v.inodes
    reads v, v.dev.Bufs()
    ensures |c| == v.inodes[ino].iSize
  {
    Contents(v.geo, v.Map(ino), v.dev.Content(), v.inodes[ino].iSize)
  }

  /** The bytes a file's blocks hold past its end are zero. */
  ghost predicate TailZero(v: Volume, ino: nat)
    requires v.Wired() && ino in v.inodes
    reads v, v.dev.Bufs()
  {
    ZeroFrom(v.geo, v.Map(ino), v.dev.Content(), v.inodes[ino].iSize)
  }

  lemma NextPart(data: seq<Byte>, i: nat, n: nat)
    requires i + n <= |data|
    ensures data[..i] + data[i..i + n] == data[..i + n]
    ensures n == 0 ==> data[..i] + [] == data[..i]
  {
  }

  /** A file with the standing of all and with it the inode table. */
  datatype Stand = Stand(ix: map<nat, Inode>, m: map<nat, (map<nat, Word>, bool)>, f: Files)

  ghost function StandOf(v: Volume): (w: Stand)
    requires v.Wired()
    reads v, v.dev.Bufs()
    ensures w.ix == v.inodes && w.m == v.Standing() && w.f == FilesOf(v)
  {
    Stand(v.inodes, v.Standing(), FilesOf(v))
  }

  /** Where write_file stands once bytes d have gone to a position of file ino, having set out from w0. */
  ghost predicate Under(g: Geometry, w0: Stand, w: Stand, ino: nat, position: nat, d: seq<Byte>)
    requires g.blockSize > 0
  {
    OthersSame(w0.ix, w0.m, w.ix, w.m, ino) && Written(g, w0.f, w.f, ino, position, d)
  }

  lemma UnderNothing(g: Geometry, w: Stand, ino: nat, position: nat)
    requires g.blockSize > 0 && w.ix.Keys == w.m.Keys && ino in w.ix
    ensures Under(g, w, w, ino, position, [])
  {
    OthersRefl(w.ix, w.m, ino);
    WrittenNothing(g, w.f, ino, position);
  }

  lemma UnderMore(g: Geometry, w0: Stand, w1: Stand, w2: Stand, ino: nat, position: nat, data: seq<Byte>, i: nat,
                  n: nat)
    requires g.blockSize > 0 && i + n <= |data| && Under(g, w0, w1, ino, position, data[..i])
    requires Under(g, w1, w2, ino, position + i, data[i..i + n])
    ensures Under(g, w0, w2, ino, position, data[..i + n])
  {
    hide OthersSame, Written;
    OthersTrans(w0.ix, w0.m, w1.ix, w1.m, w2.ix, w2.m, ino);
    WrittenTrans(g, w0.f, w1.f, w2.f, ino, position, data[..i], data[i..i + n]);
    NextPart(data, i, n);
  }

  /** What is zero past the end of the file stays so, from behind the bytes written on. */
  lemma UnderZero(g: Geometry, w0: Stand, w: Stand, ino: nat, position: nat, d: seq<Byte>, size: nat)
    requires g.blockSize > 0 && Under(g, w0, w, ino, position, d)
    requires ino in w0.f.maps && ZeroFrom(g, w0.f.maps[ino], w0.f.store, size)
    ensures ino in w.f.maps
    ensures size <= position + |d| ==> ZeroFrom(g, w.f.maps[ino], w.f.store, position + |d|)
  {
    hide OthersSame, Written;
    ZeroAfterWrite(g, w0.f, w.f, ino, position, d, size);
  }

  /** How much of the n bytes from a position on goes into one block. */
  function ChunkOf(bs: nat, pos: nat, n: nat): nat
    requires bs > 0
  {
    Least(bs - pos % bs, n)
  }

  lemma ChunkFits(g: Geometry, pos: nat, n: nat, off: nat, chunkSize: nat)
    requires ValidGeometry(g) && n > 0 && off == pos % g.blockSize
    requires chunkSize == if g.blockSize - off > n then n else g.blockSize - off
    ensures g.blockSize > 0 && chunkSize == ChunkOf(g.blockSize, pos, n)
    ensures 0 < chunkSize <= n && off + chunkSize <= g.blockSize
  {
  }

  /** One round of write_file's loop: the next chunk, as far as its block goes. */
  method WriteNext(v: Volume, ino: nat, data: seq<Byte>, position: nat, total: nat, ghost w0: Stand)
    returns (sc: Result<()>, chunkSize: nat)
    requires v.Valid() && ino in v.inodes && position + |data| <= MAX_FILE_POS && total < |data|
    requires ino in w0.f.maps && ZeroFrom(v.geo, w0.f.maps[ino], w0.f.store, v.inodes[ino].iSize)
    requires Under(v.geo, w0, StandOf(v), ino, position, data[..total])
    modifies v, v.groupDescs, v.dev.Bufs()
    ensures v.Valid() && ino in v.inodes && v.inodes[ino].iSize == old(v.inodes[ino].iSize) && BooksKept(v, ino)
    ensures chunkSize == ChunkOf(v.geo.blockSize, position + total, |data| - total) && 0 < chunkSize <= |data| - total
    ensures old(v.freeBlocks) <= v.freeBlocks + 4
    ensures Under(v.geo, w0, StandOf(v), ino, position, data[..if sc.Ok? then total + chunkSize else total])
    ensures sc.Err? ==> sc.errno == EIO && v.NoRoom(ino, position + total) && old(v.freeBlocks) < 4
    ensures sc.Ok? && old(v.NoEmpty()) ==> v.NoEmpty()
  {
    hide Volume.Booked, Volume.Mapped, FileByte, Entry, BlockIndex, Missing, NoEmptyNodes, DataBlocks, Volume.Map,
      Volume.AccountedFor, Volume.NoRoom, Volume.Cost, Written, Volume.Standing, FilesOf, ZeroFrom, Volume.T,
      Volume.NoEmpty, ValidGeometry, ChunkOf, OthersSame, StandOf;
    var pos := position + total;
    SectorsInBlock(v.geo);
    var off := pos % v.geo.blockSize;
    chunkSize := v.geo.blockSize - off;
    if chunkSize > |data| - total {
      chunkSize := |data| - total;
    }
    ChunkFits(v.geo, pos, |data| - total, off, chunkSize);
    ghost var w1 := StandOf(v);
    UnderZero(v.geo, w0, w1, ino, position, data[..total], v.inodes[ino].iSize);
    if v.NoRoom(ino, pos) {
      v.FewIfNoRoom(ino, pos);
    }
    sc := WriteChunk(v, ino, pos, off, data[total..total + chunkSize]);
    OthersFacts(w1.ix, w1.m, v.inodes, v.Standing(), ino);
    ghost var n := if sc.Ok? then chunkSize else 0;
    assert data[total..total + n] == if sc.Ok? then data[total..total + chunkSize] else [];
    UnderMore(v.geo, w0, w1, StandOf(v), ino, position, data, total, n);
  }

  /** How many file blocks n bytes from a position on lie in. */
  function Touched(bs: nat, position: nat, n: nat): nat
    requires bs > 0
    decreases n
  {
    if n == 0 then 0 else
    var k := ChunkOf(bs, position, n);
    1 + Touched(bs, position + k, n - k)
  }

  lemma {:induction false} TouchedIs(bs: nat, position: nat, n: nat)
    requires bs > 0 && n > 0
    ensures Touched(bs, position, n) == (position + n - 1) / bs - position / bs + 1
    decreases n
  {
    hide Touched;
    var k := Least(bs - position % bs, n);
    TouchedStep(bs, position, n);
    SameBlock(bs, position, position + k - 1);
    if k < n {
      TouchedIs(bs, position + k, n - k);
      var q, r := position / bs, position % bs;
      assert position == q * bs + r;
      assert (q + 1) * bs == q * bs + bs;
      DivModOf(q + 1, 0, bs);
    } else {
      TouchedStep(bs, position + k, 0);
    }
  }

  lemma TouchedStep(bs: nat, position: nat, n: nat)
    requires bs > 0
    ensures var k := ChunkOf(bs, position, n);
            Touched(bs, position, n) == if n == 0 then 0 else 1 + Touched(bs, position + k, n - k)
  {
  }

  /** Since there were free0 free blocks, of which there are free now, the first total of n bytes have cost no more
      than 4 for each file block. */
  ghost predicate Paid(bs: nat, free0: nat, free: nat, position: nat, n: nat, total: nat)
    requires bs > 0 && total <= n
  {
    free0 + 4 * Touched(bs, position + total, n - total) <= free + 4 * Touched(bs, position, n)
  }

  lemma PaidNext(bs: nat, free0: nat, free1: nat, free: nat, position: nat, n: nat, total: nat)
    requires bs > 0 && total < n && free1 <= free + 4 && Paid(bs, free0, free1, position, n, total)
    ensures Paid(bs, free0, free, position, n, total + ChunkOf(bs, position + total, n - total))
    ensures free1 < 4 ==> free0 < 4 * Touched(bs, position, n)
    ensures free0 <= free + 4 * Touched(bs, position, n)
  {
    hide Touched;
    TouchedStep(bs, position + total, n - total);
  }

  lemma PaidEnd(bs: nat, free0: nat, free: nat, position: nat, n: nat)
    requires bs > 0
    ensures Paid(bs, free0, free0, position, n, 0)
    ensures Paid(bs, free0, free, position, n, n) ==> free0 <= free + 4 * Touched(bs, position, n)
  {
  }

  /** The loop of write_file. */
  method WriteChunks(v: Volume, ino: nat, data: seq<Byte>, position: nat) returns (sc: Result<()>, total: nat)
    requires v.Valid() && ino in v.inodes && position + |data| <= MAX_FILE_POS && TailZero(v, ino)
    modifies v, v.groupDescs, v.dev.Bufs()
    ensures v.Valid() && v.OthersKept(ino) && ino in v.inodes && BooksKept(v, ino)
    ensures total <= |data| && (sc.Ok? <==> total == |data|)
    ensures sc.Err? ==> sc.errno == EIO && v.NoRoom(ino, position + total)
    ensures Written(v.geo, old(FilesOf(v)), FilesOf(v), ino, position, data[..total])
    ensures sc.Ok? && old(v.NoEmpty()) ==> v.NoEmpty()
    ensures old(v.freeBlocks) <= v.freeBlocks + 4 * Touched(v.geo.blockSize, position, |data|)
    ensures sc.Err? ==> old(v.freeBlocks) < 4 * Touched(v.geo.blockSize, position, |data|)
  {
    hide Volume.Booked, Volume.Mapped, FileByte, Entry, BlockIndex, Missing, NoEmptyNodes, DataBlocks, Volume.Map,
      Volume.AccountedFor, Volume.NoRoom, Volume.Cost, Written, Volume.Standing, FilesOf, OthersSame, ZeroFrom,
      Touched, Paid, StandOf, Volume.T, Volume.NoEmpty;
    ghost var w0, size, free0 := StandOf(v), v.inodes[ino].iSize, v.freeBlocks;
    sc, total := Ok(()), 0;
    UnderNothing(v.geo, w0, ino, position);
    assert data[..0] == [];
    PaidEnd(v.geo.blockSize, free0, free0, position, |data|);
    while total < |data|
      invariant v.Valid() && ino in v.inodes && v.inodes[ino].iSize == size && BooksKept(v, ino)
      invariant total <= |data| && Under(v.geo, w0, StandOf(v), ino, position, data[..total])
      invariant sc.Ok? && (old(v.NoEmpty()) ==> v.NoEmpty())
      invariant Paid(v.geo.blockSize, free0, v.freeBlocks, position, |data|, total)
    {
      ghost var free1 := v.freeBlocks;
      var chunkSize;
      sc, chunkSize := WriteNext(v, ino, data, position, total, w0);
      PaidNext(v.geo.blockSize, free0, free1, v.freeBlocks, position, |data|, total);
      if sc.Err? {
        return;
      }
      total := total + chunkSize;
    }
    PaidEnd(v.geo.blockSize, free0, v.freeBlocks, position, |data|);
  }

  /** write_file's update of i_size. */
  method RaiseSize(v: Volume, ino: nat, fileSize: Word, pos: Word)
    requires v.Valid() && ino in v.inodes && v.inodes[ino].iSize == fileSize
    modifies v`inodes
    ensures v.Valid()
    ensures v.inodes == old(v.inodes)[ino := old(v.inodes[ino]).(iSize :=
              if old(v.inodes[ino].hasSize) && pos > fileSize then pos else fileSize)]
    ensures FilesOf(v) == old(FilesOf(v)) && v.Standing() == old(v.Standing())
    ensures v.NoEmpty() <==> old(v.NoEmpty())
    ensures forall p: nat :: v.NoRoom(ino, p) <==> old(v.NoRoom(ino, p))
  {
    hide Volume.Booked, Volume.Mapped, BlockIndex, Missing, NoEmptyNodes, Volume.Map, Volume.AccountedFor,
      Volume.Standing, FilesOf, Volume.PathAt;
    if v.inodes[ino].hasSize {
      if pos > fileSize {
        v.SetSize(ino, pos);
        FilesSame(v);
      }
    }
  }

  /** write_file past its checks. */
  method WriteFound(v: Volume, ino: nat, data: seq<Byte>, position: nat) returns (sc: Result<()>, done: nat)
    requires v.Valid() && ino in v.inodes && position + |data| <= MAX_FILE_POS && TailZero(v, ino)
    modifies v, v.groupDescs, v.dev.Bufs()
    ensures v.Valid() && v.inodes.Keys == old(v.inodes.Keys) && ino in v.inodes
    ensures Overwritten(v, ino, position, data, done)
    ensures done <= |data| && (sc.Ok? <==> done == |data|)
    ensures sc.Err? ==> sc.errno == EIO && v.NoRoom(ino, position + done)
    ensures sc.Ok? && old(v.NoEmpty()) ==> v.NoEmpty()
    ensures old(v.freeBlocks) <= v.freeBlocks + 4 * Touched(v.geo.blockSize, position, |data|)
    ensures sc.Err? ==> old(v.freeBlocks) < 4 * Touched(v.geo.blockSize, position, |data|)
  {
    hide Volume.Booked, Volume.Mapped, FileByte, Entry, BlockIndex, Missing, NoEmptyNodes, DataBlocks, Volume.Map,
      Volume.AccountedFor, Volume.NoRoom, Volume.Cost, Volume.Standing, FilesOf, ZeroFrom, Written, Overwritten,
      Touched, Volume.T, Volume.NoEmpty, OthersSame, ValidGeometry;
    var fileSize := v.inodes[ino].iSize;
    ghost var ix0, m0 := v.inodes, v.Standing();
    sc, done := WriteChunks(v, ino, data, position);
    ghost var ix1 := v.inodes;
    OthersFacts(ix0, m0, ix1, v.Standing(), ino);
    RaiseSize(v, ino, fileSize, position + done);
    WriteDone(Transfer(v, ino, position, data, done, ix1));
  }

  /** write_file, for a caller that sends at most MAX_FILE_POS bytes: the bytes before the first one that finds no room
      replace the file's own from position on, and no other file changes. No more than four free blocks go for each file
      block that data lies in, and as long as there are so many the write does not fail for want of room. */
  method WriteFile(v: Volume, ino: nat, data: seq<Byte>, position: nat) returns (r: Result<nat>, ghost done: nat)
    requires v.Valid() && |data| <= MAX_FILE_POS
    requires ino in v.inodes ==> TailZero(v, ino)
    modifies v, v.groupDescs, v.dev.Bufs()
    ensures v.Valid() && v.inodes.Keys == old(v.inodes.Keys)
    ensures ino !in v.inodes <==> r == Err(EINVAL)
    ensures r == Err(EFBIG) <==> ino in v.inodes && position > MAX_FILE_POS - |data|
    ensures r == Err(EINVAL) || r == Err(EFBIG) ==>
              unchanged(v) && unchanged(v.groupDescs) && unchanged(v.dev.Bufs())
    ensures r.Ok? || r == Err(EIO) ==> Overwritten(v, ino, position, data, done)
    ensures r.Ok? ==> r.value == done == |data|
    ensures r == Err(EIO) ==> done < |data| && v.NoRoom(ino, position + done)
    ensures r.Ok? || r.errno in {EINVAL, EFBIG, EIO}
    ensures r.Ok? && old(v.NoEmpty()) ==> v.NoEmpty()
    ensures old(v.freeBlocks) <= v.freeBlocks + 4 * Touched(v.geo.blockSize, position, |data|)
    ensures r == Err(EIO) ==> old(v.freeBlocks) < 4 * Touched(v.geo.blockSize, position, |data|)
  {
    hide Volume.Booked, Volume.Mapped, Volume.Map, Volume.AccountedFor, Volume.NoRoom, Volume.Standing, FilesOf,
      ZeroFrom, Written, Overwritten, Touched;
    if ino !in v.inodes {
      return Err(EINVAL), 0;
    }
    if position > MAX_FILE_POS - |data| {
      return Err(EFBIG), 0;
    }
    var sc, totalXfered := WriteFound(v, ino, data, position);
    done := totalXfered;
    if sc.Err? {
      return Err(sc.errno), done;
    }
    return Ok(totalXfered), done;
  }

  /** The first done bytes of data have gone to a position of file ino. */
  twostate predicate Overwritten(v: Volume, ino: nat, position: nat, data: seq<Byte>, done: nat)
    requires v.Wired() && v.inodes.Keys == old(v.inodes.Keys)
    reads v, v.dev.Bufs()
  {
    && ino in v.inodes && done <= |data|
    && v.inodes[ino].hasSize == old(v.inodes[ino].hasSize)
    && (if v.inodes[ino].hasSize then
          && FileContents(v, ino) == Overlay(old(FileContents(v, ino)), position, data[..done])
          && TailZero(v, ino)
        else
          && v.inodes[ino].iSize == old(v.inodes[ino].iSize)
          && Written(v.geo, old(FilesOf(v)), FilesOf(v), ino, position, data[..done]))
    && BooksKept(v, ino)
    && forall j :: j in v.inodes && j != ino ==>
         && v.inodes[j] == old(v.inodes[j])
         && FileContents(v, j) == old(FileContents(v, j))
         && (old(TailZero(v, j)) ==> TailZero(v, j))
         && (old(v.AccountedFor(j)) ==> v.AccountedFor(j))
  }

  twostate lemma FilesSame(v: Volume)
    requires v.Wired() && v.inodes.Keys == old(v.inodes.Keys)
    requires v.Standing() == old(v.Standing()) && v.dev.Content() == old(v.dev.Content())
    ensures FilesOf(v) == old(FilesOf(v))
  {
    hide FilesOf, Volume.Map, Volume.AccountedFor;
    assert FilesOf(v).maps == old(FilesOf(v)).maps;
  }

  /** A write of done bytes of data whose loop left the inode table at ix1. */
  datatype Transfer = Transfer(v: Volume, ino: nat, position: nat, data: seq<Byte>, done: nat, ix1: map<nat, Inode>)

  /** After the loop i_size was brought up to date. */
  twostate lemma WriteDone(w: Transfer)
    requires w.v.Wired() && old(w.ino in w.v.inodes) && w.done <= |w.data| && w.position + |w.data| <= MAX_FILE_POS
    requires old(TailZero(w.v, w.ino))
    requires Written(w.v.geo, old(FilesOf(w.v)), FilesOf(w.v), w.ino, w.position, w.data[..w.done])
    requires OthersSame(old(w.v.inodes), old(w.v.Standing()), w.ix1, w.v.Standing(), w.ino) && BooksKept(w.v, w.ino)
    requires w.v.inodes == w.ix1[w.ino := w.ix1[w.ino].(iSize :=
               if w.ix1[w.ino].hasSize && w.position + w.done > w.ix1[w.ino].iSize then w.position + w.done
               else w.ix1[w.ino].iSize)]
    ensures Overwritten(w.v, w.ino, w.position, w.data, w.done)
  {
    hide FileByte, Entry, BlockIndex, DataBlocks, Volume.Map, Volume.AccountedFor, ZeroFrom, Written;
    var v, ino, data := w.v, w.ino, w.data[..w.done];
    var f0, f1 := old(FilesOf(v)), FilesOf(v);
    WrittenFile(v.geo, f0, f1, ino, w.position, data, w.ix1[ino].iSize);
    forall j | j in v.inodes && j != ino
      ensures FileContents(v, j) == old(FileContents(v, j))
      ensures old(TailZero(v, j)) ==> TailZero(v, j)
      ensures old(v.AccountedFor(j)) ==> v.AccountedFor(j)
    {
      WrittenOther(v.geo, f0, f1, ino, w.position, data, j, v.inodes[j].iSize);
      assert v.Standing()[j] == old(v.Standing())[j];
    }
  }

  lemma FilesInData(v: Volume)
    requires v.Valid()
    ensures forall j, y :: j in v.inodes && y in v.Map(j) ==> v.Map(j)[y] as nat in v.Data()
  {
    forall j, y | j in v.inodes && y in v.Map(j) ensures v.Map(j)[y] as nat in v.Data() {
      v.LeafInData(j, LeafPath(v.geo, y));
    }
  }

  lemma FilesAreTrees(v: Volume)
    requires v.Valid()
    ensures FilesOfTree(FilesOf(v), v.T(), v.geo) && v.T().Valid(v.geo.addrInBlock)
  {
  }
}
