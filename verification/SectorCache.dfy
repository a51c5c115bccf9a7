/** fatfs/sector.c: the sector cache. Buffers are named by their index in the table, lists are sequences of them. */
module SectorCache {
  import opened Words
  import opened BlockStore
  import opened CacheSpec

  class Cache {
    const writethruCritical: nat
    const writebackDelay: nat
    const blkTable: array<Blk>
    const hashList: array<seq<nat>>
    var lruList: seq<nat>
    var dirtyList: seq<nat>
    var freeList: seq<nat>
    /** The medium behind block_fd, in 512-byte sectors. */
    var disk: seq<Sector>

    /** The buffer that holds a sector. */
    ghost var cached: map<nat, nat>
    /** The sectors asked for so far. */
    ghost var trace: seq<nat>

    ghost function S(): State
      reads this, blkTable, hashList
    {
      State(blkTable[..], hashList[..], lruList, dirtyList, freeList, disk, cached)
    }

    ghost predicate ValidBut(loose: int)
      reads this, blkTable, hashList
    {
      && Ok(S(), writebackDelay == 0, loose)
      && Resident(S()) == Take(Recent(trace), blkTable.Length)
    }

    ghost predicate Valid()
      reads this, blkTable, hashList
    {
      ValidBut(-1)
    }

    /** The disk as the cache shows it. */
    ghost function Disk(): (v: seq<Sector>)
      reads this, blkTable, hashList
      ensures |v| == |disk|
    {
      View(S())
    }

    /** The part of CreateCache that sets up the structure. */
    constructor (bufferCnt: nat, writethruCritical: nat, writebackDelay: nat, disk: seq<Sector>)
      requires bufferCnt > 0 && forall n :: 0 <= n < |disk| ==> |disk[n]| == SECTOR_SIZE
      ensures Valid() && fresh(blkTable) && fresh(hashList) && Disk() == disk && this.disk == disk && trace == []
      ensures this.writethruCritical == writethruCritical && this.writebackDelay == writebackDelay
      ensures blkTable.Length == bufferCnt
    {
      this.writethruCritical, this.writebackDelay := writethruCritical, writebackDelay;
      blkTable := new Blk[bufferCnt](_ => Blk(0, false, false, Zeros(SECTOR_SIZE)));
      hashList := new seq<nat>[BUF_HASH_CNT](_ => []);
      lruList, dirtyList, this.disk := [], [], disk;
      freeList := Upto(bufferCnt);
      cached, trace := map[], [];
      new;
      assert forall i: nat :: i < bufferCnt ==> S().tab[i] == blkTable[i];
      assert Listed(S()) && Chained(S());
      assert Recent(trace) == [];
    }

    /** The walk along a hash chain: the buffer that holds the block, or -1. */
    method FindInChain(block: nat) returns (b: int)
      requires Valid()
      ensures b == -1 <==> block !in cached
      ensures b != -1 ==> b == cached[block]
    {
      var chain := hashList[block % BUF_HASH_CNT];
      var k := 0;
      while k < |chain|
        invariant 0 <= k <= |chain|
        invariant forall j :: 0 <= j < k ==> chain[j] < blkTable.Length && blkTable[chain[j]].sector != block
      {
        OnChain(S(), block % BUF_HASH_CNT, k);
        if blkTable[chain[k]].sector == block {
          return chain[k];
        }
        k := k + 1;
      }
      OnItsChain(S(), block);
      return -1;
    }

    /** BufWriteSector. */
    method BufWriteSector(b: nat)
      requires b < blkTable.Length && blkTable[b].sector < |disk|
      modifies this`disk
      ensures disk == old(disk)[blkTable[b].sector := blkTable[b].mem]
    {
      disk := disk[blkTable[b].sector := blkTable[b].mem];
    }

    /** A dirty buffer leaves the dirty list and is written out. */
    method Flush(b: nat, loose: int)
      requires Ok(S(), writebackDelay == 0, loose) && b < blkTable.Length && blkTable[b].inUse
      modifies this`disk, this`dirtyList, blkTable
      ensures Ok(S(), writebackDelay == 0, if loose == b then -1 else loose) && S() == Flushed(old(S()), b)
      ensures Disk() == old(Disk()) && Resident(S()) == old(Resident(S()))
    {
      hide Listed, Chained, Mirrored, At, View, Resident, NoDup;
      FlushedOk(S(), writebackDelay == 0, loose, b);
      blkTable[b] := blkTable[b].(dirty := false);
      dirtyList := Without(dirtyList, b);
      BufWriteSector(b);
      assert S() == Flushed(old(S()), b);
    }

    /** The least recently used buffer is given up. */
    method Evict() returns (b: nat)
      requires Ok(S(), writebackDelay == 0, -1) && freeList == []
      modifies this`lruList, this`freeList, this`dirtyList, this`disk, this`cached, blkTable, hashList
      ensures Ok(S(), writebackDelay == 0, -1) && freeList == [b] && |disk| == |old(disk)|
      ensures Disk() == old(Disk())
      ensures |old(Resident(S()))| == blkTable.Length && Resident(S()) == old(Resident(S()))[..blkTable.Length - 1]
      ensures cached.Keys <= old(cached.Keys)
    {
      hide Listed, Chained, Mirrored, At, View, Resident;
      LastUsed(S());
      if lruList == [] {
        // The source exits when there is no buffer to give up.
        assert false;
      }
      b := lruList[|lruList| - 1];
      if blkTable[b].dirty {
        Flush(b, -1);
      }
      ghost var s := S();
      EvictedOk(s, writebackDelay == 0, b);
      var hashIdx := blkTable[b].sector % BUF_HASH_CNT;
      lruList := Without(lruList, b);
      hashList[hashIdx] := Without(hashList[hashIdx], b);
      cached := cached - {blkTable[b].sector};
      blkTable[b] := blkTable[b].(inUse := false);
      freeList := [b] + freeList;
      assert S() == Evicted(s, b);
    }

    /** A free buffer is taken for a block and the block read into it. */
    method Install(block: nat)
      requires Ok(S(), writebackDelay == 0, -1) && freeList != [] && block < |disk| && block !in cached
      modifies this`lruList, this`freeList, this`cached, blkTable, hashList
      ensures Ok(S(), writebackDelay == 0, -1) && block in cached
      ensures Disk() == old(Disk()) && Resident(S()) == [block] + old(Resident(S()))
      ensures cached[block] == old(freeList[0])
    {
      hide Listed, Chained, Mirrored, At, View, Resident, NoDup;
      ghost var s := S();
      InstalledOk(s, writebackDelay == 0, block);
      var b := freeList[0];
      freeList := freeList[1..];
      blkTable[b] := Blk(block, false, true, disk[block]);
      lruList := [b] + lruList;
      var hashIdx := block % BUF_HASH_CNT;
      hashList[hashIdx] := [b] + hashList[hashIdx];
      cached := cached[block := b];
      assert S() == Installed(s, block);
    }

    /** A buffer in use becomes the most recently used one. */
    method Touch(b: nat)
      requires Ok(S(), writebackDelay == 0, -1) && b in lruList && b < blkTable.Length
      modifies this`lruList
      ensures Ok(S(), writebackDelay == 0, -1)
      ensures Disk() == old(Disk())
      ensures Resident(S()) == [blkTable[b].sector] + Without(old(Resident(S())), blkTable[b].sector)
    {
      hide Listed, Chained, Mirrored, At, View, Resident, NoDup;
      ghost var s := S();
      TouchedOk(s, writebackDelay == 0, -1, b);
      lruList := [b] + Without(lruList, b);
      assert S() == Touched(s, b);
    }

    /** BufGetBlock: the buffer of a block, read in if it was not there, in place of the least recently accessed one. */
    method BufGetBlock(block: nat) returns (b: nat)
      requires Valid() && block < |disk|
      modifies this, blkTable, hashList
      ensures Valid() && trace == old(trace) + [block] && |disk| == |old(disk)|
      ensures b < blkTable.Length && blkTable[b].inUse && blkTable[b].sector == block
      ensures Disk() == old(Disk()) && blkTable[b].mem == Disk()[block]
    {
      hide Listed, Chained, Mirrored, At, View, Resident, Recent, Take, NoDup, Without;
      ghost var l, tr := Resident(S()), trace;
      LruStep(tr, blkTable.Length, l, block);
      var found := FindInChain(block);
      if found == -1 {
        NotHeld(S(), block);
        if freeList == [] {
          b := Evict();
        } else {
          b := freeList[0];
        }
        Install(block);
      } else {
        b := found;
        Held(S(), block);
        Touch(b);
      }
      trace := trace + [block];
      Held(S(), block);
    }

    /** BufPutBlock without BUF_ONESHOT: a buffer its caller has written to is put on the dirty list, and in
        write-through mode written out at once; with BUF_IMMED it is written out and is dirty no more. */
    method BufPutBlock(b: nat, immed: bool)
      requires ValidBut(b) && b < blkTable.Length && blkTable[b].inUse
      requires immed ==> writethruCritical != 0
      modifies this`disk, this`dirtyList, blkTable
      ensures Valid() && |disk| == |old(disk)| && Disk() == old(Disk())
      ensures blkTable[b] == old(blkTable[b]).(dirty := !immed)
      ensures blkTable[b].sector < |disk|
      ensures disk == if immed || writebackDelay == 0
                then old(disk)[blkTable[b].sector := blkTable[b].mem] else old(disk)
    {
      hide Listed, Chained, Mirrored, At, View, Resident, NoDup;
      ghost var s, through := S(), writebackDelay == 0;
      WrittenOutOk(s, through, b, b);
      if immed {
        if blkTable[b].dirty {
          Flush(b, b);
        } else {
          BufWriteSector(b);
          assert S() == WrittenOut(s, b);
        }
      } else {
        if !blkTable[b].dirty {
          MarkedOk(s, through, b, b);
          blkTable[b] := blkTable[b].(dirty := true);
          dirtyList := dirtyList + [b];
          assert S() == Marked(s, b);
        }
        ghost var s2 := S();
        if writebackDelay == 0 {
          WrittenOutOk(s2, through, b, b);
          BufWriteSector(b);
          assert S() == WrittenOut(s2, b);
        } else {
          DirtyMayDiffer(s2, b);
        }
      }
    }

    /** Bytes are copied into a buffer. */
    method Scribble(b: nat, off: nat, data: seq<Byte>)
      requires Valid() && b < blkTable.Length && blkTable[b].inUse && off + |data| <= |blkTable[b].mem|
      requires blkTable[b].sector < |disk| && blkTable[b].mem == Disk()[blkTable[b].sector]
      modifies blkTable
      ensures ValidBut(b)
      ensures blkTable[b] == old(blkTable[b]).(mem := Splice(old(blkTable[b]).mem, off, data))
      ensures var n := blkTable[b].sector; Disk() == old(Disk())[n := Splice(old(Disk())[n], off, data)]
    {
      hide Listed, Chained, At, View, Resident, NoDup;
      ghost var s, mem := S(), Splice(blkTable[b].mem, off, data);
      ScribbledOk(s, writebackDelay == 0, b, mem);
      blkTable[b] := blkTable[b].(mem := Splice(blkTable[b].mem, off, data));
      assert S() == Scribbled(s, b, mem);
    }

    /** The disk as one sequence of bytes. */
    ghost function Bytes(): (f: seq<Byte>)
      requires Valid()
      reads this, blkTable, hashList
      ensures |f| == SECTOR_SIZE * |disk|
    {
      ViewWhole(S(), writebackDelay == 0, -1);
      Flat(Disk())
    }

    /** BufReadBlocks. */
    method BufReadBlocks(block: nat, offset: nat, nbytes: nat) returns (out: seq<Byte>)
      requires Valid() && offset <= SECTOR_SIZE && SECTOR_SIZE * block + offset + nbytes <= SECTOR_SIZE * |disk|
      modifies this, blkTable, hashList
      ensures Valid() && |disk| == |old(disk)| && Bytes() == old(Bytes())
      ensures out == Bytes()[SECTOR_SIZE * block + offset..SECTOR_SIZE * block + offset + nbytes]
    {
      hide Cache.Valid, Cache.ValidBut, View, Flat, Cache.Disk;
      out := [];
      ghost var start, v := SECTOR_SIZE * block + offset, Disk();
      var n: nat, blk: nat, off: nat := nbytes, block, offset;
      while n > 0
        invariant Valid() && Disk() == v && |disk| == |v|
        invariant 0 <= n && off <= SECTOR_SIZE && |out| + n == nbytes
        invariant SECTOR_SIZE * blk + off == start + |out| || n == 0
        invariant out == Bytes()[start..start + |out|]
        decreases n, off
      {
        var remainingInBlock := SECTOR_SIZE - off;
        var k := if n < remainingInBlock then n else remainingInBlock;
        var b := BufGetBlock(blk);
        WholeDisk();
        FlatRead(v, blk, off, k);
        out := out + blkTable[b].mem[off..off + k];
        n := n - k;
        blk := blk + 1;
        off := 0;
      }
    }

    lemma WholeDisk()
      requires Valid()
      ensures Whole(Disk()) && Bytes() == Flat(Disk())
    {
      ViewWhole(S(), writebackDelay == 0, -1);
    }

    /** BufWriteBlocks with a source. */
    method BufWriteBlocks(data: seq<Byte>, block: nat, offset: nat, immed: bool)
      requires Valid() && offset <= SECTOR_SIZE && SECTOR_SIZE * block + offset + |data| <= SECTOR_SIZE * |disk|
      requires immed ==> writethruCritical != 0
      modifies this, blkTable, hashList
      ensures Valid() && |disk| == |old(disk)|
      ensures Bytes() == Splice(old(Bytes()), SECTOR_SIZE * block + offset, data)
    {
      hide Cache.Valid, Cache.ValidBut, View, Flat, Cache.Disk, Splice;
      ghost var start, f0 := SECTOR_SIZE * block + offset, Bytes();
      var nbytes: nat, blk: nat, off: nat := |data|, block, offset;
      SpliceNothing(f0, start);
      while nbytes > 0
        invariant Valid() && |disk| == |old(disk)|
        invariant 0 <= nbytes <= |data| && off <= SECTOR_SIZE
        invariant SECTOR_SIZE * blk + off == start + (|data| - nbytes) || nbytes == 0
        invariant Bytes() == Splice(f0, start, data[..|data| - nbytes])
        decreases nbytes, off
      {
        var remainingInBlock := SECTOR_SIZE - off;
        var k := if nbytes < remainingInBlock then nbytes else remainingInBlock;
        var b := BufGetBlock(blk);
        var done := |data| - nbytes;
        WholeDisk();
        FlatWrite(Disk(), blk, off, data[done..done + k]);
        SpliceTwice(f0, start, data[..done], data[done..done + k]);
        assert data[..done] + data[done..done + k] == data[..done + k];
        Scribble(b, off, data[done..done + k]);
        BufPutBlock(b, immed);
        WholeDisk();
        nbytes := nbytes - k;
        blk := blk + 1;
        off := 0;
      }
      assert data[..|data|] == data;
    }

    /** SyncCache: afterwards no buffer is dirty and the medium is the disk the cache shows, which has not changed. */
    method SyncCache()
      requires Valid()
      modifies this`disk, this`dirtyList, blkTable
      ensures Valid() && |disk| == |old(disk)| && Disk() == old(Disk())
      ensures dirtyList == [] && forall b :: 0 <= b < blkTable.Length ==> !blkTable[b].dirty
      ensures disk == Disk()
    {
      hide Listed, Chained, Mirrored, At, View, Resident, NoDup;
      while dirtyList != []
        invariant Valid() && |disk| == |old(disk)| && Disk() == old(Disk())
        decreases |dirtyList|
      {
        var b := dirtyList[0];
        FirstDirty(S());
        Flush(b, -1);
      }
      NoneDirty(S());
      CleanDisk(S(), writebackDelay == 0);
    }

    /** In write-through mode the medium is never behind. */
    lemma NeverBehind()
      requires Valid() && writebackDelay == 0
      ensures disk == Disk()
    {
      CleanDisk(S(), true);
    }
  }

  /** CreateCache. It turns away block sizes below a sector; larger ones, which nothing uses, are not modelled. */
  method CreateCache(bufferCnt: nat, blockSize: nat, writethruCritical: nat, writebackDelay: nat, disk: seq<Sector>)
    returns (cache: Cache?)
    requires Whole(disk) && blockSize <= SECTOR_SIZE
    ensures cache == null <==> bufferCnt == 0 || blockSize < SECTOR_SIZE
    ensures cache != null ==>
              && fresh(cache) && fresh(cache.blkTable) && fresh(cache.hashList)
              && cache.Valid() && cache.Disk() == disk && cache.disk == disk && cache.trace == []
              && cache.writethruCritical == writethruCritical && cache.writebackDelay == writebackDelay
  {
    if bufferCnt == 0 || blockSize < SECTOR_SIZE {
      return null;
    }
    cache := new Cache(bufferCnt, writethruCritical, writebackDelay, disk);
  }

  datatype Request =
    | Fetch(block: nat, offset: nat, n: nat)
    | Store(block: nat, offset: nat, data: seq<Byte>, immed: bool)
    | Sync

  predicate InRange(q: Request, size: nat, critical: nat) {
    match q
    case Fetch(block, offset, n) => offset <= SECTOR_SIZE && SECTOR_SIZE * block + offset + n <= size
    case Store(block, offset, data, immed) =>
      offset <= SECTOR_SIZE && SECTOR_SIZE * block + offset + |data| <= size && (immed ==> critical != 0)
    case Sync => true
  }

  /** A plain array of bytes, and what the first k requests do to it. */
  function Applied(f: seq<Byte>, qs: seq<Request>, k: nat): (f2: seq<Byte>)
    requires k <= |qs|
    ensures |f2| == |f|
  {
    if k == 0 then f else
    var f1, q := Applied(f, qs, k - 1), qs[k - 1];
    if q.Store? && SECTOR_SIZE * q.block + q.offset + |q.data| <= |f| then
      Splice(f1, SECTOR_SIZE * q.block + q.offset, q.data)
    else
      f1
  }

  /** The n bytes that a fetch from the array returns. */
  function Part(f: seq<Byte>, block: nat, offset: nat, n: nat): seq<Byte>
  {
    var p := SECTOR_SIZE * block + offset;
    if p + n <= |f| then f[p..p + n] else []
  }

  /** Any run of requests on the cache returns what it would on a plain array of bytes, whatever was evicted on the way
      and in both write modes; after a sync the medium is that array too. */
  method Run(c: Cache, qs: seq<Request>) returns (outs: seq<seq<Byte>>)
    requires c.Valid()
    requires forall k :: 0 <= k < |qs| ==> InRange(qs[k], |c.Bytes()|, c.writethruCritical)
    modifies c, c.blkTable, c.hashList
    ensures c.Valid() && c.Bytes() == Applied(old(c.Bytes()), qs, |qs|)
    ensures |outs| == |qs|
    ensures forall k :: 0 <= k < |qs| && qs[k].Fetch? ==>
              outs[k] == Part(Applied(old(c.Bytes()), qs, k), qs[k].block, qs[k].offset, qs[k].n)
    ensures qs != [] && qs[|qs| - 1].Sync? ==> c.disk == c.Disk()
  {
    hide Cache.Valid, Cache.ValidBut, Cache.Disk, Splice, Flat;
    ghost var f := c.Bytes();
    outs := [];
    for i := 0 to |qs|
      invariant c.Valid() && |c.Bytes()| == |f| && c.Bytes() == Applied(f, qs, i)
      invariant |outs| == i
      invariant forall k :: 0 <= k < i && qs[k].Fetch? ==>
                  outs[k] == Part(Applied(f, qs, k), qs[k].block, qs[k].offset, qs[k].n)
      invariant i > 0 && qs[i - 1].Sync? ==> c.disk == c.Disk()
    {
      var q := qs[i];
      if q.Fetch? {
        var out := c.BufReadBlocks(q.block, q.offset, q.n);
        outs := outs + [out];
      } else if q.Store? {
        c.BufWriteBlocks(q.data, q.block, q.offset, q.immed);
        outs := outs + [[]];
      } else {
        c.WholeDisk();
        c.SyncCache();
        c.WholeDisk();
        outs := outs + [[]];
      }
    }
  }
}
