/** What a file's bytes are, and what a write to part of one block does to them. */
module ExtFileSpec {
  import opened Words
  import opened ExtGeometry
  import opened BlockStore
  import opened BlockTree
  import opened ExtMapSpec

  /** The byte at a position of a file with block map m; a position in no block (a hole) reads as zero. */
  function FileByte(g: Geometry, m: map<nat, Word>, st: seq<Block>, pos: nat): Byte
    requires g.blockSize > 0
  {
    var idx := BlockIndex(g, pos);
    if idx in m && m[idx] < |st| then ByteAt(st[m[idx]], pos % g.blockSize) else 0
  }

  /** Where byte pos of a file is in the store: byte pos % 4, the least significant first, of a word of its block. */
  lemma FileByteInStore(g: Geometry, m: map<nat, Word>, st: seq<Block>, pos: nat)
    requires g.blockSize > 0 && pos < U32
    ensures pos / g.blockSize !in m ==> FileByte(g, m, st, pos) == 0
    ensures pos / g.blockSize in m && m[pos / g.blockSize] < |st| ==>
              var o, b := pos % g.blockSize, st[m[pos / g.blockSize]];
              o / 4 < |b| ==> FileByte(g, m, st, pos) == b[o / 4] / Weights[o % 4] % 256
  {
    hide ByteOf;
    BlockIndexIs(g, pos);
    if pos / g.blockSize in m && m[pos / g.blockSize] < |st| {
      var o, b := pos % g.blockSize, st[m[pos / g.blockSize]];
      if o / 4 < |b| {
        BytesWeigh(b[o / 4]);
      }
    }
  }

  /** What the bytes of a word weigh. */
  const Weights: seq<nat> := [1, 0x100, 0x1_0000, 0x100_0000]

  /** A file's contents: its first size bytes. */
  ghost function Contents(g: Geometry, m: map<nat, Word>, st: seq<Block>, size: nat): (c: seq<Byte>)
    requires g.blockSize > 0
    ensures |c| == size
  {
    seq(size, k requires 0 <= k < size => FileByte(g, m, st, k))
  }

  /** Every mapped byte from n on is zero. */
  ghost predicate ZeroFrom(g: Geometry, m: map<nat, Word>, st: seq<Block>, n: nat)
    requires g.blockSize > 0
  {
    forall pos :: n <= pos < U32 ==> FileByte(g, m, st, pos) == 0
  }

  lemma SameBlock(bs: nat, p: nat, q: nat)
    requires bs > 0
    ensures p / bs == q / bs ==> q - p == q % bs - p % bs
    ensures p <= q && q - p < bs - p % bs ==> q / bs == p / bs
  {
    assert p == p / bs * bs + p % bs && q == q / bs * bs + q % bs;
    if p <= q && q - p < bs - p % bs {
      QuotUnique(bs, p / bs, p % bs + (q - p), q / bs, q % bs);
    }
  }

  /** BlockIndex on 32-bit positions is division. */
  lemma BlockIndexIs(g: Geometry, pos: nat)
    requires g.blockSize > 0 && pos < U32
    ensures BlockIndex(g, pos) == pos / g.blockSize
  {
  }

  /** Two files' maps have no block in common, nor has one file a block twice. */
  lemma MapsDisjoint(t: Tree, g: Geometry, i: nat, x: nat, j: nat, y: nat)
    requires ValidGeometry(g) && t.Valid(g.addrInBlock) && i in t.roots && j in t.roots
    requires x in FileMap(t, g, i) && y in FileMap(t, g, j)
    requires FileMap(t, g, i)[x] == FileMap(t, g, j)[y]
    ensures i == j && x == y
  {
    hide Entry, PathOf, Tree.Valid;
    var p, q := LeafPath(g, x), LeafPath(g, y);
    Disjoint(t, g.addrInBlock, i, p, j, q);
    IndexOfLeafPath(g, x);
    IndexOfLeafPath(g, y);
  }

  /** data written at a position inside one block of one file: those bytes change, no other byte of that file. */
  lemma ChunkInFile(g: Geometry, m: map<nat, Word>, m2: map<nat, Word>, st: seq<Block>, st1: seq<Block>,
                    st2: seq<Block>, b: Word, position: nat, data: seq<Byte>, pos: nat)
    requires g.blockSize > 0 && position < U32 && pos < U32 && position % g.blockSize + |data| <= g.blockSize
    requires m2 == m[BlockIndex(g, position) := b]
    requires |st1| == |st| == |st2| && b < |st| && 4 * |st1[b]| == g.blockSize
    requires forall idx :: idx in m && idx != BlockIndex(g, position) && m[idx] < |st| ==>
               m[idx] != b && st1[m[idx]] == st[m[idx]]
    requires st2 == st1[b := WithBytes(st1[b], position % g.blockSize, data)]
    requires BlockIndex(g, pos) == BlockIndex(g, position) && !(position <= pos < position + |data|) ==>
               FileByte(g, m, st, pos) == ByteAt(st1[b], pos % g.blockSize)
    ensures FileByte(g, m2, st2, pos) ==
            if position <= pos < position + |data| then data[pos - position] else FileByte(g, m, st, pos)
  {
    hide WithBytes, ByteAt;
    BlockIndexIs(g, pos);
    BlockIndexIs(g, position);
    SameBlock(g.blockSize, position, pos);
    SameBlock(g.blockSize, pos, position);
    if BlockIndex(g, pos) == BlockIndex(g, position) {
      WithBytesAt(st1[b], position % g.blockSize, data, pos % g.blockSize);
    }
  }

  /** A file none of whose blocks is b reads the same after b has changed. */
  lemma ChunkElsewhere(g: Geometry, m: map<nat, Word>, st: seq<Block>, st2: seq<Block>, pos: nat)
    requires g.blockSize > 0 && |st2| == |st|
    requires forall idx :: idx in m && m[idx] < |st| ==> st2[m[idx]] == st[m[idx]]
    ensures FileByte(g, m, st2, pos) == FileByte(g, m, st, pos)
  {
  }

  /** Byte by byte what a write has done is an overlay of the file's contents. */
  lemma WrittenContents(g: Geometry, m: map<nat, Word>, st: seq<Block>, size: nat, m2: map<nat, Word>, st2: seq<Block>,
                        size2: nat, position: nat, data: seq<Byte>)
    requires g.blockSize > 0 && position + |data| <= U32 && size <= U32
    requires size2 == if position + |data| > size then position + |data| else size
    requires ZeroFrom(g, m, st, size)
    requires forall pos :: 0 <= pos < U32 ==>
               FileByte(g, m2, st2, pos) ==
               if position <= pos < position + |data| then data[pos - position] else FileByte(g, m, st, pos)
    ensures Contents(g, m2, st2, size2) == Overlay(Contents(g, m, st, size), position, data)
    ensures ZeroFrom(g, m2, st2, size2)
  {
    hide FileByte;
  }

  /** Every file's block map and the store: what reading any file depends on. */
  datatype Files = Files(maps: map<nat, map<nat, Word>>, store: seq<Block>) {
    function At(g: Geometry, i: nat, pos: nat): Byte
      requires g.blockSize > 0 && i in maps
    {
      FileByte(g, maps[i], store, pos)
    }
  }

  /** Exactly the bytes data covers, from a position of file i on, differ, and they are data. */
  ghost predicate Written(g: Geometry, f: Files, f2: Files, i: nat, position: nat, data: seq<Byte>)
    requires g.blockSize > 0
  {
    && f2.maps.Keys == f.maps.Keys
    && forall j, pos :: j in f.maps && 0 <= pos < U32 ==>
         f2.At(g, j, pos) == if j == i && position <= pos < position + |data|
             then data[pos - position] else f.At(g, j, pos)
  }

  /** Before data goes into block b for file block x of file i: every other block of every file is as it was in f,
      and none of them is b. */
  ghost predicate Prepared(f: Files, f1: Files, i: nat, x: nat, b: Word) {
    && i in f.maps
    && |f1.store| == |f.store| && b < |f.store|
    && f1.maps.Keys == f.maps.Keys && f1.maps[i] == f.maps[i][x := b]
    && (forall j :: j in f.maps && j != i ==> f1.maps[j] == f.maps[j])
    && forall j, y :: j in f.maps && y in f.maps[j] && !(j == i && y == x) && f.maps[j][y] < |f.store| ==>
         f.maps[j][y] != b && f1.store[f.maps[j][y]] == f.store[f.maps[j][y]]
  }

  /** The part of block b that data leaves alone reads as the file did. */
  ghost predicate RestKept(g: Geometry, f: Files, f1: Files, i: nat, position: nat, n: nat, b: Word)
    requires g.blockSize > 0
  {
    && i in f.maps && b < |f1.store|
    && forall pos ::
         0 <= pos < U32 && BlockIndex(g, pos) == BlockIndex(g, position) && !(position <= pos < position + n) ==>
         f.At(g, i, pos) == ByteAt(f1.store[b], pos % g.blockSize)
  }

  lemma ChunkWritten(g: Geometry, f: Files, f1: Files, f2: Files, i: nat, position: nat, data: seq<Byte>, b: Word)
    requires g.blockSize > 0 && position < U32 && position % g.blockSize + |data| <= g.blockSize
    requires Prepared(f, f1, i, BlockIndex(g, position), b) && 4 * |f1.store[b]| == g.blockSize
    requires RestKept(g, f, f1, i, position, |data|, b)
    requires f2.maps == f1.maps && f2.store == f1.store[b := WithBytes(f1.store[b], position % g.blockSize, data)]
    ensures Written(g, f, f2, i, position, data)
  {
    forall j, pos | j in f.maps && 0 <= pos < U32
      ensures f2.At(g, j, pos) ==
              if j == i && position <= pos < position + |data| then data[pos - position] else f.At(g, j, pos)
    {
      hide FileByte, WithBytes, ByteAt, BlockIndex;
      if j == i {
        ChunkInFile(g, f.maps[i], f2.maps[i], f.store, f1.store, f2.store, b, position, data, pos);
      } else {
        ChunkElsewhere(g, f.maps[j], f.store, f2.store, pos);
      }
    }
  }

  /** A hole reads as zero, and so does a cleared block. */
  lemma RestOfHole(g: Geometry, f: Files, f1: Files, i: nat, position: nat, n: nat, b: Word)
    requires g.blockSize > 0 && i in f.maps && BlockIndex(g, position) !in f.maps[i]
    requires b < |f1.store| && f1.store[b] == Zeros(|f1.store[b]|)
    ensures RestKept(g, f, f1, i, position, n, b)
  {
    forall k: nat ensures ByteAt(f1.store[b], k) == 0 {
      ZerosAt(|f1.store[b]|, k);
    }
  }

  /** A whole block is about to be overwritten. */
  lemma RestOfWhole(g: Geometry, f: Files, f1: Files, i: nat, position: nat, b: Word)
    requires g.blockSize > 0 && i in f.maps && position < U32 && position % g.blockSize == 0 && b < |f1.store|
    ensures RestKept(g, f, f1, i, position, g.blockSize, b)
  {
    forall pos | 0 <= pos < U32 && BlockIndex(g, pos) == BlockIndex(g, position)
      ensures position <= pos < position + g.blockSize
    {
      BlockIndexIs(g, pos);
      BlockIndexIs(g, position);
      SameBlock(g.blockSize, position, pos);
    }
  }

  /** The block starts at or past the end of the file: its mapped bytes are zero already. */
  lemma RestPastEnd(g: Geometry, f: Files, f1: Files, i: nat, position: nat, n: nat, b: Word)
    requires g.blockSize > 0 && i in f.maps && position < U32 && position % g.blockSize == 0
    requires ZeroFrom(g, f.maps[i], f.store, position)
    requires b < |f1.store| && f1.store[b] == Zeros(|f1.store[b]|)
    ensures RestKept(g, f, f1, i, position, n, b)
  {
    forall pos | 0 <= pos < U32 && BlockIndex(g, pos) == BlockIndex(g, position)
      ensures f.At(g, i, pos) == ByteAt(f1.store[b], pos % g.blockSize)
    {
      BlockIndexIs(g, pos);
      BlockIndexIs(g, position);
      SameBlock(g.blockSize, position, pos);
      ZerosAt(|f1.store[b]|, pos % g.blockSize);
    }
  }

  /** The block as it was read. */
  lemma RestOfBlock(g: Geometry, f: Files, i: nat, position: nat, n: nat, b: Word)
    requires g.blockSize > 0 && i in f.maps && BlockIndex(g, position) in f.maps[i]
    requires f.maps[i][BlockIndex(g, position)] == b < |f.store|
    ensures RestKept(g, f, f, i, position, n, b)
  {
  }

  lemma WrittenFile(g: Geometry, f: Files, f2: Files, i: nat, position: nat, data: seq<Byte>, size: nat)
    requires g.blockSize > 0 && i in f.maps && Written(g, f, f2, i, position, data)
    requires position + |data| <= U32 && size <= U32 && ZeroFrom(g, f.maps[i], f.store, size)
    ensures i in f2.maps
    ensures var size2 := if position + |data| > size then position + |data| else size;
            && Contents(g, f2.maps[i], f2.store, size2) ==
               Overlay(Contents(g, f.maps[i], f.store, size), position, data)
            && ZeroFrom(g, f2.maps[i], f2.store, size2)
  {
    hide FileByte, ZeroFrom, Overlay;
    forall pos | 0 <= pos < U32
      ensures FileByte(g, f2.maps[i], f2.store, pos) ==
              if position <= pos < position + |data| then data[pos - position] else FileByte(g, f.maps[i], f.store, pos)
    {
      assert f2.At(g, i, pos) == FileByte(g, f2.maps[i], f2.store, pos);
    }
    WrittenContents(g, f.maps[i], f.store, size, f2.maps[i], f2.store,
                    if position + |data| > size then position + |data| else size, position, data);
  }

  lemma WrittenOther(g: Geometry, f: Files, f2: Files, i: nat, position: nat, data: seq<Byte>, j: nat, size: nat)
    requires g.blockSize > 0 && j in f.maps && j != i && Written(g, f, f2, i, position, data) && size <= U32
    ensures j in f2.maps
    ensures Contents(g, f2.maps[j], f2.store, size) == Contents(g, f.maps[j], f.store, size)
    ensures ZeroFrom(g, f.maps[j], f.store, size) ==> ZeroFrom(g, f2.maps[j], f2.store, size)
  {
    hide FileByte;
    forall pos | 0 <= pos < U32 ensures FileByte(g, f2.maps[j], f2.store, pos) == FileByte(g, f.maps[j], f.store, pos) {
      assert f2.At(g, j, pos) == f.At(g, j, pos);
    }
  }

  lemma WrittenTrans(g: Geometry, f: Files, f1: Files, f2: Files, i: nat, position: nat, d: seq<Byte>, e: seq<Byte>)
    requires g.blockSize > 0
    requires Written(g, f, f1, i, position, d) && Written(g, f1, f2, i, position + |d|, e)
    ensures Written(g, f, f2, i, position, d + e)
  {
    hide FileByte;
  }

  lemma WrittenNothing(g: Geometry, f: Files, i: nat, position: nat)
    requires g.blockSize > 0
    ensures Written(g, f, f, i, position, [])
  {
  }

  lemma ZeroAfterWrite(g: Geometry, f: Files, f2: Files, i: nat, position: nat, data: seq<Byte>, n: nat)
    requires g.blockSize > 0 && i in f.maps && Written(g, f, f2, i, position, data)
    requires ZeroFrom(g, f.maps[i], f.store, n)
    ensures i in f2.maps && ZeroFrom(g, f2.maps[i], f2.store, if n > position + |data| then n else position + |data|)
  {
    hide FileByte;
    forall pos | n <= pos < U32 && position + |data| <= pos ensures FileByte(g, f2.maps[i], f2.store, pos) == 0 {
      assert f2.At(g, i, pos) == f.At(g, i, pos);
    }
  }

  /** f is what the inodes' trees say. */
  ghost predicate FilesOfTree(f: Files, t: Tree, g: Geometry)
    requires ValidGeometry(g)
  {
    f.store == t.store && f.maps.Keys == t.roots.Keys && forall j :: j in f.maps ==> f.maps[j] == FileMap(t, g, j)
  }

  /** The block is the file's already; it may have been cleared. */
  lemma PreparedMapped(t: Tree, g: Geometry, f: Files, f1: Files, i: nat, x: nat, b: Word)
    requires ValidGeometry(g) && t.Valid(g.addrInBlock) && FilesOfTree(f, t, g)
    requires i in f.maps && x in f.maps[i] && f.maps[i][x] == b && b < |f.store|
    requires f1.maps == f.maps && |f1.store| == |f.store|
    requires forall c: nat :: c < |f.store| && c != b ==> f1.store[c] == f.store[c]
    ensures Prepared(f, f1, i, x, b)
  {
    hide FileMap, Tree.Valid;
    forall j, y | j in f.maps && y in f.maps[j] && !(j == i && y == x)
      ensures f.maps[j][y] != b
    {
      if f.maps[j][y] == b {
        MapsDisjoint(t, g, i, x, j, y);
      }
    }
  }

  /** The block is fresh. */
  lemma PreparedNew(f: Files, f1: Files, i: nat, x: nat, b: Word, d: set<nat>)
    requires i in f.maps && |f1.store| == |f.store| && b < |f.store| && b !in d
    requires f1.maps.Keys == f.maps.Keys && f1.maps[i] == f.maps[i][x := b]
    requires forall j :: j in f.maps && j != i ==> f1.maps[j] == f.maps[j]
    requires forall j, y :: j in f.maps && y in f.maps[j] ==> f.maps[j][y] as nat in d
    requires SameBlocks(d - {b}, f.store, f1.store)
    ensures Prepared(f, f1, i, x, b)
  {
  }

  /** Nothing was written, and no file's block has changed. */
  lemma WrittenSame(g: Geometry, f: Files, f1: Files, i: nat, position: nat, d: set<nat>)
    requires g.blockSize > 0 && f1.maps.Keys == f.maps.Keys && forall j :: j in f.maps ==> f1.maps[j] == f.maps[j]
    requires forall j, y :: j in f.maps && y in f.maps[j] ==> f.maps[j][y] as nat in d
    requires SameBlocks(d, f.store, f1.store)
    ensures Written(g, f, f1, i, position, [])
  {
    forall j, pos | j in f.maps && 0 <= pos < U32 ensures f1.At(g, j, pos) == f.At(g, j, pos) {
      ChunkElsewhere(g, f.maps[j], f.store, f1.store, pos);
    }
  }
}
