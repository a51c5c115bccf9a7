/** extfs/read.c: reading a file. */
module ExtRead {
  import opened Words
  import opened ExtGeometry
  import opened BlockStore
  import opened ExtFileSpec
  import opened ExtVolume
  import opened ExtFile

  const ZERO_BLOCK_SIZE: nat := 4096

  /** read_nonexistent_block: what a hole sends back. */
  method ReadNonexistentBlock(chunkSize: nat) returns (out: seq<Byte>)
    ensures |out| == chunkSize && forall k :: 0 <= k < chunkSize ==> out[k] == 0
  {
    var zeroBlockData: seq<Byte> := Zeros(ZERO_BLOCK_SIZE);
    out := [];
    var remaining := chunkSize;
    while remaining > 0
      invariant 0 <= remaining && |out| + remaining == chunkSize
      invariant forall k :: 0 <= k < |out| ==> out[k] == 0
    {
      var n := if remaining < ZERO_BLOCK_SIZE then remaining else ZERO_BLOCK_SIZE;
      out := out + zeroBlockData[..n];
      remaining := remaining - n;
    }
  }

  /** read_chunk: n bytes of the file that lie in one block. */
  method ReadChunk(v: Volume, ino: nat, position: nat, off: nat, n: nat) returns (out: seq<Byte>)
    requires v.Valid() && ino in v.inodes && position < U32
    requires off == position % v.geo.blockSize && off + n <= v.geo.blockSize && position + n <= U32
    ensures |out| == n
    ensures forall k :: 0 <= k < n ==> out[k] == FileByte(v.geo, v.Map(ino), v.dev.Content(), position + k)
  {
    hide Volume.Booked, Volume.Mapped, Volume.Map, ByteOf;
    assert forall a :: a in v.dev.Bufs() ==> allocated(a);
    ghost var m, st := v.Map(ino), v.dev.Content();
    v.MapLookup(ino, position);
    v.LeafInData(ino, v.PathAt(position));
    v.InUseInStore();
    var block := v.ReadMapEntry(ino, position);
    if block == 0 {
      out := ReadNonexistentBlock(n);
    } else {
      out := BytesOf(v.dev.blocks[block][..])[off..off + n];
    }
    assert v.Map(ino) == m && v.dev.Content() == st;
    forall k | 0 <= k < n ensures out[k] == FileByte(v.geo, m, st, position + k) {
      SameBlockStep(v.geo, position, k);
    }
  }

  lemma SameBlockStep(g: Geometry, position: nat, k: nat)
    requires g.blockSize > 0 && position % g.blockSize + k < g.blockSize && position + k < U32
    ensures BlockIndex(g, position + k) == BlockIndex(g, position)
    ensures (position + k) % g.blockSize == position % g.blockSize + k
  {
    BlockIndexIs(g, position);
    BlockIndexIs(g, position + k);
    SameBlock(g.blockSize, position, position + k);
  }

  /** The bytes read_file would send if the file had no end. It clamps each chunk to the whole request where the rest
      of it is meant, so a request that spills over into a second block ends with a whole block, or with a second
      chunk as long as the request. */
  function Wanted(bs: nat, position: nat, n: nat): (w: nat)
    requires bs > 0
    ensures n <= w
  {
    var head := bs - position % bs;
    if n <= head then n
    else if n < bs then head + n
    else n + (bs - (position + n) % bs) % bs
  }

  /** What read_file should send: the request, as far as the file goes. */
  function Asked(position: nat, n: nat, size: nat): nat {
    if position >= size then 0 else Least(n, size - position)
  }

  function Sent(bs: nat, position: nat, n: nat, size: nat): nat
    requires bs > 0
  {
    if position >= size then 0 else Least(Wanted(bs, position, n), size - position)
  }

  lemma ModShift(bs: nat, x: nat, d: nat)
    requires bs > 0 && x % bs == 0
    ensures d < bs ==> (x + d) % bs == d
    ensures (x + bs) % bs == 0
  {
    var q := x / bs;
    assert x == q * bs;
    if d < bs {
      DivModOf(q, d, bs);
    }
    DivModOf(q + 1, 0, bs);
    assert (q + 1) * bs == q * bs + bs;
  }

  /** From a block boundary short of the end of a long request, whole blocks lead up to what is wanted. */
  lemma NextBlock(bs: nat, position: nat, n: nat, total: nat)
    requires bs > 0 && (position + total) % bs == 0 && total < n && bs <= n && bs - position % bs < n
    ensures total + bs <= Wanted(bs, position, n) && (total + bs >= n ==> total + bs == Wanted(bs, position, n))
    ensures (position + total + bs) % bs == 0
  {
    var x, d := position + total, n - total;
    ModShift(bs, x, d);
    if d < bs {
      assert (position + n) % bs == d;
      SmallMod(bs - d, bs);
    } else if d == bs {
      assert position + n == x + bs;
      SmallMod(bs, bs);
    }
  }

  lemma FirstBlock(bs: nat, position: nat)
    requires bs > 0
    ensures (position + (bs - position % bs)) % bs == 0
  {
    var q := position / bs;
    assert position + (bs - position % bs) == q * bs + bs == (q + 1) * bs;
    DivModOf(q + 1, 0, bs);
  }

  /** What the loop of read_file knows after total bytes. */
  ghost predicate Reading(bs: nat, position: nat, n: nat, size: nat, total: nat) {
    && bs > 0
    && (total == 0 || position + total <= size)
    && (total >= n ==> total == Sent(bs, position, n, size))
    && (0 < total < n ==>
          || position + total == size
          || ((position + total) % bs == 0 && bs - position % bs < n && (n < bs ==> total == bs - position % bs)))
  }

  lemma ReadingStep(bs: nat, position: nat, n: nat, size: nat, total: nat)
    requires Reading(bs, position, n, size, total) && total < n && position + total < size
    ensures var c0 := Least(bs - (position + total) % bs, n);
            Reading(bs, position, n, size, total + Least(c0, size - (position + total)))
  {
    FirstBlock(bs, position);
    if total > 0 && n >= bs {
      NextBlock(bs, position, n, total);
    }
    if total == 0 && bs - position % bs < n && bs <= n {
      NextBlock(bs, position, n, bs - position % bs);
    }
  }

  lemma ReadingEnd(bs: nat, position: nat, n: nat, size: nat, total: nat)
    requires Reading(bs, position, n, size, total) && (total >= n || position + total >= size)
    ensures total == Sent(bs, position, n, size)
  {
  }

  /** read_file sends the file's bytes from position on, and no byte past the file's end. */
  method ReadFile(v: Volume, ino: nat, nrbytes: nat, position: nat) returns (r: Result<nat>, out: seq<Byte>)
    requires v.Valid()
    ensures ino !in v.inodes ==> r == Err(EINVAL) && out == []
    ensures ino in v.inodes ==>
              && r == Ok(|out|)
              && |out| == Sent(v.geo.blockSize, position, nrbytes, v.inodes[ino].iSize)
              && (out != [] ==> position + |out| <= v.inodes[ino].iSize
                                && out == FileContents(v, ino)[position..position + |out|])
  {
    hide Volume.Booked, Volume.Mapped, Volume.Map, FileByte, Reading, Wanted, Sent;
    assert forall a :: a in v.dev.Bufs() ==> allocated(a);
    out := [];
    if ino !in v.inodes {
      return Err(EINVAL), [];
    }
    var fileSize: Word := v.inodes[ino].iSize;
    ghost var bs := v.geo.blockSize;
    var totalXfered := 0;
    var pos := position;
    ghost var m, st := v.Map(ino), v.dev.Content();
    ReadingStart(bs, position, nrbytes, fileSize);
    while totalXfered < nrbytes
      invariant v.Valid() && v.Map(ino) == m && v.dev.Content() == st
      invariant totalXfered == |out| && pos == position + totalXfered
      invariant totalXfered > 0 ==> pos <= fileSize
      invariant Reading(bs, position, nrbytes, fileSize, totalXfered)
      invariant forall k :: 0 <= k < |out| ==>
                  out[k] == FileByte(v.geo, m, st, position + k)
    {
      var off := pos % v.geo.blockSize;
      var chunkSize := v.geo.blockSize - off;
      if chunkSize > nrbytes {
        chunkSize := nrbytes;
      }
      if pos >= fileSize {
        break;
      }
      var bytesLeft := fileSize - pos;
      if chunkSize > bytesLeft {
        chunkSize := bytesLeft;
      }
      ReadingStep(bs, position, nrbytes, fileSize, totalXfered);
      var chunk := ReadChunk(v, ino, pos, off, chunkSize);
      out := out + chunk;
      totalXfered := totalXfered + chunkSize;
      pos := pos + chunkSize;
    }
    ReadingEnd(bs, position, nrbytes, fileSize, totalXfered);
    return Ok(totalXfered), out;
  }

  lemma ReadingStart(bs: nat, position: nat, n: nat, size: nat)
    requires bs > 0
    ensures Reading(bs, position, n, size, 0)
  {
  }

  /** A read sends what was asked exactly when the request stays in its first block, ends on a block boundary or
      reaches the end of the file. */
  lemma ReadExact(bs: nat, position: nat, n: nat, size: nat)
    requires bs > 0
    ensures Sent(bs, position, n, size) == Asked(position, n, size) <==>
            (n <= bs - position % bs || (position + n) % bs == 0 || position + n >= size)
  {
    if bs - position % bs < n < bs {
      FirstBlock(bs, position);
      ModShift(bs, position + (bs - position % bs), n - (bs - position % bs));
    } else if n >= bs {
      SmallMod(bs - (position + n) % bs, bs);
    }
  }

  /** Asked for 100 bytes that reach into a second block, it sends 124. */
  lemma SentTooMuch()
    ensures Asked(1000, 100, 4096) == 100 && Sent(1024, 1000, 100, 4096) == 124
  {
  }

  /** It sends less than one block too much, and what was asked for comes first. */
  lemma ReadOvershoot(bs: nat, position: nat, n: nat, size: nat)
    requires bs > 0
    ensures Asked(position, n, size) <= Sent(bs, position, n, size) < Asked(position, n, size) + bs
  {
  }

  /** A read of the bytes a successful write has put down returns them, first thing. */
  lemma ReadBack(v: Volume, old_: seq<Byte>, ino: nat, position: nat, data: seq<Byte>, out: seq<Byte>)
    requires v.Wired() && ino in v.inodes && FileContents(v, ino) == Overlay(old_, position, data) && data != []
    requires |out| == Sent(v.geo.blockSize, position, |data|, v.inodes[ino].iSize)
    requires out != [] ==> position + |out| <= v.inodes[ino].iSize
                           && out == FileContents(v, ino)[position..position + |out|]
    ensures |data| <= |out| && out[..|data|] == data
  {
    hide FileByte, Overlay, Wanted;
    ReadOvershoot(v.geo.blockSize, position, |data|, v.inodes[ino].iSize);
    OverlayAt(old_, position, data);
  }

  lemma OverlayAt(old_: seq<Byte>, position: nat, data: seq<Byte>)
    ensures Overlay(old_, position, data)[position..position + |data|] == data
    ensures position + |data| <= |Overlay(old_, position, data)|
  {
  }
}
