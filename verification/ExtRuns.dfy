/** Whole runs of file requests against a mounted volume. */
module ExtRuns {
  import opened Words
  import opened ExtGeometry
  import opened BlockStore
  import opened ExtMapSpec
  import opened ExtVolume
  import opened ExtFile
  import opened ExtRead

  datatype Request = Write(ino: nat, position: nat, data: seq<Byte>) | Read(ino: nat, position: nat, n: nat)

  /** For a write, how many bytes went in; for a read, the bytes sent. */
  datatype Reply = Wrote(r: Result<nat>) | Sends(bytes: seq<Byte>)

  /** The simple picture of a volume: a sequence of bytes for each file. */
  type Image = map<nat, seq<Byte>>

  ghost function ImageOf(v: Volume): (m: Image)
    requires v.Wired()
    reads v, v.dev.Bufs()
    ensures m.Keys == v.inodes.Keys && forall j :: j in m ==> m[j] == FileContents(v, j)
  {
    map j | j in v.inodes :: FileContents(v, j)
  }

  function After(m: Image, q: Request, done: nat): (m2: Image)
    ensures m2.Keys == m.Keys
  {
    if q.Write? && q.ino in m && done <= |q.data| && q.position + |q.data| <= MAX_FILE_POS then
      m[q.ino := Overlay(m[q.ino], q.position, q.data[..done])]
    else
      m
  }

  /** The picture after the first k requests, done[i] bytes of request i having found room. */
  function Replay(m: Image, qs: seq<Request>, done: seq<nat>, k: nat): (m2: Image)
    requires k <= |qs| && k <= |done|
    ensures m2.Keys == m.Keys
  {
    if k == 0 then m else After(Replay(m, qs, done, k - 1), qs[k - 1], done[k - 1])
  }

  /** What the picture says a reply may be. */
  ghost predicate Answers(m: Image, q: Request, done: nat, a: Reply, g: Geometry)
    requires g.blockSize > 0
  {
    match q
    case Write(i, position, data) =>
      && a.Wrote?
      && (i !in m ==> a.r == Err(EINVAL))
      && (i in m && position + |data| > MAX_FILE_POS ==> a.r == Err(EFBIG))
      && (i in m && position + |data| <= MAX_FILE_POS ==>
            if done == |data| then a.r == Ok(done) else done < |data| && a.r == Err(EIO))
    case Read(i, position, n) =>
      && a.Sends?
      && (i !in m ==> a.bytes == [])
      && (i in m ==> |a.bytes| == Sent(g.blockSize, position, n, |m[i]|))
      && (i in m && a.bytes != [] ==>
            position + |a.bytes| <= |m[i]| && a.bytes == m[i][position..position + |a.bytes|])
  }

  /** Free blocks that are sure to be enough for a request. */
  function Need(q: Request, g: Geometry): nat
    requires g.blockSize > 0
  {
    if q.Write? then 4 * Touched(g.blockSize, q.position, |q.data|) else 0
  }

  function NeedAll(qs: seq<Request>, g: Geometry, k: nat): nat
    requires g.blockSize > 0 && k <= |qs|
  {
    if k == 0 then 0 else NeedAll(qs, g, k - 1) + Need(qs[k - 1], g)
  }

  /** What a request may cost, with free blocks before it and free2 after; and that a write is cut short for want of
      room only when the free blocks run out. */
  predicate Spends(q: Request, a: Reply, g: Geometry, free: nat, free2: nat)
    requires g.blockSize > 0
  {
    && free <= free2 + Need(q, g)
    && (a == Wrote(Err(EIO)) ==> free < Need(q, g) && free2 < 4)
  }

  /** Every file is a regular file or a directory, its blocks are zero past its end and its i_blocks is right. */
  ghost predicate Sound(v: Volume)
    requires v.Wired()
    reads v, v.dev.Bufs()
  {
    forall j :: j in v.inodes ==> v.inodes[j].hasSize && TailZero(v, j) && v.AccountedFor(j)
  }

  datatype Served = Served(v: Volume, q: Request, done: nat)

  twostate lemma ImageAfter(s: Served)
    requires old(s.v.Valid()) && s.v.Valid() && s.v.inodes.Keys == old(s.v.inodes.Keys) && old(Sound(s.v))
    requires s.q.Write? && s.q.position + |s.q.data| <= MAX_FILE_POS
    requires Overwritten(s.v, s.q.ino, s.q.position, s.q.data, s.done)
    ensures Sound(s.v) && s.v.held == old(s.v.held)
    ensures ImageOf(s.v) == After(old(ImageOf(s.v)), s.q, s.done)
  {
    hide Volume.Valid, Volume.Map, Volume.AccountedFor, FileContents, TailZero, Overlay;
  }

  /** A write request. */
  method ServeWrite(v: Volume, q: Request) returns (a: Reply, ghost done: nat)
    requires v.Valid() && Sound(v) && q.Write? && |q.data| <= MAX_FILE_POS
    modifies v, v.groupDescs, v.dev.Bufs()
    ensures v.Valid() && Sound(v) && v.held == old(v.held)
    ensures ImageOf(v) == After(old(ImageOf(v)), q, done)
    ensures Answers(old(ImageOf(v)), q, done, a, v.geo)
    ensures Spends(q, a, v.geo, old(v.freeBlocks), v.freeBlocks)
  {
    hide Volume.Booked, Volume.Mapped, Volume.Map, Volume.AccountedFor, FileContents, TailZero, Overlay, Sent,
      Volume.NoRoom, Overwritten, ImageOf, Touched, Volume.NoEmpty, Volume.T;
    var r;
    r, done := WriteFile(v, q.ino, q.data, q.position);
    if r.Ok? || r == Err(EIO) {
      ImageAfter(Served(v, q, done));
    }
    if r == Err(EIO) {
      v.FewIfNoRoom(q.ino, q.position + done);
    }
    a := Wrote(r);
  }

  /** One request. */
  method Serve(v: Volume, q: Request) returns (a: Reply, ghost done: nat)
    requires v.Valid() && Sound(v)
    requires q.Write? ==> |q.data| <= MAX_FILE_POS
    modifies v, v.groupDescs, v.dev.Bufs()
    ensures v.Valid() && Sound(v) && v.held == old(v.held)
    ensures ImageOf(v) == After(old(ImageOf(v)), q, done)
    ensures Answers(old(ImageOf(v)), q, done, a, v.geo)
    ensures Spends(q, a, v.geo, old(v.freeBlocks), v.freeBlocks)
  {
    hide Volume.Booked, Volume.Mapped, Volume.Map, Volume.AccountedFor, FileContents, Overlay, Sent, Volume.T,
      ImageOf, Touched, Sound;
    if q.Write? {
      a, done := ServeWrite(v, q);
    } else {
      assert forall x :: x in v.dev.Bufs() ==> allocated(x);
      ghost var m := ImageOf(v);
      var r, out := ReadFile(v, q.ino, q.n, q.position);
      assert ImageOf(v) == m;
      a := Sends(out);
      done := 0;
    }
  }

  /** Replies, bytes written and free blocks of the first requests, as they should be. */
  ghost predicate Agree(m: Image, g: Geometry, qs: seq<Request>, replies: seq<Reply>, done: seq<nat>, free: seq<nat>)
    requires g.blockSize > 0
  {
    && |replies| == |done| == |free| - 1 <= |qs|
    && forall k :: 0 <= k < |done| ==>
         && Answers(Replay(m, qs, done, k), qs[k], done[k], replies[k], g)
         && Spends(qs[k], replies[k], g, free[k], free[k + 1])
  }

  lemma NothingYet(m: Image, g: Geometry, qs: seq<Request>, free: nat)
    requires g.blockSize > 0
    ensures Agree(m, g, qs, [], [], [free]) && Replay(m, qs, [], 0) == m
  {
  }

  lemma PlusOne(m: Image, qs: seq<Request>, done: seq<nat>, n: nat, k: nat)
    requires k <= |done| < |qs|
    ensures Replay(m, qs, done + [n], k) == Replay(m, qs, done, k)
    ensures k == |done| ==> Replay(m, qs, done + [n], k + 1) == After(Replay(m, qs, done, k), qs[k], n)
  {
    hide After;
    ReplayPrefix(m, qs, done, done + [n], k);
  }

  lemma OneMore(m: Image, g: Geometry, qs: seq<Request>, replies: seq<Reply>, done: seq<nat>, free: seq<nat>, a: Reply,
                n: nat, f: nat)
    requires g.blockSize > 0 && Agree(m, g, qs, replies, done, free) && |done| < |qs|
    requires Answers(Replay(m, qs, done, |done|), qs[|done|], n, a, g)
    requires Spends(qs[|done|], a, g, free[|done|], f)
    ensures Agree(m, g, qs, replies + [a], done + [n], free + [f])
    ensures Replay(m, qs, done + [n], |done| + 1) == After(Replay(m, qs, done, |done|), qs[|done|], n)
  {
    hide Answers, After, Spends, Replay;
    var replies2, done2, free2 := replies + [a], done + [n], free + [f];
    PlusOne(m, qs, done, n, |done|);
    forall k | 0 <= k < |done2|
      ensures Answers(Replay(m, qs, done2, k), qs[k], done2[k], replies2[k], g)
      ensures Spends(qs[k], replies2[k], g, free2[k], free2[k + 1])
    {
      PlusOne(m, qs, done, n, k);
      assert free2[k] == free[k] && free2[k + 1] == if k < |done| then free[k + 1] else f;
    }
  }

  lemma AllAgree(m: Image, g: Geometry, qs: seq<Request>, replies: seq<Reply>, done: seq<nat>, free: seq<nat>)
    requires g.blockSize > 0 && Agree(m, g, qs, replies, done, free) && |done| == |qs|
    ensures forall k :: 0 <= k < |qs| ==>
              && Answers(Replay(m, qs, done, k), qs[k], done[k], replies[k], g)
              && Spends(qs[k], replies[k], g, free[k], free[k + 1])
    ensures free[0] >= NeedAll(qs, g, |qs|) ==> forall k :: 0 <= k < |qs| ==> replies[k] != Wrote(Err(EIO))
  {
    hide Answers, Need;
    if free[0] >= NeedAll(qs, g, |qs|) {
      forall k | 0 <= k < |qs| ensures replies[k] != Wrote(Err(EIO)) {
        Enough(m, g, qs, replies, done, free, k);
        NeedMore(qs, g, k + 1, |qs|);
        assert Spends(qs[k], replies[k], g, free[k], free[k + 1]);
        assert NeedAll(qs, g, k + 1) == NeedAll(qs, g, k) + Need(qs[k], g);
      }
    }
  }

  /** What is left of the free blocks is what has not been needed. */
  lemma {:induction false} Enough(m: Image, g: Geometry, qs: seq<Request>, replies: seq<Reply>, done: seq<nat>,
                                  free: seq<nat>, k: nat)
    requires g.blockSize > 0 && Agree(m, g, qs, replies, done, free) && k <= |done|
    ensures free[k] + NeedAll(qs, g, k) >= free[0]
  {
    hide Answers, Need;
    if k > 0 {
      Enough(m, g, qs, replies, done, free, k - 1);
    }
  }

  lemma {:induction false} NeedMore(qs: seq<Request>, g: Geometry, j: nat, k: nat)
    requires g.blockSize > 0 && j <= k <= |qs|
    ensures NeedAll(qs, g, j) <= NeedAll(qs, g, k)
  {
    hide Need;
    if j < k {
      NeedMore(qs, g, j, k - 1);
    }
  }

  /** Any run of requests acts on a volume as it does on the picture, byte for byte, and leaves the volume sound. No
      write of a run is cut short that starts with enough free blocks for all of its requests. */
  method Run(v: Volume, qs: seq<Request>) returns (replies: seq<Reply>, ghost done: seq<nat>, ghost free: seq<nat>)
    requires v.Valid() && Sound(v)
    requires forall q :: q in qs && q.Write? ==> |q.data| <= MAX_FILE_POS
    modifies v, v.groupDescs, v.dev.Bufs()
    ensures v.Valid() && Sound(v) && v.held == old(v.held)
    ensures |replies| == |done| == |qs| && |free| == |qs| + 1
    ensures free[0] == old(v.freeBlocks) && free[|qs|] == v.freeBlocks
    ensures ImageOf(v) == Replay(old(ImageOf(v)), qs, done, |qs|)
    ensures forall k :: 0 <= k < |qs| ==>
              && Answers(Replay(old(ImageOf(v)), qs, done, k), qs[k], done[k], replies[k], v.geo)
              && Spends(qs[k], replies[k], v.geo, free[k], free[k + 1])
    ensures old(v.freeBlocks) >= NeedAll(qs, v.geo, |qs|) ==>
              forall k :: 0 <= k < |qs| ==> replies[k] != Wrote(Err(EIO))
  {
    hide Volume.Booked, Volume.Mapped, Sound, Answers, After, ImageOf, Spends, Agree, Replay, NeedAll;
    replies, done, free := [], [], [v.freeBlocks];
    ghost var m := ImageOf(v);
    NothingYet(m, v.geo, qs, v.freeBlocks);
    for i := 0 to |qs|
      invariant v.Valid() && Sound(v) && v.held == old(v.held)
      invariant |replies| == |done| == i && |free| == i + 1
      invariant free[0] == old(v.freeBlocks) && free[i] == v.freeBlocks
      invariant ImageOf(v) == Replay(m, qs, done, i) && Agree(m, v.geo, qs, replies, done, free)
    {
      var a;
      ghost var n;
      a, n := Serve(v, qs[i]);
      OneMore(m, v.geo, qs, replies, done, free, a, n, v.freeBlocks);
      replies, done, free := replies + [a], done + [n], free + [v.freeBlocks];
    }
    AllAgree(m, v.geo, qs, replies, done, free);
  }

  lemma {:induction false} ReplayPrefix(m: Image, qs: seq<Request>, done: seq<nat>, done2: seq<nat>, k: nat)
    requires k <= |qs| && k <= |done| && done <= done2
    ensures Replay(m, qs, done2, k) == Replay(m, qs, done, k)
  {
    if k > 0 {
      ReplayPrefix(m, qs, done, done2, k - 1);
    }
  }

  // ---- runs of block map operations ----

  /** new_block at a position; the block at a position removed from the map and freed; the block at a position. */
  datatype MapOp = New(ino: nat, position: nat) | Remove(ino: nat, position: nat) | Lookup(ino: nat, position: nat)

  type Maps = map<nat, map<nat, Word>>

  ghost function MapsOf(v: Volume): (m: Maps)
    requires v.Wired()
    reads v, v.dev.Bufs()
    ensures m.Keys == v.inodes.Keys && forall j :: j in m ==> m[j] == v.Map(j)
  {
    map j | j in v.inodes :: v.Map(j)
  }

  function Mapped(m: Maps, i: nat, x: nat): Word {
    if i in m && x in m[i] then m[i][x] else 0
  }

  /** What an operation whose reply is block does to the maps. */
  function MapAfter(m: Maps, g: Geometry, q: MapOp, block: Word): (m2: Maps)
    requires g.blockSize > 0
    ensures m2.Keys == m.Keys
  {
    if q.ino !in m then m else
    var x := BlockIndex(g, q.position);
    var old_: map<nat, Word> := m[q.ino];
    match q
    case New(i, _) =>
      var new_: map<nat, Word> := old_[x := block];
      if block == 0 then m else m[i := new_]
    case Remove(i, _) => m[i := old_ - {x}]
    case Lookup(_, _) => m
  }

  function MapReplay(m: Maps, g: Geometry, qs: seq<MapOp>, blocks: seq<Word>, k: nat): (m2: Maps)
    requires g.blockSize > 0 && k <= |qs| && k <= |blocks|
    ensures m2.Keys == m.Keys
  {
    if k == 0 then m else MapAfter(MapReplay(m, g, qs, blocks, k - 1), g, qs[k - 1], blocks[k - 1])
  }

  /** The maps have that block nowhere. */
  ghost predicate Nowhere(m: Maps, block: Word) {
    forall i, x :: i in m && x in m[i] ==> m[i][x] != block
  }

  /** What the maps say a reply may be, with free blocks before the operation and free2 after. A mapped position keeps
      its block; a hole gets a block that is in no map, for at most four free blocks, and is refused one only when
      there are fewer than four. */
  ghost predicate Fair(m: Maps, g: Geometry, q: MapOp, block: Word, free: nat, free2: nat)
    requires g.blockSize > 0
  {
    var was := Mapped(m, q.ino, BlockIndex(g, q.position));
    match q
    case New(_, _) =>
      if was != 0 then block == was && free2 == free
      else if block == 0 then free < 4 && free2 == Least(free, 1)
      else Nowhere(m, block) && free2 < free <= free2 + 4
    case Remove(_, _) => block == was && free2 >= free + if was != 0 then 1 else 0
    case Lookup(_, _) => block == was && free2 == free
  }

  /** i_blocks of every inode is right. */
  ghost predicate Accounts(v: Volume)
    requires v.Wired()
    reads v, v.dev.Bufs()
  {
    forall j :: j in v.inodes ==> v.AccountedFor(j)
  }

  datatype Change = Change(v: Volume, ino: nat)

  /** The other inodes' maps and accounts are as they were, and that of one inode is right. */
  twostate lemma OneMapChanged(c: Change)
    requires c.v.Wired() && old(c.ino in c.v.inodes) && c.v.OthersKept(c.ino)
    requires old(Accounts(c.v)) && (c.ino in c.v.inodes ==> c.v.AccountedFor(c.ino))
    ensures c.ino in c.v.inodes && Accounts(c.v)
    ensures MapsOf(c.v) == old(MapsOf(c.v))[c.ino := c.v.Map(c.ino)]
  {
    hide Volume.Map, Volume.AccountedFor;
    assert forall j :: j in c.v.inodes && j != c.ino ==> c.v.Standing()[j] == old(c.v.Standing())[j];
  }

  /** No map has a block that is not in use. */
  lemma NowhereIfUnused(v: Volume, block: Word)
    requires v.Valid() && block !in v.Used()
    ensures Nowhere(MapsOf(v), block)
  {
    hide Volume.Booked, Volume.Mapped, Volume.Map;
    forall i, x | i in v.inodes && x in v.Map(i) ensures v.Map(i)[x] != block {
      InUse(v, i, x);
    }
  }

  lemma InUse(v: Volume, i: nat, x: nat)
    requires v.Valid() && i in v.inodes && x in v.Map(i)
    ensures v.Map(i)[x] as nat in v.Used() && v.Map(i)[x] != 0
  {
    hide Volume.Booked, Volume.Mapped;
    v.LeafInData(i, LeafPath(v.geo, x));
  }

  /** new_block at a position. */
  method ServeNew(v: Volume, ino: nat, position: nat) returns (block: Word)
    requires v.Valid() && ino in v.inodes && Accounts(v)
    modifies v, v.groupDescs, v.dev.Bufs()
    ensures v.Valid() && Accounts(v) && v.held == old(v.held) && v.inodes.Keys == old(v.inodes.Keys)
    ensures MapsOf(v) == MapAfter(old(MapsOf(v)), v.geo, New(ino, position), block)
    ensures Fair(old(MapsOf(v)), v.geo, New(ino, position), block, old(v.freeBlocks), v.freeBlocks)
  {
    hide Volume.Booked, Volume.Mapped, Volume.Map, Volume.AccountedFor, Volume.NoRoom, BlockIndex, Nowhere;
    ghost var m, x := MapsOf(v), BlockIndex(v.geo, position);
    assert m[ino := m[ino]] == m;
    if x in v.Map(ino) {
      InUse(v, ino, x);
    }
    v.CostAtMost(ino, position);
    if v.NoRoom(ino, position) {
      v.FewIfNoRoom(ino, position);
    }
    NowhereUnless(v);
    block := v.NewBlock(ino, position);
    OneMapChanged(Change(v, ino));
  }

  lemma NowhereUnless(v: Volume)
    requires v.Valid()
    ensures forall block: Word :: block !in v.Used() ==> Nowhere(MapsOf(v), block)
  {
    hide Volume.Booked, Volume.Mapped, Volume.Map, Nowhere;
    forall block: Word | block !in v.Used() ensures Nowhere(MapsOf(v), block) {
      NowhereIfUnused(v, block);
    }
  }

  /** One operation on a volume whose accounts are right. */
  method MapServe(v: Volume, q: MapOp) returns (block: Word)
    requires v.Valid() && q.ino in v.inodes && Accounts(v)
    modifies v, v.groupDescs, v.dev.Bufs()
    ensures v.Valid() && Accounts(v) && v.held == old(v.held) && v.inodes.Keys == old(v.inodes.Keys)
    ensures MapsOf(v) == MapAfter(old(MapsOf(v)), v.geo, q, block)
    ensures Fair(old(MapsOf(v)), v.geo, q, block, old(v.freeBlocks), v.freeBlocks)
  {
    hide Volume.Booked, Volume.Mapped, Volume.Map, Volume.AccountedFor, BlockIndex, Nowhere;
    ghost var m, x := MapsOf(v), BlockIndex(v.geo, q.position);
    assert m[q.ino := m[q.ino]] == m && (x !in m[q.ino] ==> m[q.ino] - {x} == m[q.ino]);
    if q.New? {
      block := ServeNew(v, q.ino, q.position);
    } else {
      v.MapLookup(q.ino, q.position);
      assert forall a :: a in v.dev.Bufs() ==> allocated(a);
      block := v.ReadMapEntry(q.ino, q.position);
      assert MapsOf(v) == m;
      if q.Remove? && block != 0 {
        RemoveBlock(v, q.ino, q.position, block);
      }
    }
  }

  /** delete_map_entry at a mapped position: the block that was there is the caller's. */
  method DeleteMapped(v: Volume, ino: nat, position: nat, ghost block: Word)
    requires v.Valid() && ino in v.inodes && Accounts(v)
    requires BlockIndex(v.geo, position) in v.Map(ino) && v.Map(ino)[BlockIndex(v.geo, position)] == block
    modifies v, v.groupDescs, v.dev.Bufs()
    ensures v.Valid() && Accounts(v) && v.inodes.Keys == old(v.inodes.Keys)
    ensures block !in old(v.held) && v.held == old(v.held) + {block as nat} && v.freeBlocks >= old(v.freeBlocks)
    ensures MapsOf(v) == old(MapsOf(v))[ino := old(v.Map(ino)) - {BlockIndex(v.geo, position)}]
  {
    hide Volume.Booked, Volume.Mapped, Volume.Map, Volume.AccountedFor, Volume.NoRoom, BlockIndex, Volume.PathAt,
      Pruned, SameData, MapsOf;
    v.MapLookup(ino, position);
    v.InTree(ino, v.PathAt(position));
    v.InUseInStore();
    v.DeleteMapEntry(ino, position);
    OneMapChanged(Change(v, ino));
  }

  twostate lemma MapsSame(v: Volume)
    requires v.Wired() && v.inodes.Keys == old(v.inodes.Keys) && v.Standing() == old(v.Standing()) && old(Accounts(v))
    ensures Accounts(v) && MapsOf(v) == old(MapsOf(v))
  {
    hide Volume.Map, Volume.AccountedFor;
    assert forall j :: j in v.inodes ==> v.Standing()[j] == old(v.Standing())[j];
  }

  /** delete_map_entry at a mapped position, and free_block on the block that was there. */
  method RemoveBlock(v: Volume, ino: nat, position: nat, block: Word)
    requires v.Valid() && ino in v.inodes && Accounts(v)
    requires BlockIndex(v.geo, position) in v.Map(ino) && v.Map(ino)[BlockIndex(v.geo, position)] == block
    modifies v, v.groupDescs, v.dev.Bufs()
    ensures v.Valid() && Accounts(v) && v.held == old(v.held) && v.inodes.Keys == old(v.inodes.Keys)
    ensures v.freeBlocks > old(v.freeBlocks)
    ensures MapsOf(v) == old(MapsOf(v))[ino := old(v.Map(ino)) - {BlockIndex(v.geo, position)}]
  {
    hide Volume.Booked, Volume.Mapped, Volume.Map, Volume.AccountedFor, Volume.NoRoom, BlockIndex, Volume.Standing,
      Accounts, MapsOf, Volume.T, Volume.NoEmpty, ValidGeometry, Volume.Data;
    DeleteMapped(v, ino, position, block);
    label Deleted:
    v.FreeBlock(block);
    v.StillMapped@Deleted();
    MapsSame@Deleted(v);
  }

  /** The replies of the first operations, and the free blocks, as they should be. */
  ghost predicate Faithful(m: Maps, g: Geometry, qs: seq<MapOp>, blocks: seq<Word>, free: seq<nat>)
    requires g.blockSize > 0
  {
    && |blocks| == |free| - 1 <= |qs|
    && forall i :: 0 <= i < |blocks| ==> Fair(MapReplay(m, g, qs, blocks, i), g, qs[i], blocks[i], free[i], free[i + 1])
  }

  lemma FaithfulStart(m: Maps, g: Geometry, qs: seq<MapOp>, free: nat)
    requires g.blockSize > 0
    ensures MapReplay(m, g, qs, [], 0) == m && Faithful(m, g, qs, [], [free])
  {
  }

  lemma FaithfulStep(m: Maps, g: Geometry, qs: seq<MapOp>, blocks: seq<Word>, free: seq<nat>, block: Word, f: nat)
    requires g.blockSize > 0 && Faithful(m, g, qs, blocks, free) && |blocks| < |qs|
    requires Fair(MapReplay(m, g, qs, blocks, |blocks|), g, qs[|blocks|], block, free[|blocks|], f)
    ensures Faithful(m, g, qs, blocks + [block], free + [f])
    ensures MapReplay(m, g, qs, blocks + [block], |blocks| + 1)
            == MapAfter(MapReplay(m, g, qs, blocks, |blocks|), g, qs[|blocks|], block)
  {
    hide MapAfter, Fair;
    forall k | 0 <= k <= |blocks|
      ensures MapReplay(m, g, qs, blocks + [block], k) == MapReplay(m, g, qs, blocks, k)
    {
      MapReplayPrefix(m, g, qs, blocks, blocks + [block], k);
    }
  }

  /** How many of the first k operations ask for a block. */
  function News(qs: seq<MapOp>, k: nat): nat
    requires k <= |qs|
  {
    if k == 0 then 0 else News(qs, k - 1) + if qs[k - 1].New? then 1 else 0
  }

  /** What is left of the free blocks: at most four went for each operation that asked for one. */
  lemma {:induction false} FourEach(m: Maps, g: Geometry, qs: seq<MapOp>, blocks: seq<Word>, free: seq<nat>, k: nat)
    requires g.blockSize > 0 && Faithful(m, g, qs, blocks, free) && k <= |blocks|
    requires forall j :: 0 <= j < k && qs[j].New? ==> blocks[j] != 0
    ensures free[k] + 4 * News(qs, k) >= free[0]
  {
    hide MapReplay, Nowhere, Mapped, BlockIndex;
    if k > 0 {
      FourEach(m, g, qs, blocks, free, k - 1);
    }
  }

  lemma {:induction false} NewsMore(qs: seq<MapOp>, j: nat, k: nat)
    requires j <= k <= |qs|
    ensures News(qs, j) <= News(qs, k)
  {
    if j < k {
      NewsMore(qs, j, k - 1);
    }
  }

  /** With four free blocks for each operation that asks for one, none is refused. */
  lemma {:induction false} NoneRefused(m: Maps, g: Geometry, qs: seq<MapOp>, blocks: seq<Word>, free: seq<nat>, k: nat)
    requires g.blockSize > 0 && Faithful(m, g, qs, blocks, free) && k <= |blocks| == |qs|
    requires free[0] >= 4 * News(qs, |qs|)
    ensures forall j :: 0 <= j < k && qs[j].New? ==> blocks[j] != 0
  {
    hide MapReplay, Nowhere, Mapped, BlockIndex;
    if k > 0 {
      NoneRefused(m, g, qs, blocks, free, k - 1);
      FourEach(m, g, qs, blocks, free, k - 1);
      NewsMore(qs, k, |qs|);
      assert Fair(MapReplay(m, g, qs, blocks, k - 1), g, qs[k - 1], blocks[k - 1], free[k - 1], free[k]);
    }
  }

  /** Any run of operations acts on the inodes' block maps as it does on finite maps, and keeps every account right. A
      run that starts with four free blocks for each block asked for is refused none. */
  method MapRun(v: Volume, qs: seq<MapOp>) returns (blocks: seq<Word>, ghost free: seq<nat>)
    requires v.Valid() && Accounts(v) && forall k :: 0 <= k < |qs| ==> qs[k].ino in v.inodes
    modifies v, v.groupDescs, v.dev.Bufs()
    ensures v.Valid() && Accounts(v) && v.held == old(v.held)
    ensures |blocks| == |qs| && MapsOf(v) == MapReplay(old(MapsOf(v)), v.geo, qs, blocks, |qs|)
    ensures Faithful(old(MapsOf(v)), v.geo, qs, blocks, free)
    ensures free[0] == old(v.freeBlocks) && free[|qs|] == v.freeBlocks
    ensures old(v.freeBlocks) >= 4 * News(qs, |qs|) ==> forall k :: 0 <= k < |qs| && qs[k].New? ==> blocks[k] != 0
  {
    hide Volume.Booked, Volume.Mapped, Accounts, MapAfter, MapsOf, BlockIndex, MapReplay, Fair, Mapped;
    blocks, free := [], [v.freeBlocks];
    ghost var m := MapsOf(v);
    FaithfulStart(m, v.geo, qs, v.freeBlocks);
    for i := 0 to |qs|
      invariant v.Valid() && Accounts(v) && v.held == old(v.held) && v.inodes.Keys == old(v.inodes.Keys)
      invariant |blocks| == i && |free| == i + 1 && free[0] == old(v.freeBlocks) && free[i] == v.freeBlocks
      invariant MapsOf(v) == MapReplay(m, v.geo, qs, blocks, i) && Faithful(m, v.geo, qs, blocks, free)
    {
      var block := MapServe(v, qs[i]);
      FaithfulStep(m, v.geo, qs, blocks, free, block, v.freeBlocks);
      blocks, free := blocks + [block], free + [v.freeBlocks];
    }
    if old(v.freeBlocks) >= 4 * News(qs, |qs|) {
      NoneRefused(m, v.geo, qs, blocks, free, |qs|);
    }
  }

  lemma {:induction false} MapReplayPrefix(m: Maps, g: Geometry, qs: seq<MapOp>, blocks: seq<Word>, blocks2: seq<Word>,
                                           k: nat)
    requires g.blockSize > 0 && k <= |qs| && k <= |blocks| && blocks <= blocks2
    ensures MapReplay(m, g, qs, blocks2, k) == MapReplay(m, g, qs, blocks, k)
  {
    if k > 0 {
      MapReplayPrefix(m, g, qs, blocks, blocks2, k - 1);
    }
  }
}
