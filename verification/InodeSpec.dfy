/** The states of the inode cache in extfs/inode_cache.c, the inode table a user of it sees, and the steps between. */
module InodeSpec {
  import opened CacheSpec

  const NR_INODES: nat := 64
  const INODE_HASH_SIZE: nat := 128
  const NO_ENTRY: nat := 0
  const MAX_INO: nat := 0x7FFF_FFFF

  /** An inode as it is on disk: its link count, its mode, and its other fields but for the time stamps. */
  datatype Odi = Odi(linksCount: nat, mode: nat, body: seq<nat>)

  datatype Slot = Slot(ino: nat, count: nat, dirty: bool, odi: Odi)

  /** Slots are named by their index. The map from an inode number to its slot is not in the source. */
  datatype Icache = Icache(slots: seq<Slot>, hash: seq<seq<nat>>, unused: seq<nat>, table: seq<Odi>,
                           cached: map<nat, nat>)

  /** The unused list holds exactly the slots nobody refers to, and those are clean. */
  ghost predicate UnusedOk(s: Icache) {
    && NoDup(s.unused)
    && (forall i: nat :: i in s.unused <==> i < |s.slots| && s.slots[i].count == 0)
    && (forall i :: 0 <= i < |s.slots| ==>
          (s.slots[i].count == 0 ==> !s.slots[i].dirty) && (s.slots[i].count > 0 ==> s.slots[i].ino != NO_ENTRY))
  }

  ghost predicate HoldsChain(slots: seq<Slot>, chain: seq<nat>, h: int) {
    forall i: nat :: i in chain <==> i < |slots| && slots[i].ino != NO_ENTRY && slots[i].ino % INODE_HASH_SIZE == h
  }

  /** A slot with an inode is on the inode's chain and on no other, and no inode is in two slots. */
  ghost predicate HashOk(s: Icache) {
    && |s.hash| == INODE_HASH_SIZE
    && (forall h :: 0 <= h < |s.hash| ==> NoDup(s.hash[h]) && HoldsChain(s.slots, s.hash[h], h))
    && (forall n :: n in s.cached ==>
          1 <= n <= |s.table| && s.cached[n] < |s.slots| && s.slots[s.cached[n]].ino == n)
    && (forall i :: 0 <= i < |s.slots| && s.slots[i].ino != NO_ENTRY ==>
          s.slots[i].ino in s.cached && s.cached[s.slots[i].ino] == i)
  }

  /** A clean slot holds what the disk does. */
  ghost predicate CleanOk(s: Icache) {
    forall i :: 0 <= i < |s.slots| && !s.slots[i].dirty && 1 <= s.slots[i].ino <= |s.table| ==>
      s.slots[i].odi == s.table[s.slots[i].ino - 1]
  }

  ghost predicate CacheOk(s: Icache) {
    |s.slots| == NR_INODES && |s.table| <= MAX_INO && UnusedOk(s) && HashOk(s) && CleanOk(s)
  }

  ghost function Seen(s: Icache, n: nat): Odi
    requires 1 <= n <= |s.table|
  {
    if n in s.cached && s.cached[n] < |s.slots| then s.slots[s.cached[n]].odi else s.table[n - 1]
  }

  /** The inode table as the cache shows it; inode n is at n - 1. */
  ghost function Inodes(s: Icache): (t: seq<Odi>)
    ensures |t| == |s.table|
  {
    seq(|s.table|, k requires 0 <= k < |s.table| => Seen(s, k + 1))
  }

  /** How many references there are to an inode. */
  function Refs(s: Icache, n: nat): nat {
    if n in s.cached && s.cached[n] < |s.slots| then s.slots[s.cached[n]].count else 0
  }

  ghost predicate OthersRefs(s: Icache, s2: Icache, n: nat) {
    forall m: nat :: m != n ==> Refs(s2, m) == Refs(s, m)
  }

  lemma FoundSlot(s: Icache, n: nat)
    requires CacheOk(s) && n in s.cached
    ensures 1 <= n <= |s.table| && s.cached[n] < |s.slots| && s.slots[s.cached[n]].ino == n
    ensures s.slots[s.cached[n]].odi == Inodes(s)[n - 1] && Refs(s, n) == s.slots[s.cached[n]].count
    ensures s.cached[n] in s.unused <==> s.slots[s.cached[n]].count == 0
  {
  }

  /** Another reference to a slot in use. */
  function Taken(s: Icache, i: nat): Icache
    requires i < |s.slots|
  {
    s.(slots := s.slots[i := s.slots[i].(count := s.slots[i].count + 1)],
       unused := if s.slots[i].count == 0 then Without(s.unused, i) else s.unused)
  }

  lemma TakenOk(s: Icache, n: nat)
    requires CacheOk(s) && n in s.cached && s.cached[n] < |s.slots|
    ensures var s2 := Taken(s, s.cached[n]);
            CacheOk(s2) && Inodes(s2) == Inodes(s) && Refs(s2, n) == Refs(s, n) + 1 && OthersRefs(s, s2, n)
  {
    hide NoDup;
    var i, s2 := s.cached[n], Taken(s, s.cached[n]);
    WithoutHas(s.unused, i);
    assert NoDup(s2.unused);
    assert UnusedOk(s2);
  }

  /** The first unused slot gives up its inode. */
  function Dropped(s: Icache, i: nat): Icache
    requires i < |s.slots| && |s.hash| == INODE_HASH_SIZE
  {
    var n := s.slots[i].ino;
    s.(slots := s.slots[i := s.slots[i].(ino := NO_ENTRY)],
       hash := if n == NO_ENTRY then s.hash
               else s.hash[n % INODE_HASH_SIZE := Without(s.hash[n % INODE_HASH_SIZE], i)],
       cached := s.cached - {n})
  }

  lemma DroppedHash(s: Icache, i: nat)
    requires HashOk(s) && i < |s.slots|
    ensures HashOk(Dropped(s, i))
  {
    var n := s.slots[i].ino;
    if n == NO_ENTRY {
      assert s.cached - {n} == s.cached;
      assert Dropped(s, i) == s;
    } else {
      UnhashedOk(s, i, Dropped(s, i));
    }
  }

  /** A slot taken off its chain, without an inode from then on. */
  lemma UnhashedOk(s: Icache, i: nat, s2: Icache)
    requires HashOk(s) && i < |s.slots| && s.slots[i].ino != NO_ENTRY && s2.table == s.table
    requires |s2.slots| == |s.slots| && s2.slots[i].ino == NO_ENTRY
    requires forall j :: 0 <= j < |s.slots| && j != i ==> s2.slots[j].ino == s.slots[j].ino
    requires var h := s.slots[i].ino % INODE_HASH_SIZE; s2.hash == s.hash[h := Without(s.hash[h], i)]
    requires s2.cached == s.cached - {s.slots[i].ino}
    ensures HashOk(s2)
  {
    var h0 := s.slots[i].ino % INODE_HASH_SIZE;
    WithoutHas(s.hash[h0], i);
    forall h | 0 <= h < |s2.hash| ensures NoDup(s2.hash[h]) && HoldsChain(s2.slots, s2.hash[h], h) {
      assert HoldsChain(s.slots, s.hash[h], h);
    }
    hide NoDup, HoldsChain;
  }

  lemma DroppedUnused(s: Icache, i: nat)
    requires UnusedOk(s) && i < |s.slots| && |s.hash| == INODE_HASH_SIZE && s.slots[i].count == 0
    ensures UnusedOk(Dropped(s, i))
  {
    hide NoDup;
    assert NoDup(Dropped(s, i).unused);
  }

  lemma DroppedSeen(s: Icache, i: nat)
    requires HashOk(s) && CleanOk(s) && i < |s.slots| && s.slots[i].count == 0 && !s.slots[i].dirty
    ensures CleanOk(Dropped(s, i)) && Inodes(Dropped(s, i)) == Inodes(s)
    ensures forall m: nat :: Refs(Dropped(s, i), m) == Refs(s, m)
  {
    hide NoDup, HoldsChain;
  }

  lemma DroppedOk(s: Icache, i: nat)
    requires CacheOk(s) && i < |s.slots| && s.slots[i].count == 0
    ensures CacheOk(Dropped(s, i)) && Inodes(Dropped(s, i)) == Inodes(s)
    ensures forall m: nat :: Refs(Dropped(s, i), m) == Refs(s, m)
  {
    assert !s.slots[i].dirty;
    hide UnusedOk, HashOk, CleanOk, Inodes, Refs;
    HashedLists(s);
    DroppedHash(s, i);
    DroppedUnused(s, i);
    DroppedSeen(s, i);
  }

  /** A slot without an inode, the first on the unused list, gets inode n as it is on disk. */
  function Loaded(s: Icache, n: nat): Icache
    requires s.unused != [] && s.unused[0] < |s.slots| && |s.hash| == INODE_HASH_SIZE && 1 <= n <= |s.table|
  {
    var i, h := s.unused[0], n % INODE_HASH_SIZE;
    s.(slots := s.slots[i := s.slots[i].(ino := n, count := 1, odi := s.table[n - 1])],
       hash := s.hash[h := [i] + s.hash[h]],
       unused := s.unused[1..],
       cached := s.cached[n := i])
  }

  lemma HashedLists(s: Icache)
    requires HashOk(s)
    ensures |s.hash| == INODE_HASH_SIZE
  {
  }

  lemma LoadedHash(s: Icache, n: nat)
    requires HashOk(s) && 1 <= n <= |s.table| && n !in s.cached
    requires s.unused != [] && s.unused[0] < |s.slots| && s.slots[s.unused[0]].ino == NO_ENTRY
    ensures HashOk(Loaded(s, n))
  {
    NoDupPush(s.unused[0], s.hash[n % INODE_HASH_SIZE]);
  }

  lemma LoadedUnused(s: Icache, n: nat)
    requires UnusedOk(s) && |s.hash| == INODE_HASH_SIZE && 1 <= n <= |s.table|
    requires s.unused != [] && s.unused[0] < |s.slots|
    ensures UnusedOk(Loaded(s, n)) && s.slots[s.unused[0]].count == 0 && !s.slots[s.unused[0]].dirty
  {
    hide NoDup;
    NoDupTail(s.unused);
    assert s.unused[0] in s.unused;
    assert NoDup(Loaded(s, n).unused);
  }

  lemma LoadedSeen(s: Icache, n: nat)
    requires HashOk(s) && CleanOk(s) && 1 <= n <= |s.table| && n !in s.cached
    requires s.unused != [] && s.unused[0] < |s.slots| && s.slots[s.unused[0]].ino == NO_ENTRY
    requires s.slots[s.unused[0]].count == 0 && !s.slots[s.unused[0]].dirty
    ensures var s2 := Loaded(s, n);
            CleanOk(s2) && Inodes(s2) == Inodes(s) && Refs(s2, n) == 1 && Refs(s, n) == 0 && OthersRefs(s, s2, n)
  {
    hide NoDup, HoldsChain;
  }

  lemma LoadedOk(s: Icache, n: nat)
    requires CacheOk(s) && 1 <= n <= |s.table| && n !in s.cached
    requires s.unused != [] && s.unused[0] < |s.slots| && s.slots[s.unused[0]].ino == NO_ENTRY
    ensures var s2 := Loaded(s, n);
            CacheOk(s2) && Inodes(s2) == Inodes(s) && Refs(s2, n) == 1 && Refs(s, n) == 0 && OthersRefs(s, s2, n)
  {
    hide UnusedOk, HashOk, CleanOk, Inodes, Refs, OthersRefs;
    HashedLists(s);
    LoadedHash(s, n);
    LoadedUnused(s, n);
    LoadedSeen(s, n);
  }

  lemma FirstUnused(s: Icache)
    requires UnusedOk(s) && s.unused != []
    ensures s.unused[0] < |s.slots| && s.slots[s.unused[0]].count == 0
  {
    var l, i := s.unused, s.unused[0];
    assert i in l;
  }

  lemma NoneUnused(s: Icache)
    requires CacheOk(s)
    ensures s.unused == [] <==> forall i :: 0 <= i < |s.slots| ==> s.slots[i].count > 0
  {
    if s.unused == [] {
      forall i: nat | i < |s.slots| ensures s.slots[i].count > 0 {
        assert i !in s.unused;
      }
    } else {
      FirstUnused(s);
    }
  }

  /** A caller that holds the inode has changed it and marked it dirty. */
  function Edited(s: Icache, i: nat, odi: Odi): Icache
    requires i < |s.slots|
  {
    s.(slots := s.slots[i := s.slots[i].(odi := odi, dirty := true)])
  }

  lemma EditedOk(s: Icache, n: nat, odi: Odi)
    requires CacheOk(s) && n in s.cached && s.cached[n] < |s.slots| && s.slots[s.cached[n]].count > 0
    ensures var s2 := Edited(s, s.cached[n], odi);
            1 <= n <= |s.table| && CacheOk(s2) && Inodes(s2) == Inodes(s)[n - 1 := odi]
            && forall m: nat :: Refs(s2, m) == Refs(s, m)
  {
    hide NoDup;
    var s2 := Edited(s, s.cached[n], odi);
    assert NoDup(s2.unused);
    assert UnusedOk(s2);
  }

  /** write_inode. */
  function Stored(s: Icache, i: nat): Icache
    requires i < |s.slots| && 1 <= s.slots[i].ino <= |s.table|
  {
    s.(slots := s.slots[i := s.slots[i].(dirty := false)], table := s.table[s.slots[i].ino - 1 := s.slots[i].odi])
  }

  lemma StoredOk(s: Icache, n: nat)
    requires CacheOk(s) && n in s.cached && s.cached[n] < |s.slots|
    ensures 1 <= s.slots[s.cached[n]].ino <= |s.table|
    ensures var s2 := Stored(s, s.cached[n]);
            CacheOk(s2) && Inodes(s2) == Inodes(s) && forall m: nat :: Refs(s2, m) == Refs(s, m)
  {
    hide NoDup;
    var s2 := Stored(s, s.cached[n]);
    assert NoDup(s2.unused);
    assert UnusedOk(s2);
  }

  /** A reference is given back; the slot, clean by then, joins the unused list with the last of them. */
  function Released(s: Icache, i: nat): Icache
    requires i < |s.slots| && s.slots[i].count > 0
  {
    s.(slots := s.slots[i := s.slots[i].(count := s.slots[i].count - 1)],
       unused := if s.slots[i].count == 1 then s.unused + [i] else s.unused)
  }

  lemma ReleasedOk(s: Icache, n: nat)
    requires CacheOk(s) && n in s.cached && s.cached[n] < |s.slots|
    requires s.slots[s.cached[n]].count > 0 && !s.slots[s.cached[n]].dirty
    ensures var s2 := Released(s, s.cached[n]);
            CacheOk(s2) && Inodes(s2) == Inodes(s) && Refs(s2, n) == Refs(s, n) - 1 && OthersRefs(s, s2, n)
  {
    hide NoDup;
    var i, s2 := s.cached[n], Released(s, s.cached[n]);
    assert i !in s.unused;
    NoDupPush(i, s.unused);
    assert NoDup(s2.unused);
    assert UnusedOk(s2);
  }

  /** The last reference to an inode without links is given back: its slot, clean by then, is emptied and is the first
      to be used again. */
  function Discarded(s: Icache, i: nat): Icache
    requires i < |s.slots| && |s.hash| == INODE_HASH_SIZE
  {
    var n := s.slots[i].ino;
    s.(slots := s.slots[i := s.slots[i].(count := 0, ino := NO_ENTRY)],
       hash := s.hash[n % INODE_HASH_SIZE := Without(s.hash[n % INODE_HASH_SIZE], i)],
       unused := [i] + s.unused,
       cached := s.cached - {n})
  }

  lemma DiscardedHash(s: Icache, i: nat)
    requires HashOk(s) && i < |s.slots| && s.slots[i].ino != NO_ENTRY
    ensures HashOk(Discarded(s, i))
  {
    UnhashedOk(s, i, Discarded(s, i));
  }

  lemma DiscardedUnused(s: Icache, i: nat)
    requires UnusedOk(s) && i < |s.slots| && |s.hash| == INODE_HASH_SIZE && s.slots[i].count > 0 && !s.slots[i].dirty
    ensures UnusedOk(Discarded(s, i))
  {
    hide NoDup;
    assert i !in s.unused;
    NoDupPush(i, s.unused);
    assert NoDup(Discarded(s, i).unused);
  }

  lemma DiscardedSeen(s: Icache, n: nat)
    requires HashOk(s) && CleanOk(s) && n in s.cached && s.cached[n] < |s.slots|
    requires s.slots[s.cached[n]].count == 1 && !s.slots[s.cached[n]].dirty
    ensures var s2 := Discarded(s, s.cached[n]);
            CleanOk(s2) && Inodes(s2) == Inodes(s) && Refs(s2, n) == 0 && OthersRefs(s, s2, n)
  {
    hide NoDup, HoldsChain;
  }

  lemma DiscardedOk(s: Icache, n: nat)
    requires CacheOk(s) && n in s.cached && s.cached[n] < |s.slots|
    requires s.slots[s.cached[n]].count == 1 && !s.slots[s.cached[n]].dirty
    ensures var s2 := Discarded(s, s.cached[n]);
            CacheOk(s2) && Inodes(s2) == Inodes(s) && Refs(s2, n) == 0 && OthersRefs(s, s2, n)
  {
    FoundSlot(s, n);
    hide UnusedOk, HashOk, CleanOk, Inodes, Refs, OthersRefs;
    HashedLists(s);
    DiscardedHash(s, s.cached[n]);
    DiscardedUnused(s, s.cached[n]);
    DiscardedSeen(s, n);
  }
}
