/** extfs/inode_cache.c: the cache of inodes, referenced by open files, over the inode table. */
module InodeCache {
  import opened CacheSpec
  import opened InodeSpec

  class Cache {
    const slots: array<Slot>
    const hashInodes: array<seq<nat>>
    var unusedList: seq<nat>
    /** The inode table on disk; inode n is at n - 1. */
    var table: seq<Odi>

    /** The slot that holds an inode. */
    ghost var cached: map<nat, nat>

    ghost function S(): Icache
      reads this, slots, hashInodes
    {
      Icache(slots[..], hashInodes[..], unusedList, table, cached)
    }

    ghost predicate Valid()
      reads this, slots, hashInodes
    {
      CacheOk(S())
    }

    /** The inode table as a user of the cache sees it. */
    ghost function View(): (t: seq<Odi>)
      reads this, slots, hashInodes
      ensures |t| == |table|
    {
      Inodes(S())
    }

    ghost function RefsTo(n: nat): nat
      reads this, slots, hashInodes
    {
      Refs(S(), n)
    }

    /** References to inodes other than n are as they were. */
    twostate predicate OtherRefsKept(n: nat)
      reads this, slots, hashInodes
    {
      OthersRefs(old(S()), S(), n)
    }

    /** init_inode_cache. */
    constructor (table: seq<Odi>)
      requires |table| <= MAX_INO
      ensures Valid() && fresh(slots) && fresh(hashInodes)
      ensures this.table == table && View() == table && forall n :: RefsTo(n) == 0
    {
      slots := new Slot[NR_INODES](_ => Slot(NO_ENTRY, 0, false, Odi(0, 0, [])));
      hashInodes := new seq<nat>[INODE_HASH_SIZE](_ => []);
      unusedList := Upto(NR_INODES);
      this.table, cached := table, map[];
      new;
      assert forall i: nat :: i < NR_INODES ==> S().slots[i] == slots[i];
      assert UnusedOk(S()) && HashOk(S());
    }

    /** find_inode: the slot of an inode, or -1; nothing is read from disk. */
    method FindInode(inoNr: nat) returns (r: int)
      requires Valid() && inoNr != NO_ENTRY
      ensures r == -1 <==> inoNr !in cached
      ensures r != -1 ==> r == cached[inoNr] && 0 <= r < slots.Length && slots[r].ino == inoNr
      ensures r != -1 ==> 1 <= inoNr <= |table| && slots[r].odi == View()[inoNr - 1]
    {
      hide NoDup, UnusedOk, CleanOk;
      var chain := hashInodes[inoNr % INODE_HASH_SIZE];
      var k := 0;
      while k < |chain|
        invariant 0 <= k <= |chain|
        invariant forall j :: 0 <= j < k ==> chain[j] < slots.Length && slots[chain[j]].ino != inoNr
      {
        ChainSlot(S(), inoNr % INODE_HASH_SIZE, k);
        if slots[chain[k]].ino == inoNr {
          assert S().slots[chain[k]] == slots[chain[k]];
          FoundSlot(S(), inoNr);
          return chain[k];
        }
        k := k + 1;
      }
      CachedOnChain(S(), inoNr);
      return -1;
    }

    /** read_inode. */
    method ReadInode(i: nat)
      requires i < slots.Length && 1 <= slots[i].ino <= |table|
      modifies slots
      ensures slots[..] == old(slots[..])[i := old(slots[i].(odi := table[slots[i].ino - 1]))]
    {
      slots[i] := slots[i].(odi := table[slots[i].ino - 1]);
    }

    /** write_inode. */
    method WriteInode(i: nat)
      requires i < slots.Length && 1 <= slots[i].ino <= |table|
      modifies this`table, slots
      ensures S() == Stored(old(S()), i)
    {
      table := table[slots[i].ino - 1 := slots[i].odi];
      slots[i] := slots[i].(dirty := false);
      assert S() == Stored(old(S()), i);
    }

    /** get_inode: a reference to an inode, found in the cache or read from disk into the first slot on the
        unused list. No update is lost with what the slot held before. */
    method GetInode(inoNr: nat) returns (r: int)
      requires Valid() && 1 <= inoNr <= |table|
      modifies this`unusedList, this`cached, slots, hashInodes
      ensures Valid() && View() == old(View()) && |slots[..]| == NR_INODES
      ensures r == -1 <==> old(inoNr !in cached && forall i :: 0 <= i < slots.Length ==> slots[i].count > 0)
      ensures r == -1 ==> S() == old(S())
      ensures r != -1 && old(inoNr !in cached) ==>
                old(unusedList) != [] && r == old(unusedList)[0] && unusedList == old(unusedList)[1..]
      ensures r != -1 && old(inoNr in cached) ==>
                if 0 <= r < slots.Length && old(slots[..])[r].count > 0 then unusedList == old(unusedList)
                else exists k :: 0 <= k < |old(unusedList)| && old(unusedList)[k] == r
                                 && unusedList == old(unusedList)[..k] + old(unusedList)[k + 1..]
      ensures r != -1 ==>
                && inoNr in cached && r == cached[inoNr] && 0 <= r < slots.Length
                && slots[r].ino == inoNr && slots[r].odi == View()[inoNr - 1]
                && RefsTo(inoNr) == old(RefsTo(inoNr)) + 1 && OtherRefsKept(inoNr)
    {
      hide NoDup, UnusedOk, HashOk, CleanOk, Inodes, Refs, OthersRefs;
      ghost var s := S();
      NoneUnused(s);
      var found := FindInode(inoNr);
      assert S() == s;
      if found != -1 {
        TakenOk(s, inoNr);
        FoundSlot(s, inoNr);
        if slots[found].count == 0 {
          TakenOff(s, found);
          unusedList := Without(unusedList, found);
        }
        slots[found] := slots[found].(count := slots[found].count + 1);
        assert S() == Taken(s, found);
        FoundSlot(S(), inoNr);
        return found;
      }
      if unusedList == [] {
        return -1;
      }
      r := LoadInode(inoNr);
    }

    /** The first slot on the unused list is given over to an inode that is in none. */
    method LoadInode(inoNr: nat) returns (i: nat)
      requires Valid() && 1 <= inoNr <= |table| && inoNr !in cached && unusedList != []
      modifies this`unusedList, this`cached, slots, hashInodes
      ensures Valid() && View() == old(View()) && |slots[..]| == NR_INODES
      ensures i == old(unusedList)[0] && unusedList == old(unusedList)[1..]
      ensures inoNr in cached && i == cached[inoNr] && i < slots.Length
      ensures slots[i].ino == inoNr && slots[i].odi == View()[inoNr - 1]
      ensures RefsTo(inoNr) == old(RefsTo(inoNr)) + 1 && OtherRefsKept(inoNr)
    {
      hide NoDup, UnusedOk, HashOk, CleanOk, Inodes, Refs, OthersRefs;
      ghost var s := S();
      FirstUnused(s);
      HashSize(s);
      i := unusedList[0];
      DroppedOk(s, i);
      ghost var s1 := Dropped(s, i);
      LoadedOk(s1, inoNr);
      if slots[i].ino != NO_ENTRY {
        var h := slots[i].ino % INODE_HASH_SIZE;
        hashInodes[h] := Without(hashInodes[h], i);
      }
      unusedList := unusedList[1..];
      cached := cached - {slots[i].ino};
      slots[i] := slots[i].(ino := inoNr, count := 1);
      ReadInode(i);
      hashInodes[inoNr % INODE_HASH_SIZE] := [i] + hashInodes[inoNr % INODE_HASH_SIZE];
      cached := cached[inoNr := i];
      assert S() == Loaded(s1, inoNr);
      RefsSame(s, s1, S(), inoNr);
      FoundSlot(S(), inoNr);
    }

    /** What a holder of a reference does to an inode: change it and call inode_markdirty. */
    method Edit(inoNr: nat, odi: Odi)
      requires Valid() && inoNr in cached && RefsTo(inoNr) > 0
      modifies slots
      ensures Valid() && 1 <= inoNr <= |table| && View() == old(View())[inoNr - 1 := odi]
      ensures forall m: nat :: RefsTo(m) == old(RefsTo(m))
      ensures cached[inoNr] < slots.Length && slots[cached[inoNr]].dirty
    {
      hide NoDup, UnusedOk, HashOk, CleanOk, Inodes, OthersRefs;
      ghost var s := S();
      FoundSlot(s, inoNr);
      EditedOk(s, inoNr, odi);
      var i := FindInode(inoNr);
      slots[i] := slots[i].(odi := odi, dirty := true);
      assert S() == Edited(s, i, odi);
    }

    /** put_inode: a reference given back. What the slot holds is on disk afterwards; with the last reference to an
        inode that has no links left the inode is freed, which clears its mode, and its slot emptied. */
    method PutInode(i: nat)
      requires Valid() && i < slots.Length && slots[i].count >= 1
      modifies this`unusedList, this`cached, this`table, slots, hashInodes
      ensures Valid() && |table| == |old(table)|
      ensures var n, s := old(slots[i].ino), old(slots[i]);
              && 1 <= n <= |table|
              && RefsTo(n) == old(RefsTo(n)) - 1 && OtherRefsKept(n)
              && View() == (if s.count == 1 && s.odi.linksCount == 0 then old(View())[n - 1 := s.odi.(mode := 0)]
                            else old(View()))
              && table[n - 1] == View()[n - 1]
              && (forall m :: 0 <= m < |table| && m != n - 1 ==> table[m] == old(table)[m])
              && unusedList == (if s.count > 1 then old(unusedList)
                                else if s.odi.linksCount == 0 then [i] + old(unusedList)
                                else old(unusedList) + [i])
    {
      hide NoDup, UnusedOk, HashOk, CleanOk, Inodes, Refs, OthersRefs;
      SlotCached(S(), i);
      ghost var s, n := S(), slots[i].ino;
      FoundSlot(s, n);
      HashSize(s);
      if slots[i].count == 1 && slots[i].odi.linksCount == 0 {
        PutUnlinked(i, n);
      } else {
        if slots[i].dirty {
          StoredOk(s, n);
          WriteInode(i);
        }
        ghost var s1 := S();
        CleanSlot(s1, n);
        ReleasedOk(s1, n);
        slots[i] := slots[i].(count := slots[i].count - 1);
        if slots[i].count == 0 {
          unusedList := unusedList + [i];
        }
        assert S() == Released(s1, i);
        RefsSame(s, s1, S(), n);
      }
    }

    /** The last reference to an inode without links. */
    method PutUnlinked(i: nat, ghost n: nat)
      requires Valid() && n in cached && cached[n] == i < slots.Length && slots[i].ino == n
      requires slots[i].count == 1 && slots[i].odi.linksCount == 0
      modifies this`unusedList, this`cached, this`table, slots, hashInodes
      ensures Valid() && |table| == |old(table)| && 1 <= n <= |table|
      ensures View() == old(View())[n - 1 := old(slots[i]).odi.(mode := 0)]
      ensures table[n - 1] == View()[n - 1]
      ensures forall m :: 0 <= m < |table| && m != n - 1 ==> table[m] == old(table)[m]
      ensures RefsTo(n) == 0 && OtherRefsKept(n) && unusedList == [i] + old(unusedList)
    {
      hide NoDup, UnusedOk, HashOk, CleanOk, Inodes, Refs, OthersRefs;
      ghost var s := S();
      FoundSlot(s, n);
      HashSize(s);
      EditedOk(s, n, slots[i].odi.(mode := 0));
      ghost var s1 := Edited(s, i, slots[i].odi.(mode := 0));
      StoredOk(s1, n);
      ghost var s2 := Stored(s1, i);
      DiscardedOk(s2, n);
      FoundSlot(s2, n);
      slots[i] := slots[i].(count := 0);
      slots[i] := slots[i].(dirty := true, odi := slots[i].odi.(mode := 0));
      WriteInode(i);
      var h := slots[i].ino % INODE_HASH_SIZE;
      hashInodes[h] := Without(hashInodes[h], i);
      cached := cached - {slots[i].ino};
      slots[i] := slots[i].(ino := NO_ENTRY);
      unusedList := [i] + unusedList;
      assert S() == Discarded(s2, i);
      RefsSame(s, s2, S(), n);
    }
  }

  lemma TakenOff(s: Icache, i: nat)
    requires UnusedOk(s) && i < |s.slots| && s.slots[i].count == 0
    ensures exists k :: 0 <= k < |s.unused| && s.unused[k] == i
                        && Without(s.unused, i) == s.unused[..k] + s.unused[k + 1..]
  {
    var k :| 0 <= k < |s.unused| && s.unused[k] == i;
    WithoutAt(s.unused, k);
  }

  lemma HashSize(s: Icache)
    requires CacheOk(s)
    ensures |s.hash| == INODE_HASH_SIZE
  {
  }

  lemma ChainSlot(s: Icache, h: nat, k: nat)
    requires HashOk(s) && h < |s.hash| && k < |s.hash[h]|
    ensures s.hash[h][k] < |s.slots| && s.slots[s.hash[h][k]].ino != NO_ENTRY
  {
    var l, i := s.hash[h], s.hash[h][k];
    assert i in l;
  }

  lemma CachedOnChain(s: Icache, n: nat)
    requires HashOk(s)
    ensures n in s.cached && n != NO_ENTRY ==> s.cached[n] in s.hash[n % INODE_HASH_SIZE]
  {
    assert HoldsChain(s.slots, s.hash[n % INODE_HASH_SIZE], n % INODE_HASH_SIZE);
  }

  lemma SlotCached(s: Icache, i: nat)
    requires CacheOk(s) && i < |s.slots| && s.slots[i].count > 0
    ensures s.slots[i].ino in s.cached && s.cached[s.slots[i].ino] == i
  {
  }

  /** A clean slot is on disk. */
  lemma CleanSlot(s: Icache, n: nat)
    requires CacheOk(s) && n in s.cached && s.cached[n] < |s.slots| && !s.slots[s.cached[n]].dirty
    ensures 1 <= n <= |s.table| && s.table[n - 1] == Inodes(s)[n - 1]
  {
  }

  lemma RefsSame(s: Icache, s1: Icache, s2: Icache, n: nat)
    requires (forall m: nat :: Refs(s1, m) == Refs(s, m)) && OthersRefs(s1, s2, n)
    ensures OthersRefs(s, s2, n)
  {
  }
}
