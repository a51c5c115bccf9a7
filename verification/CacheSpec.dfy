/** The states of the sector cache in fatfs/sector.c, the disk its user sees, and the steps between states. */
module CacheSpec {
  import opened Words
  import opened BlockStore

  const SECTOR_SIZE: nat := 512
  const BUF_HASH_CNT: nat := 64

  type Sector = seq<Byte>

  datatype Blk = Blk(sector: nat, dirty: bool, inUse: bool, mem: Sector)

  /** The buffers, the lists they are on (buffers are named by their index), and the medium. The map from a sector to
      the buffer that holds it is not in the source. */
  datatype State = State(tab: seq<Blk>, hash: seq<seq<nat>>, lru: seq<nat>, dirty: seq<nat>, free: seq<nat>,
                         disk: seq<Sector>, cached: map<nat, nat>)

  ghost predicate NoDup(l: seq<nat>) {
    forall i, j :: 0 <= i < j < |l| ==> l[i] != l[j]
  }

  /** LIST_REM_ENTRY. */
  function Without(l: seq<nat>, x: nat): (r: seq<nat>) {
    if l == [] then [] else if l[0] == x then l[1..] else [l[0]] + Without(l[1..], x)
  }

  lemma {:induction false} WithoutHas(l: seq<nat>, x: nat)
    requires NoDup(l)
    ensures NoDup(Without(l, x)) && forall y :: y in Without(l, x) <==> y in l && y != x
    ensures |Without(l, x)| == if x in l then |l| - 1 else |l|
    ensures x !in l ==> Without(l, x) == l
  {
    hide NoDup;
    if l != [] {
      NoDupTail(l);
      if l[0] != x {
        WithoutHas(l[1..], x);
        NoDupPush(l[0], Without(l[1..], x));
        assert l == [l[0]] + l[1..];
      }
    }
  }

  lemma {:induction false} WithoutAt(l: seq<nat>, k: nat)
    requires NoDup(l) && k < |l|
    ensures Without(l, l[k]) == l[..k] + l[k + 1..]
  {
    WithoutCons(l, l[k]);
    if k > 0 {
      NoDupTail(l);
      assert l[0] != l[k];
      hide NoDup, Without;
      var m := l[1..];
      WithoutAt(m, k - 1);
      assert m[k - 1] == l[k] && m[k..] == l[k + 1..];
      assert [l[0]] + m[..k - 1] == l[..k];
      assert [l[0]] + (m[..k - 1] + m[k..]) == ([l[0]] + m[..k - 1]) + m[k..];
    }
  }

  lemma {:induction false} WithoutLast(l: seq<nat>)
    requires l != [] && NoDup(l)
    ensures Without(l, l[|l| - 1]) == l[..|l| - 1]
  {
    if |l| > 1 {
      WithoutLast(l[1..]);
      assert l[1..][|l| - 2] == l[|l| - 1] && l[0] != l[|l| - 1];
      assert [l[0]] + l[1..][..|l| - 2] == l[..|l| - 1];
    }
  }

  lemma NoDupPush(x: nat, l: seq<nat>)
    requires NoDup(l) && x !in l
    ensures NoDup([x] + l) && NoDup(l + [x])
    ensures forall y :: y in [x] + l <==> y == x || y in l
    ensures forall y :: y in l + [x] <==> y == x || y in l
  {
  }

  lemma NoDupTail(l: seq<nat>)
    requires NoDup(l) && l != []
    ensures NoDup(l[1..]) && l[0] !in l[1..] && forall y :: y in l <==> y == l[0] || y in l[1..]
  {
  }

  /** 0, 1, ..., n - 1. */
  function Upto(n: nat): (r: seq<nat>)
    ensures |r| == n && NoDup(r) && forall i: nat :: i in r <==> i < n
  {
    if n == 0 then [] else
    NoDupPush(n - 1, Upto(n - 1));
    Upto(n - 1) + [n - 1]
  }

  /** Every buffer is on exactly one of the free and the LRU list, and on the dirty list exactly when it is dirty. */
  ghost predicate Listed(s: State) {
    && NoDup(s.lru) && NoDup(s.free) && NoDup(s.dirty)
    && |s.lru| + |s.free| == |s.tab|
    && (forall i: nat :: i in s.lru <==> i < |s.tab| && s.tab[i].inUse)
    && (forall i: nat :: i in s.free <==> i < |s.tab| && !s.tab[i].inUse)
    && (forall i: nat :: i in s.dirty <==> i < |s.tab| && s.tab[i].dirty)
    && (forall i :: 0 <= i < |s.tab| && s.tab[i].dirty ==> s.tab[i].inUse)
  }

  ghost predicate InChain(tab: seq<Blk>, chain: seq<nat>, h: int) {
    forall i: nat :: i in chain <==> i < |tab| && tab[i].inUse && tab[i].sector % BUF_HASH_CNT == h
  }

  /** A buffer in use is on the chain of its sector and on no other, and no two hold the same sector. */
  ghost predicate Chained(s: State) {
    && |s.hash| == BUF_HASH_CNT
    && (forall h :: 0 <= h < |s.hash| ==> NoDup(s.hash[h]))
    && (forall h :: 0 <= h < |s.hash| ==> InChain(s.tab, s.hash[h], h))
    && (forall n :: n in s.cached ==>
          n < |s.disk| && s.cached[n] < |s.tab| && s.tab[s.cached[n]].inUse && s.tab[s.cached[n]].sector == n)
    && (forall i :: 0 <= i < |s.tab| && s.tab[i].inUse ==>
          s.tab[i].sector in s.cached && s.cached[s.tab[i].sector] == i)
  }

  lemma OnChain(s: State, h: nat, k: nat)
    requires Chained(s) && h < |s.hash| && k < |s.hash[h]|
    ensures s.hash[h][k] < |s.tab| && s.tab[s.hash[h][k]].inUse && s.tab[s.hash[h][k]].sector % BUF_HASH_CNT == h
  {
    var l, i := s.hash[h], s.hash[h][k];
    assert i in l;
  }

  lemma OnItsChain(s: State, n: nat)
    requires Chained(s)
    ensures n in s.cached ==> s.cached[n] in s.hash[n % BUF_HASH_CNT]
  {
    assert InChain(s.tab, s.hash[n % BUF_HASH_CNT], n % BUF_HASH_CNT);
  }

  /** Buffers hold what the disk does, except for dirty ones (in write-through mode there is no such exception) and
      for the one in a caller's hands. */
  ghost predicate Mirrored(s: State, through: bool, loose: int) {
    && (forall n :: 0 <= n < |s.disk| ==> |s.disk[n]| == SECTOR_SIZE)
    && (forall i :: 0 <= i < |s.tab| ==> |s.tab[i].mem| == SECTOR_SIZE)
    && forall i :: 0 <= i < |s.tab| && i != loose && s.tab[i].inUse && s.tab[i].sector < |s.disk| ==>
         (through || !s.tab[i].dirty) ==> s.tab[i].mem == s.disk[s.tab[i].sector]
  }

  ghost predicate Ok(s: State, through: bool, loose: int) {
    |s.tab| > 0 && Listed(s) && Chained(s) && Mirrored(s, through, loose)
  }

  /** What a user of the cache reads at sector n. */
  ghost function At(s: State, n: nat): Sector
    requires n < |s.disk|
  {
    if n in s.cached && s.cached[n] < |s.tab| then s.tab[s.cached[n]].mem else s.disk[n]
  }

  /** The disk as the cache shows it. */
  ghost function View(s: State): (v: seq<Sector>)
    ensures |v| == |s.disk|
  {
    seq(|s.disk|, n requires 0 <= n < |s.disk| => At(s, n))
  }

  ghost function Sectors(tab: seq<Blk>, l: seq<nat>): (r: seq<nat>)
    requires forall k :: 0 <= k < |l| ==> l[k] < |tab|
    ensures |r| == |l| && forall k :: 0 <= k < |r| ==> r[k] == tab[l[k]].sector
  {
    seq(|l|, k requires 0 <= k < |l| => tab[l[k]].sector)
  }

  /** The sectors in the cache, most recently used first. */
  ghost function Resident(s: State): (r: seq<nat>)
    requires Listed(s)
    ensures |r| == |s.lru|
  {
    assert forall k :: 0 <= k < |s.lru| ==> s.lru[k] in s.lru;
    Sectors(s.tab, s.lru)
  }

  /** The distinct sectors of an access trace, most recently accessed first. */
  ghost function Recent(trace: seq<nat>): (r: seq<nat>)
    ensures NoDup(r)
  {
    if trace == [] then [] else
    var x, l := trace[|trace| - 1], Recent(trace[..|trace| - 1]);
    WithoutHas(l, x);
    NoDupPush(x, Without(l, x));
    [x] + Without(l, x)
  }

  /** When a sector was last accessed. */
  function LastAccess(trace: seq<nat>, x: nat): (i: int)
    ensures -1 <= i < |trace| && (i >= 0 ==> trace[i] == x) && forall j :: i < j < |trace| ==> trace[j] != x
  {
    if trace == [] || trace[|trace| - 1] == x then |trace| - 1 else LastAccess(trace[..|trace| - 1], x)
  }

  predicate Falling(trace: seq<nat>, l: seq<nat>) {
    forall i, j :: 0 <= i < j < |l| ==> LastAccess(trace, l[i]) > LastAccess(trace, l[j])
  }

  lemma FallingLess(trace: seq<nat>, l: seq<nat>, k: nat)
    requires Falling(trace, l) && k < |l|
    ensures Falling(trace, l[..k] + l[k + 1..])
  {
    hide LastAccess;
    var m := l[..k] + l[k + 1..];
    forall i, j | 0 <= i < j < |m| ensures LastAccess(trace, m[i]) > LastAccess(trace, m[j]) {
      var i2, j2 := if i < k then i else i + 1, if j < k then j else j + 1;
      assert m[i] == l[i2] && m[j] == l[j2];
    }
  }

  lemma LastAccessNow(trace: seq<nat>, x: nat, y: nat)
    ensures LastAccess(trace + [x], y) == if y == x then |trace| else LastAccess(trace, y)
  {
    assert (trace + [x])[..|trace|] == trace;
  }

  lemma FallingPush(trace: seq<nat>, l: seq<nat>, x: nat)
    requires Falling(trace, l) && x !in l
    ensures Falling(trace + [x], [x] + l)
  {
    hide LastAccess;
    var m := [x] + l;
    forall i, j | 0 <= i < j < |m| ensures LastAccess(trace + [x], m[i]) > LastAccess(trace + [x], m[j]) {
      LastAccessNow(trace, x, m[i]);
      LastAccessNow(trace, x, m[j]);
      assert m[j] == l[j - 1] && (i > 0 ==> m[i] == l[i - 1]);
    }
  }

  /** Recent lists exactly the sectors accessed, in the order of their last accesses, the latest first. */
  lemma {:induction false} RecentOrder(trace: seq<nat>)
    ensures forall x :: x in Recent(trace) <==> x in trace
    ensures Falling(trace, Recent(trace))
  {
    if trace != [] {
      hide NoDup, Falling, LastAccess, Recent, Without;
      var u, x := trace[..|trace| - 1], trace[|trace| - 1];
      RecentOrder(u);
      assert trace == u + [x];
      RecentStep(u, x);
      var l := Recent(u);
      WithoutHas(l, x);
      if x in l {
        var k :| 0 <= k < |l| && l[k] == x;
        WithoutAt(l, k);
        FallingLess(u, l, k);
      }
      FallingPush(u, Without(l, x), x);
    } else {
      assert Recent(trace) == [];
    }
  }

  function Take(l: seq<nat>, n: nat): seq<nat> {
    if n < |l| then l[..n] else l
  }

  lemma RecentStep(trace: seq<nat>, x: nat)
    ensures Recent(trace + [x]) == [x] + Without(Recent(trace), x)
  {
    assert (trace + [x])[..|trace|] == trace;
  }

  /** LRU replacement: the cache always holds the most recently accessed sectors. l is what it held. */
  lemma LruStep(trace: seq<nat>, cap: nat, l: seq<nat>, x: nat)
    requires cap > 0 && l == Take(Recent(trace), cap)
    ensures x in l ==> Take(Recent(trace + [x]), cap) == [x] + Without(l, x)
    ensures x !in l && |l| < cap ==> Take(Recent(trace + [x]), cap) == [x] + l
    ensures x !in l && |l| == cap ==> Take(Recent(trace + [x]), cap) == [x] + l[..|l| - 1]
  {
    hide NoDup, Recent, Without;
    var r := Recent(trace);
    RecentStep(trace, x);
    WithoutHas(r, x);
    TakeWithout(r, cap, x);
  }

  lemma TakeCons(x: nat, l: seq<nat>, n: nat)
    ensures Take([x] + l, n + 1) == [x] + Take(l, n)
    ensures Take(l, 0) == [] && Take([], n) == []
  {
  }

  lemma WithoutCons(l: seq<nat>, x: nat)
    requires l != []
    ensures Without(l, x) == if l[0] == x then l[1..] else [l[0]] + Without(l[1..], x)
  {
  }

  lemma {:induction false} TakeWithout(r: seq<nat>, cap: nat, x: nat)
    requires NoDup(r)
    ensures x in Take(r, cap) ==>
              |Take(r, cap)| >= 1 && Take(Without(r, x), |Take(r, cap)| - 1) == Without(Take(r, cap), x)
    ensures x !in Take(r, cap) ==> Take(Without(r, x), cap) == Take(r, cap)
  {
    hide NoDup;
    if cap == 0 {
      assert Take(r, cap) == [];
    } else if r != [] {
      hide Take, Without;
      NoDupTail(r);
      var y, q := r[0], r[1..];
      assert r == [y] + q;
      TakeCons(y, q, cap - 1);
      var u := Take(q, cap - 1);
      assert ([y] + u)[0] == y && ([y] + u)[1..] == u;
      WithoutCons(r, x);
      WithoutCons([y] + u, x);
      if y != x {
        TakeWithout(q, cap - 1, x);
        TakeCons(y, Without(q, x), cap - 1);
        if x in u {
          TakeCons(y, Without(q, x), |u| - 1);
        }
      } else {
        TakeAll(q, cap - 1);
      }
    }
  }

  lemma TakeAll(l: seq<nat>, n: nat)
    ensures Take(l, |Take(l, n)|) == Take(l, n)
  {
  }

  lemma {:induction false} SectorsWithout(tab: seq<Blk>, l: seq<nat>, i: nat)
    requires i < |tab| && forall k :: 0 <= k < |l| ==> l[k] < |tab|
    requires forall k :: 0 <= k < |l| && l[k] != i ==> tab[l[k]].sector != tab[i].sector
    ensures forall k :: 0 <= k < |Without(l, i)| ==> Without(l, i)[k] < |tab|
    ensures Sectors(tab, Without(l, i)) == Without(Sectors(tab, l), tab[i].sector)
  {
    if l != [] {
      assert Sectors(tab, l) == [tab[l[0]].sector] + Sectors(tab, l[1..]);
      if l[0] == i {
        assert Without(l, i) == l[1..];
      } else {
        SectorsWithout(tab, l[1..], i);
        assert Without(l, i) == [l[0]] + Without(l[1..], i);
        assert Sectors(tab, Without(l, i)) == [tab[l[0]].sector] + Sectors(tab, Without(l[1..], i));
      }
    }
  }

  /** With no buffer free there is one to give up: the last on the LRU list. */
  lemma LastUsed(s: State)
    requires |s.tab| > 0 && Listed(s) && Chained(s) && s.free == []
    ensures |s.hash| == BUF_HASH_CNT
    ensures s.lru != [] && |s.lru| == |s.tab| == |Resident(s)|
    ensures s.lru[|s.lru| - 1] < |s.tab| && s.tab[s.lru[|s.lru| - 1]].inUse
  {
    var l, i := s.lru, s.lru[|s.lru| - 1];
    assert i in l;
  }

  lemma Held(s: State, n: nat)
    requires Listed(s) && Chained(s) && n in s.cached
    ensures s.cached[n] < |s.tab| && s.cached[n] in s.lru && n < |s.disk|
    ensures s.tab[s.cached[n]].inUse && s.tab[s.cached[n]].sector == n && s.tab[s.cached[n]].mem == View(s)[n]
    ensures n in Resident(s)
  {
    var i := s.cached[n];
    assert i in s.lru;
    var k :| 0 <= k < |s.lru| && s.lru[k] == i;
    assert Resident(s)[k] == n;
  }

  lemma NotHeld(s: State, n: nat)
    requires Listed(s) && Chained(s) && n !in s.cached
    ensures n !in Resident(s) && |Resident(s)| == |s.tab| - |s.free|
  {
    forall k | 0 <= k < |s.lru| ensures Resident(s)[k] != n {
      var l, i := s.lru, s.lru[k];
      assert i in l;
    }
  }

  /** LIST_REM_ENTRY and LIST_ADD_HEAD on the LRU list: buffer i was used. */
  function Touched(s: State, i: nat): State {
    s.(lru := [i] + Without(s.lru, i))
  }

  lemma TouchedListed(s: State, i: nat)
    requires Listed(s) && i in s.lru
    ensures Listed(Touched(s, i)) && i < |s.tab| && s.tab[i].inUse
    ensures forall k :: 0 <= k < |s.lru| ==> s.lru[k] < |s.tab| && s.tab[s.lru[k]].inUse
  {
    hide NoDup;
    WithoutHas(s.lru, i);
    NoDupPush(i, Without(s.lru, i));
    forall k | 0 <= k < |s.lru| ensures s.lru[k] < |s.tab| && s.tab[s.lru[k]].inUse {
      assert s.lru[k] in s.lru;
    }
  }

  lemma TouchedOk(s: State, through: bool, loose: int, i: nat)
    requires Ok(s, through, loose) && i in s.lru
    ensures Ok(Touched(s, i), through, loose) && View(Touched(s, i)) == View(s)
    ensures i < |s.tab| && Resident(Touched(s, i)) == [s.tab[i].sector] + Without(Resident(s), s.tab[i].sector)
  {
    hide NoDup, Listed;
    TouchedListed(s, i);
    SectorsWithout(s.tab, s.lru, i);
  }

  /** A dirty buffer is taken off the dirty list and written out. */
  function Flushed(s: State, i: nat): State
    requires i < |s.tab| && s.tab[i].sector < |s.disk|
  {
    s.(tab := s.tab[i := s.tab[i].(dirty := false)],
       dirty := Without(s.dirty, i),
       disk := s.disk[s.tab[i].sector := s.tab[i].mem])
  }

  lemma FlushedOk(s: State, through: bool, loose: int, i: nat)
    requires Ok(s, through, loose) && i < |s.tab| && s.tab[i].inUse
    ensures s.tab[i].sector < |s.disk|
    ensures Ok(Flushed(s, i), through, if loose == i then -1 else loose) && View(Flushed(s, i)) == View(s)
    ensures Resident(Flushed(s, i)) == Resident(s)
  {
    hide Listed, Chained, Mirrored, View, Resident;
    FlushedLists(s, i);
    FlushedView(s, through, loose, i);
  }

  lemma FlushedLists(s: State, i: nat)
    requires Listed(s) && Chained(s) && i < |s.tab| && s.tab[i].inUse
    ensures s.tab[i].sector < |s.disk|
    ensures Listed(Flushed(s, i)) && Chained(Flushed(s, i)) && Resident(Flushed(s, i)) == Resident(s)
  {
    hide NoDup, InChain;
    WithoutHas(s.dirty, i);
    forall h | 0 <= h < |s.hash| ensures InChain(Flushed(s, i).tab, s.hash[h], h) {
      SameChain(s.tab, Flushed(s, i).tab, s.hash[h], h);
    }
  }

  lemma FlushedView(s: State, through: bool, loose: int, i: nat)
    requires Chained(s) && Mirrored(s, through, loose) && i < |s.tab| && s.tab[i].inUse && s.tab[i].sector < |s.disk|
    ensures Mirrored(Flushed(s, i), through, if loose == i then -1 else loose) && View(Flushed(s, i)) == View(s)
  {
    hide NoDup, InChain;
  }

  /** A clean buffer is taken off its chain and the LRU list and put on the free list. */
  function Evicted(s: State, i: nat): State
    requires i < |s.tab| && s.lru != [] && |s.hash| == BUF_HASH_CNT
  {
    var h := s.tab[i].sector % BUF_HASH_CNT;
    s.(tab := s.tab[i := s.tab[i].(inUse := false)],
       hash := s.hash[h := Without(s.hash[h], i)],
       lru := Without(s.lru, i),
       free := [i] + s.free,
       cached := s.cached - {s.tab[i].sector})
  }

  lemma EvictedListed(s: State, i: nat)
    requires Listed(s) && |s.hash| == BUF_HASH_CNT
    requires s.lru != [] && i == s.lru[|s.lru| - 1] && i < |s.tab| && !s.tab[i].dirty
    ensures Listed(Evicted(s, i)) && s.tab[i].inUse
    ensures Resident(Evicted(s, i)) == Resident(s)[..|s.lru| - 1]
  {
    hide NoDup;
    assert i in s.lru && i !in s.free;
    WithoutHas(s.lru, i);
    WithoutLast(s.lru);
    NoDupPush(i, s.free);
  }

  lemma EvictedChained(s: State, i: nat)
    requires Chained(s) && i < |s.tab| && s.tab[i].inUse && s.lru != []
    ensures Chained(Evicted(s, i))
  {
    WithoutHas(s.hash[s.tab[i].sector % BUF_HASH_CNT], i);
  }

  lemma EvictedOk(s: State, through: bool, i: nat)
    requires Ok(s, through, -1) && s.lru != [] && i == s.lru[|s.lru| - 1] && i < |s.tab| && !s.tab[i].dirty
    ensures Ok(Evicted(s, i), through, -1) && View(Evicted(s, i)) == View(s)
    ensures Resident(Evicted(s, i)) == Resident(s)[..|s.lru| - 1]
  {
    hide NoDup, Listed, Resident;
    EvictedListed(s, i);
    EvictedChained(s, i);
  }

  /** The first free buffer is given to sector n, read from the disk. */
  function Installed(s: State, n: nat): State
    requires s.free != [] && s.free[0] < |s.tab| && |s.hash| == BUF_HASH_CNT && n < |s.disk|
  {
    var i, h := s.free[0], n % BUF_HASH_CNT;
    s.(tab := s.tab[i := Blk(n, false, true, s.disk[n])],
       hash := s.hash[h := [i] + s.hash[h]],
       lru := [i] + s.lru,
       free := s.free[1..],
       cached := s.cached[n := i])
  }

  lemma InstalledListed(s: State, n: nat)
    requires Listed(s) && |s.hash| == BUF_HASH_CNT && s.free != [] && n < |s.disk|
    ensures s.free[0] < |s.tab| && !s.tab[s.free[0]].inUse
    ensures Listed(Installed(s, n))
  {
    hide NoDup;
    assert s.free[0] in s.free;
    NoDupTail(s.free);
    NoDupPush(s.free[0], s.lru);
  }

  lemma InstalledResident(s: State, n: nat)
    requires Listed(s) && |s.hash| == BUF_HASH_CNT && s.free != [] && n < |s.disk|
    requires s.free[0] < |s.tab| && !s.tab[s.free[0]].inUse && Listed(Installed(s, n))
    ensures Resident(Installed(s, n)) == [n] + Resident(s)
  {
    ResidentAt(s);
    ResidentAt(Installed(s, n));
    hide Listed, Resident;
    forall k | 0 <= k < |s.lru| ensures Resident(Installed(s, n))[k + 1] == Resident(s)[k] {
      assert Installed(s, n).lru[k + 1] == s.lru[k];
    }
  }

  lemma ResidentAt(s: State)
    requires Listed(s)
    ensures |Resident(s)| == |s.lru|
    ensures forall k :: 0 <= k < |s.lru| ==>
              s.lru[k] < |s.tab| && s.tab[s.lru[k]].inUse && Resident(s)[k] == s.tab[s.lru[k]].sector
  {
    hide NoDup;
    assert forall k :: 0 <= k < |s.lru| ==> s.lru[k] in s.lru;
  }

  lemma InstalledChained(s: State, n: nat)
    requires Chained(s) && s.free != [] && s.free[0] < |s.tab| && !s.tab[s.free[0]].inUse
    requires n < |s.disk| && n !in s.cached
    ensures Chained(Installed(s, n))
  {
    NoDupPush(s.free[0], s.hash[n % BUF_HASH_CNT]);
  }

  lemma InstalledOk(s: State, through: bool, n: nat)
    requires Ok(s, through, -1) && s.free != [] && n < |s.disk| && n !in s.cached
    ensures s.free[0] < |s.tab| && |s.hash| == BUF_HASH_CNT
    ensures Ok(Installed(s, n), through, -1) && View(Installed(s, n)) == View(s)
    ensures Resident(Installed(s, n)) == [n] + Resident(s)
    ensures s.disk[n] == View(s)[n]
  {
    hide NoDup, Listed, Resident;
    InstalledListed(s, n);
    InstalledResident(s, n);
    InstalledChained(s, n);
  }

  /** A caller has written to the buffer. */
  function Scribbled(s: State, i: nat, mem: Sector): State
    requires i < |s.tab|
  {
    s.(tab := s.tab[i := s.tab[i].(mem := mem)])
  }

  lemma ScribbledLists(s: State, i: nat, mem: Sector)
    requires Listed(s) && Chained(s) && i < |s.tab|
    ensures Listed(Scribbled(s, i, mem)) && Chained(Scribbled(s, i, mem))
    ensures Resident(Scribbled(s, i, mem)) == Resident(s)
  {
    hide NoDup, InChain;
    forall h | 0 <= h < |s.hash| ensures InChain(Scribbled(s, i, mem).tab, s.hash[h], h) {
      SameChain(s.tab, Scribbled(s, i, mem).tab, s.hash[h], h);
    }
  }

  lemma SameChain(tab: seq<Blk>, tab2: seq<Blk>, chain: seq<nat>, h: int)
    requires InChain(tab, chain, h) && |tab2| == |tab|
    requires forall i :: 0 <= i < |tab| ==> tab2[i].inUse == tab[i].inUse && tab2[i].sector == tab[i].sector
    ensures InChain(tab2, chain, h)
  {
  }

  lemma ScribbledView(s: State, through: bool, i: nat, mem: Sector)
    requires Chained(s) && Mirrored(s, through, -1) && i < |s.tab| && s.tab[i].inUse && |mem| == SECTOR_SIZE
    ensures s.tab[i].sector < |s.disk| && Mirrored(Scribbled(s, i, mem), through, i)
    ensures View(Scribbled(s, i, mem)) == View(s)[s.tab[i].sector := mem]
  {
    hide NoDup, InChain;
  }

  lemma ScribbledOk(s: State, through: bool, i: nat, mem: Sector)
    requires Ok(s, through, -1) && i < |s.tab| && s.tab[i].inUse && |mem| == SECTOR_SIZE
    ensures s.tab[i].sector < |s.disk|
    ensures Ok(Scribbled(s, i, mem), through, i)
    ensures View(Scribbled(s, i, mem)) == View(s)[s.tab[i].sector := mem]
    ensures Resident(Scribbled(s, i, mem)) == Resident(s)
  {
    hide Listed, Chained, Mirrored, View, Resident;
    ScribbledLists(s, i, mem);
    ScribbledView(s, through, i, mem);
  }

  /** A clean buffer is put on the dirty list. */
  function Marked(s: State, i: nat): State
    requires i < |s.tab|
  {
    s.(tab := s.tab[i := s.tab[i].(dirty := true)], dirty := s.dirty + [i])
  }

  lemma MarkedOk(s: State, through: bool, loose: int, i: nat)
    requires Ok(s, through, loose) && i < |s.tab| && s.tab[i].inUse && !s.tab[i].dirty
    ensures Ok(Marked(s, i), through, loose) && View(Marked(s, i)) == View(s)
    ensures Resident(Marked(s, i)) == Resident(s)
  {
    hide NoDup;
    assert i !in s.dirty;
    NoDupPush(i, s.dirty);
    assert NoDup(Marked(s, i).dirty);
    assert Listed(Marked(s, i));
  }

  /** A buffer is written out and stays on the dirty list. */
  function WrittenOut(s: State, i: nat): State
    requires i < |s.tab| && s.tab[i].sector < |s.disk|
  {
    s.(disk := s.disk[s.tab[i].sector := s.tab[i].mem])
  }

  lemma WrittenOutOk(s: State, through: bool, loose: int, i: nat)
    requires Ok(s, through, loose) && i < |s.tab| && s.tab[i].inUse
    ensures s.tab[i].sector < |s.disk|
    ensures Ok(WrittenOut(s, i), through, if loose == i then -1 else loose) && View(WrittenOut(s, i)) == View(s)
    ensures Resident(WrittenOut(s, i)) == Resident(s)
  {
  }

  /** A dirty buffer in write-back mode may differ from the disk. */
  lemma DirtyMayDiffer(s: State, i: nat)
    requires Ok(s, false, i) && i < |s.tab| && s.tab[i].dirty
    ensures Ok(s, false, -1)
  {
  }

  /** With no buffer dirty, or in write-through mode, the disk is what the cache shows. */
  lemma CleanDisk(s: State, through: bool)
    requires Ok(s, through, -1) && (through || s.dirty == [])
    ensures s.disk == View(s)
  {
    hide NoDup;
    forall n | 0 <= n < |s.disk| ensures s.disk[n] == View(s)[n] {
      if n in s.cached {
        assert s.cached[n] in s.dirty || !s.tab[s.cached[n]].dirty;
      }
    }
  }

  lemma FirstDirty(s: State)
    requires Listed(s) && s.dirty != []
    ensures s.dirty[0] < |s.tab| && s.tab[s.dirty[0]].inUse && s.tab[s.dirty[0]].dirty
    ensures Without(s.dirty, s.dirty[0]) == s.dirty[1..]
  {
    var l, i := s.dirty, s.dirty[0];
    assert i in l;
  }

  lemma NoneDirty(s: State)
    requires Listed(s) && s.dirty == []
    ensures forall i :: 0 <= i < |s.tab| ==> !s.tab[i].dirty
  {
    forall i: nat | i < |s.tab| ensures !s.tab[i].dirty {
      assert i !in s.dirty;
    }
  }

  lemma SpliceNothing(f: seq<Byte>, p: nat)
    requires p <= |f|
    ensures Splice(f, p, []) == f
  {
  }

  ghost predicate Whole(v: seq<Sector>) {
    forall n :: 0 <= n < |v| ==> |v[n]| == SECTOR_SIZE
  }

  lemma ViewWhole(s: State, through: bool, loose: int)
    requires Mirrored(s, through, loose)
    ensures Whole(View(s))
  {
  }

  /** The disk as one sequence of bytes. */
  ghost function Flat(v: seq<Sector>): (f: seq<Byte>)
    requires Whole(v)
    ensures |f| == SECTOR_SIZE * |v|
  {
    seq(SECTOR_SIZE * |v|, p requires 0 <= p < SECTOR_SIZE * |v| => v[p / SECTOR_SIZE][p % SECTOR_SIZE])
  }

  lemma FlatRead(v: seq<Sector>, n: nat, off: nat, k: nat)
    requires Whole(v) && n < |v| && off + k <= SECTOR_SIZE
    ensures v[n][off..off + k] == Flat(v)[SECTOR_SIZE * n + off..SECTOR_SIZE * n + off + k]
  {
  }

  lemma FlatWrite(v: seq<Sector>, n: nat, off: nat, data: seq<Byte>)
    requires Whole(v) && n < |v| && off + |data| <= SECTOR_SIZE
    ensures Whole(v[n := Splice(v[n], off, data)])
    ensures Flat(v[n := Splice(v[n], off, data)]) == Splice(Flat(v), SECTOR_SIZE * n + off, data)
  {
    var v2 := v[n := Splice(v[n], off, data)];
    forall p | 0 <= p < SECTOR_SIZE * |v|
      ensures Flat(v2)[p] == Splice(Flat(v), SECTOR_SIZE * n + off, data)[p]
    {
    }
  }

  lemma SpliceTwice(f: seq<Byte>, p: nat, d: seq<Byte>, e: seq<Byte>)
    requires p + |d| + |e| <= |f|
    ensures Splice(Splice(f, p, d), p + |d|, e) == Splice(f, p, d + e)
  {
  }
}
