/** Whole runs of requests against the inode cache, which acts as a table of inodes with a count of references to
    each. */
module InodeRuns {
  import opened InodeSpec
  import opened InodeCache

  /** get_inode; a change by somebody who holds a reference; put_inode. */
  datatype Request = Get(ino: nat) | Change(ino: nat, odi: Odi) | Put(ino: nat)

  /** Inode n and the references to it are at n - 1. */
  datatype Picture = Picture(inodes: seq<Odi>, refs: seq<nat>)

  ghost function Counts(s: Icache): (r: seq<nat>)
    ensures |r| == |s.table| && forall k :: 0 <= k < |r| ==> r[k] == Refs(s, k + 1)
  {
    seq(|s.table|, k requires 0 <= k => Refs(s, k + 1))
  }

  ghost function PictureOf(c: Cache): (p: Picture)
    reads c, c.slots, c.hashInodes
    ensures |p.inodes| == |p.refs| == |c.table|
  {
    Picture(Inodes(c.S()), Counts(c.S()))
  }

  predicate Sensible(p: Picture, q: Request) {
    1 <= q.ino <= |p.inodes| == |p.refs|
  }

  /** What a request that was carried out, or was not, does. The last reference to an inode without links frees it. */
  function After(p: Picture, q: Request, ok: bool): (p2: Picture)
    requires Sensible(p, q)
    ensures |p2.inodes| == |p.inodes| && |p2.refs| == |p.refs|
  {
    var k := q.ino - 1;
    if !ok then p
    else match q
      case Get(_) => p.(refs := p.refs[k := p.refs[k] + 1])
      case Change(_, odi) => p.(inodes := p.inodes[k := odi])
      case Put(_) =>
        Picture(if p.refs[k] == 1 && p.inodes[k].linksCount == 0
            then p.inodes[k := p.inodes[k].(mode := 0)] else p.inodes,
                if p.refs[k] > 0 then p.refs[k := p.refs[k] - 1] else p.refs)
  }

  /** The inodes somebody refers to. */
  ghost function Referred(refs: seq<nat>): set<nat> {
    set k: nat | k < |refs| && refs[k] > 0
  }

  /** A reference is refused exactly when nobody has one to that inode yet and as many inodes are referred to as there
      are slots. Only who holds a reference changes an inode or gives the reference back. */
  ghost predicate Answers(p: Picture, q: Request, ok: bool)
    requires Sensible(p, q)
  {
    ok <==> p.refs[q.ino - 1] > 0 || (q.Get? && |Referred(p.refs)| < NR_INODES)
  }

  lemma {:induction false} OneToOne(m: map<nat, nat>)
    requires forall x, y :: x in m && y in m && m[x] == m[y] ==> x == y
    ensures |m.Values| == |m.Keys|
    decreases |m.Keys|
  {
    if x :| x in m {
      var m2 := m - {x};
      OneToOne(m2);
      assert m.Keys == m2.Keys + {x};
      assert m[x] !in m2.Values;
      assert m.Values == m2.Values + {m[x]};
    } else {
      assert m.Keys == {} && m.Values == {};
    }
  }

  ghost function Numbers(n: nat): (r: set<nat>)
    ensures |r| == n && forall i: nat :: i in r <==> i < n
  {
    if n == 0 then {} else Numbers(n - 1) + {n - 1}
  }

  lemma SmallerSet(a: set<nat>, b: set<nat>)
    requires a < b
    ensures |a| < |b|
  {
    assert b == a + (b - a);
  }

  ghost function SlotsTaken(slots: seq<Slot>): (r: set<nat>)
    ensures forall i: nat :: i in r <==> i < |slots| && slots[i].count > 0
  {
    set i: nat | i < |slots| && slots[i].count > 0
  }

  /** Every slot is referred to exactly when as many inodes are referred to as there are slots. */
  lemma AllTaken(s: Icache)
    requires CacheOk(s)
    ensures (forall i :: 0 <= i < |s.slots| ==> s.slots[i].count > 0) <==> |Referred(Counts(s))| >= NR_INODES
  {
    SameNumber(s);
    assert |s.slots| == NR_INODES;
    hide CacheOk, Referred, Counts, SlotsTaken, Numbers;
    var taken, all := SlotsTaken(s.slots), Numbers(|s.slots|);
    if forall i :: 0 <= i < |s.slots| ==> s.slots[i].count > 0 {
      assert taken == all;
    } else {
      var i: nat :| i < |s.slots| && s.slots[i].count == 0;
      assert i in all && i !in taken;
      SmallerSet(taken, all);
    }
  }

  /** As many inodes are referred to as slots. */
  lemma SameNumber(s: Icache)
    requires CacheOk(s)
    ensures |Referred(Counts(s))| == |SlotsTaken(s.slots)|
  {
    hide CacheOk, Refs, Held;
    var refs, taken := Counts(s), SlotsTaken(s.slots);
    var held := Held(s);
    assert held.Keys == Referred(refs);
    forall i | i in taken ensures i in held.Values {
      assert held[s.slots[i].ino - 1] == i;
    }
    assert held.Values == taken;
    forall x, y | x in held && y in held && held[x] == held[y] ensures x == y {
      assert s.slots[held[x]].ino == x + 1 && s.slots[held[y]].ino == y + 1;
    }
    OneToOne(held);
  }

  /** The slot of each inode that is referred to. */
  ghost function Held(s: Icache): (held: map<nat, nat>)
    requires CacheOk(s)
    ensures forall k: nat :: k in held <==> k < |Counts(s)| && Counts(s)[k] > 0
    ensures forall k :: k in held ==> held[k] < |s.slots| && s.slots[held[k]].count > 0 && s.slots[held[k]].ino == k + 1
    ensures forall i :: 0 <= i < |s.slots| && s.slots[i].count > 0 ==>
              s.slots[i].ino >= 1 && s.slots[i].ino - 1 in held && held[s.slots[i].ino - 1] == i
  {
    SlotsHeld(s);
    var refs := Counts(s);
    map k: nat | k < |refs| && refs[k] > 0 :: s.cached[k + 1]
  }

  lemma SlotsHeld(s: Icache)
    requires UnusedOk(s) && HashOk(s)
    ensures forall i :: 0 <= i < |s.slots| && s.slots[i].count > 0 ==>
              s.slots[i].ino in s.cached && s.cached[s.slots[i].ino] == i && 1 <= s.slots[i].ino <= |s.table|
  {
  }

  /** An inode nobody refers to is on disk as it is shown. */
  lemma OnDisk(s: Icache, n: nat)
    requires CacheOk(s) && 1 <= n <= |s.table| && Refs(s, n) == 0
    ensures s.table[n - 1] == Inodes(s)[n - 1]
  {
  }

  lemma RefsIs(s: Icache, n: nat)
    requires CacheOk(s)
    ensures Refs(s, n) > 0 <==> n in s.cached && s.cached[n] < |s.slots| && s.slots[s.cached[n]].count > 0
  {
  }

  lemma CountsChanged(s: Icache, s2: Icache, n: nat)
    requires 1 <= n <= |s.table| == |s2.table| && OthersRefs(s, s2, n)
    ensures Counts(s2) == Counts(s)[n - 1 := Refs(s2, n)]
  {
    hide Refs;
  }

  lemma CountsSame(s: Icache, s2: Icache)
    requires |s.table| == |s2.table| && forall n: nat :: Refs(s2, n) == Refs(s, n)
    ensures Counts(s2) == Counts(s)
  {
    hide Refs;
  }

  /** A reference asked for: it is refused exactly when the picture says so. */
  lemma GetAnswer(s: Icache, n: nat)
    requires CacheOk(s) && 1 <= n <= |s.table|
    ensures (n !in s.cached && forall i :: 0 <= i < |s.slots| ==> s.slots[i].count > 0) <==>
            Counts(s)[n - 1] == 0 && |Referred(Counts(s))| >= NR_INODES
    ensures Counts(s)[n - 1] == Refs(s, n)
  {
    hide UnusedOk, HashOk, CleanOk, Refs, Referred;
    AllTaken(s);
    RefsIs(s, n);
    if n in s.cached {
      FoundSlot(s, n);
    }
  }

  /** One request. */
  method Serve(c: Cache, q: Request) returns (ok: bool)
    requires c.Valid() && Sensible(PictureOf(c), q)
    modifies c, c.slots, c.hashInodes
    ensures c.Valid() && |c.table| == |old(c.table)| && Answers(old(PictureOf(c)), q, ok)
    ensures PictureOf(c) == After(old(PictureOf(c)), q, ok)
  {
    hide UnusedOk, HashOk, CleanOk, Inodes, Refs, Referred, OthersRefs, Counts;
    ghost var s := c.S();
    GetAnswer(s, q.ino);
    assert forall i :: 0 <= i < c.slots.Length ==> c.slots[i] == s.slots[i];
    if q.Get? {
      var i := c.GetInode(q.ino);
      ok := i != -1;
      if ok {
        CountsChanged(s, c.S(), q.ino);
      }
    } else {
      ok := ServeHolder(c, q);
    }
  }

  /** A change of an inode, or a reference given back, by somebody who has one. */
  method ServeHolder(c: Cache, q: Request) returns (ok: bool)
    requires c.Valid() && Sensible(PictureOf(c), q) && !q.Get?
    modifies c, c.slots, c.hashInodes
    ensures c.Valid() && |c.table| == |old(c.table)| && Answers(old(PictureOf(c)), q, ok)
    ensures PictureOf(c) == After(old(PictureOf(c)), q, ok)
  {
    hide UnusedOk, HashOk, CleanOk, Inodes, Refs, Referred, OthersRefs, Counts;
    ghost var s := c.S();
    RefsIs(s, q.ino);
    CountIs(s, q.ino);
    var i := c.FindInode(q.ino);
    assert c.S() == s;
    if i == -1 || c.slots[i].count == 0 {
      return false;
    }
    FoundSlot(s, q.ino);
    assert c.slots[i] == s.slots[i];
    if q.Change? {
      c.Edit(q.ino, q.odi);
      forall n: nat ensures Refs(c.S(), n) == Refs(s, n) {
        assert c.RefsTo(n) == Refs(c.S(), n);
      }
      CountsSame(s, c.S());
    } else {
      c.PutInode(i);
      CountsChanged(s, c.S(), q.ino);
    }
    return true;
  }

  lemma CountIs(s: Icache, n: nat)
    requires 1 <= n <= |s.table|
    ensures Counts(s)[n - 1] == Refs(s, n)
  {
  }

  function Replay(p: Picture, qs: seq<Request>, oks: seq<bool>, k: nat): (p2: Picture)
    requires k <= |qs| && k <= |oks| && AllSensible(p, qs)
    ensures |p2.inodes| == |p.inodes| && |p2.refs| == |p.refs|
  {
    if k == 0 then p else After(Replay(p, qs, oks, k - 1), qs[k - 1], oks[k - 1])
  }

  predicate AllSensible(p: Picture, qs: seq<Request>) {
    forall j :: 0 <= j < |qs| ==> Sensible(p, qs[j])
  }

  /** Replies to the first requests, as they should be. */
  ghost predicate Agree(p: Picture, qs: seq<Request>, oks: seq<bool>)
    requires AllSensible(p, qs)
  {
    |oks| <= |qs| && forall k :: 0 <= k < |oks| ==> Answers(Replay(p, qs, oks, k), qs[k], oks[k])
  }

  lemma OneMore(p: Picture, qs: seq<Request>, oks: seq<bool>, ok: bool)
    requires AllSensible(p, qs) && Agree(p, qs, oks) && |oks| < |qs|
    requires Answers(Replay(p, qs, oks, |oks|), qs[|oks|], ok)
    ensures Agree(p, qs, oks + [ok])
    ensures Replay(p, qs, oks + [ok], |oks| + 1) == After(Replay(p, qs, oks, |oks|), qs[|oks|], ok)
  {
    hide Answers, After;
    forall k | 0 <= k <= |oks| ensures Replay(p, qs, oks + [ok], k) == Replay(p, qs, oks, k) {
      ReplayPrefix(p, qs, oks, oks + [ok], k);
    }
  }

  /** Any run of requests acts on the cache as on a table of inodes with a count of references to each, whatever the
      cache evicts, and what nobody refers to afterwards is on disk. */
  method Run(c: Cache, qs: seq<Request>) returns (oks: seq<bool>)
    requires c.Valid() && AllSensible(PictureOf(c), qs)
    modifies c, c.slots, c.hashInodes
    ensures c.Valid() && |oks| == |qs| && Agree(old(PictureOf(c)), qs, oks)
    ensures PictureOf(c) == Replay(old(PictureOf(c)), qs, oks, |qs|)
    ensures forall k :: 0 <= k < |c.table| && PictureOf(c).refs[k] == 0 ==> c.table[k] == PictureOf(c).inodes[k]
  {
    hide CacheOk, Inodes, Refs, Answers, After, Replay, Agree;
    oks := [];
    ghost var p := PictureOf(c);
    NothingYet(p, qs);
    for i := 0 to |qs|
      invariant c.Valid() && |c.table| == |p.inodes| && |oks| == i
      invariant PictureOf(c) == Replay(p, qs, oks, i) && Agree(p, qs, oks)
    {
      var ok := Serve(c, qs[i]);
      OneMore(p, qs, oks, ok);
      oks := oks + [ok];
    }
    forall k | 0 <= k < |c.table| && PictureOf(c).refs[k] == 0 ensures c.table[k] == PictureOf(c).inodes[k] {
      OnDisk(c.S(), k + 1);
    }
  }

  lemma NothingYet(p: Picture, qs: seq<Request>)
    requires AllSensible(p, qs)
    ensures Replay(p, qs, [], 0) == p && Agree(p, qs, [])
  {
  }

  lemma {:induction false} ReplayPrefix(p: Picture, qs: seq<Request>, oks: seq<bool>, oks2: seq<bool>, k: nat)
    requires k <= |qs| && k <= |oks| && oks <= oks2 && AllSensible(p, qs)
    ensures Replay(p, qs, oks2, k) == Replay(p, qs, oks, k)
  {
    if k > 0 {
      ReplayPrefix(p, qs, oks, oks2, k - 1);
    }
  }
}
