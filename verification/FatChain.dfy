/** Cluster chains in the table of a FAT volume, and the bytes of the files they hold. */
module FatChain {
  import opened CacheSpec
  import opened FatSpec

  /** A value the source follows as a link. */
  predicate IsLink(v: nat) {
    CLUSTER_ALLOC_MIN <= v <= CLUSTER_ALLOC_MAX
  }

  /** The clusters of a file in order. A file without clusters has an end-of-chain mark for its first cluster; the
      last cluster's entry is an end-of-chain or a bad-cluster mark. */
  ghost predicate IsChain(t: seq<nat>, first: nat, l: seq<nat>) {
    if l == [] then first == CLUSTER_EOC
    else
      && l[0] == first
      && NoDup(l)
      && (forall k :: 0 <= k < |l| ==> 2 <= l[k] < |t| && l[k] <= CLUSTER_ALLOC_MAX)
      && (forall k :: 0 <= k < |l| - 1 ==> t[l[k]] == l[k + 1])
      && (t[l[|l| - 1]] == CLUSTER_EOC || t[l[|l| - 1]] == CLUSTER_BAD)
  }

  ghost predicate Apart(l: seq<nat>, m: seq<nat>) {
    forall c: nat :: c in l ==> c !in m
  }

  /** The clusters of a chain are in use. */
  lemma ChainInUse(t: seq<nat>, first: nat, l: seq<nat>, c: nat)
    requires IsChain(t, first, l) && c in l
    ensures 2 <= c < |t| && t[c] != CLUSTER_FREE
  {
    var k :| 0 <= k < |l| && l[k] == c;
    if k < |l| - 1 {
      assert l[k + 1] >= 2;
    }
  }

  lemma ChainAtEnd(t: seq<nat>, first: nat, l: seq<nat>)
    requires IsChain(t, first, l)
    ensures first == CLUSTER_EOC <==> l == []
  {
  }

  /** What following the chain comes to after k links: its clusters, then the mark at its end. */
  function Stop(t: seq<nat>, first: nat, l: seq<nat>, k: nat): nat {
    if k < |l| then l[k] else if 0 < k <= |l| && l[k - 1] < |t| then t[l[k - 1]] else first
  }

  lemma StopNext(t: seq<nat>, first: nat, l: seq<nat>, k: nat)
    requires IsChain(t, first, l) && k <= |l| && |t| <= CLUSTER_ALLOC_MAX
    ensures k < |l| <==> IsLink(Stop(t, first, l, k))
    ensures k < |l| ==> Stop(t, first, l, k) == l[k] < |t| && t[l[k]] == Stop(t, first, l, k + 1)
    ensures Stop(t, first, l, 0) == first
  {
    if k < |l| - 1 {
      assert t[l[k]] == l[k + 1];
    }
  }

  lemma StopAt(t: seq<nat>, first: nat, l: seq<nat>, k: nat)
    requires k < |l|
    ensures Stop(t, first, l, k) == l[k]
  {
  }

  /** A free cluster goes to the end of the chain; other chains stay. */
  lemma ChainAppend(t: seq<nat>, first: nat, l: seq<nat>, c: nat)
    requires IsChain(t, first, l) && l != [] && 2 <= c < |t| <= CLUSTER_ALLOC_MAX && t[c] == CLUSTER_FREE
    ensures l[|l| - 1] < |t| && IsChain(t[c := CLUSTER_EOC][l[|l| - 1] := c], first, l + [c])
  {
    var z, t2, m := l[|l| - 1], t[c := CLUSTER_EOC][l[|l| - 1] := c], l + [c];
    if c in l {
      ChainInUse(t, first, l, c);
    }
    NoDupPush(c, l);
    forall k | 0 <= k < |m| - 1 ensures t2[m[k]] == m[k + 1] {
      assert l[k] in l;
    }
    assert z in l;
  }

  lemma ChainStart(t: seq<nat>, c: nat)
    requires 2 <= c < |t| <= CLUSTER_ALLOC_MAX
    ensures IsChain(t[c := CLUSTER_EOC], c, [c])
  {
  }

  /** A chain depends on the entries of its own clusters alone. */
  lemma ChainKept(t: seq<nat>, t2: seq<nat>, first: nat, l: seq<nat>)
    requires IsChain(t, first, l) && |t2| == |t| && forall c: nat :: c in l && c < |t| ==> t2[c] == t[c]
    ensures IsChain(t2, first, l)
  {
    assert forall k :: 0 <= k < |l| ==> l[k] in l;
  }

  /** No table has two chains from one first cluster. */
  lemma {:induction false} ChainUnique(t: seq<nat>, first: nat, l: seq<nat>, m: seq<nat>, k: nat)
    requires IsChain(t, first, l) && IsChain(t, first, m) && |t| <= CLUSTER_ALLOC_MAX && k <= |l| && k <= |m|
    ensures l[..k] == m[..k]
    ensures k == |l| <==> k == |m|
  {
    if k > 0 {
      ChainUnique(t, first, l, m, k - 1);
      if k - 1 > 0 {
        assert l[k - 2] == l[..k - 1][k - 2] == m[..k - 1][k - 2] == m[k - 2];
      }
      assert l[k - 1] == m[k - 1];
      assert (k < |l| ==> IsLink(l[k])) && (k < |m| ==> IsLink(m[k]));
    } else {
      assert (l != [] ==> l[0] == first) && (m != [] ==> m[0] == first);
    }
  }

  // ---- freeing ----

  /** Clusters met one after the other, following links from first; none twice. */
  ghost predicate Trail(t: seq<nat>, first: nat, p: seq<nat>) {
    && NoDup(p)
    && (forall k :: 0 <= k < |p| ==> IsLink(p[k]) && p[k] < |t|)
    && (forall k :: 0 <= k < |p| - 1 ==> t[p[k]] == p[k + 1])
    && (p != [] ==> p[0] == first)
  }

  /** Where a trail leads to. */
  function Next(t: seq<nat>, first: nat, p: seq<nat>): nat
    requires p != [] ==> p[|p| - 1] < |t|
  {
    if p == [] then first else t[p[|p| - 1]]
  }

  /** The trail has met all there is: it ends, or comes back to itself. */
  ghost predicate Complete(t: seq<nat>, first: nat, p: seq<nat>) {
    Trail(t, first, p) && (!IsLink(Next(t, first, p)) || Next(t, first, p) in p)
  }

  /** The table with the entries of the clusters in p freed. */
  ghost function Freed(t: seq<nat>, p: seq<nat>): (r: seq<nat>)
    ensures |r| == |t| && forall c: nat :: c < |t| ==> r[c] == if c in p then CLUSTER_FREE else t[c]
  {
    seq(|t|, c requires 0 <= c < |t| => if c in p then CLUSTER_FREE else t[c])
  }

  /** Every link stays within the table. */
  ghost predicate LinksInRange(t: seq<nat>) {
    forall c: nat :: c < |t| && IsLink(t[c]) ==> t[c] < |t|
  }

  lemma TrailStart(t: seq<nat>, first: nat)
    ensures Trail(t, first, []) && Freed(t, []) == t
  {
  }

  lemma TrailShort(t: seq<nat>, first: nat, p: seq<nat>)
    requires Trail(t, first, p)
    ensures |p| <= |t|
  {
    NoDupBound(p, |t|);
  }

  lemma TrailStep(t: seq<nat>, first: nat, p: seq<nat>)
    requires LinksInRange(t) && (IsLink(first) ==> first < |t|)
    requires Trail(t, first, p) && IsLink(Next(t, first, p))
    ensures Next(t, first, p) < |t|
    ensures Next(t, first, p) !in p ==>
              && Trail(t, first, p + [Next(t, first, p)])
              && Next(t, first, p + [Next(t, first, p)]) == t[Next(t, first, p)]
              && Freed(t, p + [Next(t, first, p)]) == Freed(t, p)[Next(t, first, p) := CLUSTER_FREE]
  {
    var n := Next(t, first, p);
    if n !in p {
      assert forall k :: 0 <= k < |p| ==> p[k] in p;
    }
  }

  function Below(n: nat): (r: set<nat>)
    ensures |r| == n && forall k: nat :: k in r <==> k < n
  {
    if n == 0 then {} else Below(n - 1) + {n - 1}
  }

  function Elements(p: seq<nat>): (s: set<nat>)
    ensures forall x :: x in s <==> x in p
  {
    set x | x in p
  }

  lemma {:induction false} DistinctSize(p: seq<nat>)
    requires NoDup(p)
    ensures |Elements(p)| == |p|
  {
    if p != [] {
      NoDupTail(p);
      assert Elements(p) == {p[0]} + Elements(p[1..]);
      DistinctSize(p[1..]);
    }
  }

  lemma {:induction false} SubsetSize(s: set<nat>, r: set<nat>)
    requires s <= r
    ensures |s| <= |r|
  {
    if s != {} {
      var x :| x in s;
      SubsetSize(s - {x}, r - {x});
    }
  }

  /** Distinct numbers below n are at most n. */
  lemma NoDupBound(p: seq<nat>, n: nat)
    requires NoDup(p) && forall k :: 0 <= k < |p| ==> p[k] < n
    ensures |p| <= n
  {
    DistinctSize(p);
    SubsetSize(Elements(p), Below(n));
  }

  /** The n-th value met from first; it stays where it is once it is no link. */
  function Nth(t: seq<nat>, first: nat, n: nat): nat {
    if n == 0 then first else
    var c := Nth(t, first, n - 1);
    if IsLink(c) && c < |t| then t[c] else c
  }

  /** What a complete trail holds is exactly what can be reached. */
  lemma CompleteIsReachable(t: seq<nat>, first: nat, p: seq<nat>, c: nat)
    requires Complete(t, first, p) && IsLink(c)
    ensures c in p <==> exists n :: Nth(t, first, n) == c
  {
    if c in p {
      var k :| 0 <= k < |p| && p[k] == c;
      NthOnTrail(t, first, p, k);
    }
    if n :| Nth(t, first, n) == c {
      NthInTrail(t, first, p, n);
    }
  }

  lemma {:induction false} NthOnTrail(t: seq<nat>, first: nat, p: seq<nat>, k: nat)
    requires Trail(t, first, p) && k < |p|
    ensures Nth(t, first, k) == p[k]
  {
    if k > 0 {
      NthOnTrail(t, first, p, k - 1);
    }
  }

  lemma {:induction false} NthInTrail(t: seq<nat>, first: nat, p: seq<nat>, n: nat)
    requires Complete(t, first, p)
    ensures IsLink(Nth(t, first, n)) ==> Nth(t, first, n) in p
  {
    if n > 0 {
      NthInTrail(t, first, p, n - 1);
      var c := Nth(t, first, n - 1);
      if IsLink(c) {
        var k :| 0 <= k < |p| && p[k] == c;
        if k < |p| - 1 {
          assert t[c] == p[k + 1];
        }
      }
    }
  }

  /** From the first cluster of a chain exactly the chain is met. */
  lemma {:induction false} TrailOfChain(t: seq<nat>, first: nat, l: seq<nat>, p: seq<nat>, k: nat)
    requires IsChain(t, first, l) && Complete(t, first, p) && |t| <= CLUSTER_ALLOC_MAX && k <= |l| && k <= |p|
    ensures l[..k] == p[..k] && (k == |l| <==> k == |p|)
  {
    if k > 0 {
      TrailOfChain(t, first, l, p, k - 1);
      if k - 1 > 0 {
        assert l[k - 2] == l[..k - 1][k - 2] == p[..k - 1][k - 2] == p[k - 2];
      }
      assert l[k - 1] == p[k - 1];
      assert l[..k] == p[..k];
      assert k < |p| ==> IsLink(p[k]);
    } else {
      assert (l != [] ==> l[0] == first) && (p != [] ==> p[0] == first);
    }
    if k == |p| && k < |l| {
      assert Next(t, first, p) == l[k];
      var j :| 0 <= j < |p| && p[j] == l[k];
      PrefixAgrees(l, p, k, j);
    }
  }

  lemma PrefixAgrees(l: seq<nat>, p: seq<nat>, k: nat, j: nat)
    requires k <= |l| && k <= |p| && l[..k] == p[..k] && j < k
    ensures l[j] == p[j]
  {
    assert l[..k][j] == l[j] && p[..k][j] == p[j];
  }
}
