/** Whole runs of requests against several files of a FAT12 or FAT16 volume. */
module FatRuns {
  import opened Words
  import opened BlockStore
  import opened SectorCache
  import opened FatSpec
  import opened FatChain
  import opened FatVolume
  import opened FatFileSpec
  import opened FatFile

  /** A write past the end of a file starts at its end. */
  datatype Request = Read(file: nat, offset: nat, count: nat) | Write(file: nat, offset: nat, data: seq<Byte>)

  datatype Reply = Sends(bytes: seq<Byte>) | Wrote(n: nat)

  /** The simple picture: a sequence of bytes for each file. */
  type Image = seq<seq<Byte>>

  function After(m: Image, q: Request, n: nat): (m2: Image)
    requires q.file < |m| && (q.Write? ==> n <= |q.data|)
    ensures |m2| == |m|
  {
    if q.Read? then m else
    var file := m[q.file];
    var full := Overlay(file, Least(q.offset, |file|), q.data[..n]);
    // A write cut short leaves the file's size as it was.
    m[q.file := if n == |q.data| then full else full[..|file|]]
  }

  function Count(a: Reply): nat {
    if a.Wrote? then a.n else 0
  }

  /** As many clusters as hold n bytes. */
  function Clusters(cs: nat, n: nat): nat
    requires cs > 0
  {
    if n == 0 then 0 else (n - 1) / cs + 1
  }

  /** What the picture says a reply may be, with free clusters before the request and free2 after. A write is cut short
      only when the free clusters run out, and then there were fewer than its data fills. */
  ghost predicate Answers(m: Image, q: Request, a: Reply, cs: nat, free: nat, free2: nat)
    requires q.file < |m| && cs > 0
  {
    var file := m[q.file];
    match q
    case Read(_, offset, count) =>
      && free2 == free
      && a == Sends(if offset >= |file| then [] else file[offset..offset + Least(count, |file| - offset)])
    case Write(_, _, data) =>
      && a.Wrote? && a.n <= |data|
      && free2 <= free <= free2 + Clusters(cs, |data|)
      && (a.n < |data| ==> free2 == 0 && free < Clusters(cs, |data|))
  }

  /** The nodes are different, their chains in order, long enough and without a cluster in common. */
  ghost predicate FilesOk(v: Volume, nodes: seq<FatNode>, chains: seq<seq<nat>>)
    requires v.Valid()
    reads v, v.cache, v.cache.blkTable, v.cache.hashList, nodes
  {
    && |chains| == |nodes|
    && (forall i, j :: 0 <= i < j < |nodes| ==> nodes[i] != nodes[j])
    && (forall i :: 0 <= i < |nodes| ==> NodeOk(v, nodes[i], chains[i]) && nodes[i].size <= Room(v.sb, chains[i]))
    && (forall i, j :: 0 <= i < |chains| && 0 <= j < |chains| && i != j ==> Apart(chains[i], chains[j]))
  }

  ghost function ImageOf(v: Volume, nodes: seq<FatNode>, chains: seq<seq<nat>>): (m: Image)
    requires v.Valid() && |chains| == |nodes| && ClusterSize(v.sb) > 0
    reads v, v.cache, v.cache.blkTable, v.cache.hashList, nodes
    ensures |m| == |nodes|
    ensures forall i :: 0 <= i < |m| ==> m[i] == Span(v.sb, v.F(), chains[i], 0, nodes[i].size)
  {
    var sb, f := v.sb, v.F();
    seq(|nodes|, i requires 0 <= i < |nodes| reads nodes => Span(sb, f, chains[i], 0, nodes[i].size))
  }

  ghost function FreeOf(v: Volume): nat
    requires v.Valid()
    reads v, v.cache, v.cache.blkTable, v.cache.hashList
  {
    NumFree(v.T(), v.sb.clusterCnt)
  }

  /** A chain of l0 clusters, enough for offset bytes, that has become longer for n bytes from there on. */
  lemma Growth(cs: nat, l0: nat, l: nat, offset: nat, n: nat)
    requires cs > 0 && offset <= l0 * cs && (l <= l0 || (n > 0 && l <= (offset + n - 1) / cs + 1))
    ensures l <= l0 + Clusters(cs, n)
  {
    if l > l0 {
      var q, r := (n - 1) / cs, (n - 1) % cs;
      assert n - 1 == q * cs + r;
      assert (l0 + q + 1) * cs == l0 * cs + q * cs + cs;
      DivLess(offset + n - 1, cs, l0 + q + 1);
    }
  }

  /** The chain is full after fewer than n bytes. */
  lemma GrowthShort(cs: nat, l0: nat, l: nat, offset: nat, n: nat, written: nat)
    requires cs > 0 && offset <= l0 * cs && offset + written == l * cs && written < n && l0 <= l
    ensures l < l0 + Clusters(cs, n)
  {
    var g := l - l0;
    assert l * cs == l0 * cs + g * cs;
    var q, r := (n - 1) / cs, (n - 1) % cs;
    assert n - 1 == q * cs + r;
    if g > q {
      MulStep(q, g, cs);
    }
  }

  lemma WriteGrowth(sb: FatSB, l0: seq<nat>, l: seq<nat>, offset: nat, n: nat, written: nat)
    requires ClusterSize(sb) > 0 && offset <= Room(sb, l0) && l0 <= l && written <= n
    requires |l| <= |l0| || (n > 0 && |l| <= ClusterIndex(sb, offset + n - 1) + 1)
    ensures |l0| <= |l| <= |l0| + Clusters(ClusterSize(sb), n)
    ensures written < n && offset + written == Room(sb, l) ==> |l| < |l0| + Clusters(ClusterSize(sb), n)
  {
    hide Clusters;
    Growth(ClusterSize(sb), |l0|, |l|, offset, n);
    if written < n && offset + written == Room(sb, l) {
      GrowthShort(ClusterSize(sb), |l0|, |l|, offset, n, written);
    }
  }

  /** A file after a write that was cut short. */
  lemma ShortContents(sb: FatSB, f: seq<Byte>, l: seq<nat>, f2: seq<Byte>, l2: seq<nat>, size: nat, offset: nat,
                      d: seq<Byte>)
    requires ClusterSize(sb) > 0 && Put(sb, f, l, f2, l2, size, offset, d) && offset <= size
    ensures Span(sb, f2, l2, 0, size) == Overlay(Span(sb, f, l, 0, size), offset, d)[..size]
  {
    hide FileByte;
    forall p | 0 <= p < size ensures Span(sb, f2, l2, 0, size)[p] == Overlay(Span(sb, f, l, 0, size), offset, d)[p] {
      assert 0 + p == p;
    }
  }

  /** A write to one of the files. */
  method ServeWrite(v: Volume, nodes: seq<FatNode>, q: Request, ghost chains: seq<seq<nat>>)
    returns (n: nat, ghost chains2: seq<seq<nat>>)
    requires v.Valid() && FilesOk(v, nodes, chains) && ClusterSize(v.sb) > 0 && q.Write? && q.file < |nodes|
    modifies v`startSearchCluster, v.cache, v.cache.blkTable, v.cache.hashList, nodes
    ensures v.Valid() && FilesOk(v, nodes, chains2)
    ensures Answers(old(ImageOf(v, nodes, chains)), q, Wrote(n), ClusterSize(v.sb), old(FreeOf(v)), FreeOf(v))
    ensures ImageOf(v, nodes, chains2) == After(old(ImageOf(v, nodes, chains)), q, n)
  {
    hide Cache.Valid, Cache.Bytes, ValidSB, Span, ClusterIndex, IsChain, Table, Progress, NoneFree, FatNode.HintOk,
      Overlay, NumFree, Room, Clusters, Answers, ClusterSize;
    var i, node := q.file, nodes[q.file];
    ghost var f0, m, free, size := v.F(), ImageOf(v, nodes, chains), FreeOf(v), node.size;
    var at := Least(q.offset, node.size);
    ghost var l;
    n, l := WriteFile(v, node, q.data, at, chains[i]);
    chains2 := chains[i := l];
    forall j | 0 <= j < |nodes| && j != i
      ensures v.Chain(FirstCluster(v.sb.fatType, nodes[j].firstClusterLo), chains[j]) && Apart(chains[j], l)
      ensures Span(v.sb, v.F(), chains[j], 0, nodes[j].size) == m[j]
    {
      OthersKept(v.sb, f0, chains[i], v.F(), l, size, at, q.data[..n],
                 FirstCluster(v.sb.fatType, nodes[j].firstClusterLo), chains[j], nodes[j].size);
    }
    NumFreeNone(v.T(), v.sb.clusterCnt);
    WriteGrowth(v.sb, chains[i], l, at, |q.data|, n);
    WriteAnswers(m, q, n, ClusterSize(v.sb), free, FreeOf(v), |l| - |chains[i]|);
    if n < |q.data| {
      ProgressFacts(v.sb, f0, chains[i], v.F(), l, size, at, q.data[..n]);
      ShortContents(v.sb, f0, chains[i], v.F(), l, size, at, q.data[..n]);
    }
    assert q.data[..|q.data|] == q.data;
  }

  lemma WriteAnswers(m: Image, q: Request, n: nat, cs: nat, free: nat, free2: nat, growth: int)
    requires q.Write? && q.file < |m| && cs > 0 && n <= |q.data| && free2 + growth == free
    requires 0 <= growth <= Clusters(cs, |q.data|)
    requires n < |q.data| ==> free2 == 0 && growth < Clusters(cs, |q.data|)
    ensures Answers(m, q, Wrote(n), cs, free, free2)
  {
  }

  /** One request. */
  method Serve(v: Volume, nodes: seq<FatNode>, q: Request, ghost chains: seq<seq<nat>>)
    returns (a: Reply, ghost chains2: seq<seq<nat>>)
    requires v.Valid() && FilesOk(v, nodes, chains) && ClusterSize(v.sb) > 0 && q.file < |nodes|
    modifies v`startSearchCluster, v.cache, v.cache.blkTable, v.cache.hashList, nodes
    ensures v.Valid() && FilesOk(v, nodes, chains2)
    ensures Answers(old(ImageOf(v, nodes, chains)), q, a, ClusterSize(v.sb), old(FreeOf(v)), FreeOf(v))
    ensures ImageOf(v, nodes, chains2) == After(old(ImageOf(v, nodes, chains)), q, Count(a))
  {
    hide Cache.Valid, Cache.Bytes, ValidSB, Span, ClusterIndex, IsChain, Table, FatNode.HintOk, Overlay, NumFree,
      Room, Clusters;
    if q.Write? {
      var n;
      n, chains2 := ServeWrite(v, nodes, q, chains);
      a := Wrote(n);
    } else {
      var buf := ReadFile(v, nodes[q.file], q.count, q.offset, chains[q.file]);
      chains2 := chains;
      SpanOf(v.sb, v.F(), chains[q.file], nodes[q.file].size, q.offset, buf);
      a := Sends(buf);
    }
  }

  lemma SpanOf(sb: FatSB, f: seq<Byte>, l: seq<nat>, size: nat, offset: nat, buf: seq<Byte>)
    requires ClusterSize(sb) > 0 && buf == Span(sb, f, l, offset, |buf|)
    ensures offset + |buf| <= size ==> buf == Span(sb, f, l, 0, size)[offset..offset + |buf|]
    ensures |buf| == 0 ==> buf == []
  {
    hide FileByte;
    if offset + |buf| <= size {
      SpanPart(sb, f, l, size, offset, |buf|);
    }
  }

  function Replay(m: Image, qs: seq<Request>, rs: seq<Reply>, k: nat): (m2: Image)
    requires k <= |qs| && k <= |rs| && Orderly(m, qs, rs)
    ensures |m2| == |m|
  {
    if k == 0 then m else After(Replay(m, qs, rs, k - 1), qs[k - 1], Count(rs[k - 1]))
  }

  predicate Orderly(m: Image, qs: seq<Request>, rs: seq<Reply>) {
    forall k :: 0 <= k < |qs| ==> qs[k].file < |m| && (k < |rs| && qs[k].Write? ==> Count(rs[k]) <= |qs[k].data|)
  }

  /** Replies to the first requests and the free clusters before and after each, as they should be. */
  ghost predicate Agree(m: Image, qs: seq<Request>, rs: seq<Reply>, cs: nat, free: seq<nat>) {
    && cs > 0 && |rs| == |free| - 1 <= |qs| && Orderly(m, qs, rs)
    && forall k :: 0 <= k < |rs| ==> Answers(Replay(m, qs, rs, k), qs[k], rs[k], cs, free[k], free[k + 1])
  }

  lemma NothingYet(m: Image, qs: seq<Request>, cs: nat, free: nat)
    requires cs > 0 && forall k :: 0 <= k < |qs| ==> qs[k].file < |m|
    ensures Agree(m, qs, [], cs, [free]) && Replay(m, qs, [], 0) == m
  {
  }

  lemma {:induction false} ReplayPrefix(m: Image, qs: seq<Request>, rs: seq<Reply>, rs2: seq<Reply>, k: nat)
    requires k <= |qs| && k <= |rs| && rs <= rs2 && Orderly(m, qs, rs2)
    ensures Orderly(m, qs, rs) && Replay(m, qs, rs2, k) == Replay(m, qs, rs, k)
  {
    assert Orderly(m, qs, rs);
    if k > 0 {
      ReplayPrefix(m, qs, rs, rs2, k - 1);
    }
  }

  lemma OneMore(m: Image, qs: seq<Request>, rs: seq<Reply>, cs: nat, free: seq<nat>, r: Reply, f: nat)
    requires Agree(m, qs, rs, cs, free) && |rs| < |qs|
    requires Answers(Replay(m, qs, rs, |rs|), qs[|rs|], r, cs, free[|rs|], f)
    ensures Agree(m, qs, rs + [r], cs, free + [f]) && Orderly(m, qs, rs + [r])
    ensures Replay(m, qs, rs + [r], |rs| + 1) == After(Replay(m, qs, rs, |rs|), qs[|rs|], Count(r))
  {
    assert qs[|rs|].Write? ==> Count(r) <= |qs[|rs|].data|;
    hide Answers, After;
    assert Orderly(m, qs, rs + [r]);
    forall k | 0 <= k <= |rs| ensures Replay(m, qs, rs + [r], k) == Replay(m, qs, rs, k) {
      ReplayPrefix(m, qs, rs, rs + [r], k);
    }
  }

  /** Clusters that are sure to be enough for the first k requests. */
  function Need(qs: seq<Request>, cs: nat, k: nat): nat
    requires cs > 0 && k <= |qs|
  {
    if k == 0 then 0 else Need(qs, cs, k - 1) + if qs[k - 1].Write? then Clusters(cs, |qs[k - 1].data|) else 0
  }

  lemma {:induction false} NeedMore(qs: seq<Request>, cs: nat, j: nat, k: nat)
    requires cs > 0 && j <= k <= |qs|
    ensures Need(qs, cs, j) <= Need(qs, cs, k)
  {
    hide Clusters;
    if j < k {
      NeedMore(qs, cs, j, k - 1);
    }
  }

  lemma {:induction false} Enough(m: Image, qs: seq<Request>, rs: seq<Reply>, cs: nat, free: seq<nat>, k: nat)
    requires Agree(m, qs, rs, cs, free) && k <= |rs|
    ensures free[k] + Need(qs, cs, k) >= free[0]
  {
    hide Replay, Clusters;
    if k > 0 {
      Enough(m, qs, rs, cs, free, k - 1);
      assert Answers(Replay(m, qs, rs, k - 1), qs[k - 1], rs[k - 1], cs, free[k - 1], free[k]);
    }
  }

  lemma NoneShort(m: Image, qs: seq<Request>, rs: seq<Reply>, cs: nat, free: seq<nat>, k: nat)
    requires Agree(m, qs, rs, cs, free) && k < |rs| == |qs| && free[0] >= Need(qs, cs, |qs|)
    ensures qs[k].Write? ==> rs[k] == Wrote(|qs[k].data|)
  {
    hide Replay, Clusters;
    Enough(m, qs, rs, cs, free, k);
    NeedMore(qs, cs, k + 1, |qs|);
    assert Answers(Replay(m, qs, rs, k), qs[k], rs[k], cs, free[k], free[k + 1]);
  }

  lemma SameLength(v: Volume, nodes: seq<FatNode>, chains: seq<seq<nat>>)
    requires v.Valid() && FilesOk(v, nodes, chains)
    ensures |chains| == |nodes|
  {
  }

  /** Any run of reads and writes of several files acts on them as on sequences of bytes. No write of a run is cut short
      that starts with a free cluster for each cluster its data fill. */
  method Run(v: Volume, nodes: seq<FatNode>, qs: seq<Request>, ghost chains: seq<seq<nat>>)
    returns (rs: seq<Reply>, ghost chains2: seq<seq<nat>>, ghost free: seq<nat>)
    requires v.Valid() && FilesOk(v, nodes, chains) && ClusterSize(v.sb) > 0
    requires forall k :: 0 <= k < |qs| ==> qs[k].file < |nodes|
    modifies v`startSearchCluster, v.cache, v.cache.blkTable, v.cache.hashList, nodes
    ensures v.Valid() && FilesOk(v, nodes, chains2) && |rs| == |qs|
    ensures Agree(old(ImageOf(v, nodes, chains)), qs, rs, ClusterSize(v.sb), free)
    ensures free[0] == old(FreeOf(v)) && free[|qs|] == FreeOf(v)
    ensures ImageOf(v, nodes, chains2) == Replay(old(ImageOf(v, nodes, chains)), qs, rs, |qs|)
    ensures old(FreeOf(v)) >= Need(qs, ClusterSize(v.sb), |qs|) ==>
              forall k :: 0 <= k < |qs| && qs[k].Write? ==> rs[k] == Wrote(|qs[k].data|)
  {
    hide Volume.Valid, FilesOk, ImageOf, FreeOf, Answers, After, Replay, Need, Agree;
    SameLength(v, nodes, chains);
    ghost var m, cs := ImageOf(v, nodes, chains), ClusterSize(v.sb);
    rs, chains2, free := [], chains, [FreeOf(v)];
    NothingYet(m, qs, cs, FreeOf(v));
    for i := 0 to |qs|
      invariant v.Valid() && FilesOk(v, nodes, chains2) && |chains2| == |nodes|
      invariant |rs| == i && |free| == i + 1 && free[0] == old(FreeOf(v)) && free[i] == FreeOf(v)
      invariant Agree(m, qs, rs, cs, free) && Orderly(m, qs, rs)
      invariant ImageOf(v, nodes, chains2) == Replay(m, qs, rs, i)
    {
      var a;
      a, chains2 := Serve(v, nodes, qs[i], chains2);
      SameLength(v, nodes, chains2);
      OneMore(m, qs, rs, cs, free, a, FreeOf(v));
      rs, free := rs + [a], free + [FreeOf(v)];
    }
    if free[0] >= Need(qs, cs, |qs|) {
      forall k | 0 <= k < |qs| && qs[k].Write? ensures rs[k] == Wrote(|qs[k].data|) {
        NoneShort(m, qs, rs, cs, free, k);
      }
    }
  }
}
