/** What the operations on an inode's block map mean: the finite map the tree stands for, growth along one path,
    and pruning along one path. */
module ExtMapSpec {
  import opened Words
  import opened ExtGeometry
  import opened BlockStore
  import opened BlockTree

  /** The map from file block index to block number that inode i's tree stands for. */
  ghost function FileMap(t: Tree, g: Geometry, i: nat): map<nat, Word>
    requires ValidGeometry(g) && i in t.roots
  {
    map idx: nat | idx < FileBlocks(g) && t.At(i, LeafPath(g, idx)) != 0 :: t.At(i, LeafPath(g, idx))
  }

  lemma FileMapHas(t: Tree, g: Geometry, i: nat, idx: nat)
    requires ValidGeometry(g) && i in t.roots && idx < FileBlocks(g)
    ensures idx in FileMap(t, g, i) <==> t.At(i, LeafPath(g, idx)) != 0
    ensures idx in FileMap(t, g, i) ==> FileMap(t, g, i)[idx] == t.At(i, LeafPath(g, idx))
  {
  }

  /** Word k of block b, or NO_BLOCK where there is no such block. */
  function WordIn(st: seq<Block>, b: Word, k: nat): (w: Word)
    ensures w == WordAt(st, b, k)
  {
    if b != 0 && b < |st| && k < |st[b]| then st[b][k] else 0
  }

  /** The layout of a block map on disk: twelve direct blocks in the inode's block array r, then what one, two and three
      levels of indirect blocks, of a words each, lead to. */
  lemma MapOnDisk(t: Tree, g: Geometry, i: nat, idx: nat)
    requires ValidGeometry(g) && i in t.roots && |t.roots[i]| == 15 && idx < FileBlocks(g)
    ensures g.blockSize >= 1024
    ensures var r, st, a := t.roots[i], t.store, g.blockSize / 4;
            t.At(i, LeafPath(g, idx)) ==
            if idx < 12 then r[idx]
            else if idx < 12 + a then WordIn(st, r[12], idx - 12)
            else if idx < 12 + a + a * a then
              var j := idx - 12 - a;
              WordIn(st, WordIn(st, r[13], j / a), j % a)
            else
              var j := idx - 12 - a - a * a;
              WordIn(st, WordIn(st, WordIn(st, r[14], j / (a * a)), j % (a * a) / a), j % (a * a) % a)
  {
    var p := LeafPath(g, idx);
    assert g.addrInBlock == g.blockSize / 4 && g.addrInBlock2 == g.addrInBlock * g.addrInBlock;
    EntryOf(t.roots[i], t.store, p);
    hide Entry, WordIn;
  }

  /** An entry found by following a path, one level after the other. */
  lemma EntryOf(r: seq<Word>, st: seq<Block>, p: Path)
    requires 1 <= |p| <= 4 && p[0] < |r|
    ensures |p| == 1 ==> Entry(r, st, p) == r[p[0]]
    ensures |p| == 2 ==> Entry(r, st, p) == WordIn(st, r[p[0]], p[1])
    ensures |p| == 3 ==> Entry(r, st, p) == WordIn(st, WordIn(st, r[p[0]], p[1]), p[2])
    ensures |p| == 4 ==> Entry(r, st, p) == WordIn(st, WordIn(st, WordIn(st, r[p[0]], p[1]), p[2]), p[3])
  {
    assert Entry(r, st, p[..1]) == r[p[0]];
    if |p| >= 2 {
      assert p[..2][..1] == p[..1];
      assert Entry(r, st, p[..2]) == WordIn(st, r[p[0]], p[1]);
    }
    if |p| >= 3 {
      assert p[..3][..2] == p[..2];
      assert Entry(r, st, p[..3]) == WordIn(st, WordIn(st, r[p[0]], p[1]), p[2]);
    }
    assert p[..|p|] == p;
  }

  /** q is offs or lies above it. */
  predicate OnPath(offs: Path, q: Path) {
    |q| <= |offs| && q == offs[..|q|]
  }

  /** t2 has leaf at the data path offs of inode i, may have new indirect blocks above it where t had none, and is
      otherwise read like t. */
  ghost predicate Extends(t: Tree, t2: Tree, a: nat, i: nat, offs: Path, leaf: Word)
  {
    && t2.roots.Keys == t.roots.Keys
    && forall j, q :: j in t.roots && ValidPath(a, q) ==>
         if j == i && q == offs then t2.At(j, q) == leaf
         else t2.At(j, q) == t.At(j, q) || (j == i && |q| < |offs| && OnPath(offs, q) && t.At(j, q) == 0)
  }

  /** How many of the indirect blocks offs[..n], offs[..n + 1], ... above the data block are missing. */
  ghost function Missing(t: Tree, i: nat, offs: Path, n: nat): nat
    requires i in t.roots && n >= 1
    decreases |offs| - n
  {
    if n >= |offs| then 0
    else (if t.At(i, offs[..n]) == 0 then 1 else 0) + Missing(t, i, offs, n + 1)
  }

  /** Once the slot offs names is cleared, nothing is left in the indirect block at offs[..n]: its other slots are
      unused and the block below, if there was one, goes too. */
  ghost predicate Emptied(t: Tree, a: nat, i: nat, offs: Path, n: nat)
    requires i in t.roots && n >= 1
    decreases |offs| - n
  {
    && n < |offs|
    && t.At(i, offs[..n]) != 0
    && (forall k: nat :: k < a && k != offs[n] ==> WordAt(t.store, t.At(i, offs[..n]), k) == 0)
    && (n + 1 == |offs| || t.At(i, offs[..n + 1]) == 0 || Emptied(t, a, i, offs, n + 1))
  }

  /** t2 is t without the data block at offs and without the indirect blocks that emptied. */
  ghost predicate Pruned(t: Tree, t2: Tree, a: nat, i: nat, offs: Path)
  {
    && i in t.roots
    && t2.roots.Keys == t.roots.Keys
    && forall j, q :: j in t.roots && ValidPath(a, q) ==>
         t2.At(j, q) == if j == i && OnPath(offs, q)
             && (q == offs || Emptied(t, a, i, offs, |q|)) then 0 else t.At(j, q)
  }

  /** No reachable indirect block is empty. */
  ghost predicate NoEmptyNodes(t: Tree, a: nat) {
    forall i, p :: i in t.roots && Interior(a, p) && t.At(i, p) != 0 ==> HasChild(t, a, i, p)
  }

  ghost predicate HasChild(t: Tree, a: nat, i: nat, p: Path)
    requires i in t.roots
  {
    exists k: nat :: k < a && t.At(i, p + [k]) != 0
  }

  /** A data block entered at an index: the file's map gains that key, and every other file's map is as before. */
  lemma ExtendsFileMap(t: Tree, t2: Tree, g: Geometry, i: nat, idx: nat, leaf: Word)
    requires ValidGeometry(g) && i in t.roots && idx < FileBlocks(g) && leaf != 0
    requires Extends(t, t2, g.addrInBlock, i, LeafPath(g, idx), leaf)
    ensures FileMap(t2, g, i) == FileMap(t, g, i)[idx := leaf]
    ensures forall j :: j in t.roots && j != i ==> FileMap(t2, g, j) == FileMap(t, g, j)
  {
    hide PathOf, IndexOf, Entry;
    forall j, x: nat | j in t.roots && x < FileBlocks(g)
      ensures t2.At(j, LeafPath(g, x)) == if j == i && x == idx then leaf else t.At(j, LeafPath(g, x))
    {
      IndexOfLeafPath(g, x);
      IndexOfLeafPath(g, idx);
      LeafNotAbove(g.addrInBlock, LeafPath(g, idx), LeafPath(g, x));
    }
  }

  /** Growth that leaves the data path as it was changes no file's map. */
  lemma ExtendsNothing(t: Tree, t2: Tree, g: Geometry, i: nat, idx: nat)
    requires ValidGeometry(g) && i in t.roots && idx < FileBlocks(g)
    requires Extends(t, t2, g.addrInBlock, i, LeafPath(g, idx), t.At(i, LeafPath(g, idx)))
    ensures forall j :: j in t.roots ==> FileMap(t2, g, j) == FileMap(t, g, j)
  {
    hide PathOf, IndexOf, Entry;
    forall j, x: nat | j in t.roots && x < FileBlocks(g)
      ensures t2.At(j, LeafPath(g, x)) == t.At(j, LeafPath(g, x))
    {
      LeafNotAbove(g.addrInBlock, LeafPath(g, idx), LeafPath(g, x));
    }
  }

  lemma PrunedFileMap(t: Tree, t2: Tree, g: Geometry, i: nat, idx: nat)
    requires ValidGeometry(g) && i in t.roots && idx < FileBlocks(g)
    requires Pruned(t, t2, g.addrInBlock, i, LeafPath(g, idx))
    ensures FileMap(t2, g, i) == FileMap(t, g, i) - {idx}
    ensures forall j :: j in t.roots && j != i ==> FileMap(t2, g, j) == FileMap(t, g, j)
  {
    hide PathOf, IndexOf, Entry, Emptied;
    forall j, x: nat | j in t.roots && x < FileBlocks(g)
      ensures t2.At(j, LeafPath(g, x)) == if j == i && x == idx then 0 else t.At(j, LeafPath(g, x))
    {
      IndexOfLeafPath(g, x);
      IndexOfLeafPath(g, idx);
      LeafNotAbove(g.addrInBlock, LeafPath(g, idx), LeafPath(g, x));
    }
  }

  lemma SameFileMap(t: Tree, t2: Tree, g: Geometry)
    requires ValidGeometry(g) && SameEntries(t, t2, g.addrInBlock)
    ensures forall j :: j in t.roots ==> FileMap(t2, g, j) == FileMap(t, g, j)
  {
    hide Entry, PathOf;
  }

  /** A data path lies above no other data path. */
  lemma LeafNotAbove(a: nat, offs: Path, q: Path)
    requires IsLeaf(a, offs) && IsLeaf(a, q)
    ensures OnPath(offs, q) ==> q == offs
  {
  }

  lemma ChildEntry(t: Tree, a: nat, i: nat, p: Path, k: nat)
    requires i in t.roots && Interior(a, p) && k < a
    ensures ValidPath(a, p + [k]) && t.At(i, p + [k]) == WordAt(t.store, t.At(i, p), k)
  {
    ExtendPath(a, p, k);
  }

  lemma ExtendsAt(t: Tree, t2: Tree, a: nat, i: nat, offs: Path, leaf: Word, j: nat, q: Path)
    requires Extends(t, t2, a, i, offs, leaf) && j in t.roots && ValidPath(a, q)
    ensures j in t2.roots
    ensures if j == i && q == offs then t2.At(j, q) == leaf
            else t2.At(j, q) == t.At(j, q) || (j == i && |q| < |offs| && OnPath(offs, q) && t.At(j, q) == 0)
  {
    hide Entry;
  }

  /** Growth that ends in a data block leaves no indirect block empty. */
  lemma ExtendsKeepsNoEmpty(t: Tree, t2: Tree, a: nat, i: nat, offs: Path, leaf: Word)
    requires i in t.roots && IsLeaf(a, offs) && leaf != 0
    requires Extends(t, t2, a, i, offs, leaf) && NoEmptyNodes(t, a)
    ensures NoEmptyNodes(t2, a)
  {
    assert t2.roots.Keys == t.roots.Keys;
    hide Entry, Extends;
    forall j, p | j in t2.roots && Interior(a, p) && t2.At(j, p) != 0
      ensures HasChild(t2, a, j, p)
    {
      GrownChild(t, t2, a, i, offs, leaf, j, p);
    }
  }

  /** An indirect block that is there after growth has something in it. */
  lemma GrownChild(t: Tree, t2: Tree, a: nat, i: nat, offs: Path, leaf: Word, j: nat, p: Path)
    requires i in t.roots && IsLeaf(a, offs) && leaf != 0 && Extends(t, t2, a, i, offs, leaf)
    requires j in t.roots && j in t2.roots && Interior(a, p) && t2.At(j, p) != 0
    requires t.At(j, p) != 0 ==> HasChild(t, a, j, p)
    ensures HasChild(t2, a, j, p)
  {
    hide Entry, Extends;
    ExtendsAt(t, t2, a, i, offs, leaf, j, p);
    if j == i && OnPath(offs, p) {
      ExtendsAt(t, t2, a, i, offs, leaf, i, offs);
      assert p + [offs[|p|]] == offs[..|p| + 1];
      AboveLeaf(t2, a, i, offs, |p| + 1);
    } else {
      var k: nat :| k < a && t.At(j, p + [k]) != 0;
      ExtendPath(a, p, k);
      ExtendsAt(t, t2, a, i, offs, leaf, j, p + [k]);
    }
  }

  /** Every block above a mapped data block is there. */
  lemma {:induction false} AboveLeaf(t: Tree, a: nat, i: nat, offs: Path, n: nat)
    requires i in t.roots && 1 <= n <= |offs| && t.At(i, offs) != 0
    ensures t.At(i, offs[..n]) != 0
    decreases |offs| - n
  {
    if n == |offs| {
      assert offs[..n] == offs;
    } else {
      AboveLeaf(t, a, i, offs, n + 1);
      assert offs[..n + 1][..n] == offs[..n];
    }
  }

  /** Pruning leaves no indirect block empty. */
  lemma PrunedKeepsNoEmpty(t: Tree, t2: Tree, a: nat, i: nat, offs: Path)
    requires t.Shape(a) && i in t.roots && IsLeaf(a, offs)
    requires Pruned(t, t2, a, i, offs) && NoEmptyNodes(t, a)
    ensures NoEmptyNodes(t2, a)
  {
    assert t2.roots.Keys == t.roots.Keys;
    hide Entry, Emptied, Pruned;
    forall j, p | j in t2.roots && Interior(a, p) && t2.At(j, p) != 0
      ensures HasChild(t2, a, j, p)
    {
      PrunedAt(t, t2, a, i, offs, j, p);
      if j == i && OnPath(offs, p) {
        KeptChild(t, t2, a, i, offs, p);
      } else {
        var k: nat :| k < a && t.At(j, p + [k]) != 0;
        ExtendPath(a, p, k);
        assert (p + [k])[..|p|] == p;
        PrunedAt(t, t2, a, i, offs, j, p + [k]);
      }
    }
  }

  lemma PrunedAt(t: Tree, t2: Tree, a: nat, i: nat, offs: Path, j: nat, q: Path)
    requires Pruned(t, t2, a, i, offs) && j in t.roots && ValidPath(a, q)
    ensures t2.At(j, q) == if j == i && OnPath(offs, q)
              && (q == offs || Emptied(t, a, i, offs, |q|)) then 0 else t.At(j, q)
  {
    hide Entry, Emptied;
  }

  /** An indirect block on the path that did not empty keeps a child. */
  lemma KeptChild(t: Tree, t2: Tree, a: nat, i: nat, offs: Path, p: Path)
    requires i in t.roots && IsLeaf(a, offs) && Interior(a, p) && OnPath(offs, p) && t.At(i, p) != 0
    requires Pruned(t, t2, a, i, offs) && !Emptied(t, a, i, offs, |p|)
    ensures HasChild(t2, a, i, p)
  {
    hide Entry, Pruned;
    var n := |p|;
    PrunedAt(t, t2, a, i, offs, i, offs[..n + 1]);
    if k: nat :| k < a && k != offs[n] && WordAt(t.store, t.At(i, p), k) != 0 {
      ChildEntry(t, a, i, p, k);
      assert (p + [k])[n] != offs[n];
      PrunedAt(t, t2, a, i, offs, i, p + [k]);
    } else {
      assert p + [offs[n]] == offs[..n + 1];
      assert n + 1 < |offs| ==> !Emptied(t, a, i, offs, n + 1);
      assert n + 1 == |offs| ==> false;
    }
  }

  /** The blocks of one inode: its data blocks and the indirect blocks above them. */
  ghost function OwnedBy(owner: map<nat, Owner>, i: nat): set<nat> {
    set b | b in owner && owner[b].ino == i
  }

  lemma ReownCount(owner: map<nat, Owner>, u: nat, v: nat, o: Owner, j: nat)
    requires v != 0 ==> v !in owner
    requires u != 0 ==> u in owner && owner[u].ino == o.ino
    requires 0 !in owner
    ensures |OwnedBy(Reown(owner, u, v, o), j)| ==
            |OwnedBy(owner, j)| + (if j == o.ino && v != 0 then 1 else 0) - (if j == o.ino && u != 0 then 1 else 0)
  {
    var without := Disown(owner, u);
    DropCount(owner, u, j);
    assert v == 0 ==> Reown(owner, u, v, o) == without;
    if v != 0 {
      AddCount(without, v, o, j);
    }
  }

  lemma ReownCounts(owner: map<nat, Owner>, u: nat, v: nat, o: Owner)
    requires v != 0 ==> v !in owner
    requires u != 0 ==> u in owner && owner[u].ino == o.ino
    requires 0 !in owner
    ensures forall j ::
              |OwnedBy(Reown(owner, u, v, o), j)| ==
              |OwnedBy(owner, j)| + (if j == o.ino && v != 0 then 1 else 0) - (if j == o.ino && u != 0 then 1 else 0)
  {
    forall j
      ensures |OwnedBy(Reown(owner, u, v, o), j)| ==
              |OwnedBy(owner, j)| + (if j == o.ino && v != 0 then 1 else 0) - (if j == o.ino && u != 0 then 1 else 0)
    {
      ReownCount(owner, u, v, o, j);
    }
  }

  lemma DropCount(owner: map<nat, Owner>, u: nat, j: nat)
    ensures |OwnedBy(Disown(owner, u), j)| ==
            |OwnedBy(owner, j)| - if u in owner && owner[u].ino == j then 1 else 0
  {
    assert OwnedBy(Disown(owner, u), j) == OwnedBy(owner, j) - {u};
  }

  lemma AddCount(owner: map<nat, Owner>, v: nat, o: Owner, j: nat)
    requires v !in owner
    ensures |OwnedBy(owner[v := o], j)| == |OwnedBy(owner, j)| + if o.ino == j then 1 else 0
  {
    assert OwnedBy(owner[v := o], j) == OwnedBy(owner, j) + if o.ino == j then {v} else {};
    assert v !in OwnedBy(owner, j);
  }

  /** Who has a block after block u at one path gave way to v: u is handed to the caller, v is taken from it. */
  function Rehold(held: set<nat>, u: nat, v: nat): set<nat> {
    held - {v} + if u == 0 then {} else {u}
  }

  lemma SameUse(owner: map<nat, Owner>, held: set<nat>, u: nat, v: nat, o: Owner)
    requires owner.Keys !! held && 0 !in owner && 0 !in held
    requires (u != 0 ==> u in owner) && (v != 0 ==> v in held)
    ensures Reown(owner, u, v, o).Keys + Rehold(held, u, v) == owner.Keys + held
    ensures Reown(owner, u, v, o).Keys !! Rehold(held, u, v)
  {
  }

  /** One more missing indirect block supplied: still growth along the path. */
  lemma ExtendsMore(t: Tree, t1: Tree, t2: Tree, a: nat, i: nat, offs: Path, n: nat, v: Word)
    requires i in t.roots && IsLeaf(a, offs) && 1 <= n < |offs|
    requires Extends(t, t1, a, i, offs, t.At(i, offs))
    requires ChangedAt(t1, t2, a, i, offs[..n], v)
    requires t1.At(i, offs[..n]) == t.At(i, offs[..n])
    requires t.At(i, offs[..n]) != 0 ==> v == t.At(i, offs[..n])
    ensures Extends(t, t2, a, i, offs, t.At(i, offs))
    ensures forall m :: n < m <= |offs| ==> t2.At(i, offs[..m]) == t1.At(i, offs[..m])
  {
    hide Entry;
    forall m | n < m <= |offs| ensures t2.At(i, offs[..m]) == t1.At(i, offs[..m]) {
      PathPrefix(a, offs, m);
      assert |offs[..m]| != |offs[..n]|;
    }
  }

  /** The data block put in place at the end. */
  lemma ExtendsLast(t: Tree, t1: Tree, t2: Tree, a: nat, i: nat, offs: Path, v: Word)
    requires i in t.roots && IsLeaf(a, offs)
    requires Extends(t, t1, a, i, offs, t.At(i, offs)) && ChangedAt(t1, t2, a, i, offs, v)
    ensures Extends(t, t2, a, i, offs, v)
  {
    hide Entry;
  }

  lemma PathPrefix(a: nat, p: Path, n: nat)
    requires ValidPath(a, p) && 1 <= n <= |p|
    ensures ValidPath(a, p[..n]) && (n < |p| ==> Interior(a, p[..n]))
    ensures p[..n] == p[..n - 1] + [p[n - 1]]
  {
  }

  lemma PathStep(a: nat, p: Path, n: nat)
    requires 1 <= n < |p| && Interior(a, p[..n + 1])
    ensures p[..n + 1] == p[..n] + [p[n]] && Interior(a, p[..n]) && p[n] < a
    ensures ValidPath(a, p[..n]) && ValidPath(a, p[..n + 1])
  {
    assert p[..n + 1][n] == p[n];
  }

  lemma LeafSplit(a: nat, p: Path)
    requires IsLeaf(a, p) && |p| > 1
    ensures Interior(a, p[..|p| - 1]) && ValidPath(a, p[..|p| - 1]) && ValidPath(a, p) && !Interior(a, p)
    ensures p == p[..|p| - 1] + [p[|p| - 1]] && p[|p| - 1] < a
  {
  }

  lemma LeafPrefix(a: nat, p: Path, n: nat)
    requires IsLeaf(a, p) && 1 <= n < |p|
    ensures Interior(a, p[..n]) && ValidPath(a, p[..n])
  {
  }

  /** A 32-bit sector count x after n blocks of s sectors have been added. */
  function AfterCharge(x: Word, s: nat, n: int): Word {
    (x + s * n) % U32
  }

  lemma ChargeNone(x: Word, s: nat)
    ensures AfterCharge(x, s, 0) == x
  {
  }

  /** `+=` and `-=` of one block's sectors on the 32-bit counter. */
  lemma ChargeOnce(x: Word, s: nat, n: int)
    ensures (AfterCharge(x, s, n) + s) % U32 == AfterCharge(x, s, n + 1)
    ensures (AfterCharge(x, s, n) - s) % U32 == AfterCharge(x, s, n - 1)
  {
    assert s * (n + 1) == s * n + s;
    assert s * (n - 1) == s * n - s;
    WrapOnce(x + s * n, s);
  }

  lemma WrapOnce(y: int, s: int)
    ensures (y % U32 + s) % U32 == (y + s) % U32
    ensures (y % U32 - s) % U32 == (y - s) % U32
  {
  }

  lemma ChargeMore(x: Word, s: nat, n: int, m: int)
    ensures AfterCharge(AfterCharge(x, s, n), s, m) == AfterCharge(x, s, n + m)
  {
    assert s * (n + m) == s * n + s * m;
    WrapOnce(x + s * n, s * m);
  }

  lemma ExtendsRefl(t: Tree, a: nat, i: nat, offs: Path)
    requires i in t.roots && |offs| >= 1
    ensures Extends(t, t, a, i, offs, t.At(i, offs))
  {
  }

  lemma ChangedNothing(t: Tree, t2: Tree, a: nat, i: nat, p: Path)
    requires i in t.roots && |t2.store| == |t.store| && SameEntries(t, t2, a) && ValidPath(a, p)
    ensures ChangedAt(t, t2, a, i, p, t.At(i, p))
  {
  }

  lemma ChangedAfterSame(t: Tree, t1: Tree, t2: Tree, a: nat, i: nat, p: Path, v: Word)
    requires i in t.roots && |t1.store| == |t.store| && SameEntries(t, t1, a) && ChangedAt(t1, t2, a, i, p, v)
    ensures ChangedAt(t, t2, a, i, p, v)
  {
    hide Entry;
  }

  /** The blocks in use that hold no slots, told from the owners and the callers' blocks. */
  ghost function DataBlocks(a: nat, owner: map<nat, Owner>, held: set<nat>): set<nat> {
    set b | b in owner.Keys + held && !(b in owner && Interior(a, owner[b].path))
  }

  /** An indirect block taken out of the tree becomes a block in the caller's hands. */
  lemma DataAfterUnlink(a: nat, owner: map<nat, Owner>, held: set<nat>, u: nat, o: Owner)
    requires u in owner && u !in held && u != 0 && 0 !in owner && 0 !in held && Interior(a, owner[u].path)
    ensures DataBlocks(a, Reown(owner, u, 0, o), Rehold(held, u, 0)) == DataBlocks(a, owner, held) + {u}
  {
  }

  /** A data block exchanged for another stays a data block. */
  lemma DataAfterSwap(a: nat, owner: map<nat, Owner>, held: set<nat>, u: nat, v: nat, o: Owner)
    requires owner.Keys !! held && 0 !in owner && 0 !in held && !Interior(a, o.path)
    requires v != 0 ==> v in held
    requires u != 0 ==> u in owner && !Interior(a, owner[u].path)
    ensures DataBlocks(a, Reown(owner, u, v, o), Rehold(held, u, v)) == DataBlocks(a, owner, held)
  {
  }

  lemma DataTaken(a: nat, owner: map<nat, Owner>, held: set<nat>, b: nat)
    requires b !in owner
    ensures DataBlocks(a, owner, held + {b}) == DataBlocks(a, owner, held) + {b}
  {
  }

  lemma DataGiven(a: nat, owner: map<nat, Owner>, held: set<nat>, b: nat)
    requires b !in owner
    ensures DataBlocks(a, owner, held - {b}) == DataBlocks(a, owner, held) - {b}
  {
  }

  lemma NodeIsNotData(a: nat, owner: map<nat, Owner>, held: set<nat>, b: nat)
    requires b in owner && Interior(a, owner[b].path)
    ensures b !in DataBlocks(a, owner, held)
  {
  }

  lemma LeafIsData(a: nat, owner: map<nat, Owner>, held: set<nat>, b: nat)
    requires b in owner && IsLeaf(a, owner[b].path)
    ensures b in DataBlocks(a, owner, held)
  {
  }

  /** A block taken from the free list and linked at once: the caller is left with what it had. */
  lemma LinkedAtOnce(a: nat, owner: map<nat, Owner>, held: set<nat>, v: nat, o: Owner)
    requires v !in held && v !in owner && v != 0 && 0 !in owner && 0 !in held && Interior(a, o.path)
    ensures Rehold(held + {v}, 0, v) == held
    ensures DataBlocks(a, Reown(owner, 0, v, o), held) == DataBlocks(a, owner, held + {v}) - {v}
    ensures DataBlocks(a, owner, held + {v}) - {v} == DataBlocks(a, owner, held)
  {
  }

  /** The step of Missing at one level. */
  lemma MissingStep(t: Tree, i: nat, offs: Path, n: nat)
    requires i in t.roots && 1 <= n < |offs|
    ensures Missing(t, i, offs, n) == (if t.At(i, offs[..n]) == 0 then 1 else 0) + Missing(t, i, offs, n + 1)
  {
  }

  lemma MissingEnd(t: Tree, i: nat, offs: Path)
    requires i in t.roots && |offs| >= 1
    ensures Missing(t, i, offs, |offs|) == 0
  {
  }

  lemma {:induction false} MissingAtMost(t: Tree, i: nat, offs: Path, n: nat)
    requires i in t.roots && 1 <= n <= |offs|
    ensures Missing(t, i, offs, n) <= |offs| - n
    decreases |offs| - n
  {
    if n < |offs| {
      MissingAtMost(t, i, offs, n + 1);
    }
  }

  lemma ExtendsSame(t: Tree, t1: Tree, t2: Tree, a: nat, i: nat, offs: Path, leaf: Word)
    requires Extends(t, t1, a, i, offs, leaf) && SameEntries(t1, t2, a)
    ensures Extends(t, t2, a, i, offs, leaf)
  {
    hide Entry;
  }

  /** The blocks of d have the same content in both stores. */
  ghost predicate SameBlocks(d: set<nat>, st: seq<Block>, st2: seq<Block>) {
    |st2| == |st| && forall b: nat :: b in d && b < |st| ==> st2[b] == st[b]
  }

  lemma SameBlocksTrans(d: set<nat>, st: seq<Block>, st1: seq<Block>, st2: seq<Block>)
    requires SameBlocks(d, st, st1) && SameBlocks(d, st1, st2)
    ensures SameBlocks(d, st, st2)
  {
  }

  lemma SameBlocksRefl(d: set<nat>, st: seq<Block>)
    ensures SameBlocks(d, st, st)
  {
  }

  lemma SameBlocksLess(d: set<nat>, e: set<nat>, st: seq<Block>, st2: seq<Block>)
    requires SameBlocks(d, st, st2) && e <= d
    ensures SameBlocks(e, st, st2)
  {
  }

  /** A write to a slot-holding block does not touch data. */
  lemma SameBlocksPut(d: set<nat>, st: seq<Block>, b: nat, k: nat, v: Word)
    requires b < |st| && k < |st[b]| && b !in d
    ensures SameBlocks(d, st, PutWord(st, b, k, v))
  {
  }

  /** What an operation on inode i's block map can see: the trees, the callers' blocks, the free count, i_blocks. */
  datatype Snap = Snap(t: Tree, held: set<nat>, free: nat, sectors: Word)

  ghost predicate SameData(s: Snap, s2: Snap, a: nat) {
    && DataBlocks(a, s2.t.owner, s2.held) == DataBlocks(a, s.t.owner, s.held)
    && SameBlocks(DataBlocks(a, s.t.owner, s.held), s.t.store, s2.t.store)
  }

  /** Inode i owns n more blocks (fewer, for negative n) and every other inode as many as before. */
  ghost predicate Counted(s: Snap, s2: Snap, i: nat, n: int) {
    forall j :: |OwnedBy(s2.t.owner, j)| == |OwnedBy(s.t.owner, j)| + if j == i then n else 0
  }

  /** Whatever grew or shrank, the callers' blocks, the data, the counts and i_blocks went along with it: n blocks
      were added to inode i and charged to it. */
  ghost predicate Charged(s: Snap, s2: Snap, a: nat, sec: nat, i: nat, n: int) {
    && s2.held == s.held
    && s2.free == s.free - n
    && SameData(s, s2, a)
    && Counted(s, s2, i, n)
    && s2.sectors == AfterCharge(s.sectors, sec, n)
  }

  lemma ChargedTrans(s: Snap, s1: Snap, s2: Snap, a: nat, sec: nat, i: nat, n: int, m: int)
    requires Charged(s, s1, a, sec, i, n) && Charged(s1, s2, a, sec, i, m)
    ensures Charged(s, s2, a, sec, i, n + m)
  {
    hide SameBlocks, AfterCharge, OwnedBy, DataBlocks;
    SameBlocksTrans(DataBlocks(a, s.t.owner, s.held), s.t.store, s1.t.store, s2.t.store);
    ChargeMore(s.sectors, sec, n, m);
  }

  lemma ChargedRefl(s: Snap, a: nat, sec: nat, i: nat)
    ensures Charged(s, s, a, sec, i, 0)
  {
    ChargeNone(s.sectors, sec);
  }

  /** An indirect block was found at path p of inode i, or supplied there, or (0) none was left to supply. */
  ghost predicate Supplied(s: Snap, s2: Snap, a: nat, sec: nat, i: nat, p: Path, block: nat) {
    && i in s.t.roots && |p| >= 1
    && var u := s.t.At(i, p);
       && (if block == 0 then u == 0 && s.free == 0 && SameEntries(s.t, s2.t, a)
           else block < U32 && ChangedAt(s.t, s2.t, a, i, p, block) && (u != 0 ==> block == u))
       && Charged(s, s2, a, sec, i, if u == 0 && block != 0 then 1 else 0)
  }

  /** Part way down: made indirect blocks have been supplied on the first n levels of the path, and nothing else. */
  ghost predicate Growing(s: Snap, s2: Snap, a: nat, sec: nat, i: nat, offs: Path, n: nat, made: nat) {
    && i in s.t.roots && 1 <= n <= |offs|
    && Extends(s.t, s2.t, a, i, offs, s.t.At(i, offs))
    && (forall m :: n < m <= |offs| ==> s2.t.At(i, offs[..m]) == s.t.At(i, offs[..m]))
    && made + Missing(s.t, i, offs, n + 1) == Missing(s.t, i, offs, 1)
    && Charged(s, s2, a, sec, i, made)
  }

  lemma GrowFirst(s: Snap, s2: Snap, a: nat, sec: nat, i: nat, offs: Path, block: nat)
    requires IsLeaf(a, offs) && |offs| > 1 && block != 0 && Supplied(s, s2, a, sec, i, offs[..1], block)
    ensures Growing(s, s2, a, sec, i, offs, 1, if s.t.At(i, offs[..1]) == 0 then 1 else 0)
    ensures s2.t.At(i, offs[..1]) == block
  {
    hide Charged, Entry, Extends;
    PathPrefix(a, offs, 1);
    ExtendsRefl(s.t, a, i, offs);
    MissingStep(s.t, i, offs, 1);
    ExtendsMore(s.t, s.t, s2.t, a, i, offs, 1, block);
  }

  lemma GrowStep(s: Snap, s1: Snap, s2: Snap, a: nat, sec: nat, i: nat, offs: Path, n: nat, made: nat, block: nat)
    requires IsLeaf(a, offs) && 1 <= n && n + 1 < |offs| && block != 0
    requires Growing(s, s1, a, sec, i, offs, n, made)
    requires Supplied(s1, s2, a, sec, i, offs[..n + 1], block)
    ensures Growing(s, s2, a, sec, i, offs, n + 1, made + if s.t.At(i, offs[..n + 1]) == 0 then 1 else 0)
    ensures s2.t.At(i, offs[..n + 1]) == block
  {
    hide Charged, Entry, Extends;
    PathPrefix(a, offs, n + 1);
    MissingStep(s.t, i, offs, n + 1);
    ExtendsMore(s.t, s1.t, s2.t, a, i, offs, n + 1, block);
    ChargedTrans(s, s1, s2, a, sec, i, made, if s.t.At(i, offs[..n + 1]) == 0 then 1 else 0);
  }

  /** The free blocks ran out at some level of the path. */
  ghost predicate RanOut(s: Snap, s2: Snap, a: nat, sec: nat, i: nat, offs: Path, made: nat) {
    && i in s.t.roots && |offs| >= 1
    && Extends(s.t, s2.t, a, i, offs, s.t.At(i, offs))
    && Charged(s, s2, a, sec, i, made)
    && s2.free == 0
    && s.free < Missing(s.t, i, offs, 1)
    && i in s2.t.roots && Missing(s2.t, i, offs, 1) > 0
  }

  /** One indirect block that is not there makes the count positive. */
  lemma {:induction false} MissingHere(t: Tree, i: nat, offs: Path, m: nat, n: nat)
    requires i in t.roots && 1 <= m <= n < |offs| && t.At(i, offs[..n]) == 0
    ensures Missing(t, i, offs, m) > 0
    decreases n - m
  {
    if m < n {
      MissingHere(t, i, offs, m + 1, n);
    }
  }

  lemma RanOutFirst(s: Snap, s2: Snap, a: nat, sec: nat, i: nat, offs: Path)
    requires |offs| > 1 && IsLeaf(a, offs) && Supplied(s, s2, a, sec, i, offs[..1], 0)
    ensures RanOut(s, s2, a, sec, i, offs, 0)
  {
    hide Entry, Extends, SameData, Counted, AfterCharge;
    ExtendsRefl(s.t, a, i, offs);
    ExtendsSame(s.t, s.t, s2.t, a, i, offs, s.t.At(i, offs));
    PathPrefix(a, offs, 1);
    MissingStep(s.t, i, offs, 1);
    MissingHere(s2.t, i, offs, 1, 1);
  }

  lemma RanOutLater(s: Snap, s1: Snap, s2: Snap, a: nat, sec: nat, i: nat, offs: Path, n: nat, made: nat)
    requires 1 <= n && n + 1 < |offs| && IsLeaf(a, offs)
    requires Growing(s, s1, a, sec, i, offs, n, made) && Supplied(s1, s2, a, sec, i, offs[..n + 1], 0)
    ensures RanOut(s, s2, a, sec, i, offs, made)
  {
    hide Entry, Extends, SameData, Counted, AfterCharge;
    ExtendsSame(s.t, s1.t, s2.t, a, i, offs, s.t.At(i, offs));
    PathPrefix(a, offs, n + 1);
    ChargedTrans(s, s1, s2, a, sec, i, made, 0);
    MissingStep(s.t, i, offs, n + 1);
    MissingHere(s2.t, i, offs, 1, n + 1);
  }

  /** A block linked to inode i's tree straight from the free list. */
  lemma ChargedLink(s: Snap, s2: Snap, a: nat, sec: nat, i: nat, v: nat, o: Owner)
    requires v !in s.held && v !in s.t.owner && v != 0 && 0 !in s.t.owner && 0 !in s.held
    requires Interior(a, o.path) && o.ino == i
    requires s2.t.owner == Reown(s.t.owner, 0, v, o) && s2.held == Rehold(s.held + {v}, 0, v)
    requires s2.free == s.free - 1 && s2.sectors == AfterCharge(s.sectors, sec, 1)
    requires SameBlocks(DataBlocks(a, s.t.owner, s.held), s.t.store, s2.t.store)
    ensures Charged(s, s2, a, sec, i, 1)
  {
    hide SameBlocks, AfterCharge;
    LinkedAtOnce(a, s.t.owner, s.held, v, o);
    ReownCounts(s.t.owner, 0, v, o);
  }

  /** An indirect block unlinked from inode i's tree and given back to the free list. */
  lemma ChargedUnlink(s: Snap, s2: Snap, a: nat, sec: nat, i: nat, u: nat, o: Owner)
    requires u in s.t.owner && u !in s.held && 0 !in s.t.owner && 0 !in s.held
    requires s.t.owner[u] == o && Interior(a, o.path) && o.ino == i
    requires s2.t.owner == Reown(s.t.owner, u, 0, o) && s2.held == Rehold(s.held, u, 0) - {u}
    requires s2.free == s.free + 1 && s2.sectors == AfterCharge(s.sectors, sec, -1)
    requires SameBlocks(DataBlocks(a, s.t.owner, s.held), s.t.store, s2.t.store)
    ensures Charged(s, s2, a, sec, i, -1)
  {
    hide SameBlocks, AfterCharge;
    assert s2.held == s.held;
    assert DataBlocks(a, s2.t.owner, s2.held) == DataBlocks(a, s.t.owner, s.held);
    ReownCounts(s.t.owner, u, 0, o);
  }

  /** s2 is s with the data slot clear and without the emptied indirect blocks below level n. */
  ghost predicate PrunedBelow(s: Tree, s2: Tree, a: nat, i: nat, offs: Path, n: nat) {
    && i in s.roots
    && s2.roots.Keys == s.roots.Keys
    && forall j, q :: j in s.roots && ValidPath(a, q) ==>
         s2.At(j, q) == if j == i && OnPath(offs, q) && (q == offs || (|q| > n && Emptied(s, a, i, offs, |q|)))
                        then 0 else s.At(j, q)
  }

  /** Part way up: pruned below level n + 1, and the indirect block at that level is empty or not. */
  ghost predicate Pruning(s: Tree, s2: Tree, a: nat, i: nat, offs: Path, n: nat, empty: bool) {
    && n < |offs| && |s2.store| == |s.store|
    && PrunedBelow(s, s2, a, i, offs, n + 1)
    && (empty <==> Emptied(s, a, i, offs, n + 1))
    && (empty ==> s2.EmptyBlock(s.At(i, offs[..n + 1])))
  }

  lemma EmptiedFacts(s: Tree, a: nat, i: nat, offs: Path, n: nat)
    requires i in s.roots && n >= 1
    ensures Emptied(s, a, i, offs, n) ==> n < |offs| && s.At(i, offs[..n]) != 0
  {
  }

  /** Before the way up starts: the data slot, if there was one, has been cleared. */
  lemma PruneStart(s: Tree, s2: Tree, a: nat, i: nat, offs: Path, n: nat)
    requires i in s.roots && IsLeaf(a, offs) && 1 <= n < |offs| && |s2.store| == |s.store|
    requires ChangedAt(s, s2, a, i, offs, 0)
    requires n + 1 < |offs| ==> s.At(i, offs[..n + 1]) == 0
    ensures Pruning(s, s2, a, i, offs, n, false)
  {
    hide Entry, Emptied;
    EmptiedFacts(s, a, i, offs, n + 1);
    forall j, q | j in s.roots && ValidPath(a, q) && j == i && OnPath(offs, q) && |q| > n + 1
      ensures s.At(j, q) == 0
    {
      AbsentBelow(s, i, offs, n + 1, |q|);
    }
  }

  /** Below a missing block everything is missing. */
  lemma {:induction false} AbsentBelow(t: Tree, i: nat, offs: Path, n: nat, m: nat)
    requires i in t.roots && 1 <= n <= m <= |offs| && t.At(i, offs[..n]) == 0
    ensures t.At(i, offs[..m]) == 0
  {
    if n < m {
      AbsentBelow(t, i, offs, n, m - 1);
      assert offs[..m][..m - 1] == offs[..m - 1];
    }
  }

  /** The slots of the indirect block at level n, after the emptied block below it, if any, has been unlinked. */
  lemma PruneSlot(s: Tree, s2: Tree, a: nat, i: nat, offs: Path, n: nat, k: nat)
    requires IsLeaf(a, offs) && 1 <= n < |offs| && k < a
    requires PrunedBelow(s, s2, a, i, offs, n) && s.At(i, offs[..n]) != 0
    ensures WordAt(s2.store, s.At(i, offs[..n]), k) ==
            if k == offs[n] then (if n + 1 == |offs| || Emptied(s, a, i, offs, n + 1)
                then 0 else s.At(i, offs[..n + 1]))
            else WordAt(s.store, s.At(i, offs[..n]), k)
  {
    hide Entry, Emptied;
    PathPrefix(a, offs, n);
    var p := offs[..n];
    ChildEntry(s, a, i, p, k);
    ChildEntry(s2, a, i, p, k);
    assert s2.At(i, p) == s.At(i, p);
    if k == offs[n] {
      assert p + [k] == offs[..n + 1];
    } else {
      assert (p + [k])[n] != offs[n];
      assert !OnPath(offs, p + [k]);
    }
  }

  /** The test for emptiness finds out what Emptied says. */
  lemma PruneTest(s: Tree, s2: Tree, a: nat, i: nat, offs: Path, n: nat, empty: bool)
    requires i in s.roots && IsLeaf(a, offs) && 1 <= n < |offs|
    requires PrunedBelow(s, s2, a, i, offs, n) && s.At(i, offs[..n]) != 0
    requires empty <==> forall k: nat :: k < a ==> WordAt(s2.store, s.At(i, offs[..n]), k) == 0
    ensures empty <==> Emptied(s, a, i, offs, n)
  {
    hide Entry, PrunedBelow;
    assert offs[n] < a;
    var b := s.At(i, offs[..n]);
    forall k: nat | k < a
      ensures WordAt(s2.store, b, k) ==
              if k == offs[n] then (if n + 1 == |offs| || Emptied(s, a, i, offs, n + 1)
                  then 0 else s.At(i, offs[..n + 1]))
              else WordAt(s.store, b, k)
    {
      PruneSlot(s, s2, a, i, offs, n, k);
    }
    var below := WordAt(s2.store, b, offs[n]);
    assert below == 0 <==> n + 1 == |offs| || Emptied(s, a, i, offs, n + 1) || s.At(i, offs[..n + 1]) == 0;
    assert empty ==> forall k: nat :: k < a && k != offs[n] ==> WordAt(s.store, b, k) == WordAt(s2.store, b, k) == 0;
    if Emptied(s, a, i, offs, n) {
      forall k: nat | k < a ensures WordAt(s2.store, b, k) == 0 {
        PruneSlot(s, s2, a, i, offs, n, k);
      }
    }
  }

  lemma PruneUnlinked(s: Tree, s1: Tree, s2: Tree, a: nat, i: nat, offs: Path, n: nat, below: bool)
    requires IsLeaf(a, offs) && 1 <= n < |offs|
    requires PrunedBelow(s, s1, a, i, offs, n + 1) && (below <==> Emptied(s, a, i, offs, n + 1))
    requires if below then ChangedAt(s1, s2, a, i, offs[..n + 1], 0) else SameEntries(s1, s2, a)
    ensures PrunedBelow(s, s2, a, i, offs, n)
  {
    hide Entry, Emptied;
    EmptiedFacts(s, a, i, offs, n + 1);
  }

  lemma PruneStep(s: Tree, s1: Tree, s2: Tree, a: nat, i: nat, offs: Path, n: nat, below: bool, empty: bool)
    requires i in s.roots && IsLeaf(a, offs) && 1 <= n < |offs| && Pruning(s, s1, a, i, offs, n, below)
    requires |s2.store| == |s.store| && s2.Shape(a)
    requires if below then ChangedAt(s1, s2, a, i, offs[..n + 1], 0) else SameEntries(s1, s2, a)
    requires s.At(i, offs[..n]) != 0
    requires empty <==> forall k: nat :: k < a ==> WordAt(s2.store, s.At(i, offs[..n]), k) == 0
    ensures Pruning(s, s2, a, i, offs, n - 1, empty)
  {
    hide Entry, PrunedBelow, Emptied, IsLeaf;
    PruneUnlinked(s, s1, s2, a, i, offs, n, below);
    PruneTest(s, s2, a, i, offs, n, empty);
  }

  lemma PruneDone(s: Tree, s1: Tree, s2: Tree, a: nat, i: nat, offs: Path, empty: bool)
    requires IsLeaf(a, offs) && 1 < |offs| && Pruning(s, s1, a, i, offs, 0, empty)
    requires if empty then ChangedAt(s1, s2, a, i, offs[..1], 0) else SameEntries(s1, s2, a)
    ensures Pruned(s, s2, a, i, offs)
  {
    hide Entry, Emptied;
    EmptiedFacts(s, a, i, offs, 1);
  }

  /** Nothing was linked or unlinked. */
  lemma ChargedIdle(s: Snap, s2: Snap, a: nat, sec: nat, i: nat)
    requires s2.t.owner == s.t.owner && s2.held == s.held && s2.free == s.free && s2.sectors == s.sectors
    requires SameBlocks(DataBlocks(a, s.t.owner, s.held), s.t.store, s2.t.store)
    ensures Charged(s, s2, a, sec, i, 0)
  {
    ChargeNone(s.sectors, sec);
  }

  /** What enter_map_entry has done when it returns, successfully or out of space; u is the data block it found. */
  ghost predicate EnterDone(s: Snap, s2: Snap, a: nat, sec: nat, i: nat, offs: Path, v: Word, ok: bool) {
    && i in s.t.roots && IsLeaf(a, offs)
    && var u := s.t.At(i, offs);
       && Extends(s.t, s2.t, a, i, offs, if ok then v else u)
       && (ok <==> s.free >= Missing(s.t, i, offs, 1))
       && (!ok ==> s2.free == 0 && i in s2.t.roots && Missing(s2.t, i, offs, 1) > 0)
       && (ok ==> s2.free == s.free - Missing(s.t, i, offs, 1))
       && s2.held == (if ok then Rehold(s.held, u, v) else s.held)
       && SameData(s, s2, a)
       && Counted(s, s2, i, s.free - s2.free + if ok && u == 0 then 1 else 0)
       && s2.sectors == AfterCharge(s.sectors, sec, s.free - s2.free + if ok then 1 else 0)
  }

  lemma EnterFacts(s: Snap, s2: Snap, a: nat, sec: nat, i: nat, offs: Path, v: Word, ok: bool)
    requires EnterDone(s, s2, a, sec, i, offs, v, ok)
    ensures i in s.t.roots && |offs| >= 1
    ensures Extends(s.t, s2.t, a, i, offs, if ok then v else s.t.At(i, offs))
    ensures ok <==> s.free >= Missing(s.t, i, offs, 1)
    ensures !ok ==> s2.free == 0 && i in s2.t.roots && Missing(s2.t, i, offs, 1) > 0
    ensures ok ==> s2.free == s.free - Missing(s.t, i, offs, 1)
    ensures s2.held == if ok then Rehold(s.held, s.t.At(i, offs), v) else s.held
    ensures SameData(s, s2, a)
    ensures forall j :: j != i ==> |OwnedBy(s2.t.owner, j)| == |OwnedBy(s.t.owner, j)|
  {
    hide Extends, Entry, Missing, Rehold, SameData, OwnedBy;
  }

  /** i_blocks goes up by the sectors of the blocks linked: the indirect blocks taken, and the data block. */
  lemma EnterSectors(s: Snap, s2: Snap, a: nat, sec: nat, i: nat, offs: Path, v: Word, ok: bool)
    requires EnterDone(s, s2, a, sec, i, offs, v, ok)
    ensures s2.sectors == (s.sectors + sec * (s.free - s2.free + if ok then 1 else 0)) % U32
  {
    hide Extends, Missing, Rehold, SameData, Counted;
  }

  /** i_blocks goes down by the sectors of the indirect blocks freed, and of one block when the slot was reached. */
  lemma DeleteSectors(s: Snap, s2: Snap, a: nat, sec: nat, i: nat, offs: Path)
    requires DeleteDone(s, s2, a, sec, i, offs)
    ensures i in s.t.roots && |offs| >= 1
    ensures var reached := |offs| == 1 || s.t.At(i, offs[..|offs| - 1]) != 0;
            s2.sectors == (s.sectors - sec * (s2.free - s.free + if reached then 1 else 0)) % U32
  {
    hide Pruned, Entry, Rehold, SameData, Counted;
    var n := s.free - s2.free - if |offs| == 1 || s.t.At(i, offs[..|offs| - 1]) != 0 then 1 else 0;
    assert sec * n == -(sec * -n);
  }

  lemma EnterRanOut(s: Snap, s2: Snap, a: nat, sec: nat, i: nat, offs: Path, v: Word, made: nat)
    requires RanOut(s, s2, a, sec, i, offs, made) && IsLeaf(a, offs)
    ensures EnterDone(s, s2, a, sec, i, offs, v, false)
  {
    hide Extends, SameData, Counted, AfterCharge, Missing;
  }

  /** The last step: the data block goes into its slot. s1 is the state before it, s2 after. */
  lemma EnterLast(s: Snap, s1: Snap, s2: Snap, a: nat, sec: nat, i: nat, offs: Path, v: Word, made: nat)
    requires i in s.t.roots && IsLeaf(a, offs) && v != 0 && v in s1.held
    requires Extends(s.t, s1.t, a, i, offs, s.t.At(i, offs)) && s1.t.At(i, offs) == s.t.At(i, offs)
    requires Charged(s, s1, a, sec, i, made) && made == Missing(s.t, i, offs, 1) && s.free >= made
    requires s1.t.owner.Keys !! s1.held && 0 !in s1.t.owner && 0 !in s1.held
    requires s.t.At(i, offs) != 0 ==> s.t.At(i, offs) in s1.t.owner && s1.t.owner[s.t.At(i, offs)] == Owner(i, offs)
    requires ChangedAt(s1.t, s2.t, a, i, offs, v)
    requires s2.t.owner == Reown(s1.t.owner, s.t.At(i, offs), v, Owner(i, offs))
    requires s2.held == Rehold(s1.held, s.t.At(i, offs), v) && s2.free == s1.free
    requires SameBlocks(DataBlocks(a, s1.t.owner, s1.held), s1.t.store, s2.t.store)
    requires s2.sectors == AfterCharge(s.sectors, sec, made + 1)
    ensures EnterDone(s, s2, a, sec, i, offs, v, true)
  {
    hide Extends, ChangedAt, Entry, Missing, AfterCharge, SameBlocks, DataBlocks, OwnedBy, Reown, Rehold;
    var u := s.t.At(i, offs);
    ExtendsLast(s.t, s1.t, s2.t, a, i, offs, v);
    LeafIsNotInterior(a, offs);
    DataAfterSwap(a, s1.t.owner, s1.held, u, v, Owner(i, offs));
    ReownCounts(s1.t.owner, u, v, Owner(i, offs));
    SameBlocksTrans(DataBlocks(a, s.t.owner, s.held), s.t.store, s1.t.store, s2.t.store);
  }

  lemma GrowEnd(s: Snap, s1: Snap, a: nat, sec: nat, i: nat, offs: Path, made: nat)
    requires |offs| > 1 && Growing(s, s1, a, sec, i, offs, |offs| - 1, made)
    ensures i in s1.t.roots && s1.t.At(i, offs) == s.t.At(i, offs)
    ensures s1.held == s.held && s1.sectors == AfterCharge(s.sectors, sec, made)
    ensures made == Missing(s.t, i, offs, 1) && s.free >= made
    ensures i in s.t.roots && Extends(s.t, s1.t, a, i, offs, s.t.At(i, offs))
    ensures Charged(s, s1, a, sec, i, made)
  {
    hide Entry, AfterCharge;
    MissingEnd(s.t, i, offs);
    assert offs[..|offs|] == offs;
  }

  lemma LeafIsNotInterior(a: nat, p: Path)
    requires IsLeaf(a, p)
    ensures !Interior(a, p)
  {
  }

  /** i_blocks says what the inode owns: its data and indirect blocks, in sectors. */
  ghost predicate Accounted(s: Snap, sec: nat, i: nat) {
    s.sectors == AfterCharge(0, sec, |OwnedBy(s.t.owner, i)|)
  }

  /** One charge too many shows. */
  lemma ChargeShows(sec: nat, n: int)
    requires 0 < sec < U32
    ensures AfterCharge(0, sec, n) != AfterCharge(0, sec, n + 1)
    ensures AfterCharge(0, sec, n) != AfterCharge(0, sec, n - 1)
  {
    ChargeOnce(0, sec, n);
  }

  /** i_blocks stays right exactly when no mapped position was overwritten. */
  lemma EnterAccounts(s: Snap, s2: Snap, a: nat, sec: nat, i: nat, offs: Path, v: Word, ok: bool)
    requires EnterDone(s, s2, a, sec, i, offs, v, ok) && 0 < sec < U32
    ensures Accounted(s, sec, i) ==> (Accounted(s2, sec, i) <==> !ok || s.t.At(i, offs) == 0)
  {
    hide Extends, Entry, Missing, AfterCharge, SameData;
    if Accounted(s, sec, i) {
      var c, n := |OwnedBy(s.t.owner, i)|, s.free - s2.free + if ok then 1 else 0;
      ChargeMore(0, sec, c, n);
      ChargeShows(sec, c + n);
    }
  }

  /** What delete_map_entry has done: the way down reached the data slot when every indirect block was there. */
  ghost predicate DeleteDone(s: Snap, s2: Snap, a: nat, sec: nat, i: nat, offs: Path) {
    && i in s.t.roots && IsLeaf(a, offs)
    && var u := s.t.At(i, offs);
       var reached := |offs| == 1 || s.t.At(i, offs[..|offs| - 1]) != 0;
       && Pruned(s.t, s2.t, a, i, offs)
       && s2.held == Rehold(s.held, u, 0)
       && s2.free >= s.free
       && SameData(s, s2, a)
       && Counted(s, s2, i, s.free - s2.free - if u != 0 then 1 else 0)
       && s2.sectors == AfterCharge(s.sectors, sec, s.free - s2.free - if reached then 1 else 0)
  }

  /** The data slot cleared: s1 is s with the data block, if there was one, handed to the caller. */
  ghost predicate SlotCleared(s: Snap, s1: Snap, a: nat, sec: nat, i: nat, offs: Path, reached: bool) {
    && i in s.t.roots && |offs| >= 1
    && ChangedAt(s.t, s1.t, a, i, offs, 0)
    && s1.held == Rehold(s.held, s.t.At(i, offs), 0)
    && s1.free == s.free
    && SameData(s, s1, a)
    && Counted(s, s1, i, if s.t.At(i, offs) != 0 then -1 else 0)
    && s1.sectors == AfterCharge(s.sectors, sec, if reached then -1 else 0)
  }

  lemma ClearSlot(s: Snap, s1: Snap, a: nat, sec: nat, i: nat, offs: Path)
    requires i in s.t.roots && IsLeaf(a, offs)
    requires s.t.owner.Keys !! s.held && 0 !in s.t.owner && 0 !in s.held
    requires s.t.At(i, offs) != 0 ==> s.t.At(i, offs) in s.t.owner && s.t.owner[s.t.At(i, offs)] == Owner(i, offs)
    requires ChangedAt(s.t, s1.t, a, i, offs, 0)
    requires s1.t.owner == Reown(s.t.owner, s.t.At(i, offs), 0, Owner(i, offs))
    requires s1.held == Rehold(s.held, s.t.At(i, offs), 0) && s1.free == s.free
    requires SameBlocks(DataBlocks(a, s.t.owner, s.held), s.t.store, s1.t.store)
    requires s1.sectors == AfterCharge(s.sectors, sec, -1)
    ensures SlotCleared(s, s1, a, sec, i, offs, true)
  {
    hide ChangedAt, Entry, AfterCharge, SameBlocks, DataBlocks, OwnedBy, Reown, Rehold;
    LeafIsNotInterior(a, offs);
    DataAfterSwap(a, s.t.owner, s.held, s.t.At(i, offs), 0, Owner(i, offs));
    ReownCounts(s.t.owner, s.t.At(i, offs), 0, Owner(i, offs));
  }

  /** There was no slot to clear. */
  lemma NoSlot(s: Snap, a: nat, sec: nat, i: nat, offs: Path, n: nat)
    requires i in s.t.roots && IsLeaf(a, offs) && 1 <= n <= |offs| && s.t.At(i, offs[..n]) == 0
    requires 0 !in s.held
    ensures SlotCleared(s, s, a, sec, i, offs, false)
  {
    AbsentBelow(s.t, i, offs, n, |offs|);
    assert offs[..|offs|] == offs;
    ChargeNone(s.sectors, sec);
    ChangedNothing(s.t, s.t, a, i, offs);
  }

  lemma DeleteAll(s: Snap, s1: Snap, s2: Snap, a: nat, sec: nat, i: nat, offs: Path, reached: bool, n: int)
    requires n <= 0 && i in s.t.roots && IsLeaf(a, offs) && |offs| >= 1
    requires reached <==> |offs| == 1 || s.t.At(i, offs[..|offs| - 1]) != 0
    requires SlotCleared(s, s1, a, sec, i, offs, reached)
    requires Charged(s1, s2, a, sec, i, n) && Pruned(s.t, s2.t, a, i, offs)
    ensures DeleteDone(s, s2, a, sec, i, offs)
  {
    hide ChangedAt, Entry, AfterCharge, SameBlocks, DataBlocks, OwnedBy, Rehold, Pruned;
    SameBlocksTrans(DataBlocks(a, s.t.owner, s.held), s.t.store, s1.t.store, s2.t.store);
    ChargeMore(s.sectors, sec, if reached then -1 else 0, n);
  }

  /** A direct data block: nothing is above it. */
  lemma PrunedDirect(s: Tree, s2: Tree, a: nat, i: nat, offs: Path)
    requires i in s.roots && |offs| == 1 && ChangedAt(s, s2, a, i, offs, 0)
    ensures Pruned(s, s2, a, i, offs)
  {
    hide Entry;
    assert offs[..1] == offs;
  }

  /** i_blocks stays right exactly when the position was mapped or its data slot was never reached. */
  lemma DeleteAccounts(s: Snap, s2: Snap, a: nat, sec: nat, i: nat, offs: Path)
    requires i in s.t.roots && |offs| >= 1
    requires DeleteDone(s, s2, a, sec, i, offs) && 0 < sec < U32 && Accounted(s, sec, i)
    ensures Accounted(s2, sec, i) <==>
            s.t.At(i, offs) != 0 || (|offs| > 1 && s.t.At(i, offs[..|offs| - 1]) == 0)
  {
    hide Pruned, Entry, AfterCharge, SameData, IsLeaf, Rehold;
    var reached := |offs| == 1 || s.t.At(i, offs[..|offs| - 1]) != 0;
    if s.t.At(i, offs) != 0 && |offs| > 1 {
      AboveLeaf(s.t, a, i, offs, |offs| - 1);
    }
    var c, n := |OwnedBy(s.t.owner, i)|, s.free - s2.free - if reached then 1 else 0;
    ChargeMore(0, sec, c, n);
    ChargeShows(sec, c + n);
  }

  lemma {:induction false} MissingSame(t: Tree, t2: Tree, a: nat, i: nat, offs: Path, n: nat)
    requires i in t.roots && ValidPath(a, offs) && SameEntries(t, t2, a) && 1 <= n
    ensures Missing(t2, i, offs, n) == Missing(t, i, offs, n)
    decreases |offs| - n
  {
    if n < |offs| {
      PathPrefix(a, offs, n);
      MissingSame(t, t2, a, i, offs, n + 1);
    }
  }

  lemma NoEmptySame(t: Tree, t2: Tree, a: nat)
    requires SameEntries(t, t2, a)
    ensures NoEmptyNodes(t, a) ==> NoEmptyNodes(t2, a)
  {
    hide Entry;
    if NoEmptyNodes(t, a) {
      forall i, p | i in t2.roots && Interior(a, p) && t2.At(i, p) != 0 ensures HasChild(t2, a, i, p) {
        var k: nat :| k < a && t.At(i, p + [k]) != 0;
        ExtendPath(a, p, k);
        assert t2.At(i, p + [k]) != 0;
      }
    }
  }

  lemma SameEntriesBack(t: Tree, t2: Tree, a: nat)
    requires SameEntries(t, t2, a)
    ensures SameEntries(t2, t, a)
  {
  }

  lemma ReholdGive(held: set<nat>, v: nat)
    ensures Rehold(held, 0, v) == held - {v}
  {
  }

  lemma SameBlocksClear(d: set<nat>, st: seq<Block>, b: nat, blk: Block)
    requires b < |st|
    ensures SameBlocks(d - {b}, st, st[b := blk])
  {
  }

  lemma ReholdHas(held: set<nat>, u: nat)
    requires u != 0
    ensures u in Rehold(held, u, 0)
  {
  }

  lemma ChangedThenSame(t: Tree, t1: Tree, t2: Tree, a: nat, i: nat, p: Path, v: Word)
    requires i in t.roots && |t2.store| == |t1.store| && ChangedAt(t, t1, a, i, p, v) && SameEntries(t1, t2, a)
    ensures ChangedAt(t, t2, a, i, p, v)
  {
    hide Entry;
  }

  lemma SlotClearedFacts(s: Snap, s1: Snap, a: nat, sec: nat, i: nat, offs: Path, reached: bool)
    requires SlotCleared(s, s1, a, sec, i, offs, reached)
    ensures ChangedAt(s.t, s1.t, a, i, offs, 0)
  {
  }

  /** A step up leaves the block at a higher level where it was. */
  lemma PruningKeeps(s: Tree, s2: Tree, a: nat, i: nat, offs: Path, n: nat, empty: bool, m: nat)
    requires IsLeaf(a, offs) && 1 <= m <= n + 1 && m < |offs| && Pruning(s, s2, a, i, offs, n, empty)
    ensures i in s.roots && i in s2.roots && s2.At(i, offs[..m]) == s.At(i, offs[..m])
  {
    hide Entry, Emptied;
    PathPrefix(a, offs, m);
  }

  /** An emptied block on the way up: it is there, it is empty, and its parent is where it was. */
  lemma PruningFacts(s: Tree, s2: Tree, a: nat, i: nat, offs: Path, n: nat)
    requires IsLeaf(a, offs) && Pruning(s, s2, a, i, offs, n, true)
    ensures i in s.roots && i in s2.roots && n + 1 < |offs| && s.At(i, offs[..n + 1]) != 0
    ensures s2.At(i, offs[..n + 1]) == s.At(i, offs[..n + 1]) && s2.EmptyBlock(s.At(i, offs[..n + 1]))
  {
    hide Entry;
    EmptiedFacts(s, a, i, offs, n + 1);
    PruningKeeps(s, s2, a, i, offs, n, true, n + 1);
  }

  lemma PrunedMissing(s: Tree, a: nat, i: nat, offs: Path)
    requires i in s.roots && IsLeaf(a, offs) && |offs| > 1 && s.At(i, offs[..1]) == 0
    ensures Pruned(s, s, a, i, offs)
  {
    hide Entry, Emptied;
    forall q | ValidPath(a, q) && OnPath(offs, q) ensures s.At(i, q) == 0 {
      AbsentBelow(s, i, offs, 1, |q|);
    }
  }

  lemma ChangedElsewhere(t: Tree, t2: Tree, a: nat, i: nat, p: Path, v: Word, q: Path)
    requires ChangedAt(t, t2, a, i, p, v) && i in t.roots && ValidPath(a, q) && |q| != |p|
    ensures i in t2.roots && t2.At(i, q) == t.At(i, q)
  {
    hide Entry;
  }

  lemma DeleteFacts(s: Snap, s2: Snap, a: nat, sec: nat, i: nat, offs: Path)
    requires DeleteDone(s, s2, a, sec, i, offs)
    ensures i in s.t.roots && |offs| >= 1
    ensures Pruned(s.t, s2.t, a, i, offs)
    ensures s2.held == Rehold(s.held, s.t.At(i, offs), 0)
    ensures s2.free >= s.free
    ensures SameData(s, s2, a)
    ensures forall j :: j != i ==> |OwnedBy(s2.t.owner, j)| == |OwnedBy(s.t.owner, j)|
  {
    hide Pruned, Entry, Rehold, SameData, OwnedBy;
  }
}
