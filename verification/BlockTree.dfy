/** The indirection trees of all inodes as they lie in the block store, and what a write to one slot does to them. */
module BlockTree {
  import opened Words
  import opened ExtGeometry
  import opened BlockStore

  /** Which inode, and which path in it, a block belongs to. */
  datatype Owner = Owner(ino: nat, path: Path)

  /** Slot k of block b; 0 (NO_BLOCK) when there is no such block. */
  function WordAt(st: seq<Block>, b: nat, k: nat): Word {
    if 0 < b < |st| && k < |st[b]| then st[b][k] else 0
  }

  /** The block number found by following a path from an inode's block array ib. */
  function Entry(ib: seq<Word>, st: seq<Block>, p: Path): Word
    requires |p| >= 1
  {
    if |p| == 1 then (if p[0] < |ib| then ib[p[0]] else 0)
    else WordAt(st, Entry(ib, st, p[..|p| - 1]), p[|p| - 1])
  }

  /** Every inode's block array, the store, and the owner of each block reached from an inode. */
  datatype Tree = Tree(roots: map<nat, seq<Word>>, store: seq<Block>, owner: map<nat, Owner>) {
    function At(i: nat, p: Path): Word
      requires i in roots && |p| >= 1
    {
      Entry(roots[i], store, p)
    }

    ghost predicate Shape(a: nat) {
      && (forall i :: i in roots ==> |roots[i]| == N_BLOCKS)
      && (forall b :: 0 <= b < |store| ==> |store[b]| == a)
    }

    /** The owner map is exactly the inverse of the paths: so no block is reached along two paths. */
    ghost predicate Valid(a: nat) {
      && Shape(a)
      && (forall i, p :: i in roots && ValidPath(a, p) && At(i, p) != 0 ==>
            At(i, p) in owner && owner[At(i, p)] == Owner(i, p))
      && (forall b :: b in owner ==>
            && 0 < b < |store|
            && owner[b].ino in roots
            && ValidPath(a, owner[b].path)
            && At(owner[b].ino, owner[b].path) == b)
    }

    /** An owned block whose words are slots. */
    ghost predicate IsNode(a: nat, b: nat) {
      b in owner && Interior(a, owner[b].path)
    }

    /** No slot of block b is in use. */
    ghost predicate EmptyBlock(b: nat) {
      forall k: nat :: WordAt(store, b, k) == 0
    }
  }

  /** Two paths to one block are one path. */
  lemma Disjoint(t: Tree, a: nat, i: nat, p: Path, j: nat, q: Path)
    requires t.Valid(a) && i in t.roots && j in t.roots && ValidPath(a, p) && ValidPath(a, q)
    requires t.At(i, p) == t.At(j, q) != 0
    ensures i == j && p == q
  {
  }

  lemma EmptyZero(t: Tree)
    ensures t.EmptyBlock(0)
  {
  }

  lemma RootEntry(t: Tree, i: nat, o: nat)
    requires i in t.roots && o < |t.roots[i]|
    ensures t.At(i, [o]) == t.roots[i][o]
  {
  }

  lemma PrefixPath(a: nat, p: Path, n: nat)
    requires ValidPath(a, p) && 1 <= n < |p|
    ensures Interior(a, p[..n]) && p[..n][0] == p[0]
  {
  }

  lemma ExtendPath(a: nat, p: Path, k: nat)
    requires Interior(a, p) && k < a
    ensures ValidPath(a, p + [k]) && (p + [k])[..|p|] == p
  {
  }

  /** What is read along a path depends only on the inode's array and on the blocks that hold slots. */
  lemma {:induction false} EntryFrame(t: Tree, a: nat, st: seq<Block>, i: nat, p: Path)
    requires t.Valid(a) && i in t.roots && ValidPath(a, p)
    requires |st| == |t.store| && forall b: nat :: t.IsNode(a, b) ==> st[b] == t.store[b]
    ensures Entry(t.roots[i], st, p) == t.At(i, p)
  {
    if |p| > 1 {
      var q := p[..|p| - 1];
      PrefixPath(a, p, |p| - 1);
      EntryFrame(t, a, st, i, q);
      if t.At(i, q) != 0 {
        assert t.IsNode(a, t.At(i, q));
      }
    }
  }

  /** Writes that leave every slot-holding block alone leave the trees alone. */
  lemma FrameValid(t: Tree, a: nat, st: seq<Block>)
    requires t.Valid(a)
    requires |st| == |t.store| && forall b: nat :: t.IsNode(a, b) ==> st[b] == t.store[b]
    requires forall b :: 0 <= b < |st| ==> |st[b]| == a
    ensures t.(store := st).Valid(a)
    ensures SameEntries(t, t.(store := st), a)
  {
    forall i, p | i in t.roots && ValidPath(a, p) ensures t.(store := st).At(i, p) == t.At(i, p) {
      EntryFrame(t, a, st, i, p);
    }
  }

  /** The owners after block u at one path has been replaced by v. */
  function Reown(owner: map<nat, Owner>, u: nat, v: nat, o: Owner): map<nat, Owner> {
    if v == 0 then Disown(owner, u) else Disown(owner, u)[v := o]
  }

  function Disown(owner: map<nat, Owner>, u: nat): map<nat, Owner> {
    map b | b in owner && b != u :: owner[b]
  }

  /** Whether v may go where the tree has block u: it is fresh, and nothing hangs below it or below u. */
  ghost predicate CanReplace(t: Tree, a: nat, p: Path, u: nat, v: nat) {
    && v < |t.store|
    && (v != 0 ==> v !in t.owner)
    && (Interior(a, p) ==> t.EmptyBlock(u) && t.EmptyBlock(v))
  }

  /** Writing slot k of the block at path p: exactly the path p + [k] reads differently. */
  lemma {:induction false} EntryAfterPut(t: Tree, a: nat, i: nat, p: Path, k: nat, v: Word, j: nat, q: Path)
    requires t.Valid(a) && i in t.roots && Interior(a, p) && k < a && t.At(i, p) != 0
    requires t.At(i, p) < |t.store| && k < |t.store[t.At(i, p)]|
    requires CanReplace(t, a, p + [k], t.At(i, p + [k]), v)
    requires j in t.roots && ValidPath(a, q) && |q| >= 1 && |p| >= 1
    ensures Entry(t.roots[j], PutWord(t.store, t.At(i, p), k, v), q)
         == if i == j && q == p + [k] then v else t.At(j, q)
  {
    hide Tree.Valid, ValidPath, Interior, CanReplace, Tree.EmptyBlock;
    var b := t.At(i, p);
    ExtendPath(a, p, k);
    PathSlots(a, q);
    InStore(t, a, i, p);
    if |q| > 1 {
      var r, n := q[..|q| - 1], q[|q| - 1];
      EntryAfterPut(t, a, i, p, k, v, j, r);
      if i == j && r == p + [k] {
        NothingBelow(t, a, r, t.At(j, r), v, n);
        FreshNotThis(t, a, p + [k], t.At(i, p + [k]), v, b);
      } else if t.At(j, r) == b {
        Disjoint(t, a, i, p, j, r);
        assert q == r + [n];
      }
    }
  }

  lemma PathSlots(a: nat, q: Path)
    requires ValidPath(a, q)
    ensures |q| >= 1
    ensures |q| > 1 ==> Interior(a, q[..|q| - 1]) && ValidPath(a, q[..|q| - 1]) && q[|q| - 1] < a
    ensures |q| > 1 ==> q == q[..|q| - 1] + [q[|q| - 1]]
  {
  }

  lemma InStore(t: Tree, a: nat, i: nat, p: Path)
    requires t.Valid(a) && i in t.roots && Interior(a, p) && t.At(i, p) != 0
    ensures ValidPath(a, p) && t.At(i, p) in t.owner
    ensures t.At(i, p) < |t.store| && |t.store[t.At(i, p)]| == a
  {
  }

  lemma NothingBelow(t: Tree, a: nat, p: Path, u: nat, v: nat, n: nat)
    requires CanReplace(t, a, p, u, v) && Interior(a, p)
    ensures WordAt(t.store, u, n) == 0 && WordAt(t.store, v, n) == 0
  {
  }

  lemma FreshNotThis(t: Tree, a: nat, p: Path, u: nat, v: nat, b: nat)
    requires CanReplace(t, a, p, u, v) && b in t.owner && b != 0
    ensures v != b && v < |t.store|
  {
  }

  /** t2 reads v at path p of inode i and is otherwise read like t. */
  ghost predicate ChangedAt(t: Tree, t2: Tree, a: nat, i: nat, p: Path, v: Word) {
    && t2.roots.Keys == t.roots.Keys
    && |t2.store| == |t.store|
    && forall j, q :: j in t.roots && ValidPath(a, q) ==>
         t2.At(j, q) == if i == j && q == p then v else t.At(j, q)
  }

  /** Every path of every inode leads to the same block in both. */
  ghost predicate SameEntries(t: Tree, t2: Tree, a: nat) {
    && t2.roots.Keys == t.roots.Keys
    && forall i, p :: i in t.roots && ValidPath(a, p) ==> t2.At(i, p) == t.At(i, p)
  }

  lemma Reowned(t: Tree, t2: Tree, a: nat, i: nat, p: Path, v: Word)
    requires t.Valid(a) && i in t.roots && ValidPath(a, p)
    requires t2.Shape(a) && ChangedAt(t, t2, a, i, p, v)
    requires v < |t.store| && (v != 0 ==> v !in t.owner)
    requires t2.owner == Reown(t.owner, t.At(i, p), v, Owner(i, p))
    ensures t2.Valid(a)
  {
    forall j, q | j in t2.roots && ValidPath(a, q) && t2.At(j, q) != 0
      ensures t2.At(j, q) in t2.owner && t2.owner[t2.At(j, q)] == Owner(j, q)
    {
      if !(i == j && q == p) {
        assert t2.At(j, q) == t.At(j, q);
      }
    }
    forall b | b in t2.owner
      ensures 0 < b < |t2.store| && t2.owner[b].ino in t2.roots && ValidPath(a, t2.owner[b].path)
      ensures t2.At(t2.owner[b].ino, t2.owner[b].path) == b
    {
      if b != v {
        assert b in t.owner && b != t.At(i, p);
      }
    }
  }

  /** A slot write keeps the trees disjoint and changes one path of one inode. */
  lemma PutValid(t: Tree, a: nat, i: nat, p: Path, k: nat, v: Word)
    requires t.Valid(a) && i in t.roots && Interior(a, p) && k < a && t.At(i, p) != 0
    requires CanReplace(t, a, p + [k], t.At(i, p + [k]), v)
    ensures t.At(i, p) < |t.store| && k < |t.store[t.At(i, p)]|
    ensures var t2 := Tree(t.roots, PutWord(t.store, t.At(i, p), k, v),
                           Reown(t.owner, t.At(i, p + [k]), v, Owner(i, p + [k])));
            t2.Valid(a) && ChangedAt(t, t2, a, i, p + [k], v)
  {
    ExtendPath(a, p, k);
    var t2 := Tree(t.roots, PutWord(t.store, t.At(i, p), k, v),
                   Reown(t.owner, t.At(i, p + [k]), v, Owner(i, p + [k])));
    forall j, q | j in t.roots && ValidPath(a, q)
      ensures t2.At(j, q) == if i == j && q == p + [k] then v else t.At(j, q)
    {
      EntryAfterPut(t, a, i, p, k, v, j, q);
    }
    Reowned(t, t2, a, i, p + [k], v);
  }

  /** Writing slot o of an inode's block array: exactly the path [o] of that inode reads differently. */
  lemma {:induction false} EntryAfterRoot(t: Tree, a: nat, i: nat, o: nat, v: Word, j: nat, q: Path, ib: seq<Word>)
    requires t.Valid(a) && i in t.roots && o < N_BLOCKS
    requires CanReplace(t, a, [o], t.At(i, [o]), v)
    requires j in t.roots && ValidPath(a, q)
    requires ib == t.roots[i][o := v]
    ensures Entry(if i == j then ib else t.roots[j], t.store, q) == if i == j && q == [o] then v else t.At(j, q)
  {
    if |q| > 1 {
      var r, n := q[..|q| - 1], q[|q| - 1];
      PrefixPath(a, q, |q| - 1);
      EntryAfterRoot(t, a, i, o, v, j, r, ib);
      if i == j && r == [o] {
        assert Interior(a, [o]);
        assert WordAt(t.store, v, n) == 0 && WordAt(t.store, t.At(j, r), n) == 0;
      }
    } else {
      assert q == [q[0]];
    }
  }

  lemma RootValid(t: Tree, a: nat, i: nat, o: nat, v: Word, ib: seq<Word>)
    requires t.Valid(a) && i in t.roots && o < N_BLOCKS
    requires CanReplace(t, a, [o], t.At(i, [o]), v)
    requires ib == t.roots[i][o := v]
    ensures var t2 := Tree(t.roots[i := ib], t.store, Reown(t.owner, t.At(i, [o]), v, Owner(i, [o])));
            t2.Valid(a) && ChangedAt(t, t2, a, i, [o], v)
  {
    var t2 := Tree(t.roots[i := ib], t.store, Reown(t.owner, t.At(i, [o]), v, Owner(i, [o])));
    assert ValidPath(a, [o]);
    forall j, q | j in t.roots && ValidPath(a, q)
      ensures t2.At(j, q) == if i == j && q == [o] then v else t.At(j, q)
    {
      EntryAfterRoot(t, a, i, o, v, j, q, ib);
    }
    Reowned(t, t2, a, i, [o], v);
  }
}
