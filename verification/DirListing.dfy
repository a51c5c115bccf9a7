/** What entering, deleting and listing do to the sequence of a directory's entries. */
module DirListing {
  import opened Words
  import opened DirSpec

  /** The entries of blocks one after the other. */
  ghost predicate AllTiled(bs: seq<seq<Byte>>) {
    forall i :: 0 <= i < |bs| ==> Tiled(bs[i]) && Tidy(bs[i])
  }

  ghost function Entries(bs: seq<seq<Byte>>, base: nat): (l: seq<Live>)
    requires AllTiled(bs)
  {
    if bs == [] then [] else Listing(bs[0], base) + Entries(bs[1..], base + |bs[0]|)
  }

  /** The position of block i's first byte. */
  function BaseOf(bs: seq<seq<Byte>>, i: nat): nat
    requires i <= |bs|
  {
    if i == 0 then 0 else |bs[0]| + BaseOf(bs[1..], i - 1)
  }

  lemma {:induction false} BaseIs(bs: seq<seq<Byte>>, i: nat, size: nat)
    requires i <= |bs| && forall k :: 0 <= k < |bs| ==> |bs[k]| == size
    ensures BaseOf(bs, i) == i * size
  {
    if i > 0 {
      BaseIs(bs[1..], i - 1, size);
      assert (i - 1) * size + size == i * size;
    }
  }

  lemma EntriesFront(c: seq<seq<Byte>>, base: nat)
    requires AllTiled(c)
    ensures c == [] ==> Entries(c, base) == []
    ensures c != [] ==> AllTiled(c[1..]) && Tiled(c[0])
                        && Entries(c, base) == Listing(c[0], base) + Entries(c[1..], base + |c[0]|)
  {
    hide Tiled, Tidy, Listing;
  }

  lemma Ahead(a: seq<Live>, b: seq<Live>, c: seq<Live>, d: seq<Live>)
    ensures a + (b + c + d) == (a + b) + c + d
    ensures [] + c + d == c + d
  {
  }

  /** The entries before, in and after block i. */
  lemma {:induction false} EntriesAt(bs: seq<seq<Byte>>, i: nat, base: nat)
    requires AllTiled(bs) && i < |bs|
    ensures Entries(bs, base) == Entries(bs[..i], base) + Listing(bs[i], base + BaseOf(bs, i))
                                 + Entries(bs[i + 1..], base + BaseOf(bs, i) + |bs[i]|)
  {
    hide Listing, Tiled, Tidy, Entries;
    EntriesFront(bs, base);
    EntriesFront(bs[..i], base);
    if i > 0 {
      EntriesAt(bs[1..], i - 1, base + |bs[0]|);
      assert bs[1..][..i - 1] == bs[..i][1..] && bs[1..][i..] == bs[i + 1..];
      Ahead(Listing(bs[0], base), Entries(bs[..i][1..], base + |bs[0]|), Listing(bs[i], base + BaseOf(bs, i)),
            Entries(bs[i + 1..], base + BaseOf(bs, i) + |bs[i]|));
    } else {
      Ahead([], [], Listing(bs[0], base), Entries(bs[1..], base + |bs[0]|));
    }
  }

  /** l2 is l with e put in somewhere. */
  ghost predicate Inserted(l: seq<Live>, l2: seq<Live>, e: Live) {
    exists k: nat :: InsertedAt(l, l2, e, k)
  }

  predicate InsertedAt(l: seq<Live>, l2: seq<Live>, e: Live, k: nat) {
    k <= |l| && l2 == l[..k] + [e] + l[k..]
  }

  lemma InsertedIn(u: seq<Live>, v: seq<Live>, e: Live)
    ensures Inserted(u + v, u + [e] + v, e)
  {
    assert (u + v)[..|u|] == u && (u + v)[|u|..] == v;
    assert InsertedAt(u + v, u + [e] + v, e, |u|);
  }

  lemma InsertedBetween(pre: seq<Live>, l: seq<Live>, l2: seq<Live>, post: seq<Live>, e: Live)
    requires Inserted(l, l2, e)
    ensures Inserted(pre + l + post, pre + l2 + post, e)
  {
    var k: nat :| InsertedAt(l, l2, e, k);
    InsertedWithin(pre, l[..k], l[k..], post, e);
    assert l[..k] + l[k..] == l;
  }

  lemma InsertedWithin(pre: seq<Live>, u: seq<Live>, v: seq<Live>, post: seq<Live>, e: Live)
    ensures Inserted(pre + (u + v) + post, pre + (u + [e] + v) + post, e)
  {
    hide Inserted, InsertedAt;
    InsertedIn(pre + u, v + post, e);
    Regroup(pre, u, v, post);
    Regroup(pre, u + [e], v, post);
    Assoc(pre, u, [e]);
  }

  ghost predicate NoneNamed(l: seq<Live>, name: Name) {
    forall i :: 0 <= i < |l| ==> l[i].name != name
  }

  /** The first entry of that name, or the length of the list. */
  function FindName(l: seq<Live>, name: Name): (k: nat)
    ensures k <= |l| && (k < |l| ==> l[k].name == name)
    ensures NoneNamed(l[..k], name)
  {
    if l == [] || l[0].name == name then 0 else
    var k := FindName(l[1..], name) + 1;
    assert l[..k] == [l[0]] + l[1..][..k - 1];
    k
  }

  lemma FindNameIs(l: seq<Live>, name: Name, k: nat)
    requires k < |l| && l[k].name == name && NoneNamed(l[..k], name)
    ensures FindName(l, name) == k
  {
    var j := FindName(l, name);
    assert forall i :: 0 <= i < k ==> l[..k][i].name == l[i].name;
    assert forall i :: 0 <= i < j ==> l[..j][i].name == l[i].name;
  }

  lemma FindNameNone(l: seq<Live>, name: Name)
    ensures NoneNamed(l, name) <==> FindName(l, name) == |l|
  {
    if FindName(l, name) == |l| {
      assert l[..|l|] == l;
    }
  }

  /** The list without the first entry of that name. */
  function Dropped(l: seq<Live>, name: Name): seq<Live> {
    var k := FindName(l, name);
    if k < |l| then l[..k] + l[k + 1..] else l
  }

  /** An entry of that name after others of other names. */
  lemma FoundAfter(pre: seq<Live>, e: Live, post: seq<Live>, name: Name)
    requires NoneNamed(pre, name) && e.name == name
    ensures FindName(pre + [e] + post, name) == |pre| && Dropped(pre + [e] + post, name) == pre + post
    ensures |pre + [e] + post| > |pre| && (pre + [e] + post)[|pre|] == e
  {
    var l := pre + [e] + post;
    assert l[..|pre|] == pre && l[|pre| + 1..] == post;
    FindNameIs(l, name, |pre|);
  }

  lemma Regroup(a: seq<Live>, b: seq<Live>, c: seq<Live>, d: seq<Live>)
    ensures a + (b + c) + d == (a + b) + (c + d)
  {
  }

  /** The last step of a search that found nothing before block i. */
  lemma FoundBetween(pre: seq<Live>, l: seq<Live>, post: seq<Live>, name: Name)
    requires NoneNamed(pre, name) && FindName(l, name) < |l|
    ensures Dropped(pre + l + post, name) == pre + Dropped(l, name) + post
    ensures FindName(pre + l + post, name) == |pre| + FindName(l, name)
    ensures (pre + l + post)[|pre| + FindName(l, name)] == l[FindName(l, name)]
  {
    var k := FindName(l, name);
    var u, e, v := l[..k], l[k], l[k + 1..];
    assert l == u + [e] + v;
    forall i | 0 <= i < |pre + u| ensures (pre + u)[i].name != name {
      if i >= |pre| {
        assert (pre + u)[i] == u[i - |pre|];
      }
    }
    FoundAfter(pre + u, e, v + post, name);
    Regroup(pre, u, v, post);
    Regroup(pre, u + [e], v, post);
    Assoc(pre, u, [e]);
  }

  lemma NoneNamedAppend(u: seq<Live>, v: seq<Live>, name: Name)
    ensures NoneNamed(u + v, name) <==> NoneNamed(u, name) && NoneNamed(v, name)
  {
    forall i | 0 <= i < |v| ensures (u + v)[|u| + i] == v[i] {
    }
    if NoneNamed(u + v, name) {
      forall i | 0 <= i < |u| ensures u[i].name != name {
        assert (u + v)[i] == u[i];
      }
      forall i | 0 <= i < |v| ensures v[i].name != name {
        assert (u + v)[|u| + i] == v[i];
      }
    }
  }

  lemma InsertedHas(l: seq<Live>, l2: seq<Live>, e: Live, x: Live)
    requires x in l && Inserted(l, l2, e)
    ensures x in l2
  {
    var i :| 0 <= i < |l| && l[i] == x;
    var k: nat :| InsertedAt(l, l2, e, k);
    assert l2[if i < k then i else i + 1] == x;
  }

  lemma DroppedHas(l: seq<Live>, name: Name, x: Live)
    requires x in l && x.name != name
    ensures x in Dropped(l, name)
  {
    hide NoneNamed;
    var i :| 0 <= i < |l| && l[i] == x;
    var k := FindName(l, name);
    if k < |l| {
      assert Dropped(l, name)[if i < k then i else i - 1] == x;
    }
  }

  /** Entering and deleting leave the other entries where they are. */
  lemma StaysListed(l: seq<Live>, l2: seq<Live>, e: Live, name: Name, x: Live)
    requires x in l
    ensures Inserted(l, l2, e) ==> x in l2
    ensures x.name != name ==> x in Dropped(l, name)
  {
    hide Inserted, Dropped;
    if Inserted(l, l2, e) {
      InsertedHas(l, l2, e, x);
    }
    if x.name != name {
      DroppedHas(l, name, x);
    }
  }

  // ---- the directory as a map from names to inode numbers ----

  ghost predicate Unique(l: seq<Live>) {
    forall i, j :: 0 <= i < j < |l| ==> l[i].name != l[j].name
  }

  ghost function NameMap(l: seq<Live>): (m: map<Name, nat>)
    ensures forall n :: n in m <==> FindName(l, n) < |l|
    ensures forall n :: n in m ==> m[n] == l[FindName(l, n)].ino
  {
    var names := set i | 0 <= i < |l| :: l[i].name;
    forall n ensures n in names <==> FindName(l, n) < |l| {
      FindNameNone(l, n);
    }
    map n | n in names :: l[FindName(l, n)].ino
  }

  /** Where a name is in a list of distinct names. */
  lemma FindUnique(l: seq<Live>, k: nat)
    requires Unique(l) && k < |l|
    ensures FindName(l, l[k].name) == k
  {
    FindNameIs(l, l[k].name, k);
  }

  /** Where the entries of a list are once e has been put in at k. */
  lemma InsertedAtIs(l: seq<Live>, l2: seq<Live>, e: Live, k: nat)
    requires InsertedAt(l, l2, e, k)
    ensures |l2| == |l| + 1 && k <= |l| && l2[k] == e
    ensures forall i :: 0 <= i < |l| ==> l[i] == l2[Shift(i, k)]
    ensures forall i :: 0 <= i < |l2| && i != k ==> l2[i] == l[Unshift(i, k)]
  {
    forall i | 0 <= i < |l| ensures l[i] == l2[Shift(i, k)] {
    }
    forall i | 0 <= i < |l2| && i != k ensures l2[i] == l[Unshift(i, k)] {
    }
  }

  /** Where entry i goes when one is put in at k, and where entry i came from. */
  function Shift(i: int, k: int): int { if i < k then i else i + 1 }

  function Unshift(i: int, k: int): int { if i < k then i else i - 1 }

  lemma InsertedApart(l: seq<Live>, l2: seq<Live>, e: Live, k: nat, i: nat, j: nat)
    requires Unique(l) && InsertedAt(l, l2, e, k) && NoneNamed(l, e.name) && i < j < |l2|
    ensures l2[i].name != l2[j].name
  {
    var u, v := if i < k then i else i - 1, if j < k then j else j - 1;
    assert i != k ==> l2[i] == l[u];
    assert j != k ==> l2[j] == l[v];
    assert l2[k] == e;
  }

  lemma InsertedUnique(l: seq<Live>, l2: seq<Live>, e: Live, k: nat)
    requires Unique(l) && InsertedAt(l, l2, e, k) && NoneNamed(l, e.name)
    ensures Unique(l2)
  {
    hide InsertedAt, NoneNamed;
    forall i, j | 0 <= i < j < |l2| ensures l2[i].name != l2[j].name {
      InsertedApart(l, l2, e, k, i, j);
    }
  }

  lemma InsertedFind(l: seq<Live>, l2: seq<Live>, e: Live, k: nat, n: Name)
    requires Unique(l) && Unique(l2) && InsertedAt(l, l2, e, k) && n != e.name
    ensures FindName(l2, n) < |l2| <==> FindName(l, n) < |l|
    ensures FindName(l, n) < |l| && FindName(l2, n) < |l2| ==> l2[FindName(l2, n)] == l[FindName(l, n)]
  {
    hide FindName, InsertedAt;
    InsertedAtIs(l, l2, e, k);
    var i, j := FindName(l, n), FindName(l2, n);
    if i < |l| {
      FindUnique(l2, Shift(i, k));
    } else if j < |l2| {
      FindUnique(l, Unshift(j, k));
    }
  }

  /** Entering an absent name adds it and changes no other. */
  lemma InsertedMap(l: seq<Live>, l2: seq<Live>, e: Live)
    requires Unique(l) && Inserted(l, l2, e) && e.name !in NameMap(l)
    ensures Unique(l2) && NameMap(l2) == NameMap(l)[e.name := e.ino]
  {
    hide FindName, InsertedAt, Unique, NameMap;
    var k: nat :| InsertedAt(l, l2, e, k);
    FindNameNone(l, e.name);
    InsertedUnique(l, l2, e, k);
    InsertedAtIs(l, l2, e, k);
    FindUnique(l2, k);
    forall n | n != e.name ensures n in NameMap(l2) <==> n in NameMap(l)
                           ensures n in NameMap(l) ==> n in NameMap(l2) && NameMap(l2)[n] == NameMap(l)[n] {
      InsertedFind(l, l2, e, k, n);
    }
  }

  lemma DroppedIs(l: seq<Live>, name: Name)
    requires Unique(l)
    ensures var k := FindName(l, name);
            k < |l| ==> InsertedAt(Dropped(l, name), l, l[k], k) && NoneNamed(Dropped(l, name), name)
    ensures Unique(Dropped(l, name)) && (FindName(l, name) == |l| ==> Dropped(l, name) == l)
  {
    hide FindName;
    var k, l2 := FindName(l, name), Dropped(l, name);
    if k < |l| {
      assert l == l2[..k] + [l[k]] + l2[k..];
      InsertedAtIs(l2, l, l[k], k);
      DroppedUnique(l2, l, l[k], k);
    }
  }

  lemma DroppedUnique(l: seq<Live>, l2: seq<Live>, e: Live, k: nat)
    requires Unique(l2) && InsertedAt(l, l2, e, k)
    ensures Unique(l) && NoneNamed(l, e.name)
  {
    hide InsertedAt;
    InsertedAtIs(l, l2, e, k);
    forall i, j | 0 <= i < j < |l| ensures l[i].name != l[j].name {
      assert l2[Shift(i, k)] == l[i] && l2[Shift(j, k)] == l[j] && Shift(i, k) < Shift(j, k);
    }
    forall i | 0 <= i < |l| ensures l[i].name != e.name {
      assert l2[Shift(i, k)] == l[i] && Shift(i, k) != k;
    }
  }

  /** Deleting a name removes it and changes no other. */
  lemma DroppedMap(l: seq<Live>, name: Name)
    requires Unique(l)
    ensures Unique(Dropped(l, name)) && NameMap(Dropped(l, name)) == NameMap(l) - {name}
  {
    hide FindName, InsertedAt, Unique, NameMap, Dropped;
    DroppedIs(l, name);
    var k, l2 := FindName(l, name), Dropped(l, name);
    if k < |l| {
      FindNameNone(l2, name);
      forall n | n != name ensures n in NameMap(l2) <==> n in NameMap(l)
                           ensures n in NameMap(l2) ==> n in NameMap(l) && NameMap(l2)[n] == NameMap(l)[n] {
        InsertedFind(l2, l, l[k], k, n);
      }
    }
  }
}
