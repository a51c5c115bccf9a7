/** How many more names a directory has room for. */
module DirRoom {
  import opened Words
  import opened DirSpec
  import opened DirListing

  /** The end of an entry's rounded record. */
  function EndOf(e: Live): nat {
    e.pos + ActualSize(|e.name|)
  }

  /** pos is where the last of l, or what lies before it, ends. */
  ghost predicate Snug(l: seq<Live>, start: nat, pos: nat) {
    pos == if l == [] then start else EndOf(l[|l| - 1])
  }

  /** l2 is l with e put in, right behind the entry before it. */
  ghost predicate SnugIn(l: seq<Live>, l2: seq<Live>, e: Live, start: nat) {
    exists k: nat :: InsertedAt(l, l2, e, k) && Snug(l[..k], start, e.pos)
  }

  /** A directory's block i has got entry e, right behind the entry before it. */
  ghost predicate EnteredAt(c: seq<seq<Byte>>, c2: seq<seq<Byte>>, i: nat, e: Live) {
    && AllTiled(c) && i < |c| == |c2| && c2 == c[i := c2[i]] && |c2[i]| == |c[i]| && Tiled(c2[i])
    && SnugIn(Listing(c[i], BaseOf(c, i)), Listing(c2[i], BaseOf(c, i)), e, BaseOf(c, i))
  }

  ghost predicate Entered(c: seq<seq<Byte>>, c2: seq<seq<Byte>>, e: Live) {
    exists i: nat :: EnteredAt(c, c2, i, e)
  }

  /** A directory's block i has lost the first entry of that name. */
  ghost predicate DeletedAt(c: seq<seq<Byte>>, c2: seq<seq<Byte>>, i: nat, name: Name) {
    && AllTiled(c) && i < |c| == |c2| && c2 == c[i := c2[i]] && |c2[i]| == |c[i]| && Tiled(c2[i])
    && Listing(c2[i], BaseOf(c, i)) == Dropped(Listing(c[i], BaseOf(c, i)), name)
  }

  ghost predicate Deleted(c: seq<seq<Byte>>, c2: seq<seq<Byte>>, name: Name) {
    exists i: nat :: DeletedAt(c, c2, i, name)
  }

  lemma IsEntered(c: seq<seq<Byte>>, i: nat, t: seq<Byte>, e: Live)
    requires AllTiled(c) && i < |c| && |t| == |c[i]| && Tiled(t)
    requires SnugIn(Listing(c[i], BaseOf(c, i)), Listing(t, BaseOf(c, i)), e, BaseOf(c, i))
    ensures Entered(c, c[i := t], e)
  {
    hide Tiled, Tidy, Listing, SnugIn, BaseOf;
    assert EnteredAt(c, c[i := t], i, e);
  }

  lemma IsDeleted(c: seq<seq<Byte>>, i: nat, t: seq<Byte>, name: Name)
    requires AllTiled(c) && i < |c| && |t| == |c[i]| && Tiled(t)
    requires Listing(t, BaseOf(c, i)) == Dropped(Listing(c[i], BaseOf(c, i)), name)
    ensures Deleted(c, c[i := t], name)
  {
    hide Tiled, Tidy, Listing, Dropped, BaseOf;
    assert DeletedAt(c, c[i := t], i, name);
  }

  /** How many records of u bytes fit into n bytes. */
  function Units(n: int, u: nat): nat
    requires u > 0
  {
    if n < 0 then 0 else n / u
  }

  lemma UnitsLess(n: int, m: nat, u: nat)
    requires u > 0 && m <= u
    ensures Units(n, u) <= Units(n - m, u) + 1
  {
    if n >= u {
      var q, r := (n - u) / u, (n - u) % u;
      assert n - u == q * u + r;
      assert (q + 1) * u == q * u + u;
      DivModOf(q + 1, r, u);
      UnitsMore(n - u, n - m, u);
    } else if n >= 0 {
      DivModOf(0, n, u);
    }
  }

  lemma UnitsMore(n: int, m: int, u: nat)
    requires u > 0 && n <= m
    ensures Units(n, u) <= Units(m, u)
  {
    if n >= 0 && n / u > m / u {
      assert n == n / u * u + n % u && m == m / u * u + m % u;
      MulStep(m / u, n / u, u);
    }
  }

  lemma UnitsAdd(n: nat, m: int, u: nat)
    requires u > 0
    ensures Units(n, u) + Units(m, u) <= Units(n + m, u) || m < 0
  {
    if m >= 0 {
      var q := n / u + m / u;
      assert n == n / u * u + n % u && m == m / u * u + m % u;
      assert q * u == n / u * u + m / u * u;
      if q > (n + m) / u {
        assert n + m == (n + m) / u * u + (n + m) % u;
        MulStep((n + m) / u, q, u);
      }
    }
  }

  lemma UnitsPositive(n: int, u: nat)
    requires u > 0
    ensures Units(n, u) > 0 <==> n >= u
  {
    if n >= u {
      UnitsLess(n, 0, u);
      assert n == n / u * u + n % u;
    } else if n >= 0 {
      DivModOf(0, n, u);
    }
  }

  /** How many records of u bytes fit between the entries of l, which lie between start and end, and around them. */
  function Slots(l: seq<Live>, start: nat, end: nat, u: nat): nat
    requires u > 0
  {
    if l == [] then Units(end - start, u)
    else Units(l[0].pos - start, u) + Slots(l[1..], EndOf(l[0]), end, u)
  }

  /** Entering an entry of at most u bytes right behind another takes one place at most. */
  lemma {:induction false} SlotsEntered(l: seq<Live>, l2: seq<Live>, e: Live, k: nat, start: nat, end: nat, u: nat)
    requires u > 0 && InsertedAt(l, l2, e, k) && Snug(l[..k], start, e.pos) && ActualSize(|e.name|) <= u
    ensures Slots(l, start, end, u) <= Slots(l2, start, end, u) + 1
  {
    hide Units;
    if k == 0 {
      assert l2 == [e] + l && l2[1..] == l;
      UnitsPositive(0, u);
      UnitsLess((if l == [] then end else l[0].pos) - start, ActualSize(|e.name|), u);
    } else {
      assert l2[0] == l[0] && l2[1..] == l[1..][..k - 1] + [e] + l[1..][k - 1..];
      assert l[1..][..k - 1] == l[..k][1..];
      SlotsEntered(l[1..], l2[1..], e, k - 1, EndOf(l[0]), end, u);
    }
  }

  /** The entries come one after the other from start on. */
  ghost predicate Laid(l: seq<Live>, start: nat, end: nat) {
    if l == [] then start <= end else start <= l[0].pos && Laid(l[1..], EndOf(l[0]), end)
  }

  /** What the first record adds to the entries. */
  lemma FirstOf(t: seq<Byte>, base: nat)
    requires t != [] && Tiled(t)
    ensures |t| >= MIN_DIR_ENTRY_SIZE && ActualSize(NameLen(t)) <= RecLen(t) <= |t| && Tiled(t[RecLen(t)..])
    ensures 0 < RecLen(t)
    ensures var l := Listing(t[RecLen(t)..], base + RecLen(t));
            if Ino(t) == NO_ENTRY then Listing(t, base) == l
            else Listing(t, base) != [] && Listing(t, base)[1..] == l
                 && Listing(t, base)[0].pos == base && EndOf(Listing(t, base)[0]) == base + ActualSize(NameLen(t))
  {
    hide Listing;
    ListingStep(t, base);
    if Ino(t) != NO_ENTRY {
      assert |NameOf(t)| == NameLen(t);
    }
  }

  lemma {:induction false} ListingLaid(t: seq<Byte>, base: nat, start: nat)
    requires Tiled(t) && start <= base
    ensures Laid(Listing(t, base), start, base + |t|)
    decreases |t|
  {
    hide Listing, Tiled, ActualSize, Ino, RecLen, NameLen, EndOf, Laid;
    if t == [] {
      ListingNone(t, base);
      LaidIs([], start, base);
    } else {
      FirstOf(t, base);
      var n := RecLen(t);
      LaidIs(Listing(t, base), start, base + |t|);
      if Ino(t) == NO_ENTRY {
        ListingLaid(t[n..], base + n, start);
      } else {
        ListingLaid(t[n..], base + n, base + ActualSize(NameLen(t)));
      }
    }
  }

  lemma LaidIs(l: seq<Live>, start: nat, end: nat)
    ensures l == [] ==> (Laid(l, start, end) <==> start <= end)
    ensures l != [] ==> (Laid(l, start, end) <==> start <= l[0].pos && Laid(l[1..], EndOf(l[0]), end))
  {
  }

  /** Deleting an entry takes no place away. */
  lemma {:induction false} SlotsDeleted(l: seq<Live>, k: nat, start: nat, end: nat, u: nat)
    requires u > 0 && k < |l| && Laid(l, start, end)
    ensures Slots(l, start, end, u) <= Slots(l[..k] + l[k + 1..], start, end, u)
  {
    hide Units;
    var m := l[..k] + l[k + 1..];
    if k == 0 {
      assert m == l[1..];
      var next: int := if m == [] then end else m[0].pos;
      assert EndOf(l[0]) <= next;
      UnitsAdd(l[0].pos - start, next - EndOf(l[0]), u);
      UnitsMore(l[0].pos - start + (next - EndOf(l[0])), next - start, u);
    } else {
      assert m[0] == l[0] && m[1..] == l[1..][..k - 1] + l[1..][k..];
      SlotsDeleted(l[1..], k - 1, EndOf(l[0]), end, u);
    }
  }

  /** In a row of records in use there is a place for u bytes exactly when a record has that much to spare, or there is
      that much before the first. */
  lemma {:induction false} SlotsOfLive(t: seq<Byte>, base: nat, start: nat, u: nat)
    requires u > 0 && Tiled(t) && AllLive(t) && start <= base
    ensures Slots(Listing(t, base), start, base + |t|, u) > 0 <==> base - start >= u || HasRoom(t, u)
    decreases |t|
  {
    hide Units, Listing, Tiled, ActualSize, Ino, RecLen, NameLen, EndOf;
    UnitsPositive(base - start, u);
    if t == [] {
      ListingNone(t, base);
    } else {
      FirstOf(t, base);
      var n := RecLen(t);
      SlotsOfLive(t[n..], base + n, base + ActualSize(NameLen(t)), u);
    }
  }

  /** There is a place for u bytes in a block exactly when some record has room. */
  lemma SlotsOfBlock(t: seq<Byte>, base: nat, u: nat)
    requires u > 0 && Tiled(t) && Tidy(t)
    ensures Slots(Listing(t, base), base, base + |t|, u) > 0 <==> HasRoom(t, u)
  {
    hide Units, Slots, Listing, Tiled, ActualSize, Ino, RecLen, NameLen;
    if t != [] {
      FirstOf(t, base);
      var n := RecLen(t);
      if Ino(t) == NO_ENTRY {
        SlotsOfLive(t[n..], base + n, base, u);
      } else {
        SlotsOfLive(t, base, base, u);
      }
    } else {
      SlotsOfLive(t, base, base, u);
    }
  }

  /** More room is needed for more bytes. */
  lemma {:induction false} RoomForLess(t: seq<Byte>, n: nat, m: nat)
    requires Tiled(t) && n <= m && HasRoom(t, m)
    ensures HasRoom(t, n)
    decreases |t|
  {
    if !((Ino(t) == NO_ENTRY && m <= RecLen(t)) || m <= RecLen(t) - ActualSize(NameLen(t))) {
      RoomForLess(t[RecLen(t)..], n, m);
    }
  }

  ghost function BlockSlots(t: seq<Byte>, base: nat, u: nat): nat
    requires u > 0 && Tiled(t)
  {
    Slots(Listing(t, base), base, base + |t|, u)
  }

  /** How many records of u bytes there is room for in a directory's blocks. */
  ghost function SlotsIn(c: seq<seq<Byte>>, base: nat, u: nat): nat
    requires u > 0 && AllTiled(c)
  {
    if c == [] then 0 else BlockSlots(c[0], base, u) + SlotsIn(c[1..], base + |c[0]|, u)
  }

  lemma SlotsFront(c: seq<seq<Byte>>, base: nat, u: nat)
    requires u > 0 && AllTiled(c) && c != []
    ensures Tiled(c[0]) && Tidy(c[0]) && AllTiled(c[1..])
    ensures SlotsIn(c, base, u) == BlockSlots(c[0], base, u) + SlotsIn(c[1..], base + |c[0]|, u)
  {
    hide Tiled, Tidy, BlockSlots;
  }

  /** A change of one block changes the sum by as much. */
  lemma {:induction false} SlotsChanged(c: seq<seq<Byte>>, i: nat, t: seq<Byte>, base: nat, u: nat)
    requires u > 0 && AllTiled(c) && i < |c| && |t| == |c[i]| && AllTiled(c[i := t])
    ensures Tiled(t) && Tiled(c[i])
    ensures SlotsIn(c[i := t], base, u) - SlotsIn(c, base, u)
            == BlockSlots(t, base + BaseOf(c, i), u) - BlockSlots(c[i], base + BaseOf(c, i), u)
  {
    hide Tiled, Tidy, BlockSlots, SlotsIn;
    var d := c[i := t];
    assert d[i] == t;
    SlotsFront(c, base, u);
    SlotsFront(d, base, u);
    if i > 0 {
      assert d[1..] == c[1..][i - 1 := t];
      SlotsChanged(c[1..], i - 1, t, base + |c[0]|, u);
    } else {
      assert d[1..] == c[1..];
    }
  }

  /** Some record of some block has room. */
  ghost predicate RoomIn(c: seq<seq<Byte>>, required: nat)
    requires AllTiled(c)
  {
    exists i :: 0 <= i < |c| && HasRoom(c[i], required)
  }

  /** There is a place for u bytes in a directory exactly when some record has room for them. */
  lemma {:induction false} SlotsRoom(c: seq<seq<Byte>>, base: nat, u: nat)
    requires u > 0 && AllTiled(c)
    ensures SlotsIn(c, base, u) > 0 <==> RoomIn(c, u)
  {
    hide Tiled, Tidy, Slots, Listing, HasRoom;
    if c != [] {
      SlotsFront(c, base, u);
      SlotsOfBlock(c[0], base, u);
      SlotsRoom(c[1..], base + |c[0]|, u);
      forall i | 0 <= i < |c[1..]| ensures c[1..][i] == c[i + 1] {
      }
      if i :| 0 <= i < |c| && HasRoom(c[i], u) {
        assert i > 0 ==> c[1..][i - 1] == c[i];
      }
      if i :| 0 <= i < |c[1..]| && HasRoom(c[1..][i], u) {
        assert HasRoom(c[i + 1], u);
      }
    }
  }

  lemma RoomInForLess(c: seq<seq<Byte>>, n: nat, m: nat)
    requires AllTiled(c) && n <= m && RoomIn(c, m)
    ensures RoomIn(c, n)
  {
    hide Tiled, Tidy, HasRoom;
    var i :| 0 <= i < |c| && HasRoom(c[i], m);
    RoomForLess(c[i], n, m);
  }

  /** A name entered takes one place at most. */
  lemma EnteredSlots(c: seq<seq<Byte>>, c2: seq<seq<Byte>>, e: Live, u: nat)
    requires u > 0 && AllTiled(c) && AllTiled(c2) && Entered(c, c2, e) && ActualSize(|e.name|) <= u
    ensures SlotsIn(c, 0, u) <= SlotsIn(c2, 0, u) + 1
  {
    hide Tiled, Tidy, Listing, SlotsIn, Slots, BaseOf;
    var i: nat :| EnteredAt(c, c2, i, e);
    var base := BaseOf(c, i);
    var l, l2 := Listing(c[i], base), Listing(c2[i], base);
    var k: nat :| InsertedAt(l, l2, e, k) && Snug(l[..k], base, e.pos);
    SlotsChanged(c, i, c2[i], 0, u);
    SlotsEntered(l, l2, e, k, base, base + |c[i]|, u);
  }

  /** A name deleted takes no place away. */
  lemma DeletedSlots(c: seq<seq<Byte>>, c2: seq<seq<Byte>>, name: Name, u: nat)
    requires u > 0 && AllTiled(c) && AllTiled(c2) && Deleted(c, c2, name)
    ensures SlotsIn(c, 0, u) <= SlotsIn(c2, 0, u)
  {
    hide Tiled, Tidy, Listing, SlotsIn, Slots, BaseOf, FindName;
    var i: nat :| DeletedAt(c, c2, i, name);
    var base := BaseOf(c, i);
    var l := Listing(c[i], base);
    SlotsChanged(c, i, c2[i], 0, u);
    ListingLaid(c[i], base, base);
    if FindName(l, name) < |l| {
      SlotsDeleted(l, FindName(l, name), base, base + |c[i]|, u);
    }
  }
}
