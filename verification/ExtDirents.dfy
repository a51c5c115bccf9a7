/** extfs/dir.c: listing a directory through a series of calls, with a cookie from one to the next. */
module ExtDirents {
  import opened Words
  import opened ExtGeometry
  import opened DirSpec
  import opened DirListing
  import opened ExtDirectory

  /** What a caller is told of an entry. */
  datatype Dirent = Dirent(ino: nat, name: Name)

  function Shown(l: seq<Live>): (r: seq<Dirent>)
    ensures |r| == |l| && forall k :: 0 <= k < |l| ==> r[k] == Dirent(l[k].ino, l[k].name)
  {
    seq(|l|, k requires 0 <= k < |l| => Dirent(l[k].ino, l[k].name))
  }

  /** Bytes taken by an entry: the name, its terminator and what goes before it, rounded up to 8. */
  function RecSize(nameOffset: nat, nameLen: nat): (n: nat)
    ensures n % 8 == 0 && nameOffset + nameLen + 1 <= n < nameOffset + nameLen + 1 + 8
  {
    (nameOffset + nameLen + 1 + 7) / 8 * 8
  }

  /** Bytes a list of entries takes: for each what goes before its name, the name and its terminator, rounded up to
      8. */
  function Taken(nameOffset: nat, data: seq<Dirent>): nat {
    if data == [] then 0
    else Taken(nameOffset, data[..|data| - 1]) + (nameOffset + |data[|data| - 1].name| + 1 + 7) / 8 * 8
  }

  lemma TakenMore(nameOffset: nat, data: seq<Dirent>, d: Dirent)
    ensures Taken(nameOffset, data + [d]) == Taken(nameOffset, data) + RecSize(nameOffset, |d.name|)
  {
    assert (data + [d])[..|data|] == data;
  }

  /** The caller's buffer: bytes used so far, and the entries they hold. nameOffset is where the name starts in a struct
      dirent, which is not part of this model. */
  class DirentBuf {
    const nameOffset: nat
    const size: nat
    var position: nat
    var data: seq<Dirent>

    /** The bytes used are those the entries take. */
    predicate Valid()
      reads this
    {
      position <= size && position == Taken(nameOffset, data)
    }

    constructor Init(nameOffset: nat, size: nat)
      ensures Valid()
      ensures this.nameOffset == nameOffset && this.size == size && position == 0 && data == []
    {
      this.nameOffset, this.size, position, data := nameOffset, size, 0, [];
    }

    /** dirent_buf_add: 0 when the entry does not fit. */
    method Add(ino: nat, name: Name) returns (n: nat)
      requires Valid()
      modifies this
      ensures Valid()
      ensures n == if old(position) + RecSize(nameOffset, |name|) <= size then RecSize(nameOffset, |name|) else 0
      ensures position == old(position) + n && (n == 0 <==> old(position) + RecSize(nameOffset, |name|) > size)
      ensures data == if n == 0 then old(data) else old(data) + [Dirent(ino, name)]
    {
      RecSizeFits(nameOffset, |name|);
      TakenMore(nameOffset, data, Dirent(ino, name));
      var reclen := RecSize(nameOffset, |name|);
      if position + reclen <= size {
        data := data + [Dirent(ino, name)];
        position := position + reclen;
        return reclen;
      }
      return 0;
    }
  }

  /** The start of the record that holds byte rel. */
  ghost function RecordAt(t: seq<Byte>, rel: nat): (d: nat)
    requires Tiled(t) && rel < |t|
    ensures d <= rel
    decreases |t|
  {
    if rel < RecLen(t) then 0 else RecLen(t) + RecordAt(t[RecLen(t)..], rel - RecLen(t))
  }

  lemma RecordAtStep(t: seq<Byte>, rel: nat)
    requires t != [] && Tiled(t) && rel < |t|
    ensures Head(t) && RecLen(t) <= |t| && Tiled(t[RecLen(t)..])
    ensures rel < RecLen(t) ==> RecordAt(t, rel) == 0
    ensures rel >= RecLen(t) ==> RecordAt(t, rel) == RecLen(t) + RecordAt(t[RecLen(t)..], rel - RecLen(t))
  {
  }

  /** seek_to_valid_dirent: the record that holds the position, which may have become part of another since the cookie
      was handed out. There always is one, so the source's NULL result does not occur. */
  method SeekToValidDirent(buf: array<Byte>, rel: nat) returns (d: nat)
    requires Tiled(buf[..]) && rel < buf.Length
    ensures d == RecordAt(buf[..], rel) && Cut(buf[..], d)
    ensures d + MIN_DIR_ENTRY_SIZE <= buf.Length && rel < d + RecLen(buf[..][d..])
  {
    hide Tiled, Listing, Head, RecordAt, Cut, RecLen;
    ghost var b := buf[..];
    CutStart(b);
    d := 0;
    SeekFacts(b, 0, rel);
    while d + (buf[d + 4] as nat + 0x100 * (buf[d + 5] as nat)) <= rel
          && d + (buf[d + 4] as nat + 0x100 * (buf[d + 5] as nat)) < buf.Length
      invariant d <= rel && Seeking(b, d, rel) && d + MIN_DIR_ENTRY_SIZE <= buf.Length
      invariant MIN_DIR_ENTRY_SIZE <= RecLen(b[d..]) == buf[d + 4] as nat + 0x100 * (buf[d + 5] as nat)
      invariant d + RecLen(b[d..]) <= |b|
      decreases buf.Length - d
    {
      hide Seeking;
      var recLen := buf[d + 4] as nat + 0x100 * (buf[d + 5] as nat);
      if recLen == 0 {
        // The source panics on a record of length 0.
        assert false;
      }
      SeekStep(b, d, rel);
      d := d + recLen;
      SeekFacts(b, d, rel);
    }
    SeekEnd(b, d, rel);
  }

  /** Seeking in b for the record that holds byte rel has come to the one at d. */
  ghost predicate Seeking(b: seq<Byte>, d: nat, rel: nat) {
    d <= rel < |b| && Cut(b, d) && Tiled(b) && RecordAt(b, rel) == d + RecordAt(b[d..], rel - d)
  }

  lemma SeekStep(b: seq<Byte>, d: nat, rel: nat)
    requires Seeking(b, d, rel) && d + MIN_DIR_ENTRY_SIZE <= |b| && d + RecLen(b[d..]) <= rel
    ensures Seeking(b, d + RecLen(b[d..]), rel)
  {
    hide Tiled, Listing, Head, RecordAt;
    var n := RecLen(b[d..]);
    RecordAtStep(b[d..], rel - d);
    assert b[d..][n..] == b[d + n..];
    CutRecord(b, d, 0);
  }

  lemma SeekEnd(b: seq<Byte>, d: nat, rel: nat)
    requires Seeking(b, d, rel) && d + MIN_DIR_ENTRY_SIZE <= |b| && rel < d + RecLen(b[d..])
    ensures Cut(b, d) && Tiled(b) && RecordAt(b, rel) == d
  {
    hide Listing, Head, RecordAt;
    RecordAtStep(b[d..], rel - d);
  }

  lemma SeekFacts(b: seq<Byte>, d: nat, rel: nat)
    requires Cut(b, d) && d <= rel < |b|
    ensures d == 0 && Tiled(b) ==> b[0..] == b && Seeking(b, 0, rel)
    ensures d + MIN_DIR_ENTRY_SIZE <= |b| && d + RecLen(b[d..]) <= |b|
    ensures MIN_DIR_ENTRY_SIZE <= RecLen(b[d..]) == b[d + 4] as nat + 0x100 * (b[d + 5] as nat)
  {
    hide Head;
    HeadFacts(b[d..]);
    Fields(b, d);
    if d == 0 {
      assert b[0..] == b;
    }
  }

  /** One round of fill_dirent_buf's loop: the entry of the record at p is added, if there is one and it fits. */
  method FillOne(buf: array<Byte>, p: nat, db: DirentBuf, ghost base: nat) returns (full: bool)
    requires p < buf.Length && Cut(buf[..], p) && db.Valid()
    modifies db
    ensures db.Valid()
    ensures p + MIN_DIR_ENTRY_SIZE <= buf.Length && Head(buf[..][p..]) && old(db.position) <= db.position <= db.size
    ensures !full ==> db.data == old(db.data) + Shown(FirstEntryOf(buf[..][p..], base + p))
    ensures full ==> db.data == old(db.data) && db.position == old(db.position)
    ensures full ==> Blocked(db.nameOffset, db.size, db.position, buf[..], p)
  {
    hide Taken, Tiled, Listing, Head, FirstEntry, FirstEntryOf, Blocked, RecSize, Ino, RecLen, NameLen, NameOf, Cut,
      Shown;
    ghost var b := buf[..];
    FillFields(b, p);
    FirstEntryIs(b, p, base + p);
    var ino := buf[p] as nat + 0x100 * (buf[p + 1] as nat)
               + 0x1_0000 * (buf[p + 2] as nat + 0x100 * (buf[p + 3] as nat));
    if ino == NO_ENTRY {
      assert db.data + [] == db.data;
      return false;
    }
    var len := buf[p + 6] as nat;
    var n := db.Add(ino, buf[p + MIN_DIR_ENTRY_SIZE..p + MIN_DIR_ENTRY_SIZE + len]);
    if n == 0 {
      BlockedHere(db.nameOffset, db.size, db.position, b, p);
      return true;
    }
    return false;
  }

  /** fill_dirent_buf: the entries from the record at d on, as many as fit. */
  method FillDirentBuf(buf: array<Byte>, d: nat, db: DirentBuf, ghost base: nat) returns (full: bool, d2: nat)
    requires Cut(buf[..], d) && d + MIN_DIR_ENTRY_SIZE <= buf.Length && db.Valid()
    modifies db
    ensures db.Valid()
    ensures d <= d2 <= buf.Length && Cut(buf[..], d2) && Tiled(buf[..][d..d2])
    ensures !full ==> d2 == buf.Length
    ensures db.data == old(db.data) + Shown(Listing(buf[..][d..d2], base + d))
    ensures d2 > d ==> d2 >= d + RecLen(buf[..][d..])
    ensures full ==> d2 < buf.Length && Blocked(db.nameOffset, db.size, db.position, buf[..], d2)
    ensures old(db.position) <= db.position && (d2 == d ==> db.position == old(db.position))
  {
    hide Taken, Tiled, Listing, Head, FirstEntry, FirstEntryOf, Blocked, RecSize, Ino, RecLen, NameLen, NameOf, Cut,
      Shown;
    ghost var b := buf[..];
    ghost var data0 := db.data;
    d2 := d;
    FillStart(b, d, base);
    while d2 < buf.Length
      invariant d <= d2 <= buf.Length && Cut(b, d2) && Tiled(b[d..d2])
      invariant db.data == data0 + Shown(Listing(b[d..d2], base + d))
      invariant d2 > d ==> d2 >= d + RecLen(b[d..])
      invariant db.Valid() && old(db.position) <= db.position && (d2 == d ==> db.position == old(db.position))
    {
      FillFields(b, d2);
      FillStep(b, d, d2, base);
      ShownStep(data0, Listing(b[d..d2], base + d), FirstEntryOf(b[d2..], base + d2));
      full := FillOne(buf, d2, db, base);
      if full {
        return;
      }
      d2 := d2 + (buf[d2 + 4] as nat + 0x100 * (buf[d2 + 5] as nat));
    }
    return false, d2;
  }

  /** The record at p, as the source reads it. */
  lemma FillFields(b: seq<Byte>, p: nat)
    requires p < |b| && Cut(b, p)
    ensures p + MIN_DIR_ENTRY_SIZE <= |b| && Head(b[p..]) && p + MIN_DIR_ENTRY_SIZE + b[p + 6] as nat <= |b|
    ensures Ino(b[p..]) == b[p] as nat + 0x100 * (b[p + 1] as nat)
                           + 0x1_0000 * (b[p + 2] as nat + 0x100 * (b[p + 3] as nat))
    ensures RecLen(b[p..]) == b[p + 4] as nat + 0x100 * (b[p + 5] as nat) >= MIN_DIR_ENTRY_SIZE
    ensures NameLen(b[p..]) == b[p + 6] as nat
    ensures p + RecLen(b[p..]) <= |b| && Cut(b, p + RecLen(b[p..]))
  {
    hide Tiled, Listing, Head, Ino, RecLen, NameLen, NameOf;
    HeadFactsAt(b, p);
    CutRecord(b, p, 0);
    Fields(b, p);
    NameInside(b[p..]);
  }

  lemma BlockedHere(nameOffset: nat, size: nat, position: nat, b: seq<Byte>, p: nat)
    requires p + MIN_DIR_ENTRY_SIZE <= |b| && Head(b[p..]) && Ino(b[p..]) != NO_ENTRY
    requires position + RecSize(nameOffset, NameLen(b[p..])) > size
    ensures Blocked(nameOffset, size, position, b, p)
  {
  }

  lemma RecSizeFits(nameOffset: nat, nameLen: nat)
    ensures RecSize(nameOffset, nameLen) >= 1
  {
  }

  /** The record at p is in use, and after position bytes its entry does not fit the buffer. */
  ghost predicate Blocked(nameOffset: nat, size: nat, position: nat, b: seq<Byte>, p: nat) {
    && p < |b| && Head(b[p..]) && Ino(b[p..]) != NO_ENTRY
    && position + RecSize(nameOffset, NameLen(b[p..])) > size
  }

  ghost function FirstEntryOf(t: seq<Byte>, base: nat): seq<Live>
    requires Head(t)
  {
    FirstEntry(t, base)
  }

  lemma HeadFactsAt(b: seq<Byte>, p: nat)
    requires Cut(b, p) && p < |b|
    ensures Head(b[p..]) && p + MIN_DIR_ENTRY_SIZE <= |b|
    ensures MIN_DIR_ENTRY_SIZE <= RecLen(b[p..]) <= |b| - p
  {
  }

  lemma FillStart(b: seq<Byte>, d: nat, base: nat)
    requires d <= |b|
    ensures Tiled(b[d..d]) && Listing(b[d..d], base + d) == [] && Shown([]) == []
  {
    assert b[d..d] == [];
  }

  lemma FillStep(b: seq<Byte>, d: nat, p: nat, base: nat)
    requires d <= p < |b| && Cut(b, p) && Tiled(b[d..p]) && Head(b[p..])
    ensures var q := p + RecLen(b[p..]);
            && q <= |b| && Tiled(b[d..q])
            && Listing(b[d..q], base + d) == Listing(b[d..p], base + d) + FirstEntryOf(b[p..], base + p)
  {
    hide Tiled, Listing, FirstEntry, Head;
    HeadFacts(b[p..]);
    var q := p + RecLen(b[p..]);
    var r := b[p..q];
    RecordAlone(b[p..], base + p);
    assert b[p..][..RecLen(b[p..])] == r;
    NamedEntry(b, p);
    OneRecord(r, base + p);
    assert b[d..q] == b[d..p] + r;
    TiledAppend(b[d..p], r, base + d);
  }

  lemma ShownStep(o: seq<Dirent>, l: seq<Live>, m: seq<Live>)
    ensures o + Shown(l + m) == o + Shown(l) + Shown(m)
  {
    assert Shown(l + m) == Shown(l) + Shown(m);
  }

  lemma FirstEntryIs(b: seq<Byte>, p: nat, base: nat)
    requires p + MIN_DIR_ENTRY_SIZE <= |b| && Head(b[p..])
    ensures Ino(b[p..]) == NO_ENTRY ==> Shown(FirstEntryOf(b[p..], base)) == []
    ensures Ino(b[p..]) != NO_ENTRY ==>
              && p + MIN_DIR_ENTRY_SIZE + b[p + 6] as nat <= |b|
              && Shown(FirstEntryOf(b[p..], base)) ==
                 [Dirent(Ino(b[p..]), b[p + MIN_DIR_ENTRY_SIZE..p + MIN_DIR_ENTRY_SIZE + b[p + 6] as nat])]
  {
    Fields(b, p);
  }

  /** A directory's blocks end to end. */
  ghost function Flat(c: seq<seq<Byte>>): (t: seq<Byte>) {
    if c == [] then [] else c[0] + Flat(c[1..])
  }

  lemma {:induction false} FlatEntries(c: seq<seq<Byte>>, base: nat)
    requires AllTiled(c)
    ensures Tiled(Flat(c)) && Listing(Flat(c), base) == Entries(c, base)
  {
    hide Tiled, Tidy, Listing, Entries;
    EntriesFront(c, base);
    if c != [] {
      FlatEntries(c[1..], base + |c[0]|);
      TiledAppend(c[0], Flat(c[1..]), base);
    } else {
      ListingNone([], base);
    }
  }

  lemma {:induction false} FlatAt(c: seq<seq<Byte>>, i: nat)
    requires i < |c|
    ensures Flat(c) == Flat(c[..i]) + c[i] + Flat(c[i + 1..]) && |Flat(c[..i])| == BaseOf(c, i)
  {
    if i > 0 {
      FlatAt(c[1..], i - 1);
      assert c[1..][..i - 1] == c[..i][1..] && c[1..][i..] == c[i + 1..];
      var x, y, z := Flat(c[1..][..i - 1]), c[i], Flat(c[i + 1..]);
      assert c[0] + (x + y + z) == (c[0] + x) + y + z;
    } else {
      assert c[..0] == [] && Flat(c[..0]) == [];
      assert c[0] + Flat(c[1..]) == [] + c[0] + Flat(c[1..]);
    }
  }

  lemma FlatSize(c: seq<seq<Byte>>, size: nat)
    requires forall k :: 0 <= k < |c| ==> |c[k]| == size
    ensures |Flat(c)| == |c| * size
  {
    if c != [] {
      FlatAt(c, |c| - 1);
      BaseIs(c, |c| - 1, size);
      assert c[|c|..] == [];
      assert (|c| - 1) * size + size == |c| * size;
    }
  }

  /** A position lies in the block its quotient names, at its remainder. */
  lemma BlockOf(c: seq<seq<Byte>>, size: nat, pos: nat)
    requires size > 0 && pos < |Flat(c)| && forall k :: 0 <= k < |c| ==> |c[k]| == size
    ensures pos / size < |c| && pos == BaseOf(c, pos / size) + pos % size
  {
    FlatSize(c, size);
    DivLess(pos, size, |c|);
    BaseIs(c, pos / size, size);
  }

  lemma {:induction false} RecordAtAppend(x: seq<Byte>, y: seq<Byte>, rel: nat)
    requires Tiled(x) && Tiled(y) && Tiled(x + y) && rel < |x + y|
    ensures RecordAt(x + y, rel) == if rel < |x| then RecordAt(x, rel) else |x| + RecordAt(y, rel - |x|)
    decreases |x|
  {
    hide Head, RecLen, RecordAt, Ino, NameLen;
    if x == [] {
      assert x + y == y;
    } else {
      HeadFacts(x);
      RecordAtStep(x + y, rel);
      RestAppend(x, y);
      if rel < |x| {
        RecordAtStep(x, rel);
      }
      var n := RecLen(x);
      if rel >= n {
        assert Tiled((x + y)[n..]);
        RecordAtAppend(x[n..], y, rel - n);
      }
    }
  }

  lemma RecordAtCut(t: seq<Byte>, p: nat)
    requires Cut(t, p) && Tiled(t) && p < |t|
    ensures RecordAt(t, p) == p
  {
    assert t == t[..p] + t[p..];
    RecordAtAppend(t[..p], t[p..], p);
  }

  /** Three stretches, the middle one from s to e, each tiled by records. */
  ghost predicate Span(t: seq<Byte>, s: nat, e: nat) {
    s <= e <= |t| && Tiled(t[..s]) && Tiled(t[s..e]) && Tiled(t[e..])
  }

  /** In terms of the whole directory: what filling from one place in block i to another has done. */
  lemma SpanMore(c: seq<seq<Byte>>, i: nat, s: nat, d: nat, d2: nat)
    requires AllTiled(c) && i < |c| && d <= d2 <= |c[i]|
    requires Cut(c[i], d) && Cut(c[i], d2) && Tiled(c[i][d..d2])
    requires BaseOf(c, i) + d <= |Flat(c)| && Span(Flat(c), s, BaseOf(c, i) + d)
    ensures s <= BaseOf(c, i) + d && BaseOf(c, i) + d2 <= |Flat(c)| && Span(Flat(c), s, BaseOf(c, i) + d2)
    ensures Listing(Flat(c)[s..BaseOf(c, i) + d2], s)
            == Listing(Flat(c)[s..BaseOf(c, i) + d], s) + Listing(c[i][d..d2], BaseOf(c, i) + d)
  {
    hide Tiled, Tidy, Listing, Flat, BaseOf;
    var t, e, e2 := Flat(c), BaseOf(c, i) + d, BaseOf(c, i) + d2;
    FlatAt(c, i);
    FlatEntries(c[i + 1..], 0);
    assert t[e..e2] == c[i][d..d2];
    assert t[s..e2] == t[s..e] + t[e..e2];
    TiledAppend(t[s..e], t[e..e2], s);
    assert t[e2..] == c[i][d2..] + Flat(c[i + 1..]);
    TiledAppend(c[i][d2..], Flat(c[i + 1..]), e2);
  }

  /** Where a call with that cookie starts. */
  lemma SpanStart(c: seq<seq<Byte>>, i: nat, rel: nat)
    requires AllTiled(c) && i < |c| && rel < |c[i]| && Cut(c[i], RecordAt(c[i], rel))
    ensures var t, s := Flat(c), BaseOf(c, i) + RecordAt(c[i], rel);
            && s <= BaseOf(c, i) + rel < |t| && Tiled(t) && RecordAt(t, BaseOf(c, i) + rel) == s
            && Span(t, s, s) && Listing(t[s..s], s) == []
  {
    hide Tiled, Tidy, Listing, Flat, BaseOf, RecordAt;
    var t, d, s := Flat(c), RecordAt(c[i], rel), BaseOf(c, i) + RecordAt(c[i], rel);
    var x, y, z := Flat(c[..i]), c[i], Flat(c[i + 1..]);
    FlatAt(c, i);
    FlatEntries(c, 0);
    FlatEntries(c[..i], 0);
    FlatEntries(c[i + 1..], 0);
    TiledAppend(y, z, 0);
    TiledAppend(x, y + z, 0);
    assert t == x + (y + z);
    RecordAtAppend(x, y + z, BaseOf(c, i) + rel);
    RecordAtAppend(y, z, rel);
    assert t[..s] == x + y[..d];
    TiledAppend(x, y[..d], 0);
    assert t[s..] == y[d..] + z;
    TiledAppend(y[d..], z, 0);
    assert t[s..s] == [];
    ListingNone(t[s..s], s);
  }

  /** What one call hands out: the entries from the record that holds the cookie up to the new cookie. */
  ghost predicate Batch(t: seq<Byte>, cookie: nat, cookie2: nat, data: seq<Dirent>)
    requires Tiled(t)
  {
    && cookie < |t|
    && Span(t, RecordAt(t, cookie), cookie2)
    && data == Shown(Listing(t[RecordAt(t, cookie)..cookie2], RecordAt(t, cookie)))
  }

  lemma SpanCut(t: seq<Byte>, s: nat, e: nat)
    requires Span(t, s, e) && Tiled(t)
    ensures Cut(t, e) && (e < |t| ==> RecordAt(t, e) == e)
  {
    hide Tiled, Listing, RecordAt;
    assert t[..e] == t[..s] + t[s..e];
    TiledAppend(t[..s], t[s..e], 0);
    if e < |t| {
      RecordAtCut(t, e);
    }
  }

  /** One round of get_dirents: the block the position lies in, from the record that holds it on. s is where the call
      started, more what this round adds. */
  method ListBlock(dir: Directory, pos: nat, db: DirentBuf, ghost s: nat)
    returns (full: bool, pos2: nat, ghost more: seq<Live>)
    requires dir.Valid() && pos < |Flat(dir.Content())| && db.Valid()
    requires Tiled(Flat(dir.Content())) && Span(Flat(dir.Content()), s, RecordAt(Flat(dir.Content()), pos))
    modifies db
    ensures dir.Valid() && dir.Content() == old(dir.Content())
    ensures var t := Flat(dir.Content());
            && Tiled(t) && Span(t, s, RecordAt(t, pos)) && Span(t, s, pos2) && RecordAt(t, pos) <= pos2
            && Listing(t[s..pos2], s) == Listing(t[s..RecordAt(t, pos)], s) + more
    ensures db.Valid() && db.data == old(db.data) + Shown(more) && old(db.position) <= db.position
    ensures full ==> Blocked(db.nameOffset, db.size, db.position, Flat(dir.Content()), pos2)
    ensures !full || (old(db.position) == 0 && db.size >= db.nameOffset + NAME_MAX + 8) ==> pos2 > pos
  {
    hide Taken, Tiled, Tidy, Listing, Flat, BaseOf, RecordAt, AllTiled, Cut, Span, Blocked;
    ghost var c := dir.Content();
    assert forall a :: a in dir.Bufs() ==> allocated(a);
    FlatSize(c, dir.blockSize);
    BlockOf(c, dir.blockSize, pos);
    var i, rel := pos / dir.blockSize, pos % dir.blockSize;
    BaseIs(c, i, dir.blockSize);
    BlockTiled(c, i);
    SeekCut(c, i, rel);
    SpanStart(c, i, rel);
    var buf := dir.blocks[i];
    assert buf[..] == c[i];
    var d := SeekToValidDirent(buf, rel);
    assert buf[..] == c[i];
    var d2;
    full, d2 := FillDirentBuf(buf, d, db, BaseOf(c, i));
    assert buf[..] == c[i];
    pos2 := i * dir.blockSize + d2;
    more := Listing(c[i][d..d2], BaseOf(c, i) + d);
    assert RecordAt(Flat(c), pos) == BaseOf(c, i) + d;
    SpanMore(c, i, s, d, d2);
    if full {
      BlockedFits(db.nameOffset, db.size, db.position, c[i], d2);
      BlockedFlat(db.nameOffset, db.size, db.position, c, i, d2);
    }
  }

  lemma BlockTiled(c: seq<seq<Byte>>, i: nat)
    requires AllTiled(c) && i < |c|
    ensures Tiled(c[i])
  {
  }

  /** No entry is too long for a buffer that could hold the longest name. */
  lemma BlockedFits(nameOffset: nat, size: nat, position: nat, b: seq<Byte>, p: nat)
    requires Blocked(nameOffset, size, position, b, p)
    ensures size >= nameOffset + NAME_MAX + 8 ==> position > 0
  {
  }

  lemma BlockedFlat(nameOffset: nat, size: nat, position: nat, c: seq<seq<Byte>>, i: nat, d: nat)
    requires i < |c| && Blocked(nameOffset, size, position, c[i], d)
    ensures Blocked(nameOffset, size, position, Flat(c), BaseOf(c, i) + d)
  {
    hide Head, Flat, BaseOf, RecSize;
    FlatAt(c, i);
    var t, p := Flat(c), BaseOf(c, i) + d;
    HeadFacts(c[i][d..]);
    RestAppend(c[i][d..], Flat(c[i + 1..]));
    assert t[p..] == c[i][d..] + Flat(c[i + 1..]);
  }

  /** Between rounds of get_dirents. */
  ghost predicate Underway(t: seq<Byte>, cookie: nat, pos: nat, full: bool, data: seq<Dirent>, begun: bool, big: bool)
    requires Tiled(t)
  {
    if !begun then pos == cookie && !full && data == []
    else
      && cookie < |t|
      && Batch(t, cookie, pos, data)
      && (!full || big ==> pos > cookie)
  }

  /** get_dirents. */
  method GetDirents(dir: Directory, cookie: nat, nameOffset: nat, size: nat)
    returns (r: Result<nat>, cookie2: nat, data: seq<Dirent>)
    requires dir.Valid()
    ensures dir.Valid() && Tiled(Flat(dir.Content()))
    ensures cookie % DIR_ENTRY_ALIGN != 0 <==> r == Err(ENOENT)
    ensures r.Ok? || r == Err(ENOENT)
    ensures r.Err? || cookie >= |Flat(dir.Content())| ==> data == [] && cookie2 == cookie
    ensures r.Ok? && cookie < |Flat(dir.Content())| ==>
              && Batch(Flat(dir.Content()), cookie, cookie2, data)
              && (size >= nameOffset + NAME_MAX + 8 ==> cookie2 > cookie)
    ensures r.Ok? && cookie2 < |Flat(dir.Content())| ==>
              Blocked(nameOffset, size, r.value, Flat(dir.Content()), cookie2)
    ensures r.Ok? ==> r.value == Taken(nameOffset, data) && r.value <= size
    ensures r.Ok? ==> (r.value == 0 <==> data == [])
  {
    hide Taken, Tiled, Tidy, Listing, Flat, RecordAt, AllTiled, Cut, Batch, Blocked;
    ghost var c := dir.Content();
    ghost var t := Flat(c);
    assert forall a :: a in dir.Bufs() ==> allocated(a);
    FlatEntries(c, 0);
    FlatSize(c, dir.blockSize);
    data, cookie2 := [], cookie;
    if cookie % DIR_ENTRY_ALIGN != 0 {
      return Err(ENOENT), cookie2, data;
    }
    var db := new DirentBuf.Init(nameOffset, size);
    var full := false;
    var pos: nat := cookie;
    ghost var begun, big := false, size >= nameOffset + NAME_MAX + 8;
    while !full && pos < |dir.blocks| * dir.blockSize
      invariant dir.Valid() && dir.Content() == c && fresh(db)
      invariant db.Valid() && size == db.size && db.nameOffset == nameOffset
      invariant begun || db.position == 0
      invariant Underway(t, cookie, pos, full, db.data, begun, big)
      invariant full ==> Blocked(nameOffset, size, db.position, t, pos)
      decreases !full, |t| - pos
    {
      ghost var more, pos1, data1 := [], pos, db.data;
      ghost var s := FirstPart(c, cookie, pos, db.data, begun);
      full, pos, more := ListBlock(dir, pos, db, s);
      NextPart(t, cookie, pos1, pos, data1, more, begun);
      begun := true;
    }
    TakenNone(nameOffset, db.data);
    r, cookie2, data := Ok(db.position), pos, db.data;
  }

  lemma TakenNone(nameOffset: nat, data: seq<Dirent>)
    ensures Taken(nameOffset, data) == 0 <==> data == []
  {
  }

  /** Where the call started, and that the records up to the next one to be read are a stretch of their own. */
  lemma FirstPart(c: seq<seq<Byte>>, cookie: nat, pos: nat, data: seq<Dirent>, begun: bool) returns (s: nat)
    requires AllTiled(c) && Tiled(Flat(c)) && pos < |Flat(c)|
    requires if begun then cookie < |Flat(c)| && Batch(Flat(c), cookie, pos, data) else pos == cookie
    ensures cookie < |Flat(c)| && s == RecordAt(Flat(c), cookie)
    ensures Span(Flat(c), s, RecordAt(Flat(c), pos)) && (begun ==> RecordAt(Flat(c), pos) == pos)
    ensures !begun ==> Listing(Flat(c)[s..s], s) == []
  {
    hide Tiled, Listing, Flat, RecordAt;
    var t := Flat(c);
    if begun {
      s := RecordAt(t, cookie);
      SpanCut(t, s, pos);
    } else {
      s := RecordAt(t, cookie);
      RecordAtIsCut(t, cookie);
      assert t[s..s] == [];
      ListingNone(t[s..s], s);
    }
  }

  lemma NextPart(t: seq<Byte>, cookie: nat, pos: nat, pos2: nat, data: seq<Dirent>, more: seq<Live>, begun: bool)
    requires Tiled(t) && cookie < |t| && pos < |t|
    requires var s := RecordAt(t, cookie);
             && Span(t, s, RecordAt(t, pos)) && Span(t, s, pos2)
             && Listing(t[s..pos2], s) == Listing(t[s..RecordAt(t, pos)], s) + more
             && (if begun then Batch(t, cookie, pos, data) && RecordAt(t, pos) == pos
                 else pos == cookie && data == [] && Listing(t[s..s], s) == [])
    ensures Batch(t, cookie, pos2, data + Shown(more))
  {
    hide Tiled, Listing, RecordAt;
    var s := RecordAt(t, cookie);
    ShownStep([], Listing(t[s..RecordAt(t, pos)], s), more);
    assert [] + Shown(Listing(t[s..RecordAt(t, pos)], s)) == Shown(Listing(t[s..RecordAt(t, pos)], s));
    assert [] + Shown(Listing(t[s..RecordAt(t, pos)], s) + more) == Shown(Listing(t[s..RecordAt(t, pos)], s) + more);
  }

  lemma SeekCut(c: seq<seq<Byte>>, i: nat, rel: nat)
    requires AllTiled(c) && i < |c| && rel < |c[i]|
    ensures Tiled(c[i]) && Cut(c[i], RecordAt(c[i], rel))
  {
    RecordAtIsCut(c[i], rel);
  }

  lemma {:induction false} RecordAtIsCut(t: seq<Byte>, rel: nat)
    requires Tiled(t) && rel < |t|
    ensures Cut(t, RecordAt(t, rel))
    decreases |t|
  {
    hide RecordAt, Head, Listing, Tiled, Cut;
    RecordAtStep(t, rel);
    CutStart(t);
    if rel >= RecLen(t) {
      TiledStep(t);
      RecordAtIsCut(t[RecLen(t)..], rel - RecLen(t));
      CutBeyond(t, RecordAt(t[RecLen(t)..], rel - RecLen(t)));
    }
  }

  lemma TiledStep(t: seq<Byte>)
    requires Tiled(t) && t != []
    ensures |t| >= MIN_DIR_ENTRY_SIZE && Head(t) && 0 < RecLen(t) <= |t| && Tiled(t[RecLen(t)..])
  {
    hide Listing;
    HeadFacts(t);
  }

  /** A boundary behind the first record is one of the whole. */
  lemma CutBeyond(t: seq<Byte>, d: nat)
    requires Tiled(t) && t != [] && RecLen(t) <= |t| && Cut(t[RecLen(t)..], d)
    ensures Cut(t, RecLen(t) + d)
  {
    hide Head, Listing, Tiled, RecLen, Tidy, AllLive, FirstEntry;
    TiledStep(t);
    var n := RecLen(t);
    CutStart(t);
    CutRecord(t, 0, 0);
    assert t[0..] == t;
    assert t[n..][d..] == t[n + d..];
    assert t[..n + d] == t[..n] + t[n..][..d];
    TiledAppend(t[..n], t[n..][..d], 0);
  }

  /** The entries of a stretch lie in it. */
  lemma {:induction false} ListingWithin(t: seq<Byte>, base: nat)
    requires Tiled(t)
    ensures forall e :: e in Listing(t, base) ==> base <= e.pos < base + |t|
    decreases |t|
  {
    if t != [] {
      hide Head, Listing;
      HeadFacts(t);
      ListingStep(t, base);
      ListingWithin(t[RecLen(t)..], base + RecLen(t));
    } else {
      ListingNone(t, base);
    }
  }

  /** An entry that starts within a stretch is among the stretch's entries. */
  lemma InSpan(t: seq<Byte>, s: nat, e: nat, x: Live)
    requires Tiled(t) && Span(t, s, e) && x in Listing(t, 0) && s <= x.pos < e
    ensures x in Listing(t[s..e], s)
  {
    hide Tiled, Listing;
    assert t == t[..s] + (t[s..e] + t[e..]);
    TiledAppend(t[s..e], t[e..], s);
    TiledAppend(t[..s], t[s..e] + t[e..], 0);
    ListingWithin(t[..s], 0);
    ListingWithin(t[e..], e);
  }

  /** A series of calls on a directory that may change between them: ts are the directory's bytes at each call, cookies
      go from each call to the next, starting at 0, and outs is what the calls hand out. */
  ghost predicate Series(ts: seq<seq<Byte>>, cookies: seq<nat>, outs: seq<seq<Dirent>>) {
    && |cookies| == |ts| + 1 && |outs| == |ts| && cookies[0] == 0
    && forall i :: 0 <= i < |ts| ==> Tiled(ts[i]) && Batch(ts[i], cookies[i], cookies[i + 1], outs[i])
  }

  /** Whatever is entered or deleted between the calls, an entry that is there, at its place, at every call and that the
      last cookie has passed has been handed out. */
  lemma NothingMissed(ts: seq<seq<Byte>>, cookies: seq<nat>, outs: seq<seq<Dirent>>, x: Live)
    requires Series(ts, cookies, outs) && x.pos < cookies[|ts|]
    requires forall i :: 0 <= i < |ts| ==> x in Listing(ts[i], 0)
    ensures exists i :: 0 <= i < |ts| && Dirent(x.ino, x.name) in outs[i]
  {
    hide Tiled, Listing;
    var i := Passing(cookies, x.pos);
    var t, s, e := ts[i], RecordAt(ts[i], cookies[i]), cookies[i + 1];
    InSpan(t, s, e, x);
    var l := Listing(t[s..e], s);
    var k :| 0 <= k < |l| && l[k] == x;
    assert Shown(l)[k] == Dirent(x.ino, x.name);
  }

  /** The call during which the cookie passes a position. */
  lemma {:induction false} Passing(cookies: seq<nat>, p: nat) returns (i: nat)
    requires |cookies| >= 2 && cookies[0] <= p < cookies[|cookies| - 1]
    ensures i + 1 < |cookies| && cookies[i] <= p < cookies[i + 1]
  {
    if p >= cookies[|cookies| - 2] {
      i := |cookies| - 2;
    } else {
      i := Passing(cookies[..|cookies| - 1], p);
    }
  }

  /** A caller that keeps calling until the cookie has passed the end, on a directory that does not change, is told
      every entry once and in order. */
  method ListAll(dir: Directory, nameOffset: nat, size: nat) returns (all: seq<Dirent>)
    requires dir.Valid() && size >= nameOffset + NAME_MAX + 8
    ensures dir.Valid() && all == Shown(dir.List())
  {
    hide Tiled, Tidy, Listing, Flat, RecordAt, AllTiled, Cut, Entries;
    ghost var c := dir.Content();
    ghost var t := Flat(c);
    assert forall a :: a in dir.Bufs() ==> allocated(a);
    FlatEntries(c, 0);
    FlatSize(c, dir.blockSize);
    var cookie := 0;
    all := [];
    ListStart(t);
    while cookie < |dir.blocks| * dir.blockSize
      invariant dir.Valid() && dir.Content() == c
      invariant Span(t, 0, cookie) && cookie % DIR_ENTRY_ALIGN == 0
      invariant all == Shown(Listing(t[..cookie], 0))
      decreases |t| - cookie
    {
      ghost var cookie1 := cookie;
      var r, data;
      r, cookie, data := GetDirents(dir, cookie, nameOffset, size);
      ListMore(t, cookie1, cookie, data);
      all := all + data;
    }
    assert t[..|t|] == t;
  }

  lemma ListStart(t: seq<Byte>)
    requires Tiled(t)
    ensures Span(t, 0, 0) && Listing(t[..0], 0) == []
  {
    assert t[..0] == [] && t[0..0] == [] && t[0..] == t;
  }

  lemma ListMore(t: seq<Byte>, cookie: nat, cookie2: nat, data: seq<Dirent>)
    requires Tiled(t) && Span(t, 0, cookie) && cookie < |t| && Batch(t, cookie, cookie2, data)
    requires cookie % DIR_ENTRY_ALIGN == 0
    ensures Span(t, 0, cookie2) && cookie2 % DIR_ENTRY_ALIGN == 0
    ensures Shown(Listing(t[..cookie2], 0)) == Shown(Listing(t[..cookie], 0)) + data
  {
    hide Tiled, Listing, RecordAt;
    assert t[0..cookie] == t[..cookie];
    SpanCut(t, 0, cookie);
    assert t[..cookie2] == t[..cookie] + t[cookie..cookie2];
    assert t[0..cookie2] == t[..cookie2];
    TiledAppend(t[..cookie], t[cookie..cookie2], 0);
    TiledAligned(t[cookie..cookie2]);
    ShownStep([], Listing(t[..cookie], 0), Listing(t[cookie..cookie2], cookie));
    assert [] + Shown(Listing(t[..cookie2], 0)) == Shown(Listing(t[..cookie2], 0));
    assert [] + Shown(Listing(t[..cookie], 0)) == Shown(Listing(t[..cookie], 0));
  }

  lemma AlignedSum(x: nat, y: nat)
    requires x % DIR_ENTRY_ALIGN == 0 && y % DIR_ENTRY_ALIGN == 0
    ensures (x + y) % DIR_ENTRY_ALIGN == 0
  {
  }

  lemma {:induction false} TiledAligned(t: seq<Byte>)
    requires Tiled(t)
    ensures |t| % DIR_ENTRY_ALIGN == 0
    decreases |t|
  {
    if t != [] {
      hide *;
      TiledStep(t);
      HeadFacts(t);
      var n := RecLen(t);
      TiledAligned(t[n..]);
      AlignedSum(n, |t[n..]|);
    }
  }
}
