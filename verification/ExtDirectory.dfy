/** extfs/dir_enter.c, dir_delete.c and dir_lookup.c: entering, deleting and finding entries of a directory. */
module ExtDirectory {
  import opened Words
  import opened ExtGeometry
  import opened DirSpec
  import opened DirListing
  import opened DirRoom

  /** sizeof(ino_t), of which delete_dir_entry leaves a copy in a long enough name. */
  const SIZEOF_INO: nat := 4

  method Put16(buf: array<Byte>, o: nat, v: nat)
    requires o + 2 <= buf.Length && v < 0x1_0000
    modifies buf
    ensures Le16(buf[..], o) == v
    ensures forall k :: 0 <= k < buf.Length && k != o && k != o + 1 ==> buf[k] == old(buf[k])
  {
    buf[o], buf[o + 1] := v % 0x100, v / 0x100;
  }

  method Put32(buf: array<Byte>, o: nat, v: nat)
    requires o + 4 <= buf.Length && v < U32
    modifies buf
    ensures Le32(buf[..], o) == v
    ensures forall k :: 0 <= k < buf.Length && (k < o || o + 4 <= k) ==> buf[k] == old(buf[k])
  {
    Put16(buf, o, v % 0x1_0000);
    Put16(buf, o + 2, v / 0x1_0000);
  }

  /** strcmp_nz: a name stored without a terminator against a C string. An empty stored name matches everything. */
  method StrcmpNz(s1: Name, s2: Name) returns (r: int)
    requires 0 !in s2
    ensures r == 0 <==> s1 == [] || s1 == s2
    ensures r == 0 || r == -1
  {
    var k := 0;
    if |s1| > 0 {
      while k < |s1|
        invariant k <= |s1| && k <= |s2| && s1[..k] == s2[..k]
      {
        if k == |s2| {
          return -1;
        }
        if s1[k] != s2[k] {
          return -1;
        }
        k := k + 1;
      }
      assert s1[..k] == s1;
      if k != |s2| {
        return -1;
      }
      assert s2[..k] == s2;
    }
    return 0;
  }

  /** shrink_dir_entry: the record at dp keeps its rounded size, and what it had to spare becomes a free record. */
  method ShrinkDirEntry(buf: array<Byte>, dp: nat, ghost base: nat) returns (next: nat)
    requires dp + MIN_DIR_ENTRY_SIZE <= buf.Length && Ino(buf[..][dp..]) != NO_ENTRY
    requires Cut(buf[..], dp) && Tiled(buf[..]) && Tidy(buf[..])
    requires RecLen(buf[..][dp..]) - ActualSize(NameLen(buf[..][dp..])) >= MIN_DIR_ENTRY_SIZE
    modifies buf
    ensures Gap(buf[..], next)
    ensures GapLen(buf[..], next) == old(RecLen(buf[..][dp..]) - ActualSize(NameLen(buf[..][dp..])))
    ensures Around(buf[..], next, base) == old(Listing(buf[..], base)) && GapSnug(buf[..], next, base)
    ensures RecLen(buf[..][dp..]) == ActualSize(old(NameLen(buf[..][dp..]))) == next - dp
    ensures next + MIN_DIR_ENTRY_SIZE <= buf.Length && Ino(buf[..][next..]) == NO_ENTRY
    ensures buf[next + 7] == old(buf[..])[next + 7]
  {
    hide Tiled, Tidy, AllLive, Listing, Around, Gap, GapSnug, Head, Ino, RecLen, NameLen, ActualSize, Cut, GapLen;
    ghost var b := buf[..];
    RoomHere(b, dp, 0);
    var recLen := buf[dp + 4] as nat + 0x100 * (buf[dp + 5] as nat);
    var actual := ActualSize(buf[dp + 6]);
    var newSlotSize := recLen - actual;
    Put16(buf, dp + 4, actual);
    next := dp + actual;
    Put16(buf, next + 4, newSlotSize);
    Put32(buf, next, NO_ENTRY);
    ghost var b2 := buf[..];
    Fields(b2, dp);
    Fields(b2, next);
    SameField(buf[..], dp + 4, actual);
    ShrinkIsGap(b, dp, b2, actual, recLen, base);
    ShrinkIsSnug(b, dp, b2, actual, recLen, base);
  }

  /** The gap at p is right behind the entry before it, or the block starts with it. */
  ghost predicate GapSnug(b: seq<Byte>, p: nat, base: nat) {
    p <= |b| && Tiled(b[..p]) && Snug(Listing(b[..p], base), base, base + p)
  }

  lemma ShrinkIsSnug(b: seq<Byte>, p: nat, b2: seq<Byte>, a: nat, n: nat, base: nat)
    requires Shrunk(b, p, b2, a, n) && Ino(b[p..]) != NO_ENTRY && Cut(b, p) && Tiled(b) && Tidy(b)
    ensures GapSnug(b2, p + a, base)
  {
    hide Tiled, Tidy, AllLive, Listing, Head, Ino, RecLen, NameLen;
    CutRecord(b, p, base);
    HeadFacts(b[p..]);
    NamedEntry(b, p);
    ShrunkPrefix(b, p, b2, a, n, base);
    assert |NameOf(b[p..])| == NameLen(b[p..]);
  }

  lemma SameField(b: seq<Byte>, o: nat, v: nat)
    requires o + 2 <= |b|
    ensures Le16(b, o) == b[o] as nat + 0x100 * (b[o + 1] as nat)
  {
  }

  /** find_dirent_free_space: a gap for a record of the required size, in a record that has room for it. */
  method FindDirentFreeSpace(buf: array<Byte>, requiredSpace: nat, ghost base: nat) returns (dp: int)
    requires requiredSpace >= MIN_DIR_ENTRY_SIZE && Tiled(buf[..]) && Tidy(buf[..])
    modifies buf
    ensures dp == -1 <==> !HasRoom(old(buf[..]), requiredSpace)
    ensures dp == -1 ==> buf[..] == old(buf[..])
    ensures dp != -1 ==>
              && 0 <= dp && Gap(buf[..], dp) && requiredSpace <= GapLen(buf[..], dp)
              && Around(buf[..], dp, base) == old(Listing(buf[..], base)) && GapSnug(buf[..], dp, base)
    ensures dp != -1 ==> dp + MIN_DIR_ENTRY_SIZE <= buf.Length && buf[dp + 7] == old(buf[..])[dp + 7]
  {
    hide Tiled, Tidy, AllLive, Listing, Around, Gap, HasRoom, Head, GapSnug, Cut, Ino, RecLen, NameLen;
    ghost var b := buf[..];
    var pos := 0;
    CutStart(b);
    while pos < buf.Length
      invariant 0 <= pos <= buf.Length && buf[..] == b && Cut(b, pos) && Tiled(b[pos..])
      invariant HasRoom(b, requiredSpace) <==> HasRoom(b[pos..], requiredSpace)
    {
      RoomHere(b, pos, requiredSpace);
      var ino := buf[pos] as nat + 0x100 * (buf[pos + 1] as nat)
                 + 0x1_0000 * (buf[pos + 2] as nat + 0x100 * (buf[pos + 3] as nat));
      var recLen := buf[pos + 4] as nat + 0x100 * (buf[pos + 5] as nat);
      if ino == NO_ENTRY {
        if requiredSpace <= recLen {
          FreeIsGap(b, pos, base);
          FirstIsSnug(b, base);
          return pos;
        }
      }
      var availableSizeIfShrunk := recLen - ActualSize(buf[pos + 6]);
      if requiredSpace <= availableSizeIfShrunk {
        dp := ShrinkDirEntry(buf, pos, base);
        return;
      }
      pos := pos + recLen;
    }
    assert b[pos..] == [];
    HasRoomNone(requiredSpace);
    return -1;
  }

  /** The record the search for room has come to, as the source reads it. */
  lemma RoomHere(b: seq<Byte>, pos: nat, required: nat)
    requires Cut(b, pos) && pos < |b|
    ensures pos + MIN_DIR_ENTRY_SIZE <= |b| && Tiled(b) && Tiled(b[pos..])
    ensures Tidy(b) && Ino(b[pos..]) == NO_ENTRY ==> pos == 0
    ensures Ino(b[pos..]) == b[pos] as nat + 0x100 * (b[pos + 1] as nat)
                             + 0x1_0000 * (b[pos + 2] as nat + 0x100 * (b[pos + 3] as nat))
    ensures RecLen(b[pos..]) == b[pos + 4] as nat + 0x100 * (b[pos + 5] as nat) && NameLen(b[pos..]) == b[pos + 6]
    ensures var n := RecLen(b[pos..]);
            && ActualSize(NameLen(b[pos..])) <= n <= |b| - pos && Cut(b, pos + n) && Tiled(b[pos + n..])
            && (HasRoom(b[pos..], required) <==>
                || (Ino(b[pos..]) == NO_ENTRY && required <= n)
                || required <= n - ActualSize(NameLen(b[pos..]))
                || HasRoom(b[pos + n..], required))
  {
    hide Tiled, Tidy, AllLive, Listing, HasRoom, Head;
    CutRecord(b, pos, 0);
    HeadFacts(b[pos..]);
    HasRoomStep(b[pos..], required);
    Fields(b, pos);
    assert b[pos..][RecLen(b[pos..])..] == b[pos + RecLen(b[pos..])..];
  }

  lemma FirstIsSnug(b: seq<Byte>, base: nat)
    ensures GapSnug(b, 0, base)
  {
    assert b[..0] == [];
  }

  lemma CutStart(b: seq<Byte>)
    requires Tiled(b)
    ensures Cut(b, 0) && b[0..] == b
  {
    assert b[..0] == [] && b[0..] == b;
  }

  lemma HasRoomNone(required: nat)
    ensures Tiled([]) && !HasRoom([], required)
  {
  }

  lemma HasRoomStep(t: seq<Byte>, required: nat)
    requires t != [] && Tiled(t)
    ensures Head(t) && RecLen(t) <= |t| && ActualSize(NameLen(t)) <= RecLen(t) && Tiled(t[RecLen(t)..])
    ensures HasRoom(t, required) <==>
            || (Ino(t) == NO_ENTRY && required <= RecLen(t))
            || required <= RecLen(t) - ActualSize(NameLen(t))
            || HasRoom(t[RecLen(t)..], required)
  {
  }

  /** The fields of the record at p, as the source reads them. */
  lemma Fields(b: seq<Byte>, p: nat)
    requires p + MIN_DIR_ENTRY_SIZE <= |b|
    ensures Ino(b[p..]) == b[p] as nat + 0x100 * (b[p + 1] as nat)
                           + 0x1_0000 * (b[p + 2] as nat + 0x100 * (b[p + 3] as nat))
    ensures RecLen(b[p..]) == b[p + 4] as nat + 0x100 * (b[p + 5] as nat)
    ensures NameLen(b[p..]) == b[p + 6]
    ensures Head(b[p..]) ==> NameOf(b[p..]) == b[p + MIN_DIR_ENTRY_SIZE..p + MIN_DIR_ENTRY_SIZE + b[p + 6] as nat]
  {
    if Head(b[p..]) {
      SlicePart(b, p, |b| - p, MIN_DIR_ENTRY_SIZE, MIN_DIR_ENTRY_SIZE + b[p + 6] as nat);
    }
  }

  /** The bytes of b2 from p on are a record of that name, inode number and type, b what was there before. Where no
      types are kept the type byte stays as it is. */
  predicate Recorded(b: seq<Byte>, b2: seq<Byte>, p: nat, name: Name, ino: nat, typed: bool, ftype: Byte) {
    && |b| == |b2| && Says(b2, p, Live(p, name, ino))
    && 8 + |name| <= b2[p + 4] as nat + 0x100 * (b2[p + 5] as nat) <= |b| - p
    && b2[p + 7] == if typed then ftype else b[p + 7]
  }

  /** Of the blocks of a directory the one byte pos lies in holds such a record there. */
  predicate RecordedIn(c: seq<seq<Byte>>, c2: seq<seq<Byte>>, blockSize: nat, pos: nat, name: Name, ino: nat,
                       typed: bool, ftype: Byte)
  {
    blockSize > 0
    && 0 <= pos / blockSize < |c| == |c2|
    && Recorded(c[pos / blockSize], c2[pos / blockSize], pos % blockSize, name, ino, typed, ftype)
  }

  lemma RecordedAt(c: seq<seq<Byte>>, i: nat, b2: seq<Byte>, blockSize: nat, p: nat, name: Name, ino: nat,
                   typed: bool, ftype: Byte)
    requires i < |c| && (forall k :: 0 <= k < |c| ==> |c[k]| == blockSize) && p < blockSize
    requires Recorded(c[i], b2, p, name, ino, typed, ftype)
    ensures RecordedIn(c, c[i := b2], blockSize, BaseOf(c, i) + p, name, ino, typed, ftype)
  {
    hide Recorded, RecordedIn, BaseOf;
    BaseIs(c, i, blockSize);
    DivModOf(i, p, blockSize);
    RecordedThere(c, c[i := b2], blockSize, BaseOf(c, i) + p, i, p, name, ino, typed, ftype);
  }

  lemma RecordedThere(c: seq<seq<Byte>>, c2: seq<seq<Byte>>, blockSize: nat, pos: nat, i: nat, p: nat, name: Name,
                      ino: nat, typed: bool, ftype: Byte)
    requires blockSize > 0 && pos / blockSize == i && pos % blockSize == p && i < |c| == |c2|
    requires Recorded(c[i], c2[i], p, name, ino, typed, ftype)
    ensures RecordedIn(c, c2, blockSize, pos, name, ino, typed, ftype)
  {
    hide Recorded;
  }

  /** enter_dirent, into a gap: the record gets its inode number, name and, if the file system keeps them, type. */
  method EnterDirent(buf: array<Byte>, dp: nat, name: Name, ino: nat, typed: bool, ftype: Byte, ghost base: nat)
    requires Gap(buf[..], dp) && ActualSize(|name|) <= GapLen(buf[..], dp)
    requires 1 <= |name| <= NAME_MAX && NO_ENTRY != ino < U32
    modifies buf
    ensures Tiled(buf[..]) && Tidy(buf[..])
    ensures Inserted(old(Around(buf[..], dp, base)), Listing(buf[..], base), Live(base + dp, name, ino))
    ensures old(GapSnug(buf[..], dp, base)) ==>
              SnugIn(old(Around(buf[..], dp, base)), Listing(buf[..], base), Live(base + dp, name, ino), base)
    ensures Recorded(old(buf[..]), buf[..], dp, name, ino, typed, ftype)
  {
    hide Tiled, Tidy, AllLive, Listing, Around, AroundWith, GapSnug, Inserted, SnugIn;
    ghost var b := buf[..];
    Put32(buf, dp, ino);
    buf[dp + 6] := |name|;
    if typed {
      buf[dp + 7] := ftype;
    }
    ghost var b1 := buf[..];
    PutName(buf, dp + MIN_DIR_ENTRY_SIZE, name);
    assert Le32(buf[..], dp) == Le32(b1, dp);
    GapFilled(b, dp, buf[..], name, ino, base);
    FilledGap(b, dp, Live(base + dp, name, ino), base);
  }

  lemma RecordedSince(b: seq<Byte>, b1: seq<Byte>, b2: seq<Byte>, p: nat, name: Name, ino: nat, typed: bool,
                      ftype: Byte)
    requires Recorded(b1, b2, p, name, ino, typed, ftype) && |b| == |b1| && (p + 8 <= |b| ==> b1[p + 7] == b[p + 7])
    ensures Recorded(b, b2, p, name, ino, typed, ftype) && p + 8 <= |b|
  {
  }

  method PutName(buf: array<Byte>, o: nat, name: Name)
    requires o + |name| <= buf.Length
    modifies buf
    ensures buf[o..o + |name|] == name
    ensures forall k :: 0 <= k < buf.Length && (k < o || o + |name| <= k) ==> buf[k] == old(buf[k])
  {
    var i := 0;
    while i < |name|
      invariant 0 <= i <= |name|
      invariant forall k :: 0 <= k < buf.Length && (k < o || o + i <= k) ==> buf[k] == old(buf[k])
      invariant buf[o..o + i] == name[..i]
    {
      buf[o + i] := name[i];
      i := i + 1;
    }
    assert name[..i] == name;
  }

  /** An entry put into a gap is inserted, right behind the one before it if the gap was there. */
  lemma FilledGap(b: seq<Byte>, p: nat, e: Live, base: nat)
    requires Gap(b, p) && e.pos == base + p
    ensures Inserted(Around(b, p, base), AroundWith(b, p, e, base), e)
    ensures GapSnug(b, p, base) ==> SnugIn(Around(b, p, base), AroundWith(b, p, e, base), e, base)
  {
    hide Tiled, Tidy, AllLive, Listing, Snug, Inserted, SnugIn;
    var q := p + GapLen(b, p);
    InsertedIn(Listing(b[..p], base), Listing(b[q..], base + q), e);
    if GapSnug(b, p, base) {
      PutSnug(Listing(b[..p], base), Listing(b[q..], base + q), e, base);
    }
  }

  lemma PutSnug(u: seq<Live>, v: seq<Live>, e: Live, start: nat)
    requires Snug(u, start, e.pos)
    ensures SnugIn(u + v, u + [e] + v, e, start)
  {
    assert (u + v)[..|u|] == u && (u + v)[|u|..] == v;
    assert InsertedAt(u + v, u + [e] + v, e, |u|);
  }

  lemma RestTiled(b: seq<Byte>, p: nat)
    requires Cut(b, p) && p < |b|
    ensures p + MIN_DIR_ENTRY_SIZE <= |b| && p + RecLen(b[p..]) <= |b|
    ensures Tiled(b[..p]) && Tiled(b[p + RecLen(b[p..])..])
  {
    hide Tiled, Listing, Head;
    CutRecord(b, p, 0);
    HeadFacts(b[p..]);
  }

  /** The entries of a block but for the one of the record at p. */
  ghost function LessRecord(b: seq<Byte>, p: nat, base: nat): seq<Live>
    requires Cut(b, p) && p < |b|
  {
    RestTiled(b, p);
    var q := p + RecLen(b[p..]);
    Listing(b[..p], base) + Listing(b[q..], base + q)
  }

  lemma DeletedFirst(b: seq<Byte>, n: nat, b2: seq<Byte>, base: nat)
    requires Tiled(b) && Tidy(b) && b != [] && |b2| == |b| && MIN_DIR_ENTRY_SIZE <= n <= |b| && RecLen(b[0..]) == n
    requires forall k :: 0 <= k < |b| && (k >= n || 4 <= k < MIN_DIR_ENTRY_SIZE) ==> b2[k] == b[k]
    requires Le32(b2, 0) == NO_ENTRY
    ensures Tiled(b2) && Tidy(b2) && Cut(b, 0) && Listing(b2, base) == LessRecord(b, 0, base)
  {
    hide Tiled, Tidy, AllLive, Listing;
    CutStart(b);
    CutRecord(b, 0, base);
    assert b2[n..] == b[n..] && b[..0] == [];
    FirstFreed(b, b2, base);
    ListingNone(b[..0], base);
  }

  lemma DeletedLater(b: seq<Byte>, prev: nat, p: nat, n: nat, b2: seq<Byte>, base: nat)
    requires prev < p && p + MIN_DIR_ENTRY_SIZE <= |b| && p + n <= |b| == |b2|
    requires RecLen(b[prev..]) == p - prev && RecLen(b[p..]) == n
    requires forall k :: 0 <= k < |b| && (k < p || k >= p + n) && k != prev + 4 && k != prev + 5 ==> b2[k] == b[k]
    requires Le16(b2, prev + 4) == p - prev + n
    requires Cut(b, prev) && Cut(b, p) && Tiled(b) && Tidy(b)
    ensures Tiled(b2) && Tidy(b2) && Listing(b2, base) == LessRecord(b, p, base)
  {
    hide Tiled, Tidy, AllLive, Listing;
    Merged(b, prev, p, n, b2, base);
  }

  /** delete_dir_entry: the record at dp is marked free and merged into the one before it, if there is one. */
  method DeleteDirEntry(buf: array<Byte>, dp: nat, prev: int, ghost base: nat)
    requires buf.Length < 0x1_0000 && dp + MIN_DIR_ENTRY_SIZE <= buf.Length
    requires Cut(buf[..], dp) && Tiled(buf[..]) && Tidy(buf[..])
    requires if prev == -1 then dp == 0
             else 0 <= prev < dp && Cut(buf[..], prev) && RecLen(buf[..][prev..]) == dp - prev
    modifies buf
    ensures Tiled(buf[..]) && Tidy(buf[..])
    ensures Listing(buf[..], base) == old(LessRecord(buf[..], dp, base)) && Noted(old(buf[..]), buf[..], dp)
  {
    hide Noted, Tiled, Tidy, AllLive, Listing, LessRecord, FirstEntry, Cut, Head, RecLen, Ino, NameLen, NameOf,
      ActualSize;
    ghost var b := buf[..];
    CutRecord(b, dp, base);
    HeadFacts(b[dp..]);
    Fields(b, dp);
    NameInside(b[dp..]);
    var recLen := buf[dp + 4] as nat + 0x100 * (buf[dp + 5] as nat);
    ScribbleIno(buf, dp, recLen);
    ghost var b1 := buf[..];
    Put32(buf, dp, NO_ENTRY);
    ghost var b2 := buf[..];
    assert forall k :: 0 <= k < |b| && (k < dp || k >= dp + recLen || dp + 4 <= k < dp + MIN_DIR_ENTRY_SIZE) ==>
             b2[k] == b[k];
    if prev >= 0 {
      NamedEntry(b, prev);
      HeadFacts(b[prev..]);
      Fields(b, prev);
      var temp := buf[prev + 4] as nat + 0x100 * (buf[prev + 5] as nat);
      temp := temp + recLen;
      Put16(buf, prev + 4, temp);
      DeletedLater(b, prev, dp, recLen, buf[..], base);
    } else {
      DeletedFirst(b, recLen, b2, base);
    }
    StillNoted(b, b1, buf[..], dp);
  }

  /** delete_dir_entry's note of the inode number at the end of a name that is long enough. */
  method ScribbleIno(buf: array<Byte>, dp: nat, ghost recLen: nat)
    requires dp + MIN_DIR_ENTRY_SIZE <= buf.Length && MIN_DIR_ENTRY_SIZE + buf[dp + 6] as nat <= recLen
    requires dp + recLen <= buf.Length
    modifies buf
    ensures forall k :: 0 <= k < buf.Length && (k < dp + MIN_DIR_ENTRY_SIZE || dp + recLen <= k) ==>
              buf[k] == old(buf[k])
    ensures Noted(old(buf[..]), buf[..], dp)
  {
    var nameLen := buf[dp + 6] as nat;
    if nameLen >= SIZEOF_INO {
      var t := dp + MIN_DIR_ENTRY_SIZE + (nameLen - SIZEOF_INO);
      buf[t], buf[t + 1], buf[t + 2], buf[t + 3] := buf[dp], buf[dp + 1], buf[dp + 2], buf[dp + 3];
      assert buf[t..t + 4] == old(buf[dp..dp + 4]);
    }
  }

  /** A name of four bytes or more of the record at dp ends with what was the record's inode number. */
  predicate Noted(b: seq<Byte>, b2: seq<Byte>, dp: nat) {
    && |b2| == |b| && dp + MIN_DIR_ENTRY_SIZE <= |b|
    && var n := b[dp + 6] as nat;
       n >= SIZEOF_INO ==> dp + 8 + n <= |b| && b2[dp + 4 + n..dp + 8 + n] == b[dp..dp + 4]
  }

  lemma StillNoted(b: seq<Byte>, b1: seq<Byte>, b2: seq<Byte>, dp: nat)
    requires Noted(b, b1, dp) && |b2| == |b| && forall k :: dp + MIN_DIR_ENTRY_SIZE <= k < |b| ==> b2[k] == b1[k]
    ensures Noted(b, b2, dp)
  {
    var n := b[dp + 6] as nat;
    if n >= SIZEOF_INO {
      assert b2[dp + 4 + n..dp + 8 + n] == b1[dp + 4 + n..dp + 8 + n];
    }
  }

  /** What a search of a block has found out once it comes to the record at pos. */
  ghost predicate Searched(b: seq<Byte>, pos: nat, name: Name, base: nat) {
    Cut(b, pos) && NoneNamed(Listing(b[..pos], base), name)
  }

  lemma SearchStart(b: seq<Byte>, name: Name, base: nat)
    requires Tiled(b)
    ensures Searched(b, 0, name, base)
  {
    CutStart(b);
    ListingNone(b[..0], base);
  }

  /** The record at pos holds another name, or none. */
  lemma SearchNext(b: seq<Byte>, pos: nat, name: Name, base: nat)
    requires Searched(b, pos, name, base) && pos < |b| && Head(b[pos..])
    requires Ino(b[pos..]) == NO_ENTRY || NameOf(b[pos..]) != name
    ensures Searched(b, pos + RecLen(b[pos..]), name, base)
  {
    hide Tiled, Listing;
    CutRecord(b, pos, base);
    NoneNamedAppend(Listing(b[..pos], base), FirstEntry(b[pos..], base + pos), name);
  }

  /** The record at pos holds the name. */
  lemma SearchHit(b: seq<Byte>, pos: nat, name: Name, base: nat)
    requires Searched(b, pos, name, base) && pos < |b| && Head(b[pos..])
    requires Ino(b[pos..]) != NO_ENTRY && NameOf(b[pos..]) == name
    ensures var q := pos + RecLen(b[pos..]);
            && Tiled(b) && Cut(b, q)
            && FindName(Listing(b, base), name) < |Listing(b, base)|
            && Listing(b, base)[FindName(Listing(b, base), name)].ino == Ino(b[pos..])
            && Dropped(Listing(b, base), name) == LessRecord(b, pos, base)
  {
    hide Tiled, Listing, FindName, Dropped;
    CutRecord(b, pos, base);
    var q := pos + RecLen(b[pos..]);
    var e := Live(base + pos, name, Ino(b[pos..]));
    FoundAfter(Listing(b[..pos], base), e, Listing(b[q..], base + q), name);
  }

  lemma SearchOver(b: seq<Byte>, name: Name, base: nat)
    requires Searched(b, |b|, name, base)
    ensures Tiled(b) && FindName(Listing(b, base), name) == |Listing(b, base)|
  {
    assert b[..|b|] == b;
    FindNameNone(Listing(b, base), name);
  }

  /** search_block_and_delete: the first entry of that name goes. */
  method SearchBlockAndDelete(buf: array<Byte>, name: Name, ghost base: nat) returns (sc: int)
    requires buf.Length < 0x1_0000 && Tiled(buf[..]) && Tidy(buf[..]) && 0 !in name
    modifies buf
    ensures Tiled(buf[..]) && Tidy(buf[..])
    ensures var l := old(Listing(buf[..], base)); sc == 0 <==> FindName(l, name) < |l|
    ensures sc != 0 ==> buf[..] == old(buf[..])
    ensures sc == 0 ==> Listing(buf[..], base) == Dropped(old(Listing(buf[..], base)), name)
  {
    hide Tiled, Tidy, AllLive, Listing, Head, FindName, Dropped, Searched, Cut, Ino, RecLen, NameLen, NameOf,
      LessRecord;
    ghost var b := buf[..];
    var prev := -1;
    var pos := 0;
    SearchStart(b, name, base);
    while pos < buf.Length
      invariant 0 <= pos <= buf.Length && buf[..] == b && Searched(b, pos, name, base)
      invariant if prev == -1 then pos == 0
                else 0 <= prev < pos && Cut(b, prev) && prev + MIN_DIR_ENTRY_SIZE <= |b|
                     && RecLen(b[prev..]) == pos - prev
    {
      SearchHere(b, pos, name, base);
      var ino := buf[pos] as nat + 0x100 * (buf[pos + 1] as nat)
                 + 0x1_0000 * (buf[pos + 2] as nat + 0x100 * (buf[pos + 3] as nat));
      var recLen := buf[pos + 4] as nat + 0x100 * (buf[pos + 5] as nat);
      if ino != NO_ENTRY {
        var r := StrcmpNz(buf[pos + MIN_DIR_ENTRY_SIZE..pos + MIN_DIR_ENTRY_SIZE + buf[pos + 6] as nat], name);
        if r == 0 {
          SearchHit(b, pos, name, base);
          DeleteDirEntry(buf, pos, prev, base);
          return 0;
        }
      }
      SearchNext(b, pos, name, base);
      prev := pos;
      pos := pos + recLen;
    }
    SearchOver(b, name, base);
    return -1;
  }

  /** The record a search has come to, as the source reads it. */
  lemma SearchHere(b: seq<Byte>, pos: nat, name: Name, base: nat)
    requires Searched(b, pos, name, base) && pos < |b|
    ensures Cut(b, pos) && pos + MIN_DIR_ENTRY_SIZE <= |b| && Head(b[pos..])
    ensures pos + MIN_DIR_ENTRY_SIZE + b[pos + 6] as nat <= |b|
    ensures Ino(b[pos..]) == b[pos] as nat + 0x100 * (b[pos + 1] as nat)
                             + 0x1_0000 * (b[pos + 2] as nat + 0x100 * (b[pos + 3] as nat))
    ensures RecLen(b[pos..]) == b[pos + 4] as nat + 0x100 * (b[pos + 5] as nat)
    ensures MIN_DIR_ENTRY_SIZE <= RecLen(b[pos..]) <= |b| - pos
    ensures NameOf(b[pos..]) == b[pos + MIN_DIR_ENTRY_SIZE..pos + MIN_DIR_ENTRY_SIZE + b[pos + 6] as nat]
    ensures Ino(b[pos..]) != NO_ENTRY ==> b[pos + 6] as nat >= 1
  {
    hide Tiled, Listing, Head, NameOf;
    CutRecord(b, pos, base);
    HeadFacts(b[pos..]);
    NamedEntry(b, pos);
    Fields(b, pos);
    NameInside(b[pos..]);
  }

  lemma NameInside(t: seq<Byte>)
    requires Head(t)
    ensures MIN_DIR_ENTRY_SIZE + NameLen(t) <= RecLen(t) <= |t|
  {
  }

  /** lookup_dir_block. */
  method LookupDirBlock(buf: array<Byte>, name: Name, ghost base: nat) returns (sc: int, inoNr: nat)
    requires Tiled(buf[..]) && 0 !in name
    ensures var l := Listing(buf[..], base); sc == 0 <==> FindName(l, name) < |l|
    ensures var l := Listing(buf[..], base); sc == 0 ==> inoNr == l[FindName(l, name)].ino
  {
    hide Tiled, Tidy, AllLive, Listing, Head, FindName, Dropped, Searched, Cut, Ino, RecLen, NameLen, NameOf,
      LessRecord;
    ghost var b := buf[..];
    var pos := 0;
    SearchStart(b, name, base);
    while pos < buf.Length
      invariant 0 <= pos <= buf.Length && buf[..] == b && Searched(b, pos, name, base)
    {
      SearchHere(b, pos, name, base);
      var ino := buf[pos] as nat + 0x100 * (buf[pos + 1] as nat)
                 + 0x1_0000 * (buf[pos + 2] as nat + 0x100 * (buf[pos + 3] as nat));
      if ino != NO_ENTRY {
        var r := StrcmpNz(buf[pos + MIN_DIR_ENTRY_SIZE..pos + MIN_DIR_ENTRY_SIZE + buf[pos + 6] as nat], name);
        if r == 0 {
          SearchHit(b, pos, name, base);
          return 0, ino;
        }
      }
      SearchNext(b, pos, name, base);
      pos := pos + (buf[pos + 4] as nat + 0x100 * (buf[pos + 5] as nat));
    }
    SearchOver(b, name, base);
    return -1, 0;
  }

  /** A directory: the buffers of its blocks, as get_dir_block hands them out. Its size is that of its blocks. */
  class Directory {
    const blockSize: nat
    const blocks: seq<array<Byte>>

    constructor Of(blockSize: nat, blocks: seq<array<Byte>>)
      ensures this.blockSize == blockSize && this.blocks == blocks
    {
      this.blockSize, this.blocks := blockSize, blocks;
    }

    ghost predicate Wired() {
      && MIN_BLOCK_SIZE <= blockSize < 0x1_0000 && blockSize % DIR_ENTRY_ALIGN == 0
      && (forall b :: 0 <= b < |blocks| ==> blocks[b].Length == blockSize)
      && (forall b, c :: 0 <= b < c < |blocks| ==> blocks[b] != blocks[c])
    }

    ghost function Bufs(): set<array<Byte>> {
      set a | a in blocks
    }

    ghost function Content(): (c: seq<seq<Byte>>)
      requires Wired()
      reads Bufs()
      ensures |c| == |blocks| && forall b :: 0 <= b < |c| ==> c[b] == blocks[b][..] && |c[b]| == blockSize
    {
      seq(|blocks|, b requires 0 <= b < |blocks| reads Bufs() => blocks[b][..])
    }

    /** Records tile every block, and in each only the first may be free. */
    ghost predicate Valid()
      reads Bufs()
    {
      Wired() && AllTiled(Content())
    }

    /** The entries in order. */
    ghost function List(): (l: seq<Live>)
      requires Valid()
      reads Bufs()
    {
      Entries(Content(), 0)
    }

    ghost predicate AnyRoom(required: nat)
      requires Valid()
      reads Bufs()
    {
      RoomIn(Content(), required)
    }

    twostate lemma BlockChanged(b: nat)
      requires Wired() && b < |blocks|
      requires forall c :: 0 <= c < |blocks| && c != b ==> blocks[c][..] == old(blocks[c][..])
      ensures Content() == old(Content())[b := blocks[b][..]]
    {
    }

    /** One round of dirent_enter: the entry goes into block i if a record there has room for it. */
    method EnterInBlock(i: nat, requiredSpace: nat, name: Name, ino: nat, typed: bool, ftype: Byte)
      returns (entered: bool, ghost pos: nat)
      requires Valid() && i < |blocks| && 1 <= |name| <= NAME_MAX && NO_ENTRY != ino < U32
      requires requiredSpace == ActualSize(|name|)
      modifies blocks[i]
      ensures Valid() && (entered <==> HasRoom(old(Content())[i], requiredSpace))
      ensures !entered ==> Content() == old(Content())
      ensures entered ==> Inserted(old(List()), List(), Live(pos, name, ino))
      ensures entered ==> Entered(old(Content()), Content(), Live(pos, name, ino))
      ensures entered ==> RecordedIn(old(Content()), Content(), blockSize, pos, name, ino, typed, ftype)
    {
      hide Tiled, Tidy, AllLive, Listing, Gap, Around, HasRoom, Entries, BaseOf, Inserted, GapLen, GapSnug, SnugIn,
        Entered, Recorded, RecordedIn, ActualSize;
      ghost var c := Content();
      ghost var base := BaseOf(c, i);
      pos := 0;
      var dp := FindDirentFreeSpace(blocks[i], requiredSpace, base);
      BlockChanged(i);
      if dp == -1 {
        assert Content() == c;
        return false, 0;
      }
      ghost var b1 := blocks[i][..];
      EnterDirent(blocks[i], dp, name, ino, typed, ftype, base);
      BlockChanged(i);
      BlockEntered(c, i, b1, blocks[i][..], dp, name, ino, typed, ftype);
      return true, base + dp;
    }

    /** dirent_enter. It takes no notice of an entry of that name that is there already. */
    method DirentEnter(name: Name, ino: nat, typed: bool, ftype: Byte) returns (r: Result<()>, ghost pos: nat)
      requires Valid() && name != [] && 0 !in name && NO_ENTRY != ino < U32
      modifies Bufs()
      ensures Valid()
      ensures r == Err(ENAMETOOLONG) <==> |name| > NAME_MAX
      ensures r.Ok? <==> |name| <= NAME_MAX && old(AnyRoom(ActualSize(|name|)))
      ensures r.Ok? ==> Inserted(old(List()), List(), Live(pos, name, ino))
      ensures r.Ok? ==> Entered(old(Content()), Content(), Live(pos, name, ino))
      ensures r.Ok? ==> RecordedIn(old(Content()), Content(), blockSize, pos, name, ino, typed, ftype)
      ensures r.Err? ==> r.errno in {ENAMETOOLONG, ENOENT} && Content() == old(Content())
    {
      hide Tiled, Tidy, AllLive, Listing, HasRoom, Entries, Inserted, Entered, RecordedIn;
      if |name| > NAME_MAX {
        return Err(ENAMETOOLONG), 0;
      }
      var requiredSpace := MIN_DIR_ENTRY_SIZE + |name|;
      requiredSpace := requiredSpace +
        if requiredSpace % 4 == 0 then 0 else DIR_ENTRY_ALIGN - requiredSpace % 4;
      assert requiredSpace == ActualSize(|name|);
      ghost var c := Content();
      var i := 0;
      while i < |blocks|
        invariant 0 <= i <= |blocks| && Content() == c
        invariant forall k :: 0 <= k < i ==> !HasRoom(c[k], requiredSpace)
      {
        var entered;
        entered, pos := EnterInBlock(i, requiredSpace, name, ino, typed, ftype);
        if entered {
          return Ok(()), pos;
        }
        i := i + 1;
      }
      return Err(ENOENT), 0;
    }

    /** dirent_delete: the first entry of that name goes. */
    method DirentDelete(name: Name) returns (r: Result<()>)
      requires Valid() && 0 !in name
      modifies Bufs()
      ensures Valid()
      ensures r == Err(ENAMETOOLONG) <==> |name| > NAME_MAX
      ensures r.Ok? <==> |name| <= NAME_MAX && FindName(old(List()), name) < |old(List())|
      ensures r.Ok? ==> List() == Dropped(old(List()), name) && Deleted(old(Content()), Content(), name)
      ensures r.Err? ==> r.errno in {ENAMETOOLONG, ENOENT} && Content() == old(Content())
    {
      hide Tiled, Tidy, AllLive, Listing, Entries, FindName, Dropped, NoneNamed, BaseOf, Deleted;
      if |name| > NAME_MAX {
        return Err(ENAMETOOLONG);
      }
      ghost var c := Content();
      NotFoundStart(c, name);
      var i := 0;
      while i < |blocks|
        invariant 0 <= i <= |blocks| && Content() == c
        invariant NoneNamed(Entries(c[..i], 0), name)
      {
        ghost var base := BaseOf(c, i);
        var sc := SearchBlockAndDelete(blocks[i], name, base);
        BlockChanged(i);
        if sc == 0 {
          EntriesChanged(c, i, blocks[i][..]);
          IsDeleted(c, i, blocks[i][..], name);
          FoundBetween(Entries(c[..i], 0), Listing(c[i], base), Entries(c[i + 1..], base + |c[i]|), name);
          return Ok(());
        }
        assert Content() == c;
        NotFoundNext(c, i, name);
        i := i + 1;
      }
      NotFoundEnd(c, name);
      return Err(ENOENT);
    }

    /** lookup_dir: the inode number of the first entry of that name. */
    method LookupDir(name: Name) returns (r: Result<nat>)
      requires Valid() && 0 !in name
      ensures r == Err(ENAMETOOLONG) <==> |name| > NAME_MAX
      ensures r.Ok? <==> |name| <= NAME_MAX && FindName(List(), name) < |List()|
      ensures r.Ok? ==> r.value == List()[FindName(List(), name)].ino
      ensures r.Ok? || r.errno in {ENAMETOOLONG, ENOENT}
    {
      hide Tiled, Tidy, AllLive, Listing, Entries, FindName, Dropped, NoneNamed, BaseOf;
      if |name| > NAME_MAX {
        return Err(ENAMETOOLONG);
      }
      ghost var c := Content();
      NotFoundStart(c, name);
      var i := 0;
      while i < |blocks|
        invariant 0 <= i <= |blocks| && Content() == c
        invariant NoneNamed(Entries(c[..i], 0), name)
      {
        ghost var base := BaseOf(c, i);
        var sc, inoNr := LookupDirBlock(blocks[i], name, base);
        assert Content() == c && List() == Entries(c, 0);
        if sc == 0 {
          EntriesAround(c, i);
          FoundBetween(Entries(c[..i], 0), Listing(c[i], base), Entries(c[i + 1..], base + |c[i]|), name);
          return Ok(inoNr);
        }
        NotFoundNext(c, i, name);
        i := i + 1;
      }
      NotFoundEnd(c, name);
      return Err(ENOENT);
    }
  }

  /** A change of one block shows among the entries at its place only. */
  lemma EntriesChanged(c: seq<seq<Byte>>, i: nat, b: seq<Byte>)
    requires AllTiled(c) && i < |c| && Tiled(b) && Tidy(b) && |b| == |c[i]|
    ensures AllTiled(c[i := b])
    ensures var base := BaseOf(c, i);
            && Entries(c, 0) == Entries(c[..i], 0) + Listing(c[i], base) + Entries(c[i + 1..], base + |c[i]|)
            && Entries(c[i := b], 0) == Entries(c[..i], 0) + Listing(b, base) + Entries(c[i + 1..], base + |c[i]|)
  {
    hide Tiled, Tidy, Listing, Entries, BaseOf;
    var d := c[i := b];
    BaseSame(c, d, i);
    EntriesAround(c, i);
    EntriesAround(d, i);
    assert d[..i] == c[..i] && d[i + 1..] == c[i + 1..];
  }

  /** A directory in which block i has got a new record, at p. b1 is the block with the gap for it. */
  lemma BlockEntered(c: seq<seq<Byte>>, i: nat, b1: seq<Byte>, b: seq<Byte>, p: nat, name: Name, ino: nat, typed: bool,
                     ftype: Byte)
    requires AllTiled(c) && i < |c| && Tiled(b) && Tidy(b) && forall k :: 0 <= k < |c| ==> |c[k]| == |b|
    requires Inserted(Listing(c[i], BaseOf(c, i)), Listing(b, BaseOf(c, i)), Live(BaseOf(c, i) + p, name, ino))
    requires SnugIn(Listing(c[i], BaseOf(c, i)), Listing(b, BaseOf(c, i)), Live(BaseOf(c, i) + p, name, ino),
                    BaseOf(c, i))
    requires p + 8 <= |b| == |b1| && b1[p + 7] == c[i][p + 7] && Recorded(b1, b, p, name, ino, typed, ftype)
    ensures AllTiled(c[i := b]) && Entered(c, c[i := b], Live(BaseOf(c, i) + p, name, ino))
    ensures Inserted(Entries(c, 0), Entries(c[i := b], 0), Live(BaseOf(c, i) + p, name, ino))
    ensures RecordedIn(c, c[i := b], |b|, BaseOf(c, i) + p, name, ino, typed, ftype)
  {
    hide Tiled, Tidy, Listing, Entries, BaseOf, Inserted, SnugIn, Entered, Recorded, RecordedIn;
    RecordedSince(c[i], b1, b, p, name, ino, typed, ftype);
    RecordedAt(c, i, b, |b|, p, name, ino, typed, ftype);
    EntriesChanged(c, i, b);
    IsEntered(c, i, b, Live(BaseOf(c, i) + p, name, ino));
    EntriesEntered(c, i, b, Live(BaseOf(c, i) + p, name, ino));
  }

  lemma EntriesEntered(c: seq<seq<Byte>>, i: nat, b: seq<Byte>, e: Live)
    requires AllTiled(c) && i < |c| && Tiled(b) && Tidy(b) && |b| == |c[i]|
    requires Inserted(Listing(c[i], BaseOf(c, i)), Listing(b, BaseOf(c, i)), e)
    ensures AllTiled(c[i := b]) && Inserted(Entries(c, 0), Entries(c[i := b], 0), e)
  {
    hide Tiled, Tidy, Listing, Entries, BaseOf, Inserted;
    var base := BaseOf(c, i);
    EntriesChanged(c, i, b);
    InsertedBetween(Entries(c[..i], 0), Listing(c[i], base), Listing(b, base), Entries(c[i + 1..], base + |c[i]|), e);
  }

  /** The entries before, in and after block i of a directory. */
  lemma EntriesAround(c: seq<seq<Byte>>, i: nat)
    requires AllTiled(c) && i < |c|
    ensures var base := BaseOf(c, i);
            Entries(c, 0) == Entries(c[..i], 0) + Listing(c[i], base) + Entries(c[i + 1..], base + |c[i]|)
  {
    hide Tiled, Tidy, Listing, Entries, BaseOf;
    EntriesAt(c, i, 0);
  }

  lemma {:induction false} BaseSame(c: seq<seq<Byte>>, d: seq<seq<Byte>>, i: nat)
    requires i <= |c| == |d| && forall k :: 0 <= k < |c| ==> |d[k]| == |c[k]|
    ensures BaseOf(d, i) == BaseOf(c, i)
  {
    if i > 0 {
      BaseSame(c[1..], d[1..], i - 1);
    }
  }

  lemma NotFoundStart(c: seq<seq<Byte>>, name: Name)
    requires AllTiled(c)
    ensures NoneNamed(Entries(c[..0], 0), name)
  {
  }

  lemma NotFoundNext(c: seq<seq<Byte>>, i: nat, name: Name)
    requires AllTiled(c) && i < |c| && NoneNamed(Entries(c[..i], 0), name)
    requires var l := Listing(c[i], BaseOf(c, i)); FindName(l, name) == |l|
    ensures NoneNamed(Entries(c[..i + 1], 0), name)
  {
    hide Tiled, Tidy, Listing, FindName;
    var d := c[..i + 1];
    EntriesAt(d, i, 0);
    assert d[..i] == c[..i] && d[i + 1..] == [];
    BaseOfPrefix(c, i);
    FindNameNone(Listing(c[i], BaseOf(c, i)), name);
    NoneNamedAppend(Entries(c[..i], 0), Listing(c[i], BaseOf(c, i)), name);
    assert Entries(c[..i], 0) + Listing(c[i], BaseOf(c, i)) + [] == Entries(c[..i], 0) + Listing(c[i], BaseOf(c, i));
  }

  lemma {:induction false} BaseOfPrefix(c: seq<seq<Byte>>, i: nat)
    requires i < |c|
    ensures BaseOf(c[..i + 1], i) == BaseOf(c, i)
  {
    if i > 0 {
      BaseOfPrefix(c[1..], i - 1);
      assert c[..i + 1][1..] == c[1..][..i];
    }
  }

  lemma NotFoundEnd(c: seq<seq<Byte>>, name: Name)
    requires AllTiled(c) && NoneNamed(Entries(c[..|c|], 0), name)
    ensures FindName(Entries(c, 0), name) == |Entries(c, 0)|
  {
    assert c[..|c|] == c;
    FindNameNone(Entries(c, 0), name);
  }
}
