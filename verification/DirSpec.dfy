/** Directory blocks of extfs: records of varying length that tile a block, and the entries they hold. */
module DirSpec {
  import opened Words

  const MIN_DIR_ENTRY_SIZE: nat := 8
  const DIR_ENTRY_ALIGN: nat := 4
  const NAME_MAX: nat := 255
  const NO_ENTRY: nat := 0

  type Name = seq<Byte>

  function Le16(t: seq<Byte>, o: nat): nat
    requires o + 2 <= |t|
  {
    t[o] as nat + 0x100 * (t[o + 1] as nat)
  }

  function Le32(t: seq<Byte>, o: nat): nat
    requires o + 4 <= |t|
  {
    Le16(t, o) + 0x1_0000 * Le16(t, o + 2)
  }

  /** The fields of the record a byte sequence starts with. */
  function Ino(t: seq<Byte>): nat
    requires |t| >= MIN_DIR_ENTRY_SIZE
  {
    Le32(t, 0)
  }

  function RecLen(t: seq<Byte>): nat
    requires |t| >= MIN_DIR_ENTRY_SIZE
  {
    Le16(t, 4)
  }

  function NameLen(t: seq<Byte>): nat
    requires |t| >= MIN_DIR_ENTRY_SIZE
  {
    t[6]
  }

  /** DIR_ENTRY_ACTUAL_SIZE: header and name, rounded up. */
  function ActualSize(nameLen: nat): (n: nat)
    ensures n % DIR_ENTRY_ALIGN == 0
    ensures MIN_DIR_ENTRY_SIZE + nameLen <= n < MIN_DIR_ENTRY_SIZE + nameLen + DIR_ENTRY_ALIGN
  {
    var n := MIN_DIR_ENTRY_SIZE + nameLen;
    if n % 4 == 0 then n else n + (DIR_ENTRY_ALIGN - n % 4)
  }

  /** t starts with a record: its length is a multiple of 4, within t, and holds its rounded name. */
  predicate Head(t: seq<Byte>) {
    && |t| >= MIN_DIR_ENTRY_SIZE
    && RecLen(t) % DIR_ENTRY_ALIGN == 0
    && ActualSize(NameLen(t)) <= RecLen(t) <= |t|
  }

  function NameOf(t: seq<Byte>): Name
    requires Head(t)
  {
    t[MIN_DIR_ENTRY_SIZE..MIN_DIR_ENTRY_SIZE + NameLen(t)]
  }

  /** Records lie end to end from the first byte to the last, and no entry in use has an empty name. */
  ghost predicate Tiled(t: seq<Byte>)
    decreases |t|
  {
    t == [] || (Head(t) && (Ino(t) != NO_ENTRY ==> NameLen(t) >= 1) && Tiled(t[RecLen(t)..]))
  }

  /** An entry in use: where its record starts, its name and its inode number. */
  datatype Live = Live(pos: nat, name: Name, ino: nat)

  /** What the first record holds. */
  function FirstEntry(t: seq<Byte>, base: nat): seq<Live>
    requires Head(t)
  {
    if Ino(t) == NO_ENTRY then [] else [Live(base, NameOf(t), Ino(t))]
  }

  /** The entries in use, in order. base is the position of t's first byte in the directory. */
  ghost function Listing(t: seq<Byte>, base: nat): seq<Live>
    requires Tiled(t)
    decreases |t|
  {
    if t == [] then [] else FirstEntry(t, base) + Listing(t[RecLen(t)..], base + RecLen(t))
  }

  /** Every record is in use. */
  ghost predicate AllLive(t: seq<Byte>)
    requires Tiled(t)
    decreases |t|
  {
    t == [] || (Ino(t) != NO_ENTRY && AllLive(t[RecLen(t)..]))
  }

  /** At most the first record is free. */
  ghost predicate Tidy(t: seq<Byte>)
    requires Tiled(t)
  {
    t == [] || AllLive(t[RecLen(t)..])
  }

  lemma FieldsKept(t: seq<Byte>, y: seq<Byte>)
    requires |t| >= MIN_DIR_ENTRY_SIZE
    ensures Ino(t + y) == Ino(t) && RecLen(t + y) == RecLen(t) && NameLen(t + y) == NameLen(t)
    ensures Head(t) ==> Head(t + y) && forall base: nat :: FirstEntry(t + y, base) == FirstEntry(t, base)
  {
    if Head(t) {
      assert NameOf(t + y) == NameOf(t);
    }
  }

  lemma HeadFacts(t: seq<Byte>)
    requires Head(t)
    ensures |t| >= MIN_DIR_ENTRY_SIZE
    ensures MIN_DIR_ENTRY_SIZE <= RecLen(t) <= |t| && RecLen(t) % DIR_ENTRY_ALIGN == 0
  {
  }

  /** Past the first record of a sequence that goes on. */
  lemma RestAppend(x: seq<Byte>, y: seq<Byte>)
    requires Head(x)
    ensures Head(x + y) && RecLen(x + y) == RecLen(x) && Ino(x + y) == Ino(x) && NameLen(x + y) == NameLen(x)
    ensures (x + y)[RecLen(x)..] == x[RecLen(x)..] + y
    ensures |x[RecLen(x)..]| + RecLen(x) == |x|
    ensures forall base: nat :: FirstEntry(x + y, base) == FirstEntry(x, base)
  {
    FieldsKept(x, y);
  }

  lemma ListingStep(t: seq<Byte>, base: nat)
    requires t != [] && Tiled(t)
    ensures Head(t) && RecLen(t) <= |t| && Tiled(t[RecLen(t)..])
    ensures Listing(t, base) == FirstEntry(t, base) + Listing(t[RecLen(t)..], base + RecLen(t))
  {
  }

  lemma Assoc(a: seq<Live>, b: seq<Live>, c: seq<Live>)
    ensures a + (b + c) == (a + b) + c
  {
  }

  /** What tiles two stretches tiles the two of them end to end, and the entries are those of the one and the other. */
  lemma {:induction false} TiledAppend(x: seq<Byte>, y: seq<Byte>, base: nat)
    requires Tiled(x) && Tiled(y)
    ensures Tiled(x + y)
    ensures Listing(x + y, base) == Listing(x, base) + Listing(y, base + |x|)
    decreases |x|
  {
    hide Head, NameOf, Ino, RecLen, NameLen, FirstEntry, Listing;
    if x == [] {
      assert x + y == y;
      ListingNone(x, base);
      assert Listing(x, base) + Listing(y, base) == Listing(y, base);
    } else {
      ListingStep(x, base);
      HeadFacts(x);
      RestAppend(x, y);
      var n := RecLen(x);
      TiledAppend(x[n..], y, base + n);
      ListingStep(x + y, base);
      Assoc(FirstEntry(x, base), Listing(x[n..], base + n), Listing(y, base + |x|));
    }
  }

  lemma ListingNone(t: seq<Byte>, base: nat)
    requires t == []
    ensures Tiled(t) && Listing(t, base) == []
  {
  }

  lemma {:induction false} LiveAppend(x: seq<Byte>, y: seq<Byte>)
    requires Tiled(x) && Tiled(y) && Tiled(x + y)
    ensures AllLive(x + y) <==> AllLive(x) && AllLive(y)
    ensures Tidy(x + y) <==> if x == [] then Tidy(y) else Tidy(x) && AllLive(y)
    decreases |x|
  {
    if x == [] {
      assert x + y == y;
    } else {
      hide Head, NameOf, Ino, RecLen, NameLen, FirstEntry;
      HeadFacts(x);
      RestAppend(x, y);
      LiveAppend(x[RecLen(x)..], y);
    }
  }

  /** At o the bytes say that there is an entry: inode number, length of the name, name. */
  predicate Says(t: seq<Byte>, o: nat, e: Live) {
    && o + 8 + |e.name| <= |t|
    && e.ino == t[o] as nat + 0x100 * (t[o + 1] as nat) + 0x1_0000 * (t[o + 2] as nat) + 0x100_0000 * (t[o + 3] as nat)
    && e.ino != 0 && t[o + 6] as nat == |e.name| && t[o + 8..o + 8 + |e.name|] == e.name
  }

  lemma FirstSays(t: seq<Byte>, base: nat, e: Live)
    requires Head(t) && e in FirstEntry(t, base)
    ensures e.pos == base && Says(t, 0, e)
  {
  }

  lemma SaysBehind(t: seq<Byte>, n: nat, o: nat, e: Live)
    requires n <= |t| && Says(t[n..], o, e)
    ensures Says(t, n + o, e)
  {
    SlicePart(t, n, |t| - n, o + 8, o + 8 + |e.name|);
  }

  /** The bytes of a listed entry are those of its record. */
  lemma {:induction false} ListedBytes(t: seq<Byte>, base: nat, e: Live)
    requires Tiled(t) && e in Listing(t, base)
    ensures base <= e.pos && Says(t, e.pos - base, e)
    decreases |t|
  {
    hide Head, Listing, Ino, NameLen, NameOf, FirstEntry, Says;
    if t == [] {
      ListingNone(t, base);
    } else {
      ListingStep(t, base);
      HeadFacts(t);
      if e in FirstEntry(t, base) {
        FirstSays(t, base, e);
      } else {
        ListedBytes(t[RecLen(t)..], base + RecLen(t), e);
        SaysBehind(t, RecLen(t), e.pos - base - RecLen(t), e);
      }
    }
  }

  /** A stretch that is one record. */
  lemma OneRecord(t: seq<Byte>, base: nat)
    requires Head(t) && RecLen(t) == |t| && (Ino(t) != NO_ENTRY ==> NameLen(t) >= 1)
    ensures Tiled(t) && Tidy(t) && (AllLive(t) <==> Ino(t) != NO_ENTRY)
    ensures Listing(t, base) == FirstEntry(t, base)
  {
    assert t[RecLen(t)..] == [];
  }

  /** A record starts at p. */
  ghost predicate Cut(t: seq<Byte>, p: nat) {
    p <= |t| && Tiled(t[..p]) && Tiled(t[p..])
  }

  /** What there is before, in and after the record at p. */
  lemma CutRecord(t: seq<Byte>, p: nat, base: nat)
    requires Cut(t, p) && p < |t|
    ensures Head(t[p..]) && Cut(t, p + RecLen(t[p..])) && Tiled(t)
    ensures var q := p + RecLen(t[p..]);
            && Listing(t, base) == Listing(t[..p], base) + FirstEntry(t[p..], base + p) + Listing(t[q..], base + q)
            && Listing(t[..q], base) == Listing(t[..p], base) + FirstEntry(t[p..], base + p)
            && (Tidy(t) ==> AllLive(t[q..]) && Tidy(t[..p]) && (p > 0 ==> Ino(t[p..]) != NO_ENTRY))
  {
    hide Head, NameOf, Ino, RecLen, NameLen, FirstEntry;
    HeadFacts(t[p..]);
    RecordAlone(t[p..], base + p);
    var n := RecLen(t[p..]);
    var q, r := p + n, t[p..p + n];
    assert t[p..][n..] == t[q..] && t[p..][..n] == r;
    assert t == t[..p] + t[p..];
    TiledAppend(t[..p], t[p..], base);
    LiveAppend(t[..p], t[p..]);
    OneRecord(r, base + p);
    assert t[..q] == t[..p] + r;
    TiledAppend(t[..p], r, base);
  }

  lemma RecordAlone(t: seq<Byte>, base: nat)
    requires Head(t)
    ensures var r := t[..RecLen(t)];
            |r| >= MIN_DIR_ENTRY_SIZE && Head(r) && RecLen(r) == |r| && Ino(r) == Ino(t) && NameLen(r) == NameLen(t)
            && FirstEntry(r, base) == FirstEntry(t, base)
  {
    assert NameOf(t[..RecLen(t)]) == NameOf(t);
  }

  /** The same record with another length. */
  lemma LengthChanged(r: seq<Byte>, r2: seq<Byte>, base: nat)
    requires Head(r) && |r2| >= |r| - (|r| - ActualSize(NameLen(r))) && |r2| >= MIN_DIR_ENTRY_SIZE
    requires RecLen(r2) == |r2| && |r2| % DIR_ENTRY_ALIGN == 0
    requires forall k :: 0 <= k < MIN_DIR_ENTRY_SIZE + NameLen(r) && k != 4 && k != 5 ==> k < |r2| && r2[k] == r[k]
    ensures Head(r2) && Ino(r2) == Ino(r) && NameLen(r2) == NameLen(r) && FirstEntry(r2, base) == FirstEntry(r, base)
  {
    assert NameOf(r2) == NameOf(r);
  }

  /** A gap in a block: a stretch to be made a record of, with records before and behind it. Its length is in place. */
  ghost predicate Gap(b: seq<Byte>, p: nat) {
    && p + MIN_DIR_ENTRY_SIZE <= |b|
    && var n := Le16(b, p + 4);
       && MIN_DIR_ENTRY_SIZE <= n && n % DIR_ENTRY_ALIGN == 0 && p + n <= |b|
       && Tiled(b[..p]) && Tiled(b[p + n..]) && Tidy(b[..p]) && AllLive(b[p + n..])
  }

  function GapLen(b: seq<Byte>, p: nat): nat {
    if p + MIN_DIR_ENTRY_SIZE <= |b| then Le16(b, p + 4) else 0
  }

  /** The entries around a gap. */
  ghost function Around(b: seq<Byte>, p: nat, base: nat): seq<Live>
    requires Gap(b, p)
  {
    var q := p + GapLen(b, p);
    Listing(b[..p], base) + Listing(b[q..], base + q)
  }

  /** Some record has room for a record of that many bytes: it is free and long enough, or has them to spare. */
  ghost predicate HasRoom(t: seq<Byte>, required: nat)
    requires Tiled(t)
    decreases |t|
  {
    && t != []
    && (|| (Ino(t) == NO_ENTRY && required <= RecLen(t))
        || required <= RecLen(t) - ActualSize(NameLen(t))
        || HasRoom(t[RecLen(t)..], required))
  }

  /** A free record is a gap as it is. */
  lemma FreeIsGap(b: seq<Byte>, p: nat, base: nat)
    requires p + MIN_DIR_ENTRY_SIZE <= |b| && Ino(b[p..]) == NO_ENTRY
    requires Cut(b, p) && Tiled(b) && Tidy(b)
    ensures Gap(b, p) && GapLen(b, p) == RecLen(b[p..])
    ensures Around(b, p, base) == Listing(b, base)
  {
    hide Tiled, Tidy, AllLive, Listing, Around;
    CutRecord(b, p, base);
    HeadFacts(b[p..]);
    assert Le16(b, p + 4) == RecLen(b[p..]);
    AroundIs(b, p, base);
    var q := p + RecLen(b[p..]);
    NothingThere(b[p..], base + p, Listing(b[..p], base), Listing(b[q..], base + q));
  }

  lemma AroundIs(b: seq<Byte>, p: nat, base: nat)
    requires Gap(b, p)
    ensures var q := p + GapLen(b, p); Around(b, p, base) == Listing(b[..p], base) + Listing(b[q..], base + q)
  {
  }

  lemma NothingThere(t: seq<Byte>, base: nat, u: seq<Live>, v: seq<Live>)
    requires Head(t) && Ino(t) == NO_ENTRY
    ensures u + FirstEntry(t, base) + v == u + v
  {
    assert u + [] == u;
  }

  /** A block in which one stretch has been replaced by another that records tile. */
  lemma Rebuilt(b: seq<Byte>, p: nat, q: nat, b2: seq<Byte>, base: nat)
    requires p < q <= |b| == |b2| && b2[..p] == b[..p] && b2[q..] == b[q..]
    requires Tiled(b[..p]) && Tiled(b[q..]) && Tiled(b2[p..q])
    ensures Tiled(b2)
    ensures Listing(b2, base) == Listing(b[..p], base) + Listing(b2[p..q], base + p) + Listing(b[q..], base + q)
    ensures Tidy(b[..p]) && AllLive(b[q..]) && Tidy(b2[p..q]) && (p > 0 ==> AllLive(b2[p..q])) ==> Tidy(b2)
  {
    hide Tiled, Tidy, AllLive, Listing;
    var r := b2[p..q];
    assert b2 == b[..p] + (r + b[q..]);
    TiledAppend(r, b[q..], base + p);
    TiledAppend(b[..p], r + b[q..], base);
    LiveAppend(r, b[q..]);
    LiveAppend(b[..p], r + b[q..]);
    Assoc(Listing(b[..p], base), Listing(r, base + p), Listing(b[q..], base + q));
  }

  /** The record at p with its length changed, and perhaps bytes past its name. */
  lemma RecordResized(b: seq<Byte>, p: nat, b2: seq<Byte>, n2: nat, base: nat)
    requires p + MIN_DIR_ENTRY_SIZE <= |b| && Head(b[p..]) && p + n2 <= |b| == |b2|
    requires Ino(b[p..]) != NO_ENTRY ==> NameLen(b[p..]) >= 1
    requires ActualSize(NameLen(b[p..])) <= n2 && n2 % DIR_ENTRY_ALIGN == 0 && Le16(b2, p + 4) == n2
    requires forall k :: p <= k < p + MIN_DIR_ENTRY_SIZE + NameLen(b[p..]) && k != p + 4 && k != p + 5 ==> b2[k] == b[k]
    ensures var r2 := b2[p..p + n2];
            Tiled(r2) && Tidy(r2) && (AllLive(r2) <==> Ino(b[p..]) != NO_ENTRY)
            && Listing(r2, base) == FirstEntry(b[p..], base)
  {
    hide Tiled, Tidy, AllLive, Listing, FirstEntry;
    var r, r2 := b[p..], b2[p..p + n2];
    assert forall k :: 0 <= k < MIN_DIR_ENTRY_SIZE + NameLen(r) && k != 4 && k != 5 ==>
             r2[k] == b2[p + k] == b[p + k] == r[k];
    assert RecLen(r2) == n2;
    LengthChanged(r, r2, base);
    OneRecord(r2, base);
  }

  /** b2 is b with the record at p, of length n, shrunk to length a and the rest of it a record to be. */
  predicate Shrunk(b: seq<Byte>, p: nat, b2: seq<Byte>, a: nat, n: nat) {
    && p + MIN_DIR_ENTRY_SIZE <= |b| && p + n <= |b| == |b2|
    && n == RecLen(b[p..]) && a == ActualSize(NameLen(b[p..])) && a + MIN_DIR_ENTRY_SIZE <= n
    && (forall k :: 0 <= k < |b| && (k < p + a || p + n <= k) && k != p + 4 && k != p + 5 ==> b2[k] == b[k])
    && Le16(b2, p + 4) == a && Le16(b2, p + a + 4) == n - a
  }

  /** The records up to and including a shrunk one. */
  lemma ShrunkPrefix(b: seq<Byte>, p: nat, b2: seq<Byte>, a: nat, n: nat, base: nat)
    requires Shrunk(b, p, b2, a, n) && Ino(b[p..]) != NO_ENTRY
    requires Cut(b, p) && Head(b[p..]) && NameLen(b[p..]) >= 1 && Tidy(b[..p])
    ensures p + a <= |b2| && Tiled(b2[..p + a]) && Tidy(b2[..p + a])
    ensures Listing(b2[..p + a], base) == Listing(b[..p], base) + FirstEntry(b[p..], base + p)
  {
    hide Tiled, Tidy, AllLive, Listing, FirstEntry, Head, NameOf;
    RecordResized(b, p, b2, a, base + p);
    var r2 := b2[p..p + a];
    assert b2[..p] == b[..p];
    assert b2[..p + a] == b[..p] + r2;
    TiledAppend(b[..p], r2, base);
    LiveAppend(b[..p], r2);
  }

  lemma ShrunkParts(b: seq<Byte>, p: nat, b2: seq<Byte>, a: nat, n: nat)
    requires Shrunk(b, p, b2, a, n)
    ensures p + a + MIN_DIR_ENTRY_SIZE <= p + n <= |b| == |b2| && Le16(b2, p + a + 4) == n - a
    ensures p + MIN_DIR_ENTRY_SIZE <= |b| && n == RecLen(b[p..]) && a % DIR_ENTRY_ALIGN == 0
    ensures b2[p + n..] == b[p + n..]
  {
    hide RecLen, NameLen;
  }

  /** Shrinking a record in use, of length n, to its rounded size a opens a gap behind it. */
  lemma ShrinkIsGap(b: seq<Byte>, p: nat, b2: seq<Byte>, a: nat, n: nat, base: nat)
    requires Shrunk(b, p, b2, a, n) && Ino(b[p..]) != NO_ENTRY && Cut(b, p) && Tiled(b) && Tidy(b)
    ensures Gap(b2, p + a) && GapLen(b2, p + a) == n - a
    ensures Around(b2, p + a, base) == Listing(b, base)
  {
    hide Tiled, Tidy, AllLive, Listing, Around, FirstEntry, Head, NameOf, Ino, RecLen, NameLen, Gap, Cut, ActualSize,
      Shrunk, Le16;
    ShrunkParts(b, p, b2, a, n);
    CutRecord(b, p, base);
    HeadFacts(b[p..]);
    NamedEntry(b, p);
    CutParts(b, p, p + n);
    ShrunkPrefix(b, p, b2, a, n, base);
    GapIs(b2, p + a, n - a);
    AroundIs(b2, p + a, base);
  }

  lemma CutParts(b: seq<Byte>, p: nat, q: nat)
    requires Cut(b, p) && Cut(b, q)
    ensures p <= |b| && q <= |b| && Tiled(b[..p]) && Tiled(b[p..]) && Tiled(b[q..])
  {
  }

  lemma GapIs(b: seq<Byte>, p: nat, n: nat)
    requires p + MIN_DIR_ENTRY_SIZE <= |b| && Le16(b, p + 4) == n
    requires MIN_DIR_ENTRY_SIZE <= n && n % DIR_ENTRY_ALIGN == 0 && p + n <= |b|
    requires Tiled(b[..p]) && Tiled(b[p + n..]) && Tidy(b[..p]) && AllLive(b[p + n..])
    ensures Gap(b, p) && GapLen(b, p) == n
  {
  }

  lemma NamedEntry(b: seq<Byte>, p: nat)
    requires Cut(b, p) && p < |b|
    ensures Head(b[p..]) && (Ino(b[p..]) != NO_ENTRY ==> NameLen(b[p..]) >= 1)
  {
  }

  lemma SlicePart(b: seq<Byte>, p: nat, n: nat, i: nat, j: nat)
    requires p + n <= |b| && i <= j <= n
    ensures b[p..p + n][i..j] == b[p + i..p + j]
  {
    var u, v := b[p..p + n][i..j], b[p + i..p + j];
    forall k | 0 <= k < j - i ensures u[k] == v[k] {
    }
  }

  /** The entries around a gap with e among them. */
  ghost function AroundWith(b: seq<Byte>, p: nat, e: Live, base: nat): seq<Live>
    requires Gap(b, p)
  {
    var q := p + GapLen(b, p);
    Listing(b[..p], base) + [e] + Listing(b[q..], base + q)
  }

  /** b2 is b with a record of that name and inode number in the gap at p. */
  predicate Filled(b: seq<Byte>, p: nat, b2: seq<Byte>, name: Name, ino: nat) {
    && |b2| == |b| && p + MIN_DIR_ENTRY_SIZE + |name| <= |b| && 1 <= |name| <= NAME_MAX
    && ActualSize(|name|) <= GapLen(b, p) && ino != NO_ENTRY
    && (forall k :: 0 <= k < |b| && (k < p || k >= p + GapLen(b, p)) ==> b2[k] == b[k])
    && GapLen(b2, p) == GapLen(b, p) && Le32(b2, p) == ino && b2[p + 6] as nat == |name|
    && b2[p + MIN_DIR_ENTRY_SIZE..p + MIN_DIR_ENTRY_SIZE + |name|] == name
  }

  /** A gap filled with a record in use adds its entry. */
  lemma GapFilled(b: seq<Byte>, p: nat, b2: seq<Byte>, name: Name, ino: nat, base: nat)
    requires Gap(b, p) && Filled(b, p, b2, name, ino)
    ensures Tiled(b2) && Tidy(b2)
    ensures Listing(b2, base) == AroundWith(b, p, Live(base + p, name, ino), base)
  {
    hide Tiled, Tidy, AllLive, Listing, Head, NameOf, FirstEntry;
    var n := GapLen(b, p);
    var q, r := p + n, b2[p..p + n];
    assert b2[..p] == b[..p] && b2[q..] == b[q..];
    FilledRecord(b, p, b2, name, ino, base + p);
    hide Ino, RecLen, NameLen, Filled;
    OneRecord(r, base + p);
    Rebuilt(b, p, q, b2, base);
  }

  lemma FilledRecord(b: seq<Byte>, p: nat, b2: seq<Byte>, name: Name, ino: nat, pos: nat)
    requires Filled(b, p, b2, name, ino) && p + GapLen(b, p) <= |b| && GapLen(b, p) % DIR_ENTRY_ALIGN == 0
    ensures var r := b2[p..p + GapLen(b, p)];
            && Head(r) && RecLen(r) == |r| && Ino(r) == ino && NameLen(r) == |name|
            && FirstEntry(r, pos) == [Live(pos, name, ino)]
  {
    var n := GapLen(b, p);
    var r := b2[p..p + n];
    assert Ino(r) == ino && RecLen(r) == n && NameLen(r) == |name|;
    SlicePart(b2, p, n, MIN_DIR_ENTRY_SIZE, MIN_DIR_ENTRY_SIZE + |name|);
    assert NameOf(r) == name;
  }

  /** The first record, once it is free, is gone from the entries. */
  lemma FirstFreed(b: seq<Byte>, b2: seq<Byte>, base: nat)
    requires Tiled(b) && Tidy(b) && b != [] && |b2| == |b|
    requires Ino(b2) == NO_ENTRY && RecLen(b2) == RecLen(b) && NameLen(b2) == NameLen(b)
    requires b2[RecLen(b)..] == b[RecLen(b)..]
    ensures Tiled(b2) && Tidy(b2) && Listing(b2, base) == Listing(b[RecLen(b)..], base + RecLen(b))
    ensures Listing(b, base) == FirstEntry(b, base) + Listing(b[RecLen(b)..], base + RecLen(b))
  {
    ListingStep(b, base);
    assert FirstEntry(b2, base) == [];
  }

  /** A record of length n merged into the one before it is gone from the entries. */
  lemma Merged(b: seq<Byte>, prev: nat, p: nat, n: nat, b2: seq<Byte>, base: nat)
    requires prev < p && p + MIN_DIR_ENTRY_SIZE <= |b| && p + n <= |b| == |b2|
    requires RecLen(b[prev..]) == p - prev && RecLen(b[p..]) == n
    requires forall k :: 0 <= k < |b| && (k < p || k >= p + n) && k != prev + 4 && k != prev + 5 ==> b2[k] == b[k]
    requires Le16(b2, prev + 4) == p - prev + n
    requires Cut(b, prev) && Cut(b, p) && Tiled(b) && Tidy(b)
    ensures Tiled(b2) && Tidy(b2) && Head(b[p..])
    ensures Listing(b, base) == Listing(b[..p], base) + FirstEntry(b[p..], base + p) + Listing(b[p + n..], base + p + n)
    ensures Listing(b2, base) == Listing(b[..p], base) + Listing(b[p + n..], base + p + n)
  {
    hide Tiled, Tidy, AllLive, Listing, FirstEntry, Head, NameOf, Ino, ActualSize, Le16;
    CutRecord(b, prev, base);
    CutRecord(b, p, base);
    NamedEntry(b, prev);
    HeadFacts(b[prev..]);
    HeadFacts(b[p..]);
    RecordResized(b, prev, b2, p - prev + n, base + prev);
    assert b2[..prev] == b[..prev] && b2[p + n..] == b[p + n..];
    Rebuilt(b, prev, p + n, b2, base);
  }
}
