/** Whole runs of requests against a directory, which act on it as on a map from names to inode numbers. */
module DirRuns {
  import opened Words
  import opened ExtGeometry
  import opened DirSpec
  import opened DirListing
  import opened DirRoom
  import opened ExtDirectory

  /** A creation says whether types are kept, and which type the entry is to have. */
  datatype Request =
    | Create(name: Name, ino: nat, typed: bool, ftype: Byte)
    | Delete(name: Name)
    | Find(name: Name)

  predicate Sensible(q: Request) {
    q.name != [] && 0 !in q.name && (q.Create? ==> NO_ENTRY != q.ino < U32)
  }

  /** What a request that succeeded, or did not, does to the map. */
  function After(m: map<Name, nat>, q: Request, ok: bool): map<Name, nat> {
    if !ok then m
    else match q
      case Create(name, ino, _, _) => m[name := ino]
      case Delete(name) => m - {name}
      case Find(_) => m
  }

  /** The reply the map allows. Only the creation of an absent name may fail for want of room. */
  predicate Answers(m: map<Name, nat>, q: Request, r: Result<nat>) {
    if |q.name| > NAME_MAX then r == Err(ENAMETOOLONG)
    else match q
      case Create(name, ino, _, _) => if name in m then r == Err(EEXIST) else r == Ok(ino) || r == Err(ENOENT)
      case Delete(name) => if name in m then r.Ok? else r == Err(ENOENT)
      case Find(name) => if name in m then r == Ok(m[name]) else r == Err(ENOENT)
  }

  function Replay(m: map<Name, nat>, qs: seq<Request>, rs: seq<Result<nat>>, k: nat): map<Name, nat>
    requires k <= |qs| && k <= |rs|
  {
    if k == 0 then m else After(Replay(m, qs, rs, k - 1), qs[k - 1], rs[k - 1].Ok?)
  }

  /** What a request does to the directory's blocks. A creation fails for want of room just when no record has any. */
  ghost predicate Step(c: seq<seq<Byte>>, q: Request, r: Result<nat>, c2: seq<seq<Byte>>) {
    && AllTiled(c) && AllTiled(c2)
    && (q.Create? && r == Err(ENOENT) ==> !RoomIn(c, ActualSize(|q.name|)))
    && (q.Create? && r.Ok? ==> RoomIn(c, ActualSize(|q.name|)))
    && (if r.Err? || q.Find? then c2 == c
        else if q.Create? then
          exists pos: nat :: Entered(c, c2, Live(pos, q.name, q.ino))
                             && c != [] && RecordedIn(c, c2, |c[0]|, pos, q.name, q.ino, q.typed, q.ftype)
        else Deleted(c, c2, q.name))
  }

  /** new_inode's use of a directory: a name that is there already is turned away, any other is entered. */
  method CreateEntry(dir: Directory, name: Name, ino: nat, typed: bool, ftype: Byte)
    returns (r: Result<nat>, ghost pos: nat)
    requires dir.Valid() && Unique(dir.List()) && Sensible(Create(name, ino, typed, ftype))
    modifies dir.Bufs()
    ensures dir.Valid() && Unique(dir.List())
    ensures Answers(old(NameMap(dir.List())), Create(name, ino, typed, ftype), r)
    ensures NameMap(dir.List()) == After(old(NameMap(dir.List())), Create(name, ino, typed, ftype), r.Ok?)
    ensures Step(old(dir.Content()), Create(name, ino, typed, ftype), r, dir.Content())
    ensures r.Ok? ==> RecordedIn(old(dir.Content()), dir.Content(), dir.blockSize, pos, name, ino, typed, ftype)
  {
    hide Tiled, Tidy, FindName, NameMap, Unique, Inserted, RoomIn, Entered, Entries, RecordedIn;
    ghost var l := dir.List();
    assert forall a :: a in dir.Bufs() ==> allocated(a);
    var found := dir.LookupDir(name);
    assert dir.List() == l;
    if found.Ok? {
      return Err(EEXIST), 0;
    }
    ghost var c := dir.Content();
    var entered;
    entered, pos := dir.DirentEnter(name, ino, typed, ftype);
    if entered.Err? {
      return Err(entered.errno), pos;
    }
    InsertedMap(l, dir.List(), Live(pos, name, ino));
    RecordedSize(c, dir.Content(), dir.blockSize, pos, name, ino, typed, ftype);
    return Ok(ino), pos;
  }

  lemma RecordedSize(c: seq<seq<Byte>>, c2: seq<seq<Byte>>, size: nat, pos: nat, name: Name, ino: nat, typed: bool,
                     ftype: Byte)
    requires RecordedIn(c, c2, size, pos, name, ino, typed, ftype) && forall b :: 0 <= b < |c| ==> |c[b]| == size
    ensures c != [] && RecordedIn(c, c2, |c[0]|, pos, name, ino, typed, ftype)
  {
    hide Recorded;
  }

  method Serve(dir: Directory, q: Request) returns (r: Result<nat>)
    requires dir.Valid() && Unique(dir.List()) && Sensible(q)
    modifies dir.Bufs()
    ensures dir.Valid() && Unique(dir.List())
    ensures Answers(old(NameMap(dir.List())), q, r)
    ensures NameMap(dir.List()) == After(old(NameMap(dir.List())), q, r.Ok?)
    ensures Step(old(dir.Content()), q, r, dir.Content())
  {
    hide Tiled, Tidy, FindName, NameMap, Unique, Dropped, RoomIn, Deleted, Entries, RecordedIn;
    ghost var l := dir.List();
    assert forall a :: a in dir.Bufs() ==> allocated(a);
    if q.Create? {
      ghost var pos;
      r, pos := CreateEntry(dir, q.name, q.ino, q.typed, q.ftype);
    } else if q.Delete? {
      var gone := dir.DirentDelete(q.name);
      DroppedMap(l, q.name);
      r := if gone.Ok? then Ok(0) else Err(gone.errno);
    } else {
      r := dir.LookupDir(q.name);
      assert dir.List() == l;
    }
  }

  /** Replies to the first requests, and the directory's blocks before and after each, as they should be. */
  ghost predicate Agree(m: map<Name, nat>, qs: seq<Request>, rs: seq<Result<nat>>, trace: seq<seq<seq<Byte>>>) {
    && |rs| == |trace| - 1 <= |qs|
    && forall k :: 0 <= k < |rs| ==>
         Answers(Replay(m, qs, rs, k), qs[k], rs[k]) && Step(trace[k], qs[k], rs[k], trace[k + 1])
  }

  lemma NothingYet(m: map<Name, nat>, qs: seq<Request>, c: seq<seq<Byte>>)
    ensures Replay(m, qs, [], 0) == m && Agree(m, qs, [], [c])
  {
  }

  lemma PlusOne(m: map<Name, nat>, qs: seq<Request>, rs: seq<Result<nat>>, r: Result<nat>, k: nat)
    requires k <= |rs| < |qs|
    ensures k < |rs| ==> (rs + [r])[k] == rs[k]
    ensures Replay(m, qs, rs + [r], k) == Replay(m, qs, rs, k)
    ensures k == |rs| ==> Replay(m, qs, rs + [r], k + 1) == After(Replay(m, qs, rs, k), qs[k], r.Ok?)
  {
    hide After;
    ReplayPrefix(m, qs, rs, rs + [r], k);
  }

  lemma OneMore(m: map<Name, nat>, qs: seq<Request>, rs: seq<Result<nat>>, trace: seq<seq<seq<Byte>>>, r: Result<nat>,
                c: seq<seq<Byte>>)
    requires Agree(m, qs, rs, trace) && |rs| < |qs| && Answers(Replay(m, qs, rs, |rs|), qs[|rs|], r)
    requires Step(trace[|rs|], qs[|rs|], r, c)
    ensures Agree(m, qs, rs + [r], trace + [c])
    ensures Replay(m, qs, rs + [r], |rs| + 1) == After(Replay(m, qs, rs, |rs|), qs[|rs|], r.Ok?)
  {
    hide Answers, Step, After, Replay;
    var rs2, trace2 := rs + [r], trace + [c];
    PlusOne(m, qs, rs, r, |rs|);
    forall k | 0 <= k < |rs2|
      ensures Answers(Replay(m, qs, rs2, k), qs[k], rs2[k]) && Step(trace2[k], qs[k], rs2[k], trace2[k + 1])
    {
      PlusOne(m, qs, rs, r, k);
      assert trace2[k] == trace[k] && trace2[k + 1] == if k < |rs| then trace[k + 1] else c;
    }
  }

  /** How many of the first k requests create a name. */
  function Creations(qs: seq<Request>, k: nat): nat
    requires k <= |qs|
  {
    if k == 0 then 0 else Creations(qs, k - 1) + if qs[k - 1].Create? then 1 else 0
  }

  lemma {:induction false} CreationsMore(qs: seq<Request>, j: nat, k: nat)
    requires j <= k <= |qs|
    ensures Creations(qs, j) <= Creations(qs, k)
  {
    if j < k {
      CreationsMore(qs, j, k - 1);
    }
  }

  /** No name that is to be created takes more than u bytes. */
  predicate Fitting(qs: seq<Request>, u: nat) {
    forall k :: 0 <= k < |qs| && qs[k].Create? && |qs[k].name| <= NAME_MAX ==> ActualSize(|qs[k].name|) <= u
  }

  lemma StepSlots(c: seq<seq<Byte>>, q: Request, r: Result<nat>, c2: seq<seq<Byte>>, u: nat)
    requires Step(c, q, r, c2) && u > 0 && (q.Create? && r.Ok? ==> ActualSize(|q.name|) <= u)
    ensures AllTiled(c) && AllTiled(c2)
    ensures SlotsIn(c, 0, u) <= SlotsIn(c2, 0, u) + if q.Create? then 1 else 0
    ensures q.Create? && r == Err(ENOENT) && ActualSize(|q.name|) <= u ==> SlotsIn(c, 0, u) == 0
  {
    hide AllTiled, RoomIn, Entered, Deleted, SlotsIn, ActualSize, RecordedIn;
    if q.Create? && r == Err(ENOENT) {
      if ActualSize(|q.name|) <= u && SlotsIn(c, 0, u) > 0 {
        SlotsRoom(c, 0, u);
        RoomInForLess(c, ActualSize(|q.name|), u);
      }
    } else if q.Create? && r.Ok? {
      var pos: nat :| Entered(c, c2, Live(pos, q.name, q.ino));
      EnteredSlots(c, c2, Live(pos, q.name, q.ino), u);
    } else if q.Delete? && r.Ok? {
      DeletedSlots(c, c2, q.name, u);
    }
  }

  /** Each creation has taken one place for u bytes at most, and a deletion none. */
  lemma {:induction false} SlotsLeft(m: map<Name, nat>, qs: seq<Request>, rs: seq<Result<nat>>,
                                     trace: seq<seq<seq<Byte>>>, u: nat, k: nat)
    requires Agree(m, qs, rs, trace) && u > 0 && Fitting(qs, u) && k <= |rs| && AllTiled(trace[0])
    ensures AllTiled(trace[k]) && SlotsIn(trace[0], 0, u) <= SlotsIn(trace[k], 0, u) + Creations(qs, k)
  {
    hide AllTiled, Step, SlotsIn, ActualSize, Replay, Fitting, Answers;
    if k > 0 {
      SlotsLeft(m, qs, rs, trace, u, k - 1);
      AgreeAt(m, qs, rs, trace, u, k - 1);
      StepSlots(trace[k - 1], qs[k - 1], rs[k - 1], trace[k], u);
    }
  }

  /** A directory with a place of u bytes for each name to be created, none longer, refuses none for want of room. */
  lemma NoneRefused(m: map<Name, nat>, qs: seq<Request>, rs: seq<Result<nat>>, trace: seq<seq<seq<Byte>>>,
                    u: nat, k: nat)
    requires Agree(m, qs, rs, trace) && u > 0 && Fitting(qs, u) && k < |rs| == |qs| && AllTiled(trace[0])
    requires SlotsIn(trace[0], 0, u) >= Creations(qs, |qs|)
    ensures qs[k].Create? ==> rs[k] != Err(ENOENT)
  {
    hide AllTiled, Step, SlotsIn, ActualSize, Replay, Agree, Fitting, Answers;
    SlotsLeft(m, qs, rs, trace, u, k);
    CreationsMore(qs, k + 1, |qs|);
    AgreeAt(m, qs, rs, trace, u, k);
    StepSlots(trace[k], qs[k], rs[k], trace[k + 1], u);
  }

  lemma AgreeAt(m: map<Name, nat>, qs: seq<Request>, rs: seq<Result<nat>>, trace: seq<seq<seq<Byte>>>, u: nat, k: nat)
    requires Agree(m, qs, rs, trace) && Fitting(qs, u) && k < |rs|
    ensures |rs| == |trace| - 1 <= |qs| && Step(trace[k], qs[k], rs[k], trace[k + 1])
    ensures qs[k].Create? && (rs[k].Ok? || rs[k] == Err(ENOENT)) ==> ActualSize(|qs[k].name|) <= u
  {
    hide Step, Replay, ActualSize;
    assert Answers(Replay(m, qs, rs, k), qs[k], rs[k]);
  }

  /** Any run of creations, deletions and lookups acts on a directory as on a map from names to inode numbers. A
      creation is refused for want of room exactly when no record has any, which does not happen in a run that starts
      with a place for every name it creates. */
  method Run(dir: Directory, qs: seq<Request>) returns (rs: seq<Result<nat>>, ghost trace: seq<seq<seq<Byte>>>)
    requires dir.Valid() && Unique(dir.List()) && forall k :: 0 <= k < |qs| ==> Sensible(qs[k])
    modifies dir.Bufs()
    ensures dir.Valid() && Unique(dir.List()) && |rs| == |qs|
    ensures NameMap(dir.List()) == Replay(old(NameMap(dir.List())), qs, rs, |qs|)
    ensures Agree(old(NameMap(dir.List())), qs, rs, trace)
    ensures trace[0] == old(dir.Content()) && trace[|qs|] == dir.Content()
    ensures forall u: nat :: u > 0 && Fitting(qs, u) && SlotsIn(trace[0], 0, u) >= Creations(qs, |qs|) ==>
              forall k :: 0 <= k < |qs| && qs[k].Create? ==> rs[k] != Err(ENOENT)
  {
    hide AllTiled, NameMap, Unique, Answers, Agree, After, Sensible, Replay, Step, SlotsIn, Fitting, Creations,
      Entries;
    ghost var m, c0 := NameMap(dir.List()), dir.Content();
    rs, trace := [], [c0];
    NothingYet(m, qs, c0);
    for i := 0 to |qs|
      invariant dir.Valid() && Unique(dir.List()) && |rs| == i && |trace| == i + 1
      invariant trace[0] == c0 && trace[i] == dir.Content()
      invariant NameMap(dir.List()) == Replay(m, qs, rs, i) && Agree(m, qs, rs, trace)
    {
      var r := Serve(dir, qs[i]);
      OneMore(m, qs, rs, trace, r, dir.Content());
      rs, trace := rs + [r], trace + [dir.Content()];
    }
    forall u: nat, k | u > 0 && Fitting(qs, u) && SlotsIn(c0, 0, u) >= Creations(qs, |qs|) && 0 <= k < |qs|
        && qs[k].Create?
      ensures rs[k] != Err(ENOENT)
    {
      NoneRefused(m, qs, rs, trace, u, k);
    }
  }

  lemma {:induction false} ReplayPrefix(m: map<Name, nat>, qs: seq<Request>, rs: seq<Result<nat>>,
                                        rs2: seq<Result<nat>>, k: nat)
    requires k <= |qs| && k <= |rs| && rs <= rs2
    ensures Replay(m, qs, rs2, k) == Replay(m, qs, rs, k)
  {
    if k > 0 {
      ReplayPrefix(m, qs, rs, rs2, k - 1);
    }
  }
}
