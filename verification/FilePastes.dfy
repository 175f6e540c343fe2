// The file backend as functions on a directory, and the write-once store it stands
// for (internal/store/file.go). Expiry does not exist here.
module FilePastes {
  import opened Text
  import opened Pastes
  import opened FileHandles

  datatype Paste = Paste(body: Body, created: int)

  // What the base directory holds under a name.
  datatype Node = File(paste: Paste) | Dir(empty: bool)

  type Directory = map<string, Node>
  type Digest = string -> seq<byte>

  datatype Op =
    | Get(key: string)
    | Set(key: string, body: Body, now: int)
    | Delete(handle: string)
    | Purge

  datatype Answer = Data(body: Body) | NotFound | Stored | KeyExists | Removed | Purged(n: nat) | Failed

  ghost predicate Hashes(digest: Digest) {
    forall key :: |digest(key)| == DIGEST_LENGTH
  }

  ghost predicate Injective(digest: Digest, keys: set<string>) {
    forall a, b :: a in keys && b in keys && digest(a) == digest(b) ==> a == b
  }

  function Filename(digest: Digest, key: string): string {
    HexEncode(digest(key))
  }

  // A derived file name is a handle, and different keys have different ones.
  lemma FilenameIsHandle(digest: Digest, key: string)
    requires |digest(key)| == DIGEST_LENGTH
    ensures IsHexHandle(Filename(digest, key))
  {
    EncodeIsHex(digest(key));
  }

  lemma FilenameInjective(digest: Digest, keys: set<string>, a: string, b: string)
    requires Injective(digest, keys) && a in keys && b in keys
    requires Filename(digest, a) == Filename(digest, b)
    ensures a == b
  {
    EncodeInjective(digest(a), digest(b));
  }

  // ---------------------------------------------------------------------------
  // The two machines

  function ReadNode(dir: Directory, name: string): Answer {
    if name !in dir then NotFound
    else
      match dir[name]
      case File(p) => Data(p.body)
      case Dir(_) => Failed
  }

  function Exec(digest: Digest, dir: Directory, op: Op): (Directory, Answer) {
    match op
    case Get(key) => (dir, ReadNode(dir, Filename(digest, key)))
    case Set(key, body, now) =>
      var name := Filename(digest, key);
      if name in dir then (dir, KeyExists) else (dir[name := File(Paste(body, now))], Stored)
    case Delete(handle) =>
      if !IsHexHandle(handle) || handle !in dir then (dir, NotFound)
      else if dir[handle] == Dir(false) then (dir, Failed)
      else (dir - {handle}, Removed)
    case Purge => (dir, Purged(0))
  }

  // What the directory means to a server that uses these keys: the entry under the
  // file name of each key, and entries with other names that look like handles.
  // Entries with any other name are none of its business.
  datatype Store = Store(pastes: map<string, Node>, foreign: map<string, Node>)

  function Filenames(digest: Digest, keys: set<string>): set<string> {
    set key | key in keys :: Filename(digest, key)
  }

  function Meaning(digest: Digest, keys: set<string>, dir: Directory): Store {
    Store(map key | key in keys && Filename(digest, key) in dir :: dir[Filename(digest, key)],
          map name | name in dir && IsHexHandle(name) && name !in Filenames(digest, keys) :: dir[name])
  }

  // A key is written once, and goes when the handle deleted is its own.
  function Spec(digest: Digest, st: Store, op: Op): (Store, Answer) {
    match op
    case Get(key) => (st, ReadNode(st.pastes, key))
    case Set(key, body, now) =>
      if key in st.pastes then (st, KeyExists) else (st.(pastes := st.pastes[key := File(Paste(body, now))]), Stored)
    case Delete(handle) =>
      var owners := set key | key in st.pastes && Filename(digest, key) == handle;
      if owners != {} then
        if exists key <- owners :: st.pastes[key] == Dir(false) then (st, Failed)
        else (st.(pastes := st.pastes - owners), Removed)
      else if handle !in st.foreign then (st, NotFound)
      else if st.foreign[handle] == Dir(false) then (st, Failed)
      else (st.(foreign := st.foreign - {handle}), Removed)
    case Purge => (st, Purged(0))
  }

  predicate UsesKeys(keys: set<string>, op: Op) {
    match op
    case Get(key) => key in keys
    case Set(key, _, _) => key in keys
    case _ => true
  }

  lemma SetAgrees(digest: Digest, keys: set<string>, dir: Directory, op: Op)
    requires Hashes(digest) && Injective(digest, keys) && op.Set? && UsesKeys(keys, op)
    ensures (Meaning(digest, keys, Exec(digest, dir, op).0), Exec(digest, dir, op).1)
            == Spec(digest, Meaning(digest, keys, dir), op)
  {
    var name, st := Filename(digest, op.key), Meaning(digest, keys, dir);
    FilenameIsHandle(digest, op.key);
    if name !in dir {
      var dir' := dir[name := File(Paste(op.body, op.now))];
      forall key | key in keys
        ensures Filename(digest, key) == name <==> key == op.key
      {
        if Filename(digest, key) == name {
          FilenameInjective(digest, keys, key, op.key);
        }
      }
      assert name in Filenames(digest, keys);
      assert Meaning(digest, keys, dir').pastes == st.pastes[op.key := File(Paste(op.body, op.now))];
      assert Meaning(digest, keys, dir').foreign == st.foreign;
    }
  }

  // A handle that a used key has belongs to that key alone.
  lemma HandleOwner(digest: Digest, keys: set<string>, dir: Directory, key: string)
    requires Injective(digest, keys) && key in keys && Filename(digest, key) in dir
    ensures var st := Meaning(digest, keys, dir);
            && key in st.pastes && (set k | k in st.pastes && Filename(digest, k) == Filename(digest, key)) == {key}
  {
    forall k | k in keys && Filename(digest, k) == Filename(digest, key)
      ensures k == key
    {
      FilenameInjective(digest, keys, k, key);
    }
  }

  lemma DeleteOwned(digest: Digest, keys: set<string>, dir: Directory, key: string)
    requires Injective(digest, keys) && key in keys && Filename(digest, key) in dir
    ensures var st := Meaning(digest, keys, dir);
            Meaning(digest, keys, dir - {Filename(digest, key)}) == st.(pastes := st.pastes - {key})
  {
    var name, st := Filename(digest, key), Meaning(digest, keys, dir);
    var u := Meaning(digest, keys, dir - {name});
    forall k | k in keys && k != key
      ensures Filename(digest, k) != name
    {
      if Filename(digest, k) == name {
        FilenameInjective(digest, keys, k, key);
      }
    }
    assert u.pastes == st.pastes - {key};
    assert name in Filenames(digest, keys);
    assert u.foreign == st.foreign;
  }

  lemma DeleteForeign(digest: Digest, keys: set<string>, dir: Directory, handle: string)
    requires handle !in Filenames(digest, keys)
    ensures var st := Meaning(digest, keys, dir);
            Meaning(digest, keys, dir - {handle}) == st.(foreign := st.foreign - {handle})
  {
    var st, u := Meaning(digest, keys, dir), Meaning(digest, keys, dir - {handle});
    assert u.pastes == st.pastes;
    assert u.foreign == st.foreign - {handle};
  }

  lemma DeleteAgrees(digest: Digest, keys: set<string>, dir: Directory, handle: string)
    requires Hashes(digest) && Injective(digest, keys)
    ensures (Meaning(digest, keys, Exec(digest, dir, Delete(handle)).0), Exec(digest, dir, Delete(handle)).1)
            == Spec(digest, Meaning(digest, keys, dir), Delete(handle))
  {
    var st := Meaning(digest, keys, dir);
    var owners := set k | k in st.pastes && Filename(digest, k) == handle;
    if key :| key in keys && Filename(digest, key) == handle {
      FilenameIsHandle(digest, key);
      if handle in dir {
        HandleOwner(digest, keys, dir, key);
        DeleteOwned(digest, keys, dir, key);
        assert st.pastes[key] == dir[handle];
      } else {
        assert owners == {};
      }
    } else {
      assert owners == {};
      assert handle !in Filenames(digest, keys);
      DeleteForeign(digest, keys, dir, handle);
    }
  }

  // On any directory at all, every operation answers as the store it means does and
  // does to it what the store does.
  lemma StepAgrees(digest: Digest, keys: set<string>, dir: Directory, op: Op)
    requires Hashes(digest) && Injective(digest, keys) && UsesKeys(keys, op)
    ensures (Meaning(digest, keys, Exec(digest, dir, op).0), Exec(digest, dir, op).1)
            == Spec(digest, Meaning(digest, keys, dir), op)
  {
    match op
    case Get(key) =>
    case Set(_, _, _) => SetAgrees(digest, keys, dir, op);
    case Delete(handle) => DeleteAgrees(digest, keys, dir, handle);
    case Purge =>
  }

  function Run(digest: Digest, dir: Directory, ops: seq<Op>): (Directory, seq<Answer>)
    decreases |ops|
  {
    if ops == [] then (dir, [])
    else
      var (next, answer) := Exec(digest, dir, ops[0]);
      var (end, rest) := Run(digest, next, ops[1..]);
      (end, [answer] + rest)
  }

  function RunSpec(digest: Digest, st: Store, ops: seq<Op>): (Store, seq<Answer>)
    decreases |ops|
  {
    if ops == [] then (st, [])
    else
      var (next, answer) := Spec(digest, st, ops[0]);
      var (end, rest) := RunSpec(digest, next, ops[1..]);
      (end, [answer] + rest)
  }

  // So over every run from every directory, for keys the digest tells apart.
  lemma {:induction false} DirectoryRefinesMap(digest: Digest, keys: set<string>, dir: Directory, ops: seq<Op>)
    requires Hashes(digest) && Injective(digest, keys) && forall op <- ops :: UsesKeys(keys, op)
    ensures (Meaning(digest, keys, Run(digest, dir, ops).0), Run(digest, dir, ops).1)
            == RunSpec(digest, Meaning(digest, keys, dir), ops)
    decreases |ops|
  {
    if ops != [] {
      StepAgrees(digest, keys, dir, ops[0]);
      DirectoryRefinesMap(digest, keys, Exec(digest, dir, ops[0]).0, ops[1..]);
    }
  }

  // Entries whose names are no handles come through every run untouched, and no
  // run creates one.
  lemma {:induction false} StraysUntouched(digest: Digest, dir: Directory, ops: seq<Op>, name: string)
    requires Hashes(digest) && !IsHexHandle(name)
    ensures name in Run(digest, dir, ops).0 <==> name in dir
    ensures name in dir ==> Run(digest, dir, ops).0[name] == dir[name]
    decreases |ops|
  {
    if ops != [] {
      if ops[0].Set? {
        FilenameIsHandle(digest, ops[0].key);
      }
      StraysUntouched(digest, Exec(digest, dir, ops[0]).0, ops[1..], name);
    }
  }

  // ---------------------------------------------------------------------------
  // List and Stats

  predicate IsPaste(dir: Directory, name: string) {
    name in dir && dir[name].File? && IsHexHandle(name)
  }

  function FileMeta(name: string, p: Paste): PasteMeta {
    PasteMeta(name, |p.body|, p.created, None)
  }

  function MetasAmong(dir: Directory, names: set<string>): set<PasteMeta> {
    set name | name in names && IsPaste(dir, name) :: FileMeta(name, dir[name].paste)
  }

  // What a listing shows, in any order.
  function AllMetas(dir: Directory): set<PasteMeta> {
    MetasAmong(dir, dir.Keys)
  }

  predicate NewestFirst(metas: seq<PasteMeta>) {
    forall i, j :: 0 <= i < j < |metas| ==> metas[i].created >= metas[j].created
  }

  ghost predicate FullListing(dir: Directory, metas: seq<PasteMeta>) {
    multiset(metas) == multiset(AllMetas(dir)) && NewestFirst(metas)
  }

  ghost function TotalSize(metas: set<PasteMeta>): nat {
    if metas == {} then 0
    else
      var e :| e in metas;
      e.size + TotalSize(metas - {e})
  }

  lemma {:induction false} TotalSizeAdd(metas: set<PasteMeta>, e: PasteMeta)
    requires e !in metas
    ensures TotalSize(metas + {e}) == e.size + TotalSize(metas)
    decreases |metas|
  {
    var all := metas + {e};
    var f :| f in all && TotalSize(all) == f.size + TotalSize(all - {f});
    if f == e {
      assert all - {f} == metas;
    } else {
      TotalSizeAdd(metas - {f}, e);
      assert all - {f} == (metas - {f}) + {e};
      TotalSizeAdd(metas - {f}, f);
      assert (metas - {f}) + {f} == metas;
    }
  }

  lemma {:induction false} SumIsTotal(metas: seq<PasteMeta>, all: set<PasteMeta>)
    requires multiset(metas) == multiset(all)
    ensures SumSizes(metas) == TotalSize(all) && |metas| == |all|
    decreases |metas|
  {
    assert |metas| == |multiset(metas)| == |multiset(all)| == |all|;
    if metas != [] {
      var e, rest := metas[0], metas[1..];
      assert metas == [e] + rest;
      assert multiset(metas) == multiset{e} + multiset(rest);
      assert multiset(metas)[e] == multiset(all)[e] == 1;
      assert multiset(all - {e}) == multiset(all) - multiset{e};
      SumIsTotal(rest, all - {e});
      TotalSizeAdd(all - {e}, e);
      assert all - {e} + {e} == all;
    }
  }

  ghost function BodyTotal(m: map<string, Paste>): nat {
    if m == map[] then 0
    else
      var k :| k in m;
      |m[k].body| + BodyTotal(m - {k})
  }

  // The pastes among the entries.
  function FilesOf(m: map<string, Node>): map<string, Paste> {
    map k | k in m && m[k].File? :: m[k].paste
  }

  function MapMetas(name: string -> string, m: map<string, Paste>): set<PasteMeta> {
    set k | k in m :: FileMeta(name(k), m[k])
  }

  ghost predicate Distinct(name: string -> string, keys: set<string>) {
    forall a, b :: a in keys && b in keys && name(a) == name(b) ==> a == b
  }

  lemma MapMetasWithout(name: string -> string, m: map<string, Paste>, k: string)
    requires Distinct(name, m.Keys) && k in m
    ensures FileMeta(name(k), m[k]) !in MapMetas(name, m - {k})
    ensures MapMetas(name, m) == MapMetas(name, m - {k}) + {FileMeta(name(k), m[k])}
  {
    assert forall j :: j in m - {k} ==> (m - {k})[j] == m[j] && name(j) != name(k);
  }

  lemma SizeWithout<K, V>(m: map<K, V>, k: K)
    requires k in m
    ensures |m| == |m - {k}| + 1
  {
    assert m.Keys == (m - {k}).Keys + {k};
  }

  // One entry per paste of the map, and the same number of bytes in all.
  lemma {:induction false} MetasMatchMap(name: string -> string, m: map<string, Paste>)
    requires Distinct(name, m.Keys)
    ensures |MapMetas(name, m)| == |m|
    ensures TotalSize(MapMetas(name, m)) == BodyTotal(m)
    decreases |m|
  {
    if m == map[] {
      assert MapMetas(name, m) == {};
    } else {
      var k :| k in m && BodyTotal(m) == |m[k].body| + BodyTotal(m - {k});
      SizeWithout(m, k);
      MetasMatchMap(name, m - {k});
      MapMetasWithout(name, m, k);
      TotalSizeAdd(MapMetas(name, m - {k}), FileMeta(name(k), m[k]));
    }
  }

  lemma {:induction false} TotalSizeUnion(a: set<PasteMeta>, b: set<PasteMeta>)
    requires a !! b
    ensures TotalSize(a + b) == TotalSize(a) + TotalSize(b)
    decreases |b|
  {
    if b == {} {
      assert a + b == a;
    } else {
      hide TotalSize;
      var e :| e in b;
      var rest := b - {e};
      assert b == rest + {e} && a + b == (a + rest) + {e} && e !in a + rest;
      TotalSizeUnion(a, rest);
      TotalSizeAdd(rest, e);
      TotalSizeAdd(a + rest, e);
    }
  }

  function OwnMetas(digest: Digest, st: Store): set<PasteMeta> {
    MapMetas(key => Filename(digest, key), FilesOf(st.pastes))
  }

  function ForeignMetas(st: Store): set<PasteMeta> {
    MapMetas(name => name, FilesOf(st.foreign))
  }

  // What a listing shows, told apart by whose it is.
  lemma MetasOfMeaning(digest: Digest, keys: set<string>, dir: Directory)
    requires Hashes(digest)
    ensures var st := Meaning(digest, keys, dir);
            AllMetas(dir) == OwnMetas(digest, st) + ForeignMetas(st) && OwnMetas(digest, st) !! ForeignMetas(st)
  {
    var st := Meaning(digest, keys, dir);
    forall e | e in AllMetas(dir)
      ensures e in OwnMetas(digest, st) + ForeignMetas(st)
    {
      var name :| name in dir && IsPaste(dir, name) && e == FileMeta(name, dir[name].paste);
      if key :| key in keys && Filename(digest, key) == name {
        assert key in FilesOf(st.pastes);
      } else {
        assert name in FilesOf(st.foreign);
      }
    }
    forall e | e in OwnMetas(digest, st)
      ensures e in AllMetas(dir) && e !in ForeignMetas(st)
    {
      var key :| key in FilesOf(st.pastes) && e == FileMeta(Filename(digest, key), FilesOf(st.pastes)[key]);
      FilenameIsHandle(digest, key);
      assert e.key in Filenames(digest, keys);
    }
    assert forall e <- ForeignMetas(st) :: e in AllMetas(dir);
  }

  // Any full listing has one entry for each file of the store and adds up to their
  // bytes: strays are neither shown nor counted.
  lemma StatsCountPastes(digest: Digest, keys: set<string>, dir: Directory, metas: seq<PasteMeta>)
    requires Hashes(digest) && Injective(digest, keys) && FullListing(dir, metas)
    ensures var st := Meaning(digest, keys, dir);
            && |metas| == |AllMetas(dir)| == |FilesOf(st.pastes)| + |FilesOf(st.foreign)|
            && SumSizes(metas) == TotalSize(AllMetas(dir))
            && SumSizes(metas) == BodyTotal(FilesOf(st.pastes)) + BodyTotal(FilesOf(st.foreign))
  {
    var st := Meaning(digest, keys, dir);
    SumIsTotal(metas, AllMetas(dir));
    MetasOfMeaning(digest, keys, dir);
    TotalSizeUnion(OwnMetas(digest, st), ForeignMetas(st));
    forall a, b | a in keys && b in keys && Filename(digest, a) == Filename(digest, b)
      ensures a == b
    {
      FilenameInjective(digest, keys, a, b);
    }
    MetasMatchMap(key => Filename(digest, key), FilesOf(st.pastes));
    MetasMatchMap(name => name, FilesOf(st.foreign));
  }

  lemma ListedOnce(metas: seq<PasteMeta>, all: set<PasteMeta>, i: nat, j: nat)
    requires multiset(metas) == multiset(all) && i < j < |metas|
    ensures metas[i] != metas[j]
  {
    var a, b := metas[..j], metas[j..];
    assert metas == a + b && a[i] in multiset(a) && b[0] in multiset(b);
    assert multiset(metas) == multiset(a) + multiset(b);
    assert multiset(all)[metas[j]] <= 1;
  }

  function PasteNames(dir: Directory): set<string> {
    set name | name in dir && dir[name].File? && IsHexHandle(name)
  }

  lemma {:induction false} OneMetaEach(dir: Directory, names: set<string>)
    requires forall name <- names :: IsPaste(dir, name)
    ensures |MetasAmong(dir, names)| == |names|
    decreases |names|
  {
    if names == {} {
      assert MetasAmong(dir, names) == {};
    } else {
      var name :| name in names;
      OneMetaEach(dir, names - {name});
      assert MetasAmong(dir, names) == MetasAmong(dir, names - {name}) + {FileMeta(name, dir[name].paste)};
    }
  }

  // What a listing shows: files named by a handle, none twice, newest first, each
  // with the size and time of its own, as many as there are but no more than the
  // limit, or than 500 when the limit is not positive; and none left out is newer
  // than one shown.
  ghost predicate Shows(dir: Directory, limit: int, out: seq<PasteMeta>) {
    && (var all, cap := |PasteNames(dir)|, if limit > 0 then limit else 500;
        |out| == if all < cap then all else cap)
    && (forall e <- out :: e.key in PasteNames(dir)
                           && e == PasteMeta(e.key, |dir[e.key].paste.body|, dir[e.key].paste.created, None))
    && (forall i, j :: 0 <= i < j < |out| ==> out[i].key != out[j].key && out[i].created >= out[j].created)
    && (forall name <- PasteNames(dir) ::
          (exists e <- out :: e.key == name) || forall e <- out :: e.created >= dir[name].paste.created)
  }

  lemma ListsEach(dir: Directory, metas: seq<PasteMeta>)
    requires FullListing(dir, metas)
    ensures |metas| == |PasteNames(dir)|
    ensures forall e :: e in metas <==> e in AllMetas(dir)
    ensures forall i, j :: 0 <= i < j < |metas| ==> metas[i].key != metas[j].key
  {
    assert |metas| == |multiset(metas)| == |AllMetas(dir)|;
    OneMetaEach(dir, PasteNames(dir));
    assert MetasAmong(dir, PasteNames(dir)) == AllMetas(dir);
    assert forall e :: e in metas <==> e in multiset(metas);
    forall i, j | 0 <= i < j < |metas|
      ensures metas[i].key != metas[j].key
    {
      ListedOnce(metas, AllMetas(dir), i, j);
      assert metas[i] in metas && metas[j] in metas;
    }
  }

  // The front of a full listing shows just that.
  lemma CappedListing(dir: Directory, metas: seq<PasteMeta>, limit: int)
    requires FullListing(dir, metas)
    ensures Shows(dir, limit, Take(metas, Cap(limit)))
  {
    var out := Take(metas, Cap(limit));
    ListsEach(dir, metas);
    assert forall e <- out :: e in metas;
    hide FullListing;
    forall name | name in PasteNames(dir)
      ensures (exists e <- out :: e.key == name) || forall e <- out :: e.created >= dir[name].paste.created
    {
      var e := FileMeta(name, dir[name].paste);
      assert e in AllMetas(dir);
      NoneNewer(metas, |out|, e);
    }
  }

  lemma NoneNewer(metas: seq<PasteMeta>, n: nat, e: PasteMeta)
    requires NewestFirst(metas) && e in metas && n <= |metas|
    ensures e in metas[..n] || forall shown <- metas[..n] :: shown.created >= e.created
  {
    var k :| 0 <= k < |metas| && metas[k] == e;
    assert k < n ==> metas[..n][k] == e;
  }

  // Deleting by a listed handle succeeds and removes precisely one paste: the one
  // of the key with that file name, or the foreign file so called.
  lemma ListedHandleDeletes(digest: Digest, keys: set<string>, dir: Directory, e: PasteMeta)
    requires Hashes(digest) && Injective(digest, keys) && e in AllMetas(dir)
    ensures Exec(digest, dir, Delete(e.key)) == (dir - {e.key}, Removed)
    ensures var st, u := Meaning(digest, keys, dir), Meaning(digest, keys, dir - {e.key});
            || (e.key in st.foreign && u == st.(foreign := st.foreign - {e.key}))
            || exists key :: key in st.pastes && Filename(digest, key) == e.key && u == st.(pastes := st.pastes - {key})
  {
    var name :| name in dir && IsPaste(dir, name) && e == FileMeta(name, dir[name].paste);
    if key :| key in keys && Filename(digest, key) == name {
      DeleteOwned(digest, keys, dir, key);
    } else {
      DeleteForeign(digest, keys, dir, name);
    }
  }

  // ---------------------------------------------------------------------------
  // Preloaded pastes

  // What the console lets through: it refuses the static keys, by name.
  predicate Guarded(staticKeys: set<string>, op: Op) {
    op.Delete? ==> op.handle !in staticKeys
  }

  // But it deletes by handle: the paste of a key, static or not, goes precisely when
  // the handle is the name of that paste's file.
  lemma DeletedByName(digest: Digest, keys: set<string>, dir: Directory, key: string, handle: string)
    requires Hashes(digest) && Injective(digest, keys) && key in keys
    requires Filename(digest, key) in dir && dir[Filename(digest, key)].File?
    ensures var (dir', answer) := Exec(digest, dir, Delete(handle));
            && (Exec(digest, dir', Get(key)).1 == NotFound <==> handle == Filename(digest, key))
            && (handle == Filename(digest, key) ==>
                  && answer == Removed
                  && Meaning(digest, keys, dir').pastes == Meaning(digest, keys, dir).pastes - {key})
  {
    FilenameIsHandle(digest, key);
    DeleteOwned(digest, keys, dir, key);
  }

  // The entry is as it was before every operation of the run and after the last.
  ghost predicate KeptThroughout(digest: Digest, dir: Directory, ops: seq<Op>, name: string, node: Node)
    decreases |ops|
  {
    && name in dir && dir[name] == node
    && (ops != [] ==> KeptThroughout(digest, Exec(digest, dir, ops[0]).0, ops[1..], name, node))
  }

  lemma {:induction false} KeptUnlessNamed(digest: Digest, dir: Directory, ops: seq<Op>, key: string, node: Node)
    requires Hashes(digest) && node.File? && Filename(digest, key) in dir && dir[Filename(digest, key)] == node
    ensures KeptThroughout(digest, dir, ops, Filename(digest, key), node) <==> Delete(Filename(digest, key)) !in ops
    decreases |ops|
  {
    if ops != [] {
      FilenameIsHandle(digest, key);
      if ops[0] != Delete(Filename(digest, key)) {
        KeptUnlessNamed(digest, Exec(digest, dir, ops[0]).0, ops[1..], key, node);
        assert ops == [ops[0]] + ops[1..];
      } else {
        assert Exec(digest, dir, ops[0]).0 == dir - {Filename(digest, key)};
      }
    }
  }

  // Over every run the console lets through, the preloaded paste stays untouched if
  // and only if its file name is never deleted; that it cannot be if the name is a
  // static key itself, and one such delete passes if it is not.
  lemma PreloadedKept(digest: Digest, dir: Directory, ops: seq<Op>, staticKeys: set<string>, key: string)
    requires Hashes(digest) && key in staticKeys && (forall op <- ops :: Guarded(staticKeys, op))
    requires Filename(digest, key) in dir && dir[Filename(digest, key)].File?
    ensures var name := Filename(digest, key);
            && (KeptThroughout(digest, dir, ops, name, dir[name]) <==> Delete(name) !in ops)
            && (name in staticKeys ==> KeptThroughout(digest, dir, ops, name, dir[name]))
            && (name !in staticKeys ==> Guarded(staticKeys, Delete(name))
                                        && !KeptThroughout(digest, dir, ops + [Delete(name)], name, dir[name]))
    ensures (forall k <- staticKeys :: |k| != HANDLE_LENGTH) ==> Filename(digest, key) !in staticKeys
  {
    var name := Filename(digest, key);
    FilenameIsHandle(digest, key);
    KeptUnlessNamed(digest, dir, ops, key, dir[name]);
    KeptUnlessNamed(digest, dir, ops + [Delete(name)], key, dir[name]);
    assert (ops + [Delete(name)])[|ops|] == Delete(name);
  }
}
