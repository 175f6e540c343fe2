// The file store over the base directory, updated in place (internal/store/file.go).
module FileStores {
  import opened Pastes
  import opened FileHandles
  import opened FilePastes

  // The entry goes behind every one at least as new.
  method InsertByCreated(sorted: seq<PasteMeta>, e: PasteMeta) returns (r: seq<PasteMeta>)
    requires NewestFirst(sorted)
    ensures NewestFirst(r) && multiset(r) == multiset(sorted) + multiset{e}
  {
    var i := 0;
    while i < |sorted| && sorted[i].created >= e.created
      invariant i <= |sorted|
      invariant forall k :: 0 <= k < i ==> sorted[k].created >= e.created
    {
      i := i + 1;
    }
    assert sorted == sorted[..i] + sorted[i..];
    r := sorted[..i] + [e] + sorted[i..];
  }

  // sort.Slice by descending creation; its order of equal times is left open.
  method SortByCreated(metas: seq<PasteMeta>) returns (sorted: seq<PasteMeta>)
    ensures NewestFirst(sorted) && multiset(sorted) == multiset(metas)
  {
    sorted := [];
    for i := 0 to |metas|
      invariant NewestFirst(sorted) && multiset(sorted) == multiset(metas[..i])
    {
      assert metas[..i + 1] == metas[..i] + [metas[i]];
      sorted := InsertByCreated(sorted, metas[i]);
    }
    assert metas[..|metas|] == metas;
  }

  lemma MetasWithPaste(dir: Directory, names: set<string>, name: string)
    requires name !in names && IsPaste(dir, name)
    ensures FileMeta(name, dir[name].paste) !in MetasAmong(dir, names)
    ensures MetasAmong(dir, names + {name}) == MetasAmong(dir, names) + {FileMeta(name, dir[name].paste)}
  {
  }

  lemma MetasWithStray(dir: Directory, names: set<string>, name: string)
    requires !IsPaste(dir, name)
    ensures MetasAmong(dir, names + {name}) == MetasAmong(dir, names)
  {
  }

  class FileStore {
    const digest: Digest
    var dir: Directory

    constructor (digest: Digest, existing: Directory)
      ensures this.digest == digest && dir == existing
    {
      this.digest, this.dir := digest, existing;
    }

    // A directory in the place of the file is an error.
    method Get(key: string, bumpExpiry: bool) returns (answer: Answer)
      ensures answer == Exec(digest, dir, Op.Get(key)).1
      ensures answer == NotFound <==> Filename(digest, key) !in dir
      ensures answer == Failed <==> Filename(digest, key) in dir && dir[Filename(digest, key)].Dir?
      ensures answer.Data? ==> dir[Filename(digest, key)].File? && answer.body == dir[Filename(digest, key)].paste.body
    {
      var name := Filename(digest, key);
      if name !in dir {
        return NotFound;
      }
      match dir[name]
      case File(p) => return Data(p.body);
      case Dir(_) => return Failed;
    }

    // O_EXCL: whatever exists under the name stays.
    method Set(key: string, data: Body, now: int) returns (answer: Answer)
      modifies this
      ensures (dir, answer) == Exec(digest, old(dir), Op.Set(key, data, now))
      ensures answer == Stored <==> Filename(digest, key) !in old(dir)
      ensures forall name <- old(dir) :: name in dir && dir[name] == old(dir)[name]
      ensures answer == Stored ==> dir == old(dir)[Filename(digest, key) := File(FilePastes.Paste(data, now))]
    {
      var name := Filename(digest, key);
      if name in dir {
        return KeyExists;
      }
      dir := dir[name := File(FilePastes.Paste(data, now))];
      return Stored;
    }

    // The files named by a handle, one entry each, newest first, at most `limit`.
    method List(limit: int) returns (out: seq<PasteMeta>)
      ensures exists all :: FullListing(dir, all) && out == Take(all, Cap(limit))
      ensures Shows(dir, limit, out)
    {
      out := [];
      var todo := dir.Keys;
      while todo != {}
        invariant todo <= dir.Keys
        invariant multiset(out) == multiset(MetasAmong(dir, dir.Keys - todo))
        decreases todo
      {
        var name :| name in todo;
        ghost var done := dir.Keys - todo;
        var isHandle := CheckHandle(name);
        if dir[name].File? && isHandle {
          MetasWithPaste(dir, done, name);
          out := out + [FileMeta(name, dir[name].paste)];
        } else {
          MetasWithStray(dir, done, name);
        }
        todo := todo - {name};
        assert dir.Keys - todo == done + {name};
      }
      assert dir.Keys - todo == dir.Keys;
      var all := SortByCreated(out);
      assert FullListing(dir, all);
      CappedListing(dir, all, limit);
      out := Take(all, Cap(limit));
    }

    // A name that is no handle is never looked up.
    method Delete(handle: string) returns (answer: Answer)
      modifies this
      ensures (dir, answer) == Exec(digest, old(dir), Op.Delete(handle))
      ensures answer == Removed <==> IsHexHandle(handle) && handle in old(dir) && old(dir)[handle] != Dir(false)
      ensures answer == NotFound <==> !IsHexHandle(handle) || handle !in old(dir)
      ensures dir == if answer == Removed then old(dir) - {handle} else old(dir)
    {
      var isHandle := CheckHandle(handle);
      if !isHandle || handle !in dir {
        return NotFound;
      }
      match dir[handle] {
        case Dir(false) => return Failed;
        case _ =>
          dir := dir - {handle};
          return Removed;
      }
    }

    method Statistics() returns (st: Stats)
      ensures st == Stats(|AllMetas(dir)|, TotalSize(AllMetas(dir)))
    {
      st := Stats(0, 0);
      var todo := dir.Keys;
      while todo != {}
        invariant todo <= dir.Keys
        invariant st.count == |MetasAmong(dir, dir.Keys - todo)|
        invariant st.bytes == TotalSize(MetasAmong(dir, dir.Keys - todo))
        decreases todo
      {
        var name :| name in todo;
        ghost var done := dir.Keys - todo;
        var isHandle := CheckHandle(name);
        if dir[name].File? && isHandle {
          MetasWithPaste(dir, done, name);
          TotalSizeAdd(MetasAmong(dir, done), FileMeta(name, dir[name].paste));
          st := Stats(st.count + 1, st.bytes + |dir[name].paste.body|);
        } else {
          MetasWithStray(dir, done, name);
        }
        todo := todo - {name};
        assert dir.Keys - todo == done + {name};
      }
      assert dir.Keys - todo == dir.Keys;
    }

    method PurgeExpired() returns (n: nat)
      ensures (dir, Purged(n)) == Exec(digest, dir, Op.Purge)
    {
      return 0;
    }
  }
}
