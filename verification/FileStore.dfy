/** The file layer as it runs: the store, the path cache and the file operations, each proved to compute the
    functions of module Files. */
module FileStore {
  import opened Wrappers
  import opened Bits
  import opened Paths
  import opened Files

  /** `Hash::of_data`. */
  method HashData(data: seq<Byte>) returns (h: Hash)
    ensures h == HashOf(data)
  {
    h := seq<Byte>(32, _ => 0);
    for i := 0 to |data|
      invariant |h| == 32
      invariant forall k :: 0 <= k < 32 ==> h[k] == if k < i then data[k] else 0
    {
      if i < 32 {
        h := h[i := data[i]];
      }
    }
  }

  class ContentStore {
    var objects: Objects
    var totalBytes: int
    var maxBytes: nat

    ghost predicate Sums()
      reads this
    {
      totalBytes == SumLen(objects)
    }

    /** What every operation keeps: bytes are accounted for and every object is referenced. */
    ghost predicate Valid()
      reads this
    {
      Sums() && forall h :: h in objects ==> objects[h].refs >= 1
    }

    function View(): Cas
      reads this
    {
      Cas(objects, totalBytes, maxBytes)
    }

    constructor ()
      ensures Valid() && View() == Cas(map[], 0, 0)
    {
      objects, totalBytes, maxBytes := map[], 0, 0;
    }

    method SetMaxBytes(max: nat)
      requires Valid()
      modifies this
      ensures Valid() && View() == old(View()).(maxBytes := max)
    {
      maxBytes := max;
    }

    /** Removes garbage until enough is freed. Only garbage goes, and some stays only if enough was freed. */
    method GarbageCollect(needed: nat, now: nat)
      requires Sums()
      modifies this`objects, this`totalBytes
      ensures Sums()
      ensures objects.Keys <= old(objects).Keys
      ensures forall h :: h in objects ==> objects[h] == old(objects)[h]
      ensures forall h :: h in old(objects) && h !in objects ==> Garbage(old(objects)[h], Cutoff(now))
      ensures (forall h :: h in objects ==> !Garbage(objects[h], Cutoff(now))) || old(totalBytes) - totalBytes >= needed
    {
      var freed, cutoff := 0, Cutoff(now);
      var toRemove := set h | h in objects && Garbage(objects[h], cutoff);
      ghost var before := objects;
      while toRemove != {}
        invariant totalBytes == SumLen(before)
        invariant toRemove <= objects.Keys <= before.Keys
        invariant forall h :: h in toRemove ==> Garbage(objects[h], cutoff)
        invariant forall h :: h in objects ==> objects[h] == before[h]
        invariant forall h :: h in before && h !in objects ==> Garbage(before[h], cutoff)
        invariant forall h :: h in objects && Garbage(objects[h], cutoff) ==> h in toRemove
        invariant SumLen(objects) + freed == SumLen(before)
        decreases |toRemove|
      {
        var h :| h in toRemove;
        toRemove := toRemove - {h};
        SumLenRemove(objects, h);
        freed := freed + |objects[h].data|;
        objects := objects - {h};
        if freed >= needed {
          break;
        }
      }
      totalBytes := totalBytes - freed;
    }

    /** `put`: with every object referenced, collecting garbage frees nothing. */
    method PutData(data: seq<Byte>, now: nat) returns (r: Option<Hash>)
      requires Valid()
      modifies this
      ensures Valid() && (r, View()) == Put(old(View()), data, now)
    {
      PutKeeps(View(), data, now);
      var h := HashData(data);
      if h in objects {
        objects := objects[h := objects[h].(refs := objects[h].refs + 1)];
        return Some(h);
      }
      if maxBytes > 0 && totalBytes + |data| > maxBytes {
        GarbageCollect(|data|, now);
        assert objects == old(objects);
        if totalBytes + |data| > maxBytes {
          return None;
        }
      }
      totalBytes := totalBytes + |data|;
      objects := objects[h := Stored(data, 1, now)];
      return Some(h);
    }

    /** `get`: what is stored, noting the time. */
    method Get(h: Hash, now: nat) returns (r: Option<seq<Byte>>)
      requires Valid()
      modifies this`objects
      ensures Valid()
      ensures r.Some? <==> h in old(objects)
      ensures r.None? ==> objects == old(objects)
      ensures r.Some? ==> r.value == old(objects)[h].data
                          && objects == old(objects)[h := old(objects)[h].(lastAccessed := now)]
    {
      if h in objects {
        SumLenUpdate(objects, h, objects[h].(lastAccessed := now));
        r := Some(objects[h].data);
        objects := objects[h := objects[h].(lastAccessed := now)];
      } else {
        r := None;
      }
    }

    method IncRef(h: Hash) returns (ok: bool)
      requires Valid()
      modifies this`objects
      ensures Valid() && ok == (h in old(objects)) && View() == RefInc(old(View()), h)
    {
      ok := h in objects;
      if ok {
        SumLenUpdate(objects, h, objects[h].(refs := objects[h].refs + 1));
        objects := objects[h := objects[h].(refs := objects[h].refs + 1)];
      }
    }

    method DecRef(h: Hash) returns (ok: bool)
      requires Valid()
      modifies this`objects, this`totalBytes
      ensures Valid() && ok == (h in old(objects)) && View() == RefDec(old(View()), h)
    {
      RefDecSum(View(), h);
      ok := h in objects;
      if ok {
        var o := objects[h];
        objects := objects[h := o.(refs := o.refs - 1)];
        if o.refs - 1 == 0 {
          totalBytes := totalBytes - |o.data|;
          objects := objects - {h};
          assert objects == old(objects) - {h};
        }
      }
    }
  }

  class PathCache {
    var paths: map<string, Id>
    var reverse: map<Id, string>
    var hits: nat
    var misses: nat

    constructor ()
      ensures paths == map[] && reverse == map[]
    {
      paths, reverse, hits, misses := map[], map[], 0, 0;
    }

    method Resolve(path: string) returns (r: Option<Id>)
      modifies this`hits, this`misses
      ensures r == if path in paths then Some(paths[path]) else None
      ensures hits + misses == old(hits + misses) + 1 && (hits > old(hits) <==> r.Some?)
    {
      if path in paths {
        hits := hits + 1;
        r := Some(paths[path]);
      } else {
        misses := misses + 1;
        r := None;
      }
    }

    method Insert(path: string, id: Id)
      modifies this`paths, this`reverse
      ensures paths == old(paths)[path := id] && reverse == old(reverse)[id := path]
    {
      paths := paths[path := id];
      reverse := reverse[id := path];
    }

    method Remove(path: string) returns (r: Option<Id>)
      modifies this`paths, this`reverse
      ensures r == if path in old(paths) then Some(old(paths)[path]) else None
      ensures paths == old(paths) - {path}
      ensures reverse == if r.Some? then old(reverse) - {r.value} else old(reverse)
    {
      if path in paths {
        var id := paths[path];
        paths := paths - {path};
        reverse := reverse - {id};
        r := Some(id);
      } else {
        r := None;
      }
    }

    method UpdatePath(oldPath: string, newPath: string) returns (ok: bool)
      modifies this`paths, this`reverse
      ensures ok == (oldPath in old(paths))
      ensures !ok ==> paths == old(paths) && reverse == old(reverse)
      ensures ok ==> && paths == (old(paths) - {oldPath})[newPath := old(paths)[oldPath]]
                     && reverse == old(reverse)[old(paths)[oldPath] := newPath]
    {
      ok := oldPath in paths;
      if ok {
        var id := paths[oldPath];
        paths := paths - {oldPath};
        paths := paths[newPath := id];
        reverse := reverse[id := newPath];
      }
    }
  }

  class FileSystem {
    const cas: ContentStore
    const cache: PathCache
    var tokens: map<Id, Token>

    ghost function View(): Fs
      reads this, cas, cache
    {
      Fs(cas.View(), tokens, cache.paths, cache.reverse)
    }

    ghost predicate Valid()
      reads this, cas, cache
    {
      Inv(View())
    }

    /** A new file system, with its store limited to `maxBytes`, or not at all when that is 0. */
    constructor (maxBytes: nat)
      ensures Valid() && View() == EmptyFs(maxBytes) && fresh(cas) && fresh(cache)
    {
      cas := new ContentStore();
      cache := new PathCache();
      tokens := map[];
      new;
      cas.SetMaxBytes(maxBytes);
      EmptyOk(maxBytes);
    }

    method Retain(ids: seq<Id>, id: Id) returns (r: seq<Id>)
      ensures r == WithoutId(ids, id)
    {
      r := [];
      for i := 0 to |ids|
        invariant r + WithoutId(ids[i..], id) == WithoutId(ids, id)
      {
        if ids[i] != id {
          r := r + [ids[i]];
        }
        assert ids[i..][1..] == ids[i + 1..];
      }
      assert ids[|ids|..] == [];
    }

    /** The parent's token is looked up, changed and registered again. */
    method ChangeParent(path: string, id: Id, joins: bool)
      requires PathsOk(tokens, cache.paths, cache.reverse)
      modifies this, cache`hits, cache`misses
      ensures View() == UpdateParent(old(View()), path, id, joins)
    {
      var parent := Parent(path);
      if parent.Some? {
        var r := cache.Resolve(parent.value);
        if r.Some? {
          var t := tokens[r.value];
          var children;
          if joins {
            children := t.children + [id];
          } else {
            children := Retain(t.children, id);
          }
          tokens := tokens[r.value := t.(children := children)];
        }
      }
    }

    /** The first steps of every operation but saving: resolve, look up, check. */
    method Check(path: string, p: Permission, user: nat) returns (r: Result<Id, FileError>)
      modifies cache`hits, cache`misses
      ensures r == Access(View(), path, p, user) && View() == old(View())
    {
      var found := cache.Resolve(path);
      if found.None? || found.value !in tokens {
        return Err(NotFound);
      }
      if !May(tokens[found.value], p, user) {
        return Err(PermissionDenied);
      }
      return Ok(found.value);
    }

    method SaveFile(path: string, data: seq<Byte>, owner: nat, permissions: set<Permission>, id: Id, now: nat)
      returns (r: Result<Id, FileError>)
      requires Valid() && id !in tokens
      modifies this, cas, cache
      ensures Valid() && (r, View()) == Save(old(View()), path, data, owner, permissions, id, now)
    {
      SaveKeeps(View(), path, data, owner, permissions, id, now);
      var put := cas.PutData(data, now);
      if put.None? {
        return Err(OutOfSpace);
      }
      tokens := tokens[id := Token(path, put.value, owner, |data|, permissions, [])];
      cache.Insert(path, id);
      ChangeParent(path, id, true);
      return Ok(id);
    }

    method ReadFile(path: string, user: nat, now: nat) returns (r: Result<seq<Byte>, FileError>)
      requires Valid()
      modifies cas, cache`hits, cache`misses
      ensures Valid() && r == Read(old(View()), path, user) && View() == Touch(old(View()), path, user, now)
    {
      TouchKeeps(View(), path, user, now);
      var a := Check(path, PRead, user);
      if a.Err? {
        return Err(a.error);
      }
      var data := cas.Get(tokens[a.value].hash, now);
      if data.None? {
        return Err(Corrupted);
      }
      return Ok(data.value);
    }

    method MoveFile(oldPath: string, newPath: string, user: nat) returns (r: Result<(), FileError>)
      requires Valid()
      modifies this, cache
      ensures Valid() && (r, View()) == Move(old(View()), oldPath, newPath, user)
    {
      MoveKeeps(View(), oldPath, newPath, user);
      var a := Check(oldPath, PWrite, user);
      if a.Err? {
        return Err(a.error);
      }
      MovedReads(View(), oldPath, newPath, oldPath);
      var ok := cache.UpdatePath(oldPath, newPath);
      tokens := tokens[a.value := tokens[a.value].(path := newPath)];
      assert View() == Moved(old(View()), oldPath, newPath);
      UpdateParentKeeps(View(), oldPath, a.value, false);
      ChangeParent(oldPath, a.value, false);
      ChangeParent(newPath, a.value, true);
      return Ok(());
    }

    method CopyFile(src: string, dst: string, user: nat, id: Id) returns (r: Result<Id, FileError>)
      requires Valid() && id !in tokens
      modifies this, cas, cache
      ensures Valid() && (r, View()) == Copy(old(View()), src, dst, user, id)
    {
      CopyKeeps(View(), src, dst, user, id);
      var a := Check(src, PRead, user);
      if a.Err? {
        return Err(a.error);
      }
      var t := tokens[a.value];
      tokens := tokens[id := Token(dst, t.hash, user, t.size, t.permissions, [])];
      var counted := cas.IncRef(t.hash);
      cache.Insert(dst, id);
      ChangeParent(dst, id, true);
      return Ok(id);
    }

    method DeleteFile(path: string, user: nat) returns (r: Result<(), FileError>)
      requires Valid()
      modifies this, cas, cache
      ensures Valid() && (r, View()) == Delete(old(View()), path, user)
    {
      DeleteKeeps(View(), path, user);
      var a := Check(path, PDelete, user);
      if a.Err? {
        return Err(a.error);
      }
      var counted := cas.DecRef(tokens[a.value].hash);
      ghost var before := View();
      ChangeParent(path, a.value, false);
      UpdateParentTokens(before, path, a.value, false);
      var removed := cache.Remove(path);
      tokens := tokens - {a.value};
      return Ok(());
    }
  }
}
