/** The content-addressed file layer: stored objects with reference counts, a registry of tokens, and a path
    cache of two maps. Token ids are fresh, file tokens do not expire, and counts are unbounded. */
module Files {
  import opened Wrappers
  import opened Arith
  import opened Bits
  import opened Paths

  type Id = nat
  type Hash = seq<Byte>

  /** `Hash::of_data`: the first 32 bytes, padded with zeros. */
  function HashOf(data: seq<Byte>): (h: Hash)
    ensures |h| == 32
  {
    seq<Byte>(32, i requires 0 <= i < 32 => if i < |data| then data[i] else 0)
  }

  datatype Permission = PRead | PWrite | PExecute | PDelete | PAdmin | PShare

  datatype Stored = Stored(data: seq<Byte>, refs: nat, lastAccessed: nat)

  type Objects = map<Hash, Stored>

  /** The store: `maxBytes` 0 means no limit. */
  datatype Cas = Cas(objects: Objects, totalBytes: int, maxBytes: nat)

  datatype Token = Token(path: string, hash: Hash, owner: nat, size: nat, permissions: set<Permission>, children: seq<Id>)

  datatype FileError = NotFound | PermissionDenied | Corrupted | OutOfSpace

  datatype Fs = Fs(cas: Cas, tokens: map<Id, Token>, paths: map<string, Id>, reverse: map<Id, string>)

  function EmptyFs(maxBytes: nat): Fs {
    Fs(Cas(map[], 0, maxBytes), map[], map[], map[])
  }

  // ---- The store ----------------------------------------------------------------------------------

  /** Bytes stored. */
  ghost function SumLen(objects: Objects): nat
    decreases |objects|
  {
    if objects == map[] then 0
    else
      var h :| h in objects;
      |objects[h].data| + SumLen(objects - {h})
  }

  /** `put` of a store in which every object is referenced, so that collecting garbage frees nothing. */
  function Put(c: Cas, data: seq<Byte>, now: nat): (Option<Hash>, Cas) {
    var h := HashOf(data);
    if h in c.objects then (Some(h), c.(objects := c.objects[h := c.objects[h].(refs := c.objects[h].refs + 1)]))
    else if c.maxBytes > 0 && c.totalBytes + |data| > c.maxBytes then (None, c)
    else (Some(h), c.(objects := c.objects[h := Stored(data, 1, now)], totalBytes := c.totalBytes + |data|))
  }

  /** `ref_inc`. */
  function RefInc(c: Cas, h: Hash): Cas {
    if h in c.objects then c.(objects := c.objects[h := c.objects[h].(refs := c.objects[h].refs + 1)]) else c
  }

  /** `ref_dec`: the object goes when its last reference does. */
  function RefDec(c: Cas, h: Hash): Cas {
    if h !in c.objects then c
    else if c.objects[h].refs <= 1
    then c.(objects := c.objects - {h}, totalBytes := c.totalBytes - |c.objects[h].data|)
    else c.(objects := c.objects[h := c.objects[h].(refs := c.objects[h].refs - 1)])
  }

  const THIRTY_DAYS: nat := 30 * 24 * 60 * 60

  /** The time before which an unreferenced object may be collected; the subtraction wraps. */
  function Cutoff(now: nat): nat {
    (now + U64 - THIRTY_DAYS) % U64
  }

  predicate Garbage(o: Stored, cutoff: nat) {
    o.refs == 0 && o.lastAccessed < cutoff
  }

  // ---- Operations ---------------------------------------------------------------------------------

  predicate May(t: Token, p: Permission, user: nat) {
    t.owner == user && p in t.permissions
  }

  function WithoutId(ids: seq<Id>, id: Id): seq<Id> {
    if ids == [] then []
    else if ids[0] == id then WithoutId(ids[1..], id)
    else [ids[0]] + WithoutId(ids[1..], id)
  }

  /** The registry after `id` joined or left the children of the token of the parent path, if that is cached. */
  function UpdateParent(fs: Fs, path: string, id: Id, joins: bool): Fs {
    var parent := Parent(path);
    if parent.Some? && parent.value in fs.paths && fs.paths[parent.value] in fs.tokens then
      var pid := fs.paths[parent.value];
      var t := fs.tokens[pid];
      fs.(tokens := fs.tokens[pid := t.(children := if joins then t.children + [id] else WithoutId(t.children, id))])
    else fs
  }

  /** A registered token under a path. */
  function AddFile(fs: Fs, path: string, id: Id, t: Token): Fs {
    fs.(tokens := fs.tokens[id := t], paths := fs.paths[path := id], reverse := fs.reverse[id := path])
  }

  /** `save_file`. */
  function Save(fs: Fs, path: string, data: seq<Byte>, owner: nat, permissions: set<Permission>, id: Id, now: nat): (Result<Id, FileError>, Fs) {
    match Put(fs.cas, data, now)
    case (None, _) => (Err(OutOfSpace), fs)
    case (Some(h), cas) =>
      var fs1 := AddFile(fs.(cas := cas), path, id, Token(path, h, owner, |data|, permissions, []));
      (Ok(id), UpdateParent(fs1, path, id, true))
  }

  /** The token behind a path, if the user may use it so. */
  function Access(fs: Fs, path: string, p: Permission, user: nat): Result<Id, FileError> {
    if path !in fs.paths || fs.paths[path] !in fs.tokens then Err(NotFound)
    else if !May(fs.tokens[fs.paths[path]], p, user) then Err(PermissionDenied)
    else Ok(fs.paths[path])
  }

  /** `read_file`: what it answers. It also notes the time of access. */
  function Read(fs: Fs, path: string, user: nat): Result<seq<Byte>, FileError> {
    match Access(fs, path, PRead, user)
    case Err(e) => Err(e)
    case Ok(id) =>
      var h := fs.tokens[id].hash;
      if h in fs.cas.objects then Ok(fs.cas.objects[h].data) else Err(Corrupted)
  }

  function Touch(fs: Fs, path: string, user: nat, now: nat): Fs {
    match Access(fs, path, PRead, user)
    case Err(_) => fs
    case Ok(id) =>
      var h := fs.tokens[id].hash;
      if h in fs.cas.objects
      then fs.(cas := fs.cas.(objects := fs.cas.objects[h := fs.cas.objects[h].(lastAccessed := now)])) else fs
  }

  /** The maps after `update_path` and the token's new path. */
  function Moved(fs: Fs, oldPath: string, newPath: string): Fs
    requires oldPath in fs.paths && fs.paths[oldPath] in fs.tokens
  {
    var id := fs.paths[oldPath];
    fs.(paths := (fs.paths - {oldPath})[newPath := id], reverse := fs.reverse[id := newPath],
        tokens := fs.tokens[id := fs.tokens[id].(path := newPath)])
  }

  /** `move_file`. */
  function Move(fs: Fs, oldPath: string, newPath: string, user: nat): (Result<(), FileError>, Fs) {
    match Access(fs, oldPath, PWrite, user)
    case Err(e) => (Err(e), fs)
    case Ok(id) =>
      var fs1 := Moved(fs, oldPath, newPath);
      (Ok(()), UpdateParent(UpdateParent(fs1, oldPath, id, false), newPath, id, true))
  }

  /** `copy_file`. */
  function Copy(fs: Fs, src: string, dst: string, user: nat, id: Id): (Result<Id, FileError>, Fs) {
    match Access(fs, src, PRead, user)
    case Err(e) => (Err(e), fs)
    case Ok(srcId) =>
      var t := fs.tokens[srcId];
      var fs1 := AddFile(fs.(cas := RefInc(fs.cas, t.hash)), dst, id, Token(dst, t.hash, user, t.size, t.permissions, []));
      (Ok(id), UpdateParent(fs1, dst, id, true))
  }

  /** `delete_file`. */
  function Delete(fs: Fs, path: string, user: nat): (Result<(), FileError>, Fs) {
    match Access(fs, path, PDelete, user)
    case Err(e) => (Err(e), fs)
    case Ok(id) =>
      var fs1 := UpdateParent(fs.(cas := RefDec(fs.cas, fs.tokens[id].hash)), path, id, false);
      (Ok(()), fs1.(paths := fs1.paths - {path}, reverse := fs1.reverse - {id}, tokens := fs1.tokens - {id}))
  }

  // ---- The invariant ------------------------------------------------------------------------------

  /** The registered tokens that refer to an object. */
  function Holders(tokens: map<Id, Token>, h: Hash): set<Id> {
    set id | id in tokens && tokens[id].hash == h
  }

  /** Reference counts are exact and every token's object is stored. */
  ghost predicate CountsOk(objects: Objects, tokens: map<Id, Token>) {
    && (forall h :: h in objects ==> objects[h].refs >= 1 && objects[h].refs == |Holders(tokens, h)|)
    && (forall id :: id in tokens ==> tokens[id].hash in objects)
  }

  /** Every cached path leads to a registered token that leads back to it. */
  ghost predicate PathsOk(tokens: map<Id, Token>, paths: map<string, Id>, reverse: map<Id, string>) {
    forall p :: p in paths ==> paths[p] in tokens && paths[p] in reverse && reverse[paths[p]] == p
  }

  ghost predicate Inv(fs: Fs) {
    && CountsOk(fs.cas.objects, fs.tokens) && PathsOk(fs.tokens, fs.paths, fs.reverse)
    && fs.cas.totalBytes == SumLen(fs.cas.objects)
  }

  lemma {:induction false} SumLenRemove(objects: Objects, h: Hash)
    requires h in objects
    ensures SumLen(objects) == |objects[h].data| + SumLen(objects - {h})
    decreases |objects|
  {
    var k :| k in objects && SumLen(objects) == |objects[k].data| + SumLen(objects - {k});
    if k != h {
      SumLenRemove(objects - {k}, h);
      SumLenRemove(objects - {h}, k);
      assert objects - {k} - {h} == objects - {h} - {k};
    }
  }

  lemma SumLenUpdate(objects: Objects, h: Hash, o: Stored)
    ensures SumLen(objects[h := o]) == SumLen(objects) + |o.data| - (if h in objects then |objects[h].data| else 0)
  {
    var objects' := objects[h := o];
    SumLenRemove(objects', h);
    assert objects' - {h} == objects - {h};
    if h in objects {
      SumLenRemove(objects, h);
    } else {
      assert objects - {h} == objects;
    }
  }

  // ---- Counting -----------------------------------------------------------------------------------

  lemma HoldersAdd(tokens: map<Id, Token>, id: Id, t: Token, h: Hash)
    requires id !in tokens
    ensures |Holders(tokens[id := t], h)| == |Holders(tokens, h)| + (if h == t.hash then 1 else 0)
  {
    var holders := Holders(tokens[id := t], h);
    if h == t.hash {
      assert holders == Holders(tokens, h) + {id};
    } else {
      assert holders == Holders(tokens, h);
    }
  }

  lemma HoldersRemove(tokens: map<Id, Token>, id: Id, h: Hash)
    requires id in tokens
    ensures |Holders(tokens - {id}, h)| == |Holders(tokens, h)| - (if h == tokens[id].hash then 1 else 0)
  {
    var holders := Holders(tokens - {id}, h);
    if h == tokens[id].hash {
      assert Holders(tokens, h) == holders + {id};
    } else {
      assert Holders(tokens, h) == holders;
    }
  }

  /** Changing a token without changing its hash changes no count. */
  lemma HoldersSame(tokens: map<Id, Token>, id: Id, t: Token, h: Hash)
    requires id in tokens && t.hash == tokens[id].hash
    ensures Holders(tokens[id := t], h) == Holders(tokens, h)
  {
  }

  lemma ChangeToken(objects: Objects, tokens: map<Id, Token>, id: Id, t: Token)
    requires CountsOk(objects, tokens) && id in tokens && t.hash == tokens[id].hash
    ensures CountsOk(objects, tokens[id := t])
  {
    forall h | h in objects ensures objects[h].refs == |Holders(tokens[id := t], h)| {
      HoldersSame(tokens, id, t, h);
    }
  }

  /** A new token and one more reference to its object. */
  lemma AddReference(objects: Objects, tokens: map<Id, Token>, id: Id, t: Token, o: Stored)
    requires CountsOk(objects, tokens) && id !in tokens
    requires o.refs == (if t.hash in objects then objects[t.hash].refs else 0) + 1
    ensures CountsOk(objects[t.hash := o], tokens[id := t])
  {
    var objects' := objects[t.hash := o];
    forall h | h in objects'
      ensures objects'[h].refs == |Holders(tokens[id := t], h)|
    {
      HoldersAdd(tokens, id, t, h);
      if h !in objects {
        assert Holders(tokens, h) == {};
      }
    }
  }

  lemma DropReference(c: Cas, tokens: map<Id, Token>, id: Id)
    requires CountsOk(c.objects, tokens) && id in tokens
    ensures CountsOk(RefDec(c, tokens[id].hash).objects, tokens - {id})
  {
    var h0 := tokens[id].hash;
    var objects' := RefDec(c, h0).objects;
    assert id in Holders(tokens, h0);
    forall h | h in objects'
      ensures objects'[h].refs == |Holders(tokens - {id}, h)| && objects'[h].refs >= 1
    {
      HoldersRemove(tokens, id, h);
    }
    forall k | k in tokens - {id}
      ensures (tokens - {id})[k].hash in objects'
    {
      if tokens[k].hash == h0 {
        TwoHolders(tokens, h0, id, k);
      }
    }
  }

  lemma TwoHolders(tokens: map<Id, Token>, h: Hash, i: Id, j: Id)
    requires i in Holders(tokens, h) && j in Holders(tokens, h) && i != j
    ensures |Holders(tokens, h)| >= 2
  {
    var rest := Holders(tokens, h) - {i};
    assert j in rest;
    assert |rest - {j}| == |rest| - 1;
  }

  // ---- What every operation keeps -----------------------------------------------------------------

  /** The registry `b` is `a` but for the children the tokens list. */
  ghost predicate SameButChildren(a: map<Id, Token>, b: map<Id, Token>) {
    && a.Keys == b.Keys
    && forall k :: k in a ==> a[k].(children := []) == b[k].(children := [])
  }

  lemma UpdateParentTokens(fs: Fs, path: string, id: Id, joins: bool)
    ensures var fs' := UpdateParent(fs, path, id, joins);
            fs' == fs.(tokens := fs'.tokens) && SameButChildren(fs.tokens, fs'.tokens)
  {
  }

  /** The token of the directory a path lies in, if it is cached and registered. */
  function ParentToken(fs: Fs, path: string): Option<Id> {
    var parent := Parent(path);
    if parent.Some? && parent.value in fs.paths && fs.paths[parent.value] in fs.tokens then Some(fs.paths[parent.value]) else None
  }

  predicate Lists(fs: Fs, dir: Id, id: Id) {
    dir in fs.tokens && id in fs.tokens[dir].children
  }

  /** All tokens but these list the children they listed. */
  ghost predicate ListsKept(a: Fs, b: Fs, except: set<Id>) {
    forall k :: k in a.tokens && k in b.tokens && k !in except ==> b.tokens[k].children == a.tokens[k].children
  }

  lemma {:induction false} WithoutIdExact(ids: seq<Id>, id: Id)
    ensures forall x :: x in WithoutId(ids, id) <==> x in ids && x != id
    ensures id !in ids ==> WithoutId(ids, id) == ids
  {
    if ids != [] {
      WithoutIdExact(ids[1..], id);
      assert ids == [ids[0]] + ids[1..];
    }
  }

  /** The directory lists `id`, or lists it no more; the other entries stay in their order, and so do all other lists. */
  lemma UpdateParentExact(fs: Fs, path: string, id: Id, joins: bool)
    ensures var fs', dir := UpdateParent(fs, path, id, joins), ParentToken(fs, path);
            && ParentToken(fs', path) == dir
            && (dir.None? ==> fs' == fs)
            && (dir.Some? ==> ListsKept(fs, fs', {dir.value}) && (Lists(fs', dir.value, id) <==> joins))
            && (dir.Some? && joins ==> fs'.tokens[dir.value].children == fs.tokens[dir.value].children + [id])
            && (dir.Some? && !joins ==> forall x :: x != id ==> (Lists(fs', dir.value, x) <==> Lists(fs, dir.value, x)))
  {
    var dir := ParentToken(fs, path);
    if dir.Some? {
      WithoutIdExact(fs.tokens[dir.value].children, id);
      assert id in fs.tokens[dir.value].children + [id];
    }
  }

  /** `dirs` are the directories whose lists changed. */
  function Dirs(a: Option<Id>, b: Option<Id>): set<Id> {
    (if a.Some? then {a.value} else {}) + (if b.Some? then {b.value} else {})
  }

  /** A file saved is listed by the directory it lies in, and its token has its path, owner, size and permissions; no other
      list changes. */
  lemma SaveLists(fs: Fs, path: string, data: seq<Byte>, owner: nat, permissions: set<Permission>, id: Id, now: nat)
    ensures var (r, fs') := Save(fs, path, data, owner, permissions, id, now);
            var dir := ParentToken(fs', path);
            r.Ok? ==>
              && (dir.Some? ==> Lists(fs', dir.value, id)) && ListsKept(fs, fs', Dirs(dir, Some(id)))
              && id in fs'.tokens && var t := fs'.tokens[id];
              t.path == path && t.owner == owner && t.size == |data| && t.permissions == permissions
  {
    var (h, cas) := Put(fs.cas, data, now);
    if h.Some? {
      var fs1 := AddFile(fs.(cas := cas), path, id, Token(path, h.value, owner, |data|, permissions, []));
      UpdateParentExact(fs1, path, id, true);
    }
  }

  /** So is a copy, which belongs to the one who made it. */
  lemma CopyLists(fs: Fs, src: string, dst: string, user: nat, id: Id)
    ensures var (r, fs') := Copy(fs, src, dst, user, id);
            var dir := ParentToken(fs', dst);
            r.Ok? ==>
              && (dir.Some? ==> Lists(fs', dir.value, id)) && ListsKept(fs, fs', Dirs(dir, Some(id)))
              && id in fs'.tokens && var s, t := fs.tokens[fs.paths[src]], fs'.tokens[id];
              t.path == dst && t.owner == user && t.size == s.size && t.permissions == s.permissions && t.hash == s.hash
  {
    var a := Access(fs, src, PRead, user);
    if a.Ok? {
      var t := fs.tokens[a.value];
      var fs1 := AddFile(fs.(cas := RefInc(fs.cas, t.hash)), dst, id, Token(dst, t.hash, user, t.size, t.permissions, []));
      UpdateParentExact(fs1, dst, id, true);
    }
  }

  /** A file moved is listed by the directory it lies in now, and by the old one only if that is the same; no other list
      changes. */
  lemma MoveLists(fs: Fs, oldPath: string, newPath: string, user: nat)
    ensures var (r, fs') := Move(fs, oldPath, newPath, user);
            r.Ok? ==>
              var id, old1, new1 := fs.paths[oldPath], ParentToken(fs', oldPath), ParentToken(fs', newPath);
              && (new1.Some? ==> Lists(fs', new1.value, id))
              && (old1.Some? && old1 != new1 ==> !Lists(fs', old1.value, id))
              && ListsKept(fs, fs', Dirs(old1, new1))
              && id in fs'.tokens && fs'.tokens[id].path == newPath && fs'.tokens[id].size == fs.tokens[id].size
  {
    var a := Access(fs, oldPath, PWrite, user);
    if a.Ok? {
      var fs1 := Moved(fs, oldPath, newPath);
      UpdateParentExact(fs1, oldPath, a.value, false);
      UpdateParentExact(UpdateParent(fs1, oldPath, a.value, false), newPath, a.value, true);
    }
  }

  /** A file deleted is not listed by the directory it lay in; no other list changes. */
  lemma DeleteLists(fs: Fs, path: string, user: nat)
    ensures var (r, fs') := Delete(fs, path, user);
            r.Ok? ==>
              var dir := ParentToken(fs, path);
              && (dir.Some? ==> !Lists(fs', dir.value, fs.paths[path]))
              && ListsKept(fs, fs', Dirs(dir, None))
  {
    var a := Access(fs, path, PDelete, user);
    if a.Ok? {
      UpdateParentExact(fs.(cas := RefDec(fs.cas, fs.tokens[a.value].hash)), path, a.value, false);
    }
  }

  lemma SameCounts(objects: Objects, a: map<Id, Token>, b: map<Id, Token>)
    requires CountsOk(objects, a) && SameButChildren(a, b)
    ensures CountsOk(objects, b)
  {
    assert forall k :: k in a ==> a[k].(children := []).hash == b[k].(children := []).hash;
    forall h | h in objects ensures objects[h].refs == |Holders(b, h)| {
      assert Holders(a, h) == Holders(b, h);
    }
  }

  lemma UpdateParentKeeps(fs: Fs, path: string, id: Id, joins: bool)
    requires Inv(fs)
    ensures Inv(UpdateParent(fs, path, id, joins))
  {
    UpdateParentTokens(fs, path, id, joins);
    SameCounts(fs.cas.objects, fs.tokens, UpdateParent(fs, path, id, joins).tokens);
  }

  lemma AddFileKeepsPaths(fs: Fs, path: string, id: Id, t: Token)
    requires PathsOk(fs.tokens, fs.paths, fs.reverse) && id !in fs.tokens
    ensures var fs' := AddFile(fs, path, id, t); PathsOk(fs'.tokens, fs'.paths, fs'.reverse)
  {
  }

  lemma PutKeeps(c: Cas, data: seq<Byte>, now: nat)
    requires c.totalBytes == SumLen(c.objects)
    ensures var (r, c') := Put(c, data, now);
            && c'.totalBytes == SumLen(c'.objects) && c'.maxBytes == c.maxBytes
            && (r.None? ==> c' == c)
            && (r.Some? ==>
                  && r.value == HashOf(data) && r.value in c'.objects
                  && c'.objects == c.objects[r.value := c'.objects[r.value]]
                  && c'.objects[r.value].refs == (if r.value in c.objects then c.objects[r.value].refs else 0) + 1)
  {
    var r, c' := HashOf(data), Put(c, data, now).1;
    if c' != c {
      SumLenUpdate(c.objects, r, c'.objects[r]);
    }
  }

  lemma SaveKeeps(fs: Fs, path: string, data: seq<Byte>, owner: nat, permissions: set<Permission>, id: Id, now: nat)
    requires Inv(fs) && id !in fs.tokens
    ensures Inv(Save(fs, path, data, owner, permissions, id, now).1)
  {
    PutKeeps(fs.cas, data, now);
    var (r, cas) := Put(fs.cas, data, now);
    if r.Some? {
      var t := Token(path, r.value, owner, |data|, permissions, []);
      AddReference(fs.cas.objects, fs.tokens, id, t, cas.objects[r.value]);
      AddFileKeepsPaths(fs.(cas := cas), path, id, t);
      UpdateParentKeeps(AddFile(fs.(cas := cas), path, id, t), path, id, true);
    }
  }

  lemma CopyKeeps(fs: Fs, src: string, dst: string, user: nat, id: Id)
    requires Inv(fs) && id !in fs.tokens
    ensures Inv(Copy(fs, src, dst, user, id).1)
  {
    var a := Access(fs, src, PRead, user);
    if a.Ok? {
      var t := fs.tokens[a.value];
      var cas := RefInc(fs.cas, t.hash);
      var t' := Token(dst, t.hash, user, t.size, t.permissions, []);
      SumLenUpdate(fs.cas.objects, t.hash, cas.objects[t.hash]);
      AddReference(fs.cas.objects, fs.tokens, id, t', cas.objects[t.hash]);
      AddFileKeepsPaths(fs.(cas := cas), dst, id, t');
      UpdateParentKeeps(AddFile(fs.(cas := cas), dst, id, t'), dst, id, true);
    }
  }

  lemma MoveKeeps(fs: Fs, oldPath: string, newPath: string, user: nat)
    requires Inv(fs)
    ensures Inv(Move(fs, oldPath, newPath, user).1)
  {
    var a := Access(fs, oldPath, PWrite, user);
    if a.Ok? {
      var fs1 := Moved(fs, oldPath, newPath);
      MovedReads(fs, oldPath, newPath, oldPath);
      UpdateParentKeeps(fs1, oldPath, a.value, false);
      UpdateParentKeeps(UpdateParent(fs1, oldPath, a.value, false), newPath, a.value, true);
    }
  }

  lemma RefDecSum(c: Cas, h: Hash)
    requires c.totalBytes == SumLen(c.objects)
    ensures RefDec(c, h).totalBytes == SumLen(RefDec(c, h).objects)
  {
    if h in c.objects {
      SumLenRemove(c.objects, h);
      SumLenUpdate(c.objects, h, c.objects[h].(refs := if c.objects[h].refs > 0 then c.objects[h].refs - 1 else 0));
    }
  }

  lemma DropPath(tokens: map<Id, Token>, paths: map<string, Id>, reverse: map<Id, string>, path: string)
    requires PathsOk(tokens, paths, reverse) && path in paths
    ensures PathsOk(tokens - {paths[path]}, paths - {path}, reverse - {paths[path]})
  {
  }

  lemma DeleteKeeps(fs: Fs, path: string, user: nat)
    requires Inv(fs)
    ensures Inv(Delete(fs, path, user).1)
  {
    var a := Access(fs, path, PDelete, user);
    if a.Ok? {
      var cas := RefDec(fs.cas, fs.tokens[a.value].hash);
      var fs1 := UpdateParent(fs.(cas := cas), path, a.value, false);
      UpdateParentTokens(fs.(cas := cas), path, a.value, false);
      SameCounts(fs.cas.objects, fs.tokens, fs1.tokens);
      assert fs.tokens[a.value].(children := []).hash == fs1.tokens[a.value].(children := []).hash;
      DropReference(fs.cas, fs1.tokens, a.value);
      RefDecSum(fs.cas, fs.tokens[a.value].hash);
      DropPath(fs1.tokens, fs.paths, fs.reverse, path);
    }
  }

  lemma TouchKeeps(fs: Fs, path: string, user: nat, now: nat)
    requires Inv(fs)
    ensures Inv(Touch(fs, path, user, now))
  {
    var a := Access(fs, path, PRead, user);
    if a.Ok? {
      var h := fs.tokens[a.value].hash;
      SumLenUpdate(fs.cas.objects, h, fs.cas.objects[h].(lastAccessed := now));
    }
  }

  // ---- What a reader sees -------------------------------------------------------------------------

  /** The same file for every reader: both paths lead nowhere, or to tokens of one owner and permissions and to
      stored objects of the same contents. */
  ghost predicate SameFile(a: Fs, p: string, b: Fs, q: string) {
    && (p in a.paths && a.paths[p] in a.tokens <==> q in b.paths && b.paths[q] in b.tokens)
    && (p in a.paths && a.paths[p] in a.tokens ==>
          var s, t := a.tokens[a.paths[p]], b.tokens[b.paths[q]];
          && s.owner == t.owner && s.permissions == t.permissions
          && s.hash in a.cas.objects && t.hash in b.cas.objects
          && a.cas.objects[s.hash].data == b.cas.objects[t.hash].data)
  }

  lemma SameFileReads(a: Fs, p: string, b: Fs, q: string, user: nat)
    requires SameFile(a, p, b, q)
    ensures Read(a, p, user) == Read(b, q, user)
  {
  }

  lemma ParentReads(fs: Fs, path: string, id: Id, joins: bool, p: string)
    requires Inv(fs)
    ensures SameFile(fs, p, UpdateParent(fs, path, id, joins), p)
  {
    UpdateParentTokens(fs, path, id, joins);
    UpdateParentKeeps(fs, path, id, joins);
    var fs' := UpdateParent(fs, path, id, joins);
    assert forall k :: k in fs.tokens ==> fs.tokens[k].(children := []) == fs'.tokens[k].(children := []);
    if p in fs.paths {
      var t, t' := fs.tokens[fs.paths[p]], fs'.tokens[fs.paths[p]];
      assert t.(children := []).hash == t'.(children := []).hash;
      assert t.(children := []).owner == t'.(children := []).owner;
      assert t.(children := []).permissions == t'.(children := []).permissions;
    }
  }

  /** Saving succeeds unless the store is limited and full. The owner then reads back what was stored first
      under the hash, so their own data if and only if nothing else was; every other path reads as before. */
  lemma SaveExact(fs: Fs, path: string, data: seq<Byte>, owner: nat, permissions: set<Permission>, id: Id, now: nat, p: string, user: nat)
    requires Inv(fs) && id !in fs.tokens
    ensures var (r, fs') := Save(fs, path, data, owner, permissions, id, now);
            var h := HashOf(data);
            && (r == Err(OutOfSpace) <==>
                h !in fs.cas.objects && fs.cas.maxBytes > 0 && fs.cas.totalBytes + |data| > fs.cas.maxBytes)
            && (r.Err? ==> r == Err(OutOfSpace) && fs' == fs)
            && (r.Ok? ==>
                  && (Read(fs', path, owner) == Ok(data) <==>
                      PRead in permissions && (h !in fs.cas.objects || fs.cas.objects[h].data == data))
                  && (user != owner ==> Read(fs', path, user) == Err(PermissionDenied))
                  && (p != path ==> Read(fs', p, user) == Read(fs, p, user)))
  {
    PutKeeps(fs.cas, data, now);
    var (r, cas) := Put(fs.cas, data, now);
    if r.Some? {
      var t := Token(path, r.value, owner, |data|, permissions, []);
      AddReference(fs.cas.objects, fs.tokens, id, t, cas.objects[r.value]);
      AddFileKeepsPaths(fs.(cas := cas), path, id, t);
      if p != path {
        AddFileReads(fs, cas, path, id, t, p, user);
      }
      var fs1 := AddFile(fs.(cas := cas), path, id, t);
      ParentReads(fs1, path, id, true, p);
      ParentReads(fs1, path, id, true, path);
      var fs' := UpdateParent(fs1, path, id, true);
      SameFileReads(fs1, p, fs', p, user);
      SameFileReads(fs1, path, fs', path, user);
      SameFileReads(fs1, path, fs', path, owner);
    }
  }

  /** Data that agrees in the first 32 bytes with what another file stored is lost: its owner reads that file. */
  lemma CollisionLoses(p: string, q: string, first: seq<Byte>, second: seq<Byte>, owner: nat)
    requires HashOf(first) == HashOf(second)
    ensures var fs := Save(EmptyFs(0), p, first, owner, {PRead}, 0, 0).1;
            Read(Save(fs, q, second, owner, {PRead}, 1, 0).1, q, owner) == Ok(first)
    ensures HashOf([]) == HashOf([0])
  {
    var fs0 := EmptyFs(0);
    var fs := Save(fs0, p, first, owner, {PRead}, 0, 0).1;
    SaveKeeps(fs0, p, first, owner, {PRead}, 0, 0);
    PerformMaps(fs0, SaveOp(p, first, owner, {PRead}, 0, 0));
    assert fs.cas.objects[HashOf(first)].data == first;
    SaveStored(fs, q, second, owner, {PRead}, 1, 0);
    EmptyCollides();
  }

  lemma EmptyCollides()
    ensures HashOf([]) == HashOf([0])
  {
    var zero: Byte := 0;
    assert HashOf([]) == HashOf([zero]);
  }

  /** A reader of a saved file reads what its hash holds in the store. */
  lemma SaveStored(fs: Fs, path: string, data: seq<Byte>, owner: nat, permissions: set<Permission>, id: Id, now: nat)
    requires Inv(fs) && id !in fs.tokens && PRead in permissions && HashOf(data) in fs.cas.objects
    ensures Read(Save(fs, path, data, owner, permissions, id, now).1, path, owner) == Ok(fs.cas.objects[HashOf(data)].data)
  {
    PutKeeps(fs.cas, data, now);
    var (r, cas) := Put(fs.cas, data, now);
    var t := Token(path, r.value, owner, |data|, permissions, []);
    AddReference(fs.cas.objects, fs.tokens, id, t, cas.objects[r.value]);
    AddFileKeepsPaths(fs.(cas := cas), path, id, t);
    var fs1 := AddFile(fs.(cas := cas), path, id, t);
    ParentReads(fs1, path, id, true, path);
    SameFileReads(fs1, path, UpdateParent(fs1, path, id, true), path, owner);
  }

  /** A new file leaves what every other path reads, whether its object was stored before or not. */
  lemma AddFileReads(fs: Fs, cas: Cas, path: string, id: Id, t: Token, p: string, user: nat)
    requires Inv(fs) && id !in fs.tokens && p != path
    requires t.hash in cas.objects && cas.objects == fs.cas.objects[t.hash := cas.objects[t.hash]]
    requires t.hash in fs.cas.objects ==> cas.objects[t.hash].data == fs.cas.objects[t.hash].data
    ensures Read(AddFile(fs.(cas := cas), path, id, t), p, user) == Read(fs, p, user)
  {
    assert SameFile(fs, p, AddFile(fs.(cas := cas), path, id, t), p);
    SameFileReads(fs, p, AddFile(fs.(cas := cas), path, id, t), p, user);
  }

  /** A copy succeeds exactly when the user may read the source; it stores no byte, the user reads the same from
      it, and every other path reads as before. */
  lemma CopyExact(fs: Fs, src: string, dst: string, user: nat, id: Id, p: string, reader: nat)
    requires Inv(fs) && id !in fs.tokens
    ensures var (r, fs') := Copy(fs, src, dst, user, id);
            && (r.Ok? <==> Read(fs, src, user).Ok?)
            && (r.Err? ==> fs' == fs)
            && fs'.cas.totalBytes == fs.cas.totalBytes
            && (r.Ok? ==> Read(fs', dst, user) == Read(fs, src, user))
            && (p != dst ==> Read(fs', p, reader) == Read(fs, p, reader))
  {
    var a := Access(fs, src, PRead, user);
    if a.Ok? {
      var t := fs.tokens[a.value];
      var cas := RefInc(fs.cas, t.hash);
      var t' := Token(dst, t.hash, user, t.size, t.permissions, []);
      SumLenUpdate(fs.cas.objects, t.hash, cas.objects[t.hash]);
      AddReference(fs.cas.objects, fs.tokens, id, t', cas.objects[t.hash]);
      AddFileKeepsPaths(fs.(cas := cas), dst, id, t');
      if p != dst {
        AddFileReads(fs, cas, dst, id, t', p, reader);
      }
      var fs1 := AddFile(fs.(cas := cas), dst, id, t');
      var fs' := UpdateParent(fs1, dst, id, true);
      UpdateParentTokens(fs1, dst, id, true);
      ParentReads(fs1, dst, id, true, p);
      ParentReads(fs1, dst, id, true, dst);
      SameFileReads(fs1, p, fs', p, reader);
      SameFileReads(fs1, dst, fs', dst, user);
    }
  }

  /** A move succeeds exactly when the user may write the file, and carries it: every reader reads from the new path what they read from the old one, which then
      leads nowhere, and every third path reads as before. */
  lemma MoveExact(fs: Fs, oldPath: string, newPath: string, user: nat, p: string, reader: nat)
    requires Inv(fs)
    ensures var (r, fs') := Move(fs, oldPath, newPath, user);
            && (r.Ok? <==> oldPath in fs.paths && May(fs.tokens[fs.paths[oldPath]], PWrite, user))
            && (r.Err? ==> fs' == fs)
            && fs'.cas == fs.cas
            && (r.Ok? ==>
                  && Read(fs', newPath, reader) == Read(fs, oldPath, reader)
                  && (oldPath != newPath ==> Read(fs', oldPath, reader) == Err(NotFound))
                  && (p != oldPath && p != newPath ==> Read(fs', p, reader) == Read(fs, p, reader)))
  {
    var a := Access(fs, oldPath, PWrite, user);
    if a.Ok? {
      var id := a.value;
      var fs1 := Moved(fs, oldPath, newPath);
      MovedReads(fs, oldPath, newPath, p);
      var fs2 := UpdateParent(fs1, oldPath, id, false);
      var fs' := UpdateParent(fs2, newPath, id, true);
      TwoParentsRead(fs1, oldPath, newPath, id, p, reader);
      TwoParentsRead(fs1, oldPath, newPath, id, oldPath, reader);
      TwoParentsRead(fs1, oldPath, newPath, id, newPath, reader);
      SameFileReads(fs, oldPath, fs1, newPath, reader);
      if p != oldPath && p != newPath {
        SameFileReads(fs, p, fs1, p, reader);
      }
    }
  }

  lemma MovedReads(fs: Fs, oldPath: string, newPath: string, p: string)
    requires Inv(fs) && oldPath in fs.paths
    ensures var fs' := Moved(fs, oldPath, newPath);
            && Inv(fs') && fs'.cas == fs.cas
            && SameFile(fs, oldPath, fs', newPath)
            && (oldPath != newPath ==> oldPath !in fs'.paths)
            && (p != oldPath && p != newPath ==> SameFile(fs, p, fs', p))
  {
    var id := fs.paths[oldPath];
    ChangeToken(fs.cas.objects, fs.tokens, id, fs.tokens[id].(path := newPath));
    var fs' := Moved(fs, oldPath, newPath);
    assert PathsOk(fs'.tokens, fs'.paths, fs'.reverse);
  }

  lemma TwoParentsRead(fs: Fs, oldPath: string, newPath: string, id: Id, p: string, reader: nat)
    requires Inv(fs)
    ensures var fs' := UpdateParent(UpdateParent(fs, oldPath, id, false), newPath, id, true);
            fs'.cas == fs.cas && Read(fs', p, reader) == Read(fs, p, reader)
  {
    var fs2 := UpdateParent(fs, oldPath, id, false);
    var fs' := UpdateParent(fs2, newPath, id, true);
    UpdateParentKeeps(fs, oldPath, id, false);
    UpdateParentTokens(fs, oldPath, id, false);
    UpdateParentTokens(fs2, newPath, id, true);
    ParentReads(fs, oldPath, id, false, p);
    ParentReads(fs2, newPath, id, true, p);
    SameFileReads(fs, p, fs2, p, reader);
    SameFileReads(fs2, p, fs', p, reader);
  }

  /** A delete succeeds exactly when the user may; the path then leads nowhere, and every other path reads as
      before, copies of the file included. The object goes exactly when no other token holds it. */
  lemma DeleteExact(fs: Fs, path: string, user: nat, p: string, reader: nat)
    requires Inv(fs)
    ensures var (r, fs') := Delete(fs, path, user);
            && (r.Err? ==> fs' == fs)
            && (r.Ok? <==> path in fs.paths && May(fs.tokens[fs.paths[path]], PDelete, user))
            && (r.Ok? ==>
                  && Read(fs', path, reader) == Err(NotFound)
                  && (fs.tokens[fs.paths[path]].hash in fs'.cas.objects <==>
                      exists k :: k in fs.tokens && k != fs.paths[path] && fs.tokens[k].hash == fs.tokens[fs.paths[path]].hash)
                  && (p != path ==> Read(fs', p, reader) == Read(fs, p, reader)))
  {
    var a := Access(fs, path, PDelete, user);
    if a.Ok? {
      var id, h := a.value, fs.tokens[a.value].hash;
      DeleteKeeps(fs, path, user);
      var fs' := Delete(fs, path, user).1;
      UpdateParentTokens(fs.(cas := RefDec(fs.cas, h)), path, id, false);
      LastHolder(fs.tokens, h, id);
      if p != path {
        DeletedReads(fs, path, user, p);
        SameFileReads(fs, p, fs', p, reader);
      }
    }
  }

  lemma DeletedReads(fs: Fs, path: string, user: nat, p: string)
    requires Inv(fs) && Access(fs, path, PDelete, user).Ok? && p != path
    ensures SameFile(fs, p, Delete(fs, path, user).1, p)
  {
    var id, h := fs.paths[path], fs.tokens[fs.paths[path]].hash;
    var fs1 := UpdateParent(fs.(cas := RefDec(fs.cas, h)), path, id, false);
    UpdateParentTokens(fs.(cas := RefDec(fs.cas, h)), path, id, false);
    if p in fs.paths {
      var k := fs.paths[p];
      assert k != id;
      var t, t' := fs.tokens[k], fs1.tokens[k];
      assert t.(children := []).hash == t'.(children := []).hash;
      assert t.(children := []).owner == t'.(children := []).owner;
      assert t.(children := []).permissions == t'.(children := []).permissions;
      if t.hash == h {
        TwoHolders(fs.tokens, h, id, k);
      }
    }
  }

  lemma LastHolder(tokens: map<Id, Token>, h: Hash, id: Id)
    requires id in Holders(tokens, h)
    ensures |Holders(tokens, h)| >= 1
    ensures |Holders(tokens, h)| > 1 <==> exists k :: k in tokens && k != id && tokens[k].hash == h
  {
    if k :| k in tokens && k != id && tokens[k].hash == h {
      TwoHolders(tokens, h, id, k);
    } else {
      assert Holders(tokens, h) == {id};
    }
  }

  // ---- Runs ---------------------------------------------------------------------------------------

  datatype Op =
    | SaveOp(path: string, data: seq<Byte>, owner: nat, permissions: set<Permission>, id: Id, now: nat)
    | ReadOp(path: string, user: nat, now: nat)
    | MoveOp(path: string, newPath: string, user: nat)
    | CopyOp(path: string, newPath: string, user: nat, id: Id)
    | DeleteOp(path: string, user: nat)

  /** A random token id that no registered token has. */
  predicate Fresh(fs: Fs, op: Op) {
    match op
    case SaveOp(_, _, _, _, id, _) => id !in fs.tokens
    case CopyOp(_, _, _, id) => id !in fs.tokens
    case _ => true
  }

  function Perform(fs: Fs, op: Op): Fs {
    match op
    case SaveOp(path, data, owner, permissions, id, now) => Save(fs, path, data, owner, permissions, id, now).1
    case ReadOp(path, user, now) => Touch(fs, path, user, now)
    case MoveOp(path, newPath, user) => Move(fs, path, newPath, user).1
    case CopyOp(path, newPath, user, id) => Copy(fs, path, newPath, user, id).1
    case DeleteOp(path, user) => Delete(fs, path, user).1
  }

  predicate IsRun(fs: Fs, ops: seq<Op>)
    decreases ops
  {
    ops == [] || (Fresh(fs, ops[0]) && IsRun(Perform(fs, ops[0]), ops[1..]))
  }

  function PerformAll(fs: Fs, ops: seq<Op>): Fs
    decreases ops
  {
    if ops == [] then fs else PerformAll(Perform(fs, ops[0]), ops[1..])
  }

  /** The store holds no more than its limit. */
  predicate WithinLimit(c: Cas) {
    c.maxBytes > 0 ==> c.totalBytes <= c.maxBytes
  }

  lemma PerformKeeps(fs: Fs, op: Op)
    requires Inv(fs) && Fresh(fs, op)
    ensures Inv(Perform(fs, op))
  {
    match op
    case SaveOp(path, data, owner, permissions, id, now) => SaveKeeps(fs, path, data, owner, permissions, id, now);
    case ReadOp(path, user, now) => TouchKeeps(fs, path, user, now);
    case MoveOp(path, newPath, user) => MoveKeeps(fs, path, newPath, user);
    case CopyOp(path, newPath, user, id) => CopyKeeps(fs, path, newPath, user, id);
    case DeleteOp(path, user) => DeleteKeeps(fs, path, user);
  }

  /** What a successful operation does to the store, to the two maps and to which tokens are registered. */
  lemma PerformMaps(fs: Fs, op: Op)
    ensures var fs' := Perform(fs, op);
            match op
            case SaveOp(path, data, _, _, id, now) =>
              Put(fs.cas, data, now).0.Some? ==>
                && fs'.cas == Put(fs.cas, data, now).1
                && fs'.tokens.Keys == fs.tokens.Keys + {id}
                && fs'.paths == fs.paths[path := id] && fs'.reverse == fs.reverse[id := path]
            case ReadOp(_, _, _) => fs'.tokens == fs.tokens && fs'.paths == fs.paths && fs'.reverse == fs.reverse
            case MoveOp(path, newPath, user) =>
              Access(fs, path, PWrite, user).Ok? ==>
                var id := fs.paths[path];
                && fs'.cas == fs.cas && fs'.tokens.Keys == fs.tokens.Keys
                && fs'.paths == (fs.paths - {path})[newPath := id] && fs'.reverse == fs.reverse[id := newPath]
            case CopyOp(path, newPath, user, id) =>
              Access(fs, path, PRead, user).Ok? ==>
                && fs'.cas == RefInc(fs.cas, fs.tokens[fs.paths[path]].hash)
                && fs'.tokens.Keys == fs.tokens.Keys + {id}
                && fs'.paths == fs.paths[newPath := id] && fs'.reverse == fs.reverse[id := newPath]
            case DeleteOp(path, user) =>
              Access(fs, path, PDelete, user).Ok? ==>
                var id := fs.paths[path];
                && fs'.cas == RefDec(fs.cas, fs.tokens[id].hash)
                && fs'.tokens.Keys == fs.tokens.Keys - {id}
                && fs'.paths == fs.paths - {path} && fs'.reverse == fs.reverse - {id}
  {
    match op
    case SaveOp(path, data, owner, permissions, id, now) =>
      var (r, cas) := Put(fs.cas, data, now);
      if r.Some? {
        var t := Token(path, r.value, owner, |data|, permissions, []);
        UpdateParentTokens(AddFile(fs.(cas := cas), path, id, t), path, id, true);
      }
    case ReadOp(path, user, now) =>
    case MoveOp(path, newPath, user) =>
      if Access(fs, path, PWrite, user).Ok? {
        var id, fs1 := fs.paths[path], Moved(fs, path, newPath);
        UpdateParentTokens(fs1, path, id, false);
        UpdateParentTokens(UpdateParent(fs1, path, id, false), newPath, id, true);
      }
    case CopyOp(path, newPath, user, id) =>
      if Access(fs, path, PRead, user).Ok? {
        var t := fs.tokens[fs.paths[path]];
        var t' := Token(newPath, t.hash, user, t.size, t.permissions, []);
        UpdateParentTokens(AddFile(fs.(cas := RefInc(fs.cas, t.hash)), newPath, id, t'), newPath, id, true);
      }
    case DeleteOp(path, user) =>
      if Access(fs, path, PDelete, user).Ok? {
        var id := fs.paths[path];
        UpdateParentTokens(fs.(cas := RefDec(fs.cas, fs.tokens[id].hash)), path, id, false);
      }
  }

  lemma PerformLimit(fs: Fs, op: Op)
    requires WithinLimit(fs.cas)
    ensures WithinLimit(Perform(fs, op).cas)
  {
    PerformMaps(fs, op);
  }

  /** After any operations from an empty file system: counts are exact, nothing is corrupted, nothing is garbage
      and the limit is kept. */
  lemma {:induction false} RunKeeps(fs: Fs, ops: seq<Op>)
    requires Inv(fs) && WithinLimit(fs.cas) && IsRun(fs, ops)
    ensures var end := PerformAll(fs, ops);
            && Inv(end) && WithinLimit(end.cas)
            && (forall path, user :: Read(end, path, user) != Err(Corrupted))
            && (forall h, now :: h in end.cas.objects ==> !Garbage(end.cas.objects[h], Cutoff(now)))
    decreases ops
  {
    if ops != [] {
      PerformKeeps(fs, ops[0]);
      PerformLimit(fs, ops[0]);
      RunKeeps(Perform(fs, ops[0]), ops[1..]);
    }
  }

  lemma EmptyOk(maxBytes: nat)
    ensures Inv(EmptyFs(maxBytes)) && WithinLimit(EmptyFs(maxBytes).cas)
  {
  }

  // ---- Tokens no path leads to --------------------------------------------------------------------

  /** A path leads to the token. */
  predicate Reached(paths: map<string, Id>, reverse: map<Id, string>, id: Id) {
    id in reverse && reverse[id] in paths && paths[reverse[id]] == id
  }

  /** No path leads to the token. */
  ghost predicate NoPath(fs: Fs, id: Id) {
    forall p :: p in fs.paths ==> fs.paths[p] != id
  }

  lemma ReachedExact(fs: Fs, id: Id)
    requires Inv(fs)
    ensures NoPath(fs, id) <==> !Reached(fs.paths, fs.reverse, id)
  {
  }

  predicate AllReached(ids: set<Id>, paths: map<string, Id>, reverse: map<Id, string>) {
    forall id :: id in ids ==> Reached(paths, reverse, id)
  }

  predicate NoOrphans(fs: Fs) {
    AllReached(fs.tokens.Keys, fs.paths, fs.reverse)
  }

  lemma AddReached(tokens: map<Id, Token>, paths: map<string, Id>, reverse: map<Id, string>, path: string, id: Id)
    requires PathsOk(tokens, paths, reverse) && AllReached(tokens.Keys, paths, reverse) && id !in tokens
    ensures AllReached(tokens.Keys + {id}, paths[path := id], reverse[id := path]) <==> path !in paths
  {
    if path in paths {
      assert !Reached(paths[path := id], reverse[id := path], paths[path]);
    }
  }

  lemma MoveReached(tokens: map<Id, Token>, paths: map<string, Id>, reverse: map<Id, string>, path: string, newPath: string)
    requires PathsOk(tokens, paths, reverse) && AllReached(tokens.Keys, paths, reverse) && path in paths
    ensures AllReached(tokens.Keys, (paths - {path})[newPath := paths[path]], reverse[paths[path] := newPath])
            <==> newPath == path || newPath !in paths
  {
    if newPath != path && newPath in paths {
      assert !Reached((paths - {path})[newPath := paths[path]], reverse[paths[path] := newPath], paths[newPath]);
    }
  }

  lemma RemoveReached(tokens: map<Id, Token>, paths: map<string, Id>, reverse: map<Id, string>, path: string)
    requires PathsOk(tokens, paths, reverse) && AllReached(tokens.Keys, paths, reverse) && path in paths
    ensures AllReached(tokens.Keys - {paths[path]}, paths - {path}, reverse - {paths[path]})
  {
  }

  /** The operation succeeds in giving a token a path that led to another one. */
  predicate Overwrites(fs: Fs, op: Op) {
    match op
    case SaveOp(path, data, _, _, _, now) => Put(fs.cas, data, now).0.Some? && path in fs.paths
    case ReadOp(_, _, _) => false
    case MoveOp(path, newPath, user) => Access(fs, path, PWrite, user).Ok? && newPath != path && newPath in fs.paths
    case CopyOp(path, newPath, user, _) => Access(fs, path, PRead, user).Ok? && newPath in fs.paths
    case DeleteOp(_, _) => false
  }

  /** From a file system in which a path leads to every token, an operation ends in one again if and only if it
      does not overwrite a path. */
  lemma OrphansExact(fs: Fs, op: Op)
    requires Inv(fs) && NoOrphans(fs) && Fresh(fs, op)
    ensures NoOrphans(Perform(fs, op)) <==> !Overwrites(fs, op)
  {
    PerformMaps(fs, op);
    match op
    case SaveOp(path, _, _, _, id, _) => AddReached(fs.tokens, fs.paths, fs.reverse, path, id);
    case ReadOp(_, _, _) =>
    case MoveOp(path, newPath, _) =>
      if path in fs.paths {
        MoveReached(fs.tokens, fs.paths, fs.reverse, path, newPath);
      }
    case CopyOp(_, newPath, _, id) => AddReached(fs.tokens, fs.paths, fs.reverse, newPath, id);
    case DeleteOp(path, _) =>
      if path in fs.paths {
        RemoveReached(fs.tokens, fs.paths, fs.reverse, path);
      }
  }

  /** Saving twice to one path, from an empty file system, leaves the first token registered with no path to it. */
  lemma OverwriteOrphans(path: string, first: seq<Byte>, second: seq<Byte>, owner: nat, permissions: set<Permission>)
    ensures var ops := [SaveOp(path, first, owner, permissions, 0, 0), SaveOp(path, second, owner, permissions, 1, 0)];
            && IsRun(EmptyFs(0), ops)
            && 0 in PerformAll(EmptyFs(0), ops).tokens && NoPath(PerformAll(EmptyFs(0), ops), 0)
  {
    var a, b := SaveOp(path, first, owner, permissions, 0, 0), SaveOp(path, second, owner, permissions, 1, 0);
    var fs1 := Perform(EmptyFs(0), a);
    var fs2 := Perform(fs1, b);
    SavedLast(EmptyFs(0), fs1, a);
    SavedLast(fs1, fs2, b);
    assert [a, b][1..] == [b] && [b][1..] == [];
    assert PerformAll(EmptyFs(0), [a, b]) == PerformAll(fs1, [b]) == PerformAll(fs2, []) == fs2;
    assert IsRun(fs2, []) && IsRun(fs1, [b]);
  }

  lemma SavedLast(fs: Fs, fs': Fs, op: Op)
    requires op.SaveOp? && fs' == Perform(fs, op) && fs.cas.maxBytes == 0
    ensures fs'.cas.maxBytes == 0 && fs'.tokens.Keys == fs.tokens.Keys + {op.id} && fs'.paths == fs.paths[op.path := op.id]
  {
    PerformMaps(fs, op);
  }

  /** A token no path leads to stays so through every later operation, so it is never revoked. */
  lemma OrphanStep(fs: Fs, op: Op, id: Id)
    requires Inv(fs) && Fresh(fs, op) && id in fs.tokens && !Reached(fs.paths, fs.reverse, id)
    ensures var fs' := Perform(fs, op); id in fs'.tokens && !Reached(fs'.paths, fs'.reverse, id)
  {
    PerformMaps(fs, op);
  }

  /** An orphan keeps an object stored for ever. */
  lemma {:induction false} OrphanStays(fs: Fs, ops: seq<Op>, id: Id)
    requires Inv(fs) && IsRun(fs, ops) && id in fs.tokens && NoPath(fs, id)
    ensures var end := PerformAll(fs, ops); id in end.tokens && NoPath(end, id) && end.tokens[id].hash in end.cas.objects
    decreases ops
  {
    if ops != [] {
      var fs' := Perform(fs, ops[0]);
      ReachedExact(fs, id);
      OrphanStep(fs, ops[0], id);
      PerformKeeps(fs, ops[0]);
      ReachedExact(fs', id);
      OrphanStays(fs', ops[1..], id);
    }
  }
}
