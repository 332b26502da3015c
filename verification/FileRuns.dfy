/** Whole runs of file operations against a plain map from paths to files. */
module FileRuns {
  import opened Wrappers
  import opened Bits
  import opened Files

  /** What readers can tell of a file. */
  datatype FileView = FileView(owner: nat, permissions: set<Permission>, data: seq<Byte>)

  type View = map<string, FileView>

  function Get(a: View, p: string): Option<FileView> {
    if p in a then Some(a[p]) else None
  }

  function ViewAt(fs: Fs, p: string): Option<FileView> {
    if p in fs.paths && fs.paths[p] in fs.tokens && fs.tokens[fs.paths[p]].hash in fs.cas.objects then
      var t := fs.tokens[fs.paths[p]];
      Some(FileView(t.owner, t.permissions, fs.cas.objects[t.hash].data))
    else None
  }

  function Abstract(fs: Fs): View {
    map p | p in fs.paths && ViewAt(fs, p).Some? :: ViewAt(fs, p).value
  }

  predicate MayIn(a: View, p: string, need: Permission, user: nat) {
    p in a && a[p].owner == user && need in a[p].permissions
  }

  /** An operation on the plain map. */
  function Step(a: View, op: Op): View {
    match op
    case SaveOp(path, data, owner, permissions, _, _) => a[path := FileView(owner, permissions, data)]
    case ReadOp(_, _, _) => a
    case MoveOp(path, newPath, user) => if MayIn(a, path, PWrite, user) then (a - {path})[newPath := a[path]] else a
    case CopyOp(path, newPath, user, _) => if MayIn(a, path, PRead, user) then a[newPath := a[path].(owner := user)] else a
    case DeleteOp(path, user) => if MayIn(a, path, PDelete, user) then a - {path} else a
  }

  function StepAll(a: View, ops: seq<Op>): View
    decreases ops
  {
    if ops == [] then a else StepAll(Step(a, ops[0]), ops[1..])
  }

  function ReadIn(a: View, path: string, user: nat): Result<seq<Byte>, FileError> {
    if path !in a then Err(NotFound)
    else if !MayIn(a, path, PRead, user) then Err(PermissionDenied)
    else Ok(a[path].data)
  }

  /** The operation does not run out of space. */
  predicate HasRoom(fs: Fs, op: Op) {
    op.SaveOp? ==> Put(fs.cas, op.data, op.now).0.Some?
  }

  /** The operations of a run that do not run out of space. */
  function WithRoom(fs: Fs, ops: seq<Op>): seq<Op>
    decreases ops
  {
    if ops == [] then []
    else (if HasRoom(fs, ops[0]) then [ops[0]] else []) + WithRoom(Perform(fs, ops[0]), ops[1..])
  }

  /** The data saved has the hash of other data that is stored. */
  predicate Collides(fs: Fs, op: Op) {
    op.SaveOp? && HashOf(op.data) in fs.cas.objects && fs.cas.objects[HashOf(op.data)].data != op.data
  }

  // ---- One operation ------------------------------------------------------------------------------

  lemma SameView(a: Fs, p: string, b: Fs, q: string)
    requires SameFile(a, p, b, q)
    ensures ViewAt(a, p) == ViewAt(b, q)
  {
  }

  lemma AbstractAt(fs: Fs, p: string)
    ensures Get(Abstract(fs), p) == ViewAt(fs, p)
  {
  }

  lemma AccessIs(fs: Fs, p: string, need: Permission, user: nat)
    requires Inv(fs)
    ensures Access(fs, p, need, user).Ok? <==> MayIn(Abstract(fs), p, need, user)
  {
    AbstractAt(fs, p);
  }

  lemma SameMaps(a: View, b: View)
    requires forall p :: Get(a, p) == Get(b, p)
    ensures a == b
  {
    forall p
      ensures p in a <==> p in b
      ensures p in a ==> a[p] == b[p]
    {
      assert Get(a, p) == Get(b, p);
    }
  }

  /** A file added under a path: that path shows it, every other path shows what it did. */
  lemma ViewAdded(fs: Fs, cas: Cas, path: string, id: Id, t: Token, p: string)
    requires Inv(fs) && id !in fs.tokens
    requires t.hash in cas.objects && cas.objects == fs.cas.objects[t.hash := cas.objects[t.hash]]
    requires t.hash in fs.cas.objects ==> cas.objects[t.hash].data == fs.cas.objects[t.hash].data
    ensures ViewAt(AddFile(fs.(cas := cas), path, id, t), p) ==
            if p == path then Some(FileView(t.owner, t.permissions, cas.objects[t.hash].data)) else ViewAt(fs, p)
  {
    if p != path {
      SameView(fs, p, AddFile(fs.(cas := cas), path, id, t), p);
    }
  }

  lemma ViewSaved(fs: Fs, op: Op, p: string)
    requires Inv(fs) && Fresh(fs, op) && op.SaveOp? && HasRoom(fs, op)
    ensures ViewAt(Perform(fs, op), p) ==
            if p == op.path then
              Some(FileView(op.owner, op.permissions,
                            if HashOf(op.data) in fs.cas.objects then fs.cas.objects[HashOf(op.data)].data else op.data))
            else ViewAt(fs, p)
  {
    PutKeeps(fs.cas, op.data, op.now);
    var (r, cas) := Put(fs.cas, op.data, op.now);
    var t := Token(op.path, r.value, op.owner, |op.data|, op.permissions, []);
    AddReference(fs.cas.objects, fs.tokens, op.id, t, cas.objects[r.value]);
    AddFileKeepsPaths(fs.(cas := cas), op.path, op.id, t);
    var fs1 := AddFile(fs.(cas := cas), op.path, op.id, t);
    ViewAdded(fs, cas, op.path, op.id, t, p);
    ParentReads(fs1, op.path, op.id, true, p);
    SameView(fs1, p, UpdateParent(fs1, op.path, op.id, true), p);
  }

  lemma ViewCopied(fs: Fs, op: Op, p: string)
    requires Inv(fs) && Fresh(fs, op) && op.CopyOp? && Access(fs, op.path, PRead, op.user).Ok?
    ensures ViewAt(fs, op.path).Some?
    ensures ViewAt(Perform(fs, op), p) ==
            if p == op.newPath then Some(ViewAt(fs, op.path).value.(owner := op.user)) else ViewAt(fs, p)
  {
    var t := fs.tokens[fs.paths[op.path]];
    var cas := RefInc(fs.cas, t.hash);
    var t' := Token(op.newPath, t.hash, op.user, t.size, t.permissions, []);
    SumLenUpdate(fs.cas.objects, t.hash, cas.objects[t.hash]);
    AddReference(fs.cas.objects, fs.tokens, op.id, t', cas.objects[t.hash]);
    AddFileKeepsPaths(fs.(cas := cas), op.newPath, op.id, t');
    var fs1 := AddFile(fs.(cas := cas), op.newPath, op.id, t');
    ViewAdded(fs, cas, op.newPath, op.id, t', p);
    ParentReads(fs1, op.newPath, op.id, true, p);
    SameView(fs1, p, UpdateParent(fs1, op.newPath, op.id, true), p);
  }

  lemma ViewMoved(fs: Fs, op: Op, p: string)
    requires Inv(fs) && op.MoveOp? && Access(fs, op.path, PWrite, op.user).Ok?
    ensures ViewAt(Perform(fs, op), p) ==
            if p == op.newPath then ViewAt(fs, op.path) else if p == op.path then None else ViewAt(fs, p)
  {
    var id, fs1 := fs.paths[op.path], Moved(fs, op.path, op.newPath);
    MovedReads(fs, op.path, op.newPath, p);
    SameView(fs, op.path, fs1, op.newPath);
    if p != op.path && p != op.newPath {
      SameView(fs, p, fs1, p);
    }
    var fs2 := UpdateParent(fs1, op.path, id, false);
    UpdateParentKeeps(fs1, op.path, id, false);
    ParentReads(fs1, op.path, id, false, p);
    ParentReads(fs2, op.newPath, id, true, p);
    SameView(fs1, p, fs2, p);
    SameView(fs2, p, UpdateParent(fs2, op.newPath, id, true), p);
  }

  lemma ViewDeleted(fs: Fs, op: Op, p: string)
    requires Inv(fs) && op.DeleteOp? && Access(fs, op.path, PDelete, op.user).Ok?
    ensures ViewAt(Perform(fs, op), p) == if p == op.path then None else ViewAt(fs, p)
  {
    if p != op.path {
      DeletedReads(fs, op.path, op.user, p);
      SameView(fs, p, Perform(fs, op), p);
    }
  }

  lemma ViewRead(fs: Fs, op: Op, p: string)
    requires Inv(fs) && op.ReadOp?
    ensures ViewAt(Perform(fs, op), p) == ViewAt(fs, p)
  {
  }

  /** Every path after an operation that has room and does not collide. */
  lemma StepAt(fs: Fs, op: Op, p: string)
    requires Inv(fs) && Fresh(fs, op) && HasRoom(fs, op) && !Collides(fs, op)
    ensures ViewAt(Perform(fs, op), p) == Get(Step(Abstract(fs), op), p)
  {
    AbstractAt(fs, p);
    match op
    case SaveOp(_, _, _, _, _, _) => ViewSaved(fs, op, p);
    case ReadOp(_, _, _) => ViewRead(fs, op, p);
    case MoveOp(path, newPath, user) =>
      AccessIs(fs, path, PWrite, user);
      AbstractAt(fs, path);
      if Access(fs, path, PWrite, user).Ok? {
        ViewMoved(fs, op, p);
      }
    case CopyOp(path, newPath, user, _) =>
      AccessIs(fs, path, PRead, user);
      AbstractAt(fs, path);
      if Access(fs, path, PRead, user).Ok? {
        ViewCopied(fs, op, p);
      }
    case DeleteOp(path, user) =>
      AccessIs(fs, path, PDelete, user);
      if Access(fs, path, PDelete, user).Ok? {
        ViewDeleted(fs, op, p);
      }
  }

  /** An operation that has room does to the plain map what it should, if and only if it does not collide. One that runs
      out of space changes nothing. */
  lemma StepRefines(fs: Fs, op: Op)
    requires Inv(fs) && Fresh(fs, op)
    ensures !HasRoom(fs, op) ==> Perform(fs, op) == fs
    ensures HasRoom(fs, op) ==> (Abstract(Perform(fs, op)) == Step(Abstract(fs), op) <==> !Collides(fs, op))
  {
    var fs' := Perform(fs, op);
    if HasRoom(fs, op) {
      if Collides(fs, op) {
        ViewSaved(fs, op, op.path);
        AbstractAt(fs', op.path);
        assert Get(Step(Abstract(fs), op), op.path) != Get(Abstract(fs'), op.path);
      } else {
        forall p
          ensures Get(Abstract(fs'), p) == Get(Step(Abstract(fs), op), p)
        {
          AbstractAt(fs', p);
          StepAt(fs, op, p);
        }
        SameMaps(Abstract(fs'), Step(Abstract(fs), op));
      }
    }
  }

  lemma ReadRefines(fs: Fs, path: string, user: nat)
    requires Inv(fs)
    ensures Read(fs, path, user) == ReadIn(Abstract(fs), path, user)
  {
    AbstractAt(fs, path);
    AccessIs(fs, path, PRead, user);
  }

  // ---- Whole runs ---------------------------------------------------------------------------------

  /** The contents a run saves. */
  function Saved(ops: seq<Op>): set<seq<Byte>> {
    if ops == [] then {} else (if ops[0].SaveOp? then {ops[0].data} else {}) + Saved(ops[1..])
  }

  /** No two different contents have one hash. */
  predicate NoCollision(contents: set<seq<Byte>>) {
    forall d, e :: d in contents && e in contents && HashOf(d) == HashOf(e) ==> d == e
  }

  /** What is stored is among these contents, each under its hash. */
  predicate StoredFrom(fs: Fs, contents: set<seq<Byte>>) {
    forall h :: h in fs.cas.objects ==> fs.cas.objects[h].data in contents && HashOf(fs.cas.objects[h].data) == h
  }

  lemma StoredStep(fs: Fs, op: Op, contents: set<seq<Byte>>)
    requires StoredFrom(fs, contents) && (op.SaveOp? ==> op.data in contents)
    ensures StoredFrom(Perform(fs, op), contents)
  {
    PerformMaps(fs, op);
  }

  /** After every run of file operations whose saved contents have different hashes, every reader reads what the same
      operations on a plain map from paths to files give, but for those that ran out of space. */
  lemma {:induction false} RunRefines(fs: Fs, ops: seq<Op>, contents: set<seq<Byte>>)
    requires Inv(fs) && IsRun(fs, ops) && StoredFrom(fs, contents) && NoCollision(contents) && Saved(ops) <= contents
    ensures var end, a := PerformAll(fs, ops), StepAll(Abstract(fs), WithRoom(fs, ops));
            && Abstract(end) == a
            && forall path, user :: Read(end, path, user) == ReadIn(a, path, user)
    decreases ops
  {
    if ops == [] {
      forall path, user ensures Read(fs, path, user) == ReadIn(Abstract(fs), path, user) {
        ReadRefines(fs, path, user);
      }
    } else {
      var op, fs', rest := ops[0], Perform(fs, ops[0]), WithRoom(Perform(fs, ops[0]), ops[1..]);
      PerformKeeps(fs, op);
      StoredStep(fs, op, contents);
      StepRefines(fs, op);
      RunRefines(fs', ops[1..], contents);
      if HasRoom(fs, op) {
        assert ([op] + rest)[1..] == rest;
      } else {
        assert [] + rest == rest;
      }
    }
  }

  /** From an empty file system. */
  lemma EmptyRefines(maxBytes: nat, ops: seq<Op>)
    requires IsRun(EmptyFs(maxBytes), ops) && NoCollision(Saved(ops))
    ensures var end, a := PerformAll(EmptyFs(maxBytes), ops), StepAll(map[], WithRoom(EmptyFs(maxBytes), ops));
            Abstract(end) == a && forall path, user :: Read(end, path, user) == ReadIn(a, path, user)
  {
    EmptyOk(maxBytes);
    RunRefines(EmptyFs(maxBytes), ops, Saved(ops));
    assert Abstract(EmptyFs(maxBytes)) == map[];
  }
}
