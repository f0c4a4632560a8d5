/** The permission policy of the later generation (hisfs/policy.py): paths
    as lists of nodes, and the fixed order of checks in reading, listing and
    writing. The inode interface the policy calls (`is_file`, `parents`,
    `executable_by(user, group)`, `get_child`, `add_file`) is not defined
    in the repository; it is modelled on the inode table, with the parents
    outermost first and the permission answers for the policy's user and
    group given as a function `perm`. */
module Policy {
  import opened Common
  import opened Text
  import opened Permissions
  import opened Inodes

  // ---------------------------------------------------------------------
  // Paths

  /** `to_path`: the separator followed by the nodes joined by it. */
  function ToPath(nodes: seq<string>): (r: string)
    ensures |r| >= 1 && r[0] == PathSep
  {
    [PathSep] + Join(nodes, PathSep)
  }

  /** `Path.nodes`: one leading separator is dropped, then the path is split
      at every separator; empty nodes are kept. */
  function Nodes(path: string): (r: seq<string>)
    ensures forall i | 0 <= i < |r| :: PathSep !in r[i]
  {
    if |path| > 0 && path[0] == PathSep then Split(path[1..], PathSep)
    else Split(path, PathSep)
  }

  /** Reading the nodes of a rendered path gives them back, for a non-empty
      list of nodes free of separators. */
  lemma NodesOfToPath(nodes: seq<string>)
    requires |nodes| >= 1
    requires forall i | 0 <= i < |nodes| :: PathSep !in nodes[i]
    ensures Nodes(ToPath(nodes)) == nodes
  {
    assert ToPath(nodes)[1..] == Join(nodes, PathSep);
    SplitJoin(nodes, PathSep);
  }

  /** The empty list is rendered as "/", which reads back as one empty
      node. */
  lemma NodesOfEmptyPath()
    ensures ToPath([]) == "/"
    ensures Nodes(ToPath([])) == [""]
  {
    assert ToPath([])[1..] == [];
  }

  /** Rendering the nodes of a path that starts with the separator gives the
      path back. */
  lemma ToPathOfNodes(path: string)
    requires |path| >= 1 && path[0] == PathSep
    ensures ToPath(Nodes(path)) == path
  {
    JoinSplit(path[1..], PathSep);
  }

  /** A trailing separator yields a trailing empty node (the separator
      alone is the leading one and yields the single empty node). */
  lemma TrailingSepKeepsEmptyNode(path: string)
    requires path != []
    ensures Nodes(path + [PathSep]) == Nodes(path) + [[]]
  {
    assert (path + [PathSep])[0] == path[0];
    if path[0] == PathSep {
      assert (path + [PathSep])[1..] == path[1..] + [PathSep];
      SplitTrailingSep(path[1..], PathSep);
    } else {
      SplitTrailingSep(path, PathSep);
    }
  }

  // ---------------------------------------------------------------------
  // Decisions

  datatype PolicyError =
    | NotAFile(inode: InodeId)
    | NotADirectory(inode: InodeId)
    | NotExecutable(inode: InodeId)
    | NotReadable(inode: InodeId)
    | NotWritable(inode: InodeId)
    | Fs(error: FsError)

  /** The answers of `readable_by`, `writable_by` and `executable_by` for
      the policy's user and group. */
  type Perm = (Inode, Access) -> bool

  /** The first of `ids` that `perm` does not let the user execute. */
  function FirstBlocked(rows: Rows, ids: seq<InodeId>, perm: Perm): (r: Option<InodeId>)
    requires forall x | x in ids :: x in rows
    ensures r.Some? ==> r.value in ids && !perm(rows[r.value], Access.Execute)
  {
    if ids == [] then None
    else if !perm(rows[ids[0]], Access.Execute) then Some(ids[0])
    else FirstBlocked(rows, ids[1..], perm)
  }

  /** `None` exactly when every inode of `ids` is executable; otherwise the
      answer is in `ids`, not executable, and every inode before it is. */
  lemma {:induction false} FirstBlockedMeaning(rows: Rows, ids: seq<InodeId>, perm: Perm)
    requires forall x | x in ids :: x in rows
    ensures FirstBlocked(rows, ids, perm).None? <==> forall x | x in ids :: perm(rows[x], Access.Execute)
    ensures FirstBlocked(rows, ids, perm).Some? ==>
            exists i | 0 <= i < |ids| ::
              && ids[i] == FirstBlocked(rows, ids, perm).value
              && !perm(rows[ids[i]], Access.Execute)
              && forall j | 0 <= j < i :: perm(rows[ids[j]], Access.Execute)
  {
    if ids != [] {
      FirstBlockedMeaning(rows, ids[1..], perm);
      if perm(rows[ids[0]], Access.Execute) && FirstBlocked(rows, ids[1..], perm).Some? {
        var i :| 0 <= i < |ids[1..]| && ids[1..][i] == FirstBlocked(rows, ids[1..], perm).value
                 && !perm(rows[ids[1..][i]], Access.Execute)
                 && forall j | 0 <= j < i :: perm(rows[ids[1..][j]], Access.Execute);
        assert ids[i + 1] == FirstBlocked(rows, ids, perm).value;
      }
      assert forall x | x in ids :: x == ids[0] || x in ids[1..];
    }
  }

  /** The loop over the parents shared by `read`, `list` and `write`. */
  method CheckParents(rows: Rows, ids: seq<InodeId>, perm: Perm) returns (r: Option<InodeId>)
    requires forall x | x in ids :: x in rows
    ensures r == FirstBlocked(rows, ids, perm)
  {
    var k := 0;
    while k < |ids|
      invariant 0 <= k <= |ids|
      invariant FirstBlocked(rows, ids[k..], perm) == FirstBlocked(rows, ids, perm)
    {
      assert ids[k..][1..] == ids[k + 1..];
      if !perm(rows[ids[k]], Access.Execute) {
        return Some(ids[k]);
      }
      k := k + 1;
    }
    r := None;
  }

  /** What `read` answers: `NotAFile` before any permission is looked at,
      then `NotExecutable` for the first parent that may not be executed,
      then the data when the file is readable, else `NotReadable`. */
  function ReadDecision(store: Store, id: InodeId, perm: Perm): (r: Result<Blob, PolicyError>)
    reads store
    requires store.Valid() && id in store.rows
    ensures r.Err? && r.error.NotExecutable? ==>
      r.error.inode in Ancestors(store.rows, id) && !perm(store.rows[r.error.inode], Access.Execute)
    ensures r.Err? && r.error.NotReadable? ==> r.error.inode == id && !perm(store.rows[id], Access.Read)
    ensures r.Err? && r.error.Fs? ==> store.Content(store.rows[id]) == Err(r.error.error)
  {
    var rows := store.rows;
    if !IsFile(rows[id]) then Err(PolicyError.NotAFile(id))
    else match FirstBlocked(rows, Ancestors(rows, id), perm)
      case Some(p) => Err(NotExecutable(p))
      case None =>
        if perm(rows[id], Access.Read) then
          match store.Content(rows[id])
          case Ok(b) => Ok(b)
          case Err(e) => Err(Fs(e))
        else Err(NotReadable(id))
  }

  /** `UserInode.read`. */
  method ReadFile(store: Store, id: InodeId, perm: Perm) returns (r: Result<Blob, PolicyError>)
    requires store.Valid() && id in store.rows
    ensures r == ReadDecision(store, id, perm)
  {
    var rows := store.rows;
    if !IsFile(rows[id]) {
      return Err(PolicyError.NotAFile(id));
    }
    var blocked := CheckParents(rows, Ancestors(rows, id), perm);
    if blocked.Some? {
      return Err(NotExecutable(blocked.value));
    }
    if perm(rows[id], Access.Read) {
      var content := store.Content(rows[id]);
      if content.Err? {
        return Err(Fs(content.error));
      }
      return Ok(content.value);
    }
    r := Err(NotReadable(id));
  }

  /** Data is read only from a file whose every parent may be executed and
      which may be read; the data are the file's blob. A directory is
      refused as `NotAFile` whatever the permissions say. */
  lemma ReadOnlyWhenPermitted(store: Store, id: InodeId, perm: Perm)
    requires store.Valid() && id in store.rows
    ensures ReadDecision(store, id, perm).Ok? <==>
            && IsFile(store.rows[id])
            && (forall x | x in Ancestors(store.rows, id) :: perm(store.rows[x], Access.Execute))
            && perm(store.rows[id], Access.Read)
            && store.Content(store.rows[id]).Ok?
    ensures ReadDecision(store, id, perm).Ok? ==>
            ReadDecision(store, id, perm).value == store.blobs[store.rows[id].file.value]
    ensures IsDir(store.rows[id]) ==> ReadDecision(store, id, perm) == Err(PolicyError.NotAFile(id))
  {
    FirstBlockedMeaning(store.rows, Ancestors(store.rows, id), perm);
  }

  /** What `list` answers: `NotExecutable` for the first parent that may
      not be executed, then `to_dict` when the inode is readable, else
      `NotReadable`. */
  function ListDecision(store: Store, id: InodeId, perm: Perm): (r: Result<InodeDict, PolicyError>)
    reads store
    requires store.Valid() && id in store.rows
    ensures r.Err? && r.error.NotExecutable? ==>
      r.error.inode in Ancestors(store.rows, id) && !perm(store.rows[r.error.inode], Access.Execute)
    ensures r.Err? && r.error.NotReadable? ==> r.error.inode == id && !perm(store.rows[id], Access.Read)
    ensures r.Err? && r.error.Fs? ==> store.ToDict(id, true) == Err(r.error.error)
  {
    var rows := store.rows;
    match FirstBlocked(rows, Ancestors(rows, id), perm)
    case Some(p) => Err(NotExecutable(p))
    case None =>
      if perm(rows[id], Access.Read) then
        match store.ToDict(id, true)
        case Ok(d) => Ok(d)
        case Err(e) => Err(Fs(e))
      else Err(NotReadable(id))
  }

  /** `UserInode.list`. */
  method ListInode(store: Store, id: InodeId, perm: Perm) returns (r: Result<InodeDict, PolicyError>)
    requires store.Valid() && id in store.rows
    ensures r == ListDecision(store, id, perm)
  {
    var rows := store.rows;
    var blocked := CheckParents(rows, Ancestors(rows, id), perm);
    if blocked.Some? {
      return Err(NotExecutable(blocked.value));
    }
    if perm(rows[id], Access.Read) {
      var d := store.ToDict(id, true);
      if d.Err? {
        return Err(Fs(d.error));
      }
      return Ok(d.value);
    }
    r := Err(NotReadable(id));
  }

  /** A listing is given exactly when every parent may be executed, the
      inode may be read and its dictionary can be built, and it is that
      dictionary; `NotExecutable` names the first parent that may not be
      executed, and `NotReadable` means the parents passed but the inode
      may not be read. */
  lemma ListOnlyWhenPermitted(store: Store, id: InodeId, perm: Perm)
    requires store.Valid() && id in store.rows
    ensures ListDecision(store, id, perm).Ok? <==>
            && (forall x | x in Ancestors(store.rows, id) :: perm(store.rows[x], Access.Execute))
            && perm(store.rows[id], Access.Read)
            && store.ToDict(id, true).Ok?
    ensures ListDecision(store, id, perm).Ok? ==>
            ListDecision(store, id, perm).value == store.ToDict(id, true).value
    ensures ListDecision(store, id, perm) == Err(NotReadable(id)) <==>
            && (forall x | x in Ancestors(store.rows, id) :: perm(store.rows[x], Access.Execute))
            && !perm(store.rows[id], Access.Read)
    ensures forall p: InodeId :: ListDecision(store, id, perm) == Err(NotExecutable(p)) <==>
            FirstBlocked(store.rows, Ancestors(store.rows, id), perm) == Some(p)
    ensures (exists x | x in Ancestors(store.rows, id) :: !perm(store.rows[x], Access.Execute)) ==>
            ListDecision(store, id, perm).Err? && ListDecision(store, id, perm).error.NotExecutable?
  {
    FirstBlockedMeaning(store.rows, Ancestors(store.rows, id), perm);
  }

  /** What `write` decides before changing anything. */
  datatype WriteStep = Refuse(error: PolicyError) | Create | Overwrite(file: InodeId)

  /** The first child of `dir` with the given name (`get_child`). */
  function ChildNamed(store: Store, dir: InodeId, name: string): (r: Result<InodeId, FsError>)
    reads store
    ensures r.Ok? ==> r.value in store.rows && store.rows[r.value].parent == Some(dir)
                      && store.rows[r.value].name == name
    ensures r.Err? ==> forall c | c in ChildIds(store.rows, dir) && c < store.nextId ::
                         store.rows[c].name != name
  {
    Get(store.rows, (n: Inode) => n.parent == Some(dir) && n.name == name, store.nextId)
  }

  /** `write`: `NotADirectory` for a non-directory target, then every parent
      and the directory itself must be executable; a missing child is
      created only in a writable directory, an existing file is overwritten
      only when writable, an existing directory is refused as `NotAFile`. */
  function WriteDecision(store: Store, dir: InodeId, name: string, perm: Perm): (r: WriteStep)
    reads store
    requires store.Valid() && dir in store.rows
    ensures r.Refuse? && r.error.NotExecutable? ==>
      && (r.error.inode == dir || r.error.inode in Ancestors(store.rows, dir))
      && !perm(store.rows[r.error.inode], Access.Execute)
    ensures r.Refuse? && r.error.NotWritable? ==>
      r.error.inode in store.rows && !perm(store.rows[r.error.inode], Access.Write)
    ensures r.Refuse? && r.error.NotAFile? ==>
      r.error.inode in store.rows && IsDir(store.rows[r.error.inode])
      && store.rows[r.error.inode].parent == Some(dir) && store.rows[r.error.inode].name == name
  {
    var rows := store.rows;
    if !IsDir(rows[dir]) then Refuse(PolicyError.NotADirectory(dir))
    else match FirstBlocked(rows, Ancestors(rows, dir), perm)
      case Some(p) => Refuse(NotExecutable(p))
      case None =>
        if !perm(rows[dir], Access.Execute) then Refuse(NotExecutable(dir))
        else match ChildNamed(store, dir, name)
          case Err(_) =>
            if perm(rows[dir], Access.Write) then Create else Refuse(NotWritable(dir))
          case Ok(c) =>
            if IsFile(rows[c]) then
              if perm(rows[c], Access.Write) then Overwrite(c) else Refuse(NotWritable(c))
            else Refuse(PolicyError.NotAFile(c))
  }

  /** Nothing is written unless the target is a directory whose parents and
      itself may be executed, and the directory (to create) or the file (to
      overwrite) may be written. */
  lemma WriteOnlyWhenPermitted(store: Store, dir: InodeId, name: string, perm: Perm)
    requires store.Valid() && dir in store.rows
    ensures !WriteDecision(store, dir, name, perm).Refuse? ==>
            && IsDir(store.rows[dir])
            && (forall x | x in Ancestors(store.rows, dir) :: perm(store.rows[x], Access.Execute))
            && perm(store.rows[dir], Access.Execute)
    ensures WriteDecision(store, dir, name, perm).Create? ==>
            perm(store.rows[dir], Access.Write) && ChildNamed(store, dir, name).Err?
    ensures WriteDecision(store, dir, name, perm).Overwrite? ==>
            var c := WriteDecision(store, dir, name, perm).file;
            && c in store.rows && store.rows[c].parent == Some(dir) && store.rows[c].name == name
            && IsFile(store.rows[c]) && perm(store.rows[c], Access.Write)
  {
    FirstBlockedMeaning(store.rows, Ancestors(store.rows, dir), perm);
  }

  /** The directory and every parent of it may be executed. */
  predicate Traversable(rows: Rows, dir: InodeId, perm: Perm)
    requires WellFormed(rows) && dir in rows
  {
    (forall x | x in Ancestors(rows, dir) :: perm(rows[x], Access.Execute)) && perm(rows[dir], Access.Execute)
  }

  /** The checks of `write` in their order: a target that is not a
      directory first, then the first parent or the directory itself that
      may not be executed; then a missing child is created exactly when the
      directory is writable, and an existing child is overwritten exactly
      when it is a writable file, a directory child being refused as
      `NotAFile`. */
  lemma WriteDecisionOrder(store: Store, dir: InodeId, name: string, perm: Perm)
    requires store.Valid() && dir in store.rows
    ensures var rows := store.rows;
      !IsDir(rows[dir]) ==> WriteDecision(store, dir, name, perm) == Refuse(PolicyError.NotADirectory(dir))
    ensures var rows := store.rows;
      IsDir(rows[dir]) ==>
        forall p: InodeId :: WriteDecision(store, dir, name, perm) == Refuse(NotExecutable(p)) <==>
          FirstBlocked(rows, Ancestors(rows, dir) + [dir], perm) == Some(p)
    ensures var rows := store.rows;
      WriteDecision(store, dir, name, perm) == Create <==>
        && IsDir(rows[dir]) && Traversable(rows, dir, perm)
        && ChildNamed(store, dir, name).Err? && perm(rows[dir], Access.Write)
    ensures var rows := store.rows;
      forall c: InodeId :: WriteDecision(store, dir, name, perm) == Overwrite(c) <==>
        && IsDir(rows[dir]) && Traversable(rows, dir, perm)
        && ChildNamed(store, dir, name) == Ok(c) && IsFile(rows[c]) && perm(rows[c], Access.Write)
    ensures var rows := store.rows;
      IsDir(rows[dir]) && Traversable(rows, dir, perm) && ChildNamed(store, dir, name).Err?
        && !perm(rows[dir], Access.Write) ==>
        WriteDecision(store, dir, name, perm) == Refuse(NotWritable(dir))
    ensures var rows := store.rows;
      forall c: InodeId ::
        IsDir(rows[dir]) && Traversable(rows, dir, perm) && ChildNamed(store, dir, name) == Ok(c) ==>
          && (IsDir(rows[c]) ==> WriteDecision(store, dir, name, perm) == Refuse(PolicyError.NotAFile(c)))
          && (IsFile(rows[c]) && !perm(rows[c], Access.Write) ==>
                WriteDecision(store, dir, name, perm) == Refuse(NotWritable(c)))
  {
    var rows := store.rows;
    var ancestors := Ancestors(rows, dir);
    FirstBlockedMeaning(rows, ancestors, perm);
    FirstBlockedAppend(rows, ancestors, dir, perm);
  }

  /** Checking one more inode after a list of them. */
  lemma {:induction false} FirstBlockedAppend(rows: Rows, ids: seq<InodeId>, last: InodeId, perm: Perm)
    requires forall x | x in ids :: x in rows
    requires last in rows
    ensures FirstBlocked(rows, ids + [last], perm) ==
      if FirstBlocked(rows, ids, perm).Some? then FirstBlocked(rows, ids, perm)
      else if perm(rows[last], Access.Execute) then None else Some(last)
  {
    if ids != [] {
      assert (ids + [last])[1..] == ids[1..] + [last];
      FirstBlockedAppend(rows, ids[1..], last, perm);
    }
  }

  /** Result of `write`: the created or rewritten file. */
  datatype Written = Written(inode: Inode, saved: Option<InodeId>)

  /** `UserInode.write`. A created file gets the blob and then its row; an
      existing file gets a new blob through the `data` setter, which the
      code returns without saving the row. The owner and mode of a created
      file are parameters: `add_file` is not part of this model. Failures of
      the content store are given by `addFails` and `deleteFails`. */
  method WriteFile(store: Store, data: Blob, dir: InodeId, name: string, perm: Perm,
               owner: Account, mode: Mode, addFails: bool, deleteFails: bool)
    returns (r: Result<Written, PolicyError>)
    requires store.Valid() && dir in store.rows
    modifies store
    ensures store.Valid()
    ensures var step := old(WriteDecision(store, dir, name, perm));
      && (step.Refuse? || addFails ==>
            && store.rows == old(store.rows) && store.blobs == old(store.blobs)
            && store.nextId == old(store.nextId) && store.nextBlob == old(store.nextBlob))
      && (step.Refuse? ==> r == Err(step.error))
      && (!step.Refuse? && addFails ==> r == Err(Fs(WriteError)))
      && (step.Create? && !addFails ==>
            && r == Ok(Written(Inode(Some(dir), name, owner, owner.customer, mode, Some(old(store.nextBlob))),
                               Some(old(store.nextId))))
            && store.rows == old(store.rows)[old(store.nextId) := r.value.inode]
            && store.nextId == old(store.nextId) + 1
            && store.blobs == old(store.blobs)[old(store.nextBlob) := data]
            && store.nextBlob == old(store.nextBlob) + 1)
      && (step.Overwrite? && !addFails ==>
            && r == Ok(Written(old(store.rows)[step.file].(file := Some(old(store.nextBlob))), None))
            && store.rows == old(store.rows) && store.nextId == old(store.nextId)
            && store.blobs == (if deleteFails then old(store.blobs)[old(store.nextBlob) := data]
                               else old(store.blobs)[old(store.nextBlob) := data] - {old(store.rows)[step.file].file.value})
            && store.nextBlob == old(store.nextBlob) + 1)
    ensures r.Ok? ==> store.Content(r.value.inode) == Ok(data)
  {
    var rows := store.rows;
    if !IsDir(rows[dir]) {
      return Err(PolicyError.NotADirectory(dir));
    }
    var blocked := CheckParents(rows, Ancestors(rows, dir), perm);
    if blocked.Some? {
      return Err(NotExecutable(blocked.value));
    }
    if !perm(rows[dir], Access.Execute) {
      return Err(NotExecutable(dir));
    }
    var child := ChildNamed(store, dir, name);
    if child.Err? {
      if !perm(rows[dir], Access.Write) {
        return Err(NotWritable(dir));
      }
      var blank := Inode(Some(dir), name, owner, owner.customer, mode, None);
      var stored := store.SetData(blank, false, data, addFails, deleteFails);
      if stored.Err? {
        return Err(Fs(stored.error));
      }
      var id := store.Insert(stored.value);
      return Ok(Written(stored.value, Some(id)));
    }
    var c := child.value;
    if !IsFile(rows[c]) {
      return Err(PolicyError.NotAFile(c));
    }
    if !perm(rows[c], Access.Write) {
      return Err(NotWritable(c));
    }
    var updated := store.SetData(rows[c], true, data, addFails, deleteFails);
    if updated.Err? {
      return Err(Fs(updated.error));
    }
    r := Ok(Written(updated.value, None));
  }
}
