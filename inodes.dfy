/** The inode tree of the first file system generation (fs/orm.py): inode
    records in one table, linked to their parent, owned by an account and a
    customer, with nine mode bits and an optional reference into the content
    store (a directory is an inode without one). */
module Inodes {
  import opened Common
  import opened Text
  import opened Permissions

  type InodeId = nat
  type BlobId = nat

  /** `Inode.PATHSEP`. */
  const PathSep: char := '/'

  /** One row of the inode table. `parent` is `None` for a top-level inode,
      `file` is `None` for a directory. */
  datatype Inode = Inode(
    parent: Option<InodeId>,
    name: string,
    owner: Account,
    group: CustomerId,
    mode: Mode,
    file: Option<BlobId>)

  /** `isdir`. */
  predicate IsDir(n: Inode)
  {
    n.file.None?
  }

  /** `isfile`. */
  predicate IsFile(n: Inode)
  {
    !IsDir(n)
  }

  /** `root`: the inode sits at the top level. */
  predicate IsRoot(n: Inode)
  {
    n.parent.None?
  }

  datatype FsError =
    | EmptyName                 // ValueError of the name setter
    | NameContainsSeparator     // ValueError of the name setter
    | NoOwnerNorGroup           // ValueError('Must specify owner and/or group')
    | DoesNotExist              // no row matched a lookup
    | FileNotFound(path: string)
    | NotAFile
    | NotADirectory
    | ReadError
    | WriteError
    | DirectoryNotEmpty
    | StoreError                // a content-store failure that is not translated
    | ConsistencyError(inode: InodeId)
    | NotReversible             // TypeError of `reversed` on a generator
    | MissingAttribute          // AttributeError

  type Rows = map<InodeId, Inode>

  /** Every parent reference points at a row with a smaller id: rows get
      ascending ids and a child is created after its parent, and nothing in
      this core moves an inode to another parent. This makes the parent
      relation acyclic. */
  ghost predicate WellFormed(rows: Rows)
  {
    forall id | id in rows && rows[id].parent.Some? ::
      rows[id].parent.value in rows && rows[id].parent.value < id
  }

  // ---------------------------------------------------------------------
  // Name setter

  /** The `name` setter: an empty name or one holding the separator raises
      `ValueError` and leaves the inode as it was; any other name is stored
      as given. */
  function SetName(n: Inode, name: string): (r: Result<Inode, FsError>)
    ensures r.Ok? <==> name != [] && PathSep !in name
    ensures r.Ok? ==> r.value == n.(name := name)
    ensures name == [] ==> r == Err(EmptyName)
    ensures name != [] && PathSep in name ==> r == Err(NameContainsSeparator)
  {
    if name == [] then Err(EmptyName)
    else if PathSep in name then Err(NameContainsSeparator)
    else Ok(n.(name := name))
  }

  /** A name the setter accepts is exactly one non-empty path component. */
  lemma AcceptedNameIsOneComponent(n: Inode, name: string)
    requires SetName(n, name).Ok?
    ensures Split(name, PathSep) == [name]
    ensures NonEmpty(Split(name, PathSep)) == [name]
  {
    SplitNoSep(name, PathSep);
    assert NonEmpty([name]) == [name] + NonEmpty([]);
  }

  // ---------------------------------------------------------------------
  // Queries

  /** The ids of the rows below `bound` that satisfy `p`, in ascending
      order: a `select ... where` over the table. */
  function Select(rows: Rows, p: Inode -> bool, bound: nat): (r: seq<InodeId>)
    ensures forall i | 0 <= i < |r| :: r[i] < bound && r[i] in rows && p(rows[r[i]])
    ensures forall id | id < bound && id in rows && p(rows[id]) :: id in r
    ensures forall i, j | 0 <= i < j < |r| :: r[i] < r[j]
  {
    if bound == 0 then []
    else
      Select(rows, p, bound - 1)
      + (if bound - 1 in rows && p(rows[bound - 1]) then [bound - 1] else [])
  }

  /** `Model.get(...)`: the first matching row, or `DoesNotExist`. */
  function Get(rows: Rows, p: Inode -> bool, bound: nat): (r: Result<InodeId, FsError>)
    ensures r.Ok? ==> r.value < bound && r.value in rows && p(rows[r.value])
    ensures r.Ok? ==> forall id | id < r.value && id in rows :: !p(rows[id])
    ensures r.Err? ==> r.error == DoesNotExist
    ensures r.Err? ==> forall id | id < bound && id in rows :: !p(rows[id])
  {
    var s := Select(rows, p, bound);
    if s == [] then Err(DoesNotExist) else Ok(s[0])
  }

  /** The owner/group restriction of `of`, `root_of` and `by_path`. */
  datatype Scope = Scope(owner: Option<Account>, group: Option<CustomerId>)

  predicate InScope(s: Scope, n: Inode)
  {
    && (s.owner.Some? ==> IsOwner(n.owner, s.owner.value))
    && (s.group.Some? ==> n.group == s.group.value)
  }

  predicate Unscoped(s: Scope)
  {
    s.owner.None? && s.group.None?
  }

  /** `of`: the inodes of an owner and/or a group. */
  function Of(rows: Rows, bound: nat, s: Scope): (r: Result<seq<InodeId>, FsError>)
    ensures r.Err? <==> Unscoped(s)
    ensures r.Err? ==> r.error == NoOwnerNorGroup
    ensures r.Ok? ==> forall id :: id in r.value <==> id < bound && id in rows && InScope(s, rows[id])
  {
    if Unscoped(s) then Err(NoOwnerNorGroup)
    else Ok(Select(rows, n => InScope(s, n), bound))
  }

  /** `root_of`: the first top-level directory of an owner and/or a group. */
  function RootOf(rows: Rows, bound: nat, s: Scope): (r: Result<InodeId, FsError>)
    ensures Unscoped(s) ==> r == Err(NoOwnerNorGroup)
    ensures r.Ok? ==> r.value in rows && var n := rows[r.value]; InScope(s, n) && IsDir(n) && IsRoot(n)
    ensures !Unscoped(s) && r.Err? ==>
      r.error == DoesNotExist
      && forall id | id < bound && id in rows :: !(InScope(s, rows[id]) && IsDir(rows[id]) && IsRoot(rows[id]))
  {
    if Unscoped(s) then Err(NoOwnerNorGroup)
    else Get(rows, n => InScope(s, n) && IsDir(n) && IsRoot(n), bound)
  }

  /** The rows whose parent is `id`. */
  function ChildIds(rows: Rows, id: InodeId): set<InodeId>
  {
    set c | c in rows && rows[c].parent == Some(id)
  }

  // ---------------------------------------------------------------------
  // Lineage and paths

  /** The chain of inodes from a top-level inode down to `id`. */
  function Lineage(rows: Rows, id: InodeId): (r: seq<InodeId>)
    requires WellFormed(rows) && id in rows
    ensures |r| >= 1 && r[|r| - 1] == id
    ensures forall i | 0 <= i < |r| :: r[i] in rows
    ensures rows[r[0]].parent.None?
    ensures forall i | 0 < i < |r| :: rows[r[i]].parent == Some(r[i - 1])
    decreases id
  {
    match rows[id].parent
    case None => [id]
    case Some(p) => Lineage(rows, p) + [id]
  }

  function Names(rows: Rows, ids: seq<InodeId>): (r: seq<string>)
    requires forall i | 0 <= i < |ids| :: ids[i] in rows
    ensures |r| == |ids|
    ensures forall i | 0 <= i < |ids| :: r[i] == rows[ids[i]].name
  {
    seq(|ids|, i requires 0 <= i < |ids| => rows[ids[i]].name)
  }

  /** What `path` is meant to compute: the root marker '' followed by the
      names from the outermost ancestor down to the inode, joined by '/'. */
  function PathOf(rows: Rows, id: InodeId): string
    requires WellFormed(rows) && id in rows
  {
    Join([[]] + NamesTo(rows, id), PathSep)
  }

  /** The names from the outermost ancestor down to `id`. */
  function NamesTo(rows: Rows, id: InodeId): seq<string>
    requires WellFormed(rows) && id in rows
  {
    Names(rows, Lineage(rows, id))
  }

  /** The names down to the parent of `id`; none at the top. */
  function ParentNames(rows: Rows, id: InodeId): seq<string>
    requires WellFormed(rows) && id in rows
  {
    match rows[id].parent
    case None => []
    case Some(p) => NamesTo(rows, p)
  }

  lemma NamesToStep(rows: Rows, id: InodeId)
    requires WellFormed(rows) && id in rows
    ensures NamesTo(rows, id) == ParentNames(rows, id) + [rows[id].name]
  {
    match rows[id].parent
    case None =>
    case Some(p) =>
      assert Lineage(rows, id) == Lineage(rows, p) + [id];
  }

  /** A path starts with the separator. */
  lemma PathStartsWithSep(rows: Rows, id: InodeId)
    requires WellFormed(rows) && id in rows
    ensures PathOf(rows, id) == [PathSep] + Join(NamesTo(rows, id), PathSep)
    ensures PathOf(rows, id)[0] == PathSep
  {
    var names := NamesTo(rows, id);
    assert |names| >= 1;
    JoinCons([], names, PathSep);
  }

  /** A path ends with the inode's own name. */
  lemma PathEndsWithName(rows: Rows, id: InodeId)
    requires WellFormed(rows) && id in rows
    ensures var p := PathOf(rows, id); var name := rows[id].name;
            |p| > |name| && p[|p| - |name|..] == name
  {
    PathStartsWithSep(rows, id);
    var names := NamesTo(rows, id);
    var j := Join(names, PathSep);
    JoinLast(names, PathSep);
    assert names[|names| - 1] == rows[id].name;
    var m := |rows[id].name|;
    assert ([PathSep] + j)[|j| + 1 - m..] == j[|j| - m..];
  }

  /** The path of a child extends its parent's path by one component. */
  lemma PathOfChild(rows: Rows, parent: InodeId, child: InodeId)
    requires WellFormed(rows) && child in rows && rows[child].parent == Some(parent)
    ensures PathOf(rows, child) == PathOf(rows, parent) + [PathSep] + rows[child].name
  {
    NamesToStep(rows, child);
    assert [[]] + NamesTo(rows, child) == ([[]] + NamesTo(rows, parent)) + [rows[child].name];
    JoinAppend([[]] + NamesTo(rows, parent), rows[child].name, PathSep);
  }

  /** `path` as written: `reversed` is applied to the generator `revpath`
      yields, which Python refuses with a `TypeError` for every inode. */
  function PathAsWritten(rows: Rows, id: InodeId): (r: Result<string, FsError>)
    requires WellFormed(rows) && id in rows
    ensures r == Err(NotReversible)
  {
    Err(NotReversible)
  }

  /** `path`, built as `revpath` does: the inode's name, then each parent's
      name walking up, then the root marker '', reversed and joined by '/'. */
  method Path(rows: Rows, id: InodeId) returns (p: string)
    requires WellFormed(rows) && id in rows
    ensures p == PathOf(rows, id)
  {
    var rev: seq<string> := [rows[id].name];
    var cur := id;
    var parent := rows[id].parent;
    NamesToStep(rows, id);
    while parent.Some?
      invariant cur in rows && parent == rows[cur].parent
      invariant ParentNames(rows, cur) + Reverse(rev) == NamesTo(rows, id)
      decreases cur
    {
      var pid := parent.value;
      RevPathStep(rows, cur, rev);
      rev := rev + [rows[pid].name];
      cur := pid;
      parent := rows[pid].parent;
    }
    RevPathDone(rows, cur, rev, id);
    p := Join(Reverse(rev + [[]]), PathSep);
  }

  /** One round of the `revpath` loop keeps the names still to be walked
      followed by the reversed names collected equal to the whole chain. */
  lemma RevPathStep(rows: Rows, cur: InodeId, rev: seq<string>)
    requires WellFormed(rows) && cur in rows && rows[cur].parent.Some?
    ensures var pid := rows[cur].parent.value;
            ParentNames(rows, pid) + Reverse(rev + [rows[pid].name]) == ParentNames(rows, cur) + Reverse(rev)
  {
    var pid := rows[cur].parent.value;
    NamesToStep(rows, pid);
    ReverseAppend(rev, rows[pid].name);
    assert ParentNames(rows, pid) + ([rows[pid].name] + Reverse(rev))
        == (ParentNames(rows, pid) + [rows[pid].name]) + Reverse(rev);
  }

  /** At the top the collected names, with the root marker, reverse into
      the path. */
  lemma RevPathDone(rows: Rows, cur: InodeId, rev: seq<string>, id: InodeId)
    requires WellFormed(rows) && cur in rows && id in rows && rows[cur].parent.None?
    requires ParentNames(rows, cur) + Reverse(rev) == NamesTo(rows, id)
    ensures Join(Reverse(rev + [[]]), PathSep) == PathOf(rows, id)
  {
    assert [] + Reverse(rev) == Reverse(rev);
    ReverseAppend(rev, []);
  }

  // ---------------------------------------------------------------------
  // Path resolution

  /** The child `by_path` takes one step to: as written, any child of
      `parent` in scope, whatever its name; with `byName` set, the child
      whose name also matches. */
  function ChildFilter(s: Scope, parent: InodeId, name: string, byName: bool): Inode -> bool
  {
    n => InScope(s, n) && n.parent == Some(parent) && (byName ==> n.name == name)
  }

  /** Walks `comps` from `start`, one child per component; on a miss the
      error is the index of the component that found no child. */
  function Walk(rows: Rows, bound: nat, s: Scope, start: InodeId, comps: seq<string>, byName: bool)
    : (r: Result<InodeId, nat>)
    ensures r.Err? ==> r.error < |comps|
    decreases |comps|
  {
    if comps == [] then Ok(start)
    else
      match Walk(rows, bound, s, start, comps[..|comps| - 1], byName)
      case Err(i) => Err(i)
      case Ok(cur) =>
        match Get(rows, ChildFilter(s, cur, comps[|comps| - 1], byName), bound)
        case Ok(c) => Ok(c)
        case Err(_) => Err(|comps| - 1)
  }

  /** Resolving by name and then asking for the path gives back the path
      walked: the start's path followed by the components. */
  lemma {:induction false} WalkPathRoundTrip(
    rows: Rows, bound: nat, s: Scope, start: InodeId, comps: seq<string>, x: InodeId)
    requires WellFormed(rows) && start in rows
    requires Walk(rows, bound, s, start, comps, true) == Ok(x)
    ensures x in rows
    ensures PathOf(rows, x) == Join([PathOf(rows, start)] + comps, PathSep)
    decreases |comps|
  {
    if comps == [] {
      assert [PathOf(rows, start)] + comps == [PathOf(rows, start)];
    } else {
      var init, last := comps[..|comps| - 1], comps[|comps| - 1];
      WalkLastStep(rows, bound, s, start, comps, x);
      var cur := Walk(rows, bound, s, start, init, true).value;
      WalkPathRoundTrip(rows, bound, s, start, init, cur);
      PathOfChild(rows, cur, x);
      JoinExtend(PathOf(rows, start), comps, PathOf(rows, cur), PathOf(rows, x));
    }
  }

  /** A path one component longer than a joined path is the join with that
      component appended. */
  lemma JoinExtend(first: string, comps: seq<string>, before: string, after: string)
    requires comps != []
    requires before == Join([first] + comps[..|comps| - 1], PathSep)
    requires after == before + [PathSep] + comps[|comps| - 1]
    ensures after == Join([first] + comps, PathSep)
  {
    var init, last := comps[..|comps| - 1], comps[|comps| - 1];
    ConsSnoc(first, comps);
    JoinAppend([first] + init, last, PathSep);
  }

  /** A non-empty sequence behind a head is the head with all but its last
      element, followed by that last element. */
  lemma ConsSnoc<T>(first: T, comps: seq<T>)
    requires comps != []
    ensures [first] + comps == ([first] + comps[..|comps| - 1]) + [comps[|comps| - 1]]
  {
    assert comps == comps[..|comps| - 1] + [comps[|comps| - 1]];
  }

  /** The last step of a walk by name lands on a child of the inode the
      rest of the walk reached, carrying the last component as its name. */
  lemma WalkLastStep(rows: Rows, bound: nat, s: Scope, start: InodeId, comps: seq<string>, x: InodeId)
    requires comps != [] && Walk(rows, bound, s, start, comps, true) == Ok(x)
    ensures Walk(rows, bound, s, start, comps[..|comps| - 1], true).Ok?
    ensures var cur := Walk(rows, bound, s, start, comps[..|comps| - 1], true).value;
            x in rows && rows[x].parent == Some(cur) && rows[x].name == comps[|comps| - 1]
  {
    var cur := Walk(rows, bound, s, start, comps[..|comps| - 1], true).value;
    var p := ChildFilter(s, cur, comps[|comps| - 1], true);
    assert Get(rows, p, bound) == Ok(x);
    assert p(rows[x]);
  }

  /** Resolution as written ignores the names: with two children of the
      root, the path "b" resolves to the first child, named "a". */
  lemma ByPathIgnoresNames(owner: Account, mode: Mode)
    ensures var rows := map[0 := Inode(None, "root", owner, owner.customer, mode, None),
                            1 := Inode(Some(0), "a", owner, owner.customer, mode, None),
                            2 := Inode(Some(0), "b", owner, owner.customer, mode, None)];
            var s := Scope(None, Some(owner.customer));
            && Walk(rows, 3, s, 0, ["b"], false) == Ok(1)
            && Walk(rows, 3, s, 0, ["b"], true) == Ok(2)
  {
    var rows := map[0 := Inode(None, "root", owner, owner.customer, mode, None),
                     1 := Inode(Some(0), "a", owner, owner.customer, mode, None),
                     2 := Inode(Some(0), "b", owner, owner.customer, mode, None)];
    var s := Scope(None, Some(owner.customer));
    var comps: seq<string> := ["b"];
    assert comps[..0] == [];
    var any := ChildFilter(s, 0, "b", false);
    var named := ChildFilter(s, 0, "b", true);
    assert any(rows[1]) && !named(rows[1]) && named(rows[2]);
    assert Get(rows, any, 3) == Ok(1);
    assert Get(rows, named, 3) == Ok(2);
  }

  // ---------------------------------------------------------------------
  // Permissions along the parent chain

  function OwnReadable(n: Inode, a: Account): bool
  {
    Permissions.ReadableBy(n.mode, n.owner, a)
  }

  function OwnWritable(n: Inode, a: Account): bool
  {
    Permissions.WritableBy(n.mode, n.owner, a)
  }

  function OwnExecutable(n: Inode, a: Account): bool
  {
    Permissions.ExecutableBy(n.mode, n.owner, a)
  }

  /** What `_parents_readable` evidently means: walking the parents from the
      nearest outwards, a file parent raises `ConsistencyError`, a parent
      directory the account may not execute answers false, and true once
      the top is passed. */
  function ParentsCheck(rows: Rows, id: InodeId, a: Account): (r: Result<bool, FsError>)
    requires WellFormed(rows) && id in rows
    ensures r.Err? ==> r.error.ConsistencyError?
    decreases id
  {
    match rows[id].parent
    case None => Ok(true)
    case Some(p) =>
      if IsFile(rows[p]) then Err(ConsistencyError(p))
      else if !OwnExecutable(rows[p], a) then Ok(false)
      else ParentsCheck(rows, p, a)
  }

  /** The proper ancestors, outermost first. */
  function Ancestors(rows: Rows, id: InodeId): (r: seq<InodeId>)
    requires WellFormed(rows) && id in rows
    ensures forall x | x in r :: x in rows
    decreases id
  {
    match rows[id].parent
    case None => []
    case Some(p) => Ancestors(rows, p) + [p]
  }

  /** A directory the account may pass through. */
  predicate Passable(n: Inode, a: Account)
  {
    IsDir(n) && OwnExecutable(n, a)
  }

  /** The parent check passes exactly when every ancestor is a directory the
      account may execute; a `ConsistencyError` names an ancestor that is a
      file. */
  lemma {:induction false} ParentsCheckMeaning(rows: Rows, id: InodeId, a: Account)
    requires WellFormed(rows) && id in rows
    ensures ParentsCheck(rows, id, a) == Ok(true) <==>
            forall x | x in Ancestors(rows, id) :: Passable(rows[x], a)
    ensures ParentsCheck(rows, id, a).Err? ==>
            var p := ParentsCheck(rows, id, a).error.inode;
            p in Ancestors(rows, id) && IsFile(rows[p])
    decreases id
  {
    match rows[id].parent
    case None =>
    case Some(p) =>
      ParentsCheckMeaning(rows, p, a);
      var anc := Ancestors(rows, p);
      assert Ancestors(rows, id) == anc + [p];
      assert (forall x | x in anc + [p] :: Passable(rows[x], a))
         <==> (forall x | x in anc :: Passable(rows[x], a)) && Passable(rows[p], a);
  }

  /** `readable_by` as written: `_parents_readable` reads `self.inode`, an
      attribute an inode does not have, so once the inode's own triads
      grant, the call raises `AttributeError` instead of answering. */
  function ReadableByAsWritten(rows: Rows, id: InodeId, a: Account): (r: Result<bool, FsError>)
    requires WellFormed(rows) && id in rows
    ensures r == Ok(false) <==> !OwnReadable(rows[id], a)
    ensures r.Err? <==> OwnReadable(rows[id], a)
    ensures r.Err? ==> r.error == MissingAttribute
  {
    if !OwnReadable(rows[id], a) then Ok(false) else Err(MissingAttribute)
  }

  /** The inode at the top of its tree is readable by its owner when the
      owner triad grants reading, but the code as written raises there. */
  lemma ReadableByAsWrittenRaises(rows: Rows, id: InodeId)
    requires WellFormed(rows) && id in rows && IsRoot(rows[id]) && rows[id].mode.user.read
    ensures InodeReadableBy(rows, id, rows[id].owner) == Ok(true)
    ensures ReadableByAsWritten(rows, id, rows[id].owner) == Err(MissingAttribute)
  {
  }

  /** `executable_by` as written: like `readable_by`, it raises
      `AttributeError` from `_parents_readable` once the own triads grant. */
  function ExecutableByAsWritten(rows: Rows, id: InodeId, a: Account): (r: Result<bool, FsError>)
    requires WellFormed(rows) && id in rows
    ensures r == Ok(false) <==> !OwnExecutable(rows[id], a)
    ensures r.Err? <==> OwnExecutable(rows[id], a)
    ensures r.Err? ==> r.error == MissingAttribute
  {
    if !OwnExecutable(rows[id], a) then Ok(false) else Err(MissingAttribute)
  }

  /** Outcome of a loop that may not end. */
  datatype LoopOutcome = Returns(value: bool) | Raises(error: FsError) | Diverges

  /** The loop of `_parents_readable` once it starts from `self.parent`:
      as written it never assigns `parent = parent.parent`, so a first
      parent that is a directory the account may execute is tested
      forever. */
  function ParentsLoopAsWritten(rows: Rows, id: InodeId, a: Account): (r: LoopOutcome)
    requires WellFormed(rows) && id in rows
    ensures r == Diverges <==> rows[id].parent.Some? && Passable(rows[rows[id].parent.value], a)
  {
    match rows[id].parent
    case None => Returns(true)
    case Some(p) =>
      if IsDir(rows[p]) then
        if !OwnExecutable(rows[p], a) then Returns(false) else Diverges
      else Raises(ConsistencyError(p))
  }

  /** Where that loop ends, it agrees with the intended check; directly
      below a top-level directory the account may execute it never ends,
      where the intended check answers true. */
  lemma OrmParentsLoopNeverAdvances(rows: Rows, id: InodeId, a: Account)
    requires WellFormed(rows) && id in rows
    ensures match ParentsLoopAsWritten(rows, id, a)
            case Returns(b) => ParentsCheck(rows, id, a) == Ok(b)
            case Raises(e) => ParentsCheck(rows, id, a) == Err(e)
            case Diverges => ParentsCheck(rows, id, a) == ParentsCheck(rows, rows[id].parent.value, a)
    ensures rows[id].parent.Some? && IsRoot(rows[rows[id].parent.value])
            && Passable(rows[rows[id].parent.value], a) ==>
            ParentsLoopAsWritten(rows, id, a) == Diverges && ParentsCheck(rows, id, a) == Ok(true)
  {
  }

  /** `readable_by`: the inode's own triads and then, only if they grant,
      the parent check (Python's `and` does not evaluate its right side
      after false). */
  function InodeReadableBy(rows: Rows, id: InodeId, a: Account): (r: Result<bool, FsError>)
    requires WellFormed(rows) && id in rows
    ensures !OwnReadable(rows[id], a) ==> r == Ok(false)
    ensures OwnReadable(rows[id], a) ==> r == ParentsCheck(rows, id, a)
  {
    if !OwnReadable(rows[id], a) then Ok(false) else ParentsCheck(rows, id, a)
  }

  /** `writable_by`. */
  function InodeWritableBy(rows: Rows, id: InodeId, a: Account): (r: Result<bool, FsError>)
    requires WellFormed(rows) && id in rows
    ensures !OwnWritable(rows[id], a) ==> r == Ok(false)
    ensures OwnWritable(rows[id], a) ==> r == ParentsCheck(rows, id, a)
  {
    if !OwnWritable(rows[id], a) then Ok(false) else ParentsCheck(rows, id, a)
  }

  /** `executable_by`. */
  function InodeExecutableBy(rows: Rows, id: InodeId, a: Account): (r: Result<bool, FsError>)
    requires WellFormed(rows) && id in rows
    ensures !OwnExecutable(rows[id], a) ==> r == Ok(false)
    ensures OwnExecutable(rows[id], a) ==> r == ParentsCheck(rows, id, a)
  {
    if !OwnExecutable(rows[id], a) then Ok(false) else ParentsCheck(rows, id, a)
  }

  /** A root account reads every inode whose ancestors it may pass. */
  lemma RootReadsBelowExecutableParents(rows: Rows, id: InodeId, a: Account)
    requires WellFormed(rows) && id in rows && a.root
    requires ParentsCheck(rows, id, a) == Ok(true)
    ensures InodeReadableBy(rows, id, a) == Ok(true)
  {
  }

  // ---------------------------------------------------------------------
  // Subtrees

  /** `x` is `root` or lies below it. */
  ghost predicate InSubtree(rows: Rows, root: InodeId, x: InodeId)
    decreases x
  {
    x == root
    || (x in rows && rows[x].parent.Some? && rows[x].parent.value < x
        && InSubtree(rows, root, rows[x].parent.value))
  }

  lemma {:induction false} InSubtreeAbove(rows: Rows, root: InodeId, x: InodeId)
    requires InSubtree(rows, root, x)
    ensures root <= x
    decreases x
  {
    if x != root {
      InSubtreeAbove(rows, root, rows[x].parent.value);
    }
  }

  /** A subtree of a child lies within the subtree of its parent. */
  lemma {:induction false} InSubtreeOfParent(rows: Rows, parent: InodeId, child: InodeId, x: InodeId)
    requires child in rows && rows[child].parent == Some(parent) && parent < child
    requires InSubtree(rows, child, x)
    ensures InSubtree(rows, parent, x)
    decreases x
  {
    if x != child {
      InSubtreeOfParent(rows, parent, child, rows[x].parent.value);
    }
  }

  /** Membership in a subtree only grows with the table. */
  lemma {:induction false} InSubtreeGrow(small: Rows, big: Rows, root: InodeId, x: InodeId)
    requires forall y | y in small :: y in big && big[y] == small[y]
    requires InSubtree(small, root, x)
    ensures InSubtree(big, root, x)
    decreases x
  {
    if x != root {
      InSubtreeGrow(small, big, root, small[x].parent.value);
    }
  }

  /** In a well-formed part of a table, a surviving row keeps its place in
      a subtree. */
  lemma {:induction false} InSubtreeShrink(small: Rows, big: Rows, root: InodeId, x: InodeId)
    requires WellFormed(small)
    requires forall y | y in small :: y in big && big[y] == small[y]
    requires x in small && InSubtree(big, root, x)
    ensures InSubtree(small, root, x)
    decreases x
  {
    if x != root {
      InSubtreeShrink(small, big, root, big[x].parent.value);
    }
  }

  /** A proper descendant of `root` means `root` has a child. */
  lemma {:induction false} DescendantMeansChild(rows: Rows, root: InodeId, x: InodeId)
    requires WellFormed(rows) && x in rows && x != root && InSubtree(rows, root, x)
    ensures ChildIds(rows, root) != {}
    decreases x
  {
    var p := rows[x].parent.value;
    if p == root {
      assert x in ChildIds(rows, root);
    } else {
      DescendantMeansChild(rows, root, p);
    }
  }

  /** The blobs referenced by the rows `ids`. */
  function FilesOf(rows: Rows, ids: set<InodeId>): set<BlobId>
  {
    set x | x in ids && x in rows && rows[x].file.Some? :: rows[x].file.value
  }

  lemma FilesOfUnion(small: Rows, big: Rows, a: set<InodeId>, b: set<InodeId>)
    requires forall y | y in small :: y in big && big[y] == small[y]
    requires b <= small.Keys
    ensures FilesOf(big, a) + FilesOf(small, b) == FilesOf(big, a + b)
  {
    assert FilesOf(small, b) == FilesOf(big, b);
  }

  /** The rows of `small` are rows of `big`, unchanged. */
  ghost predicate Agrees(small: Rows, big: Rows)
  {
    forall x | x in small :: x in big && big[x] == small[x]
  }

  /** Every row of `orig` missing from `now` lies in the subtree of `root`. */
  ghost predicate RemovedWithin(orig: Rows, now: Rows, root: InodeId)
  {
    forall x | x in orig && x !in now :: InSubtree(orig, root, x)
  }

  /** Some inode of the subtree of `root` has a blob whose delete fails. */
  ghost predicate SubtreeBlobFails(rows: Rows, root: InodeId, failing: set<BlobId>)
  {
    exists x | x in rows && InSubtree(rows, root, x) :: rows[x].file.Some? && rows[x].file.value in failing
  }

  /** No row that went from `orig` to `now` had a blob whose delete fails. */
  ghost predicate NoFailingRemoved(orig: Rows, now: Rows, failing: set<BlobId>)
  {
    forall x | x in orig && x !in now :: !(orig[x].file.Some? && orig[x].file.value in failing)
  }

  lemma NoFailingRemovedTrans(orig: Rows, before: Rows, after: Rows, failing: set<BlobId>)
    requires Agrees(before, orig)
    requires NoFailingRemoved(orig, before, failing) && NoFailingRemoved(before, after, failing)
    ensures NoFailingRemoved(orig, after, failing)
  {
    forall x | x in orig && x !in after
      ensures !(orig[x].file.Some? && orig[x].file.value in failing)
    {
      if x in before {
        assert before[x] == orig[x];
      }
    }
  }

  /** A subtree that was removed without a failing delete held no failing blob. */
  lemma RemovedSubtreeHadNoFailing(orig: Rows, now: Rows, root: InodeId, failing: set<BlobId>)
    requires forall x | x in orig :: x in now <==> !InSubtree(orig, root, x)
    requires NoFailingRemoved(orig, now, failing)
    ensures !SubtreeBlobFails(orig, root, failing)
  {
    forall x | x in orig && InSubtree(orig, root, x)
      ensures !(orig[x].file.Some? && orig[x].file.value in failing)
    {
      assert x !in now;
    }
  }

  /** A failing blob below a child is a failing blob below its parent. */
  lemma SubtreeBlobFailsOfChild(orig: Rows, before: Rows, id: InodeId, c: InodeId, failing: set<BlobId>)
    requires WellFormed(before) && Agrees(before, orig)
    requires c in before && before[c].parent == Some(id)
    requires SubtreeBlobFails(before, c, failing)
    ensures SubtreeBlobFails(orig, id, failing)
  {
    var x :| x in before && InSubtree(before, c, x) && before[x].file.Some? && before[x].file.value in failing;
    InSubtreeOfParent(before, id, c, x);
    InSubtreeGrow(before, orig, id, x);
  }

  /** The children of `id` still to be removed. */
  ghost predicate PendingChildren(rows: Rows, id: InodeId, pending: set<InodeId>)
  {
    && pending <= rows.Keys
    && (forall c | c in pending :: rows[c].parent == Some(id))
    && ChildIds(rows, id) <= pending
  }

  /** Removing a child's subtree removes only rows of the parent's subtree
      and leaves the parent in place. */
  lemma RemoveChildStep(orig: Rows, before: Rows, after: Rows, id: InodeId, c: InodeId)
    requires WellFormed(before) && Agrees(before, orig) && Agrees(after, before)
    requires id in before && c in before && before[c].parent == Some(id)
    requires RemovedWithin(orig, before, id) && RemovedWithin(before, after, c)
    ensures Agrees(after, orig) && RemovedWithin(orig, after, id)
    ensures id in after
  {
    forall x | x in orig && x !in after
      ensures InSubtree(orig, id, x)
    {
      if x in before {
        InSubtreeOfParent(before, id, c, x);
        InSubtreeGrow(before, orig, id, x);
      }
    }
    if id !in after {
      InSubtreeAbove(before, c, id);
    }
  }

  /** After a child's subtree is gone, the other pending children remain. */
  lemma PendingStep(before: Rows, after: Rows, id: InodeId, c: InodeId, pending: set<InodeId>)
    requires WellFormed(before) && Agrees(after, before)
    requires PendingChildren(before, id, pending) && c in pending
    requires RemovedWithin(before, after, c) && c !in after && id in after
    ensures PendingChildren(after, id, pending - {c})
  {
    forall x | x in pending && x != c
      ensures x in after
    {
      if x !in after {
        InSubtreeAbove(before, c, before[x].parent.value);
      }
    }
  }

  /** The blobs deleted in two steps are those of the rows deleted in both. */
  lemma BlobsStep(b0: map<BlobId, Blob>, b1: map<BlobId, Blob>, b2: map<BlobId, Blob>,
                  orig: Rows, before: Rows, after: Rows)
    requires Agrees(before, orig) && Agrees(after, before)
    requires b1 == b0 - FilesOf(orig, orig.Keys - before.Keys)
    requires b2 == b1 - FilesOf(before, before.Keys - after.Keys)
    ensures b2 == b0 - FilesOf(orig, orig.Keys - after.Keys)
  {
    FilesOfUnion(before, orig, orig.Keys - before.Keys, before.Keys - after.Keys);
    assert (orig.Keys - before.Keys) + (before.Keys - after.Keys) == orig.Keys - after.Keys;
  }

  /** Unlinking the emptied inode completes the removal of its subtree. */
  lemma RemoveFinish(orig: Rows, before: Rows, after: Rows, id: InodeId)
    requires WellFormed(before) && Agrees(before, orig) && RemovedWithin(orig, before, id)
    requires id in before && ChildIds(before, id) == {} && after == before - {id}
    ensures forall x | x in orig :: x in after <==> !InSubtree(orig, id, x)
  {
    forall x | x in orig
      ensures x in after <==> !InSubtree(orig, id, x)
    {
      if x in after && InSubtree(orig, id, x) {
        InSubtreeShrink(before, orig, id, x);
        DescendantMeansChild(before, id, x);
      }
    }
  }

  // ---------------------------------------------------------------------
  // Listing

  /** `to_dict`: the name, owner, group and mode, plus the child names of a
      directory (when asked) or the MIME type and size of a file. */
  datatype InodeDict = InodeDict(
    name: string,
    owner: Account,
    group: CustomerId,
    mode: Mode,
    children: Option<seq<string>>,
    mimetype: Option<string>,
    size: Option<nat>)

  /** `dict_for`: nothing visible, or the inode's entry with the entries of
      its children. */
  datatype Listing = Hidden | Shown(entry: InodeDict, children: Option<seq<InodeDict>>)

  // ---------------------------------------------------------------------
  // The table and the content store

  class Store {
    /** The inode table. */
    var rows: Rows
    /** The next id the table hands out. */
    var nextId: InodeId
    /** The content store (`FILE_CLIENT`). */
    var blobs: map<BlobId, Blob>
    /** The next id the content store hands out. */
    var nextBlob: BlobId

    ghost predicate Valid()
      reads this
    {
      && WellFormed(rows)
      && (forall id | id in rows :: id < nextId)
      && (forall b | b in blobs :: b < nextBlob)
      && (forall id | id in rows && rows[id].file.Some? :: rows[id].file.value < nextBlob)
    }

    constructor ()
      ensures Valid() && rows == map[] && blobs == map[]
    {
      rows, nextId, blobs, nextBlob := map[], 0, map[], 0;
    }

    /** Saves a new row; the table refuses a parent that does not exist. */
    method Insert(n: Inode) returns (id: InodeId)
      requires Valid()
      requires n.parent.Some? ==> n.parent.value in rows
      requires n.file.Some? ==> n.file.value < nextBlob
      modifies this
      ensures Valid()
      ensures id == old(nextId) && id !in old(rows)
      ensures rows == old(rows)[id := n] && nextId == old(nextId) + 1
      ensures blobs == old(blobs) && nextBlob == old(nextBlob)
    {
      id := nextId;
      rows := rows[id := n];
      nextId := nextId + 1;
    }

    /** The blob behind a file inode: `NotAFile` for a directory,
        `ReadError` when the store cannot deliver it. `data`, `mimetype` and
        `size` are this blob's bytes, MIME type and length. */
    function Content(n: Inode): (r: Result<Blob, FsError>)
      reads this
      ensures r == Err(NotAFile) <==> IsDir(n)
      ensures r.Ok? <==> n.file.Some? && n.file.value in blobs
      ensures r.Ok? ==> r.value == blobs[n.file.value]
    {
      match n.file
      case None => Err(NotAFile)
      case Some(b) => if b in blobs then Ok(blobs[b]) else Err(ReadError)
    }

    /** The `data` setter on an inode object (the row is not saved): a saved
        directory refuses with `NotAFile`; a failing store raises
        `WriteError` and changes nothing; otherwise the new blob is stored
        first, the old one is then deleted (a failure there is swallowed)
        and the inode refers to the new blob. */
    method SetData(n: Inode, saved: bool, data: Blob, addFails: bool, deleteFails: bool)
      returns (r: Result<Inode, FsError>)
      requires Valid()
      requires n.file.Some? ==> n.file.value < nextBlob
      modifies this
      ensures Valid() && rows == old(rows) && nextId == old(nextId)
      ensures IsDir(n) && saved ==>
        r == Err(NotAFile) && blobs == old(blobs) && nextBlob == old(nextBlob)
      ensures !(IsDir(n) && saved) && addFails ==>
        r == Err(WriteError) && blobs == old(blobs) && nextBlob == old(nextBlob)
      ensures !(IsDir(n) && saved) && !addFails ==>
        && r == Ok(n.(file := Some(old(nextBlob))))
        && nextBlob == old(nextBlob) + 1
        && blobs == (if n.file.Some? && !deleteFails
                     then old(blobs)[old(nextBlob) := data] - {n.file.value}
                     else old(blobs)[old(nextBlob) := data])
      ensures r.Ok? ==> Content(r.value) == Ok(data)
    {
      if IsDir(n) && saved {
        return Err(NotAFile);
      }
      if addFails {
        return Err(WriteError);
      }
      var fileId := nextBlob;
      blobs := blobs[fileId := data];
      nextBlob := nextBlob + 1;
      if n.file.Some? && !deleteFails {
        blobs := blobs - {n.file.value};
      }
      r := Ok(n.(file := Some(fileId)));
    }

    /** `children`: the rows below a directory, in table order;
        `NotADirectory` for a file. */
    function Children(id: InodeId): (r: Result<seq<InodeId>, FsError>)
      reads this
      requires Valid() && id in rows
      ensures r.Err? <==> IsFile(rows[id])
      ensures r.Err? ==> r.error == NotADirectory
      ensures r.Ok? ==> forall c :: c in r.value <==> c in ChildIds(rows, id)
    {
      if IsFile(rows[id]) then Err(NotADirectory)
      else Ok(Select(rows, (n: Inode) => n.parent == Some(id), nextId))
    }

    /** The walk of `by_path`, shared by the version as written and the
        corrected one. */
    method WalkPath(path: string, s: Scope, byName: bool) returns (r: Result<InodeId, FsError>)
      requires Valid()
      ensures Unscoped(s) ==> r == Err(NoOwnerNorGroup)
      ensures RootOf(rows, nextId, s).Err? ==> r == RootOf(rows, nextId, s)
      ensures RootOf(rows, nextId, s).Ok? ==>
        match Walk(rows, nextId, s, RootOf(rows, nextId, s).value, NonEmpty(Split(path, PathSep)), byName)
        case Ok(x) => r == Ok(x)
        case Err(_) => r == Err(DoesNotExist)
    {
      var root := RootOf(rows, nextId, s);
      if root.Err? {
        return root;
      }
      var found := WalkParts(rows, nextId, s, root.value, Split(path, PathSep), byName);
      r := if found.Some? then Ok(found.value) else Err(DoesNotExist);
    }

    /** `by_path` as written: each non-empty component steps to the first
        child in scope, whatever its name. */
    method ByPath(path: string, s: Scope) returns (r: Result<InodeId, FsError>)
      requires Valid()
      ensures Unscoped(s) ==> r == Err(NoOwnerNorGroup)
      ensures RootOf(rows, nextId, s).Err? ==> r == RootOf(rows, nextId, s)
      ensures RootOf(rows, nextId, s).Ok? ==>
        match Walk(rows, nextId, s, RootOf(rows, nextId, s).value, NonEmpty(Split(path, PathSep)), false)
        case Ok(x) => r == Ok(x)
        case Err(_) => r == Err(DoesNotExist)
    {
      r := WalkPath(path, s, false);
    }

    /** `by_path` as evidently intended: each step also matches the name, so
        the path of the inode found is the root's path followed by the
        non-empty components, and its name is the last of them. */
    method ByPathNamed(path: string, s: Scope) returns (r: Result<InodeId, FsError>)
      requires Valid()
      ensures Unscoped(s) ==> r == Err(NoOwnerNorGroup)
      ensures RootOf(rows, nextId, s).Err? ==> r == RootOf(rows, nextId, s)
      ensures r.Ok? ==> r.value in rows && InScope(s, rows[r.value])
      ensures r.Ok? ==>
        PathOf(rows, r.value)
        == Join([PathOf(rows, RootOf(rows, nextId, s).value)] + NonEmpty(Split(path, PathSep)), PathSep)
      ensures RootOf(rows, nextId, s).Ok? ==>
        match Walk(rows, nextId, s, RootOf(rows, nextId, s).value, NonEmpty(Split(path, PathSep)), true)
        case Ok(x) => r == Ok(x)
        case Err(_) => r == Err(DoesNotExist)
    {
      r := WalkPath(path, s, true);
      if r.Ok? {
        var root := RootOf(rows, nextId, s).value;
        var comps := NonEmpty(Split(path, PathSep));
        WalkPathRoundTrip(rows, nextId, s, root, comps, r.value);
        WalkStaysInScope(rows, nextId, s, root, comps, true);
      }
    }

    /** `_parents_readable` as evidently intended: starting from the
        inode's parent and moving to the next parent each round. */
    method ParentsReadable(id: InodeId, a: Account) returns (r: Result<bool, FsError>)
      requires Valid() && id in rows
      ensures r == ParentsCheck(rows, id, a)
    {
      var cur := id;
      var parent := rows[id].parent;
      while parent.Some?
        invariant cur in rows && parent == rows[cur].parent
        invariant ParentsCheck(rows, cur, a) == ParentsCheck(rows, id, a)
        decreases cur
      {
        var p := parent.value;
        if IsDir(rows[p]) {
          if !OwnExecutable(rows[p], a) {
            return Ok(false);
          }
        } else {
          return Err(ConsistencyError(p));
        }
        cur := p;
        parent := rows[p].parent;
      }
      r := Ok(true);
    }

    /** `unlink`: refuses a directory that has children, then deletes the
        file's blob (a store failure propagates and nothing is deleted) and
        the row. */
    method Unlink(id: InodeId, failing: set<BlobId>) returns (r: Result<(), FsError>)
      requires Valid() && id in rows
      modifies this
      ensures Valid() && nextId == old(nextId) && nextBlob == old(nextBlob)
      ensures ChildIds(old(rows), id) != {} ==>
        r == Err(DirectoryNotEmpty) && rows == old(rows) && blobs == old(blobs)
      ensures ChildIds(old(rows), id) == {} && old(rows)[id].file.Some? && old(rows)[id].file.value in failing ==>
        r == Err(StoreError) && rows == old(rows) && blobs == old(blobs)
      ensures r.Ok? <==>
        ChildIds(old(rows), id) == {} && !(old(rows)[id].file.Some? && old(rows)[id].file.value in failing)
      ensures r.Ok? ==>
        rows == old(rows) - {id} && blobs == old(blobs) - FilesOf(old(rows), {id})
    {
      if ChildIds(rows, id) != {} {
        return Err(DirectoryNotEmpty);
      }
      var n := rows[id];
      if n.file.Some? {
        if n.file.value in failing {
          return Err(StoreError);
        }
        blobs := blobs - {n.file.value};
      }
      assert FilesOf(rows, {id}) == if n.file.Some? then {n.file.value} else {};
      rows := rows - {id};
      r := Ok(());
    }

    /** `remove`: with `recursive`, every child's subtree is removed first
        (children before their parent), then the inode is unlinked.
        Only rows of the subtree disappear, and on success all of them do,
        together with their blobs. */
    method Remove(id: InodeId, recursive: bool, failing: set<BlobId>) returns (r: Result<(), FsError>)
      requires Valid() && id in rows
      modifies this
      ensures Valid() && nextId == old(nextId) && nextBlob == old(nextBlob)
      ensures Agrees(rows, old(rows))
      ensures RemovedWithin(old(rows), rows, id)
      ensures blobs == old(blobs) - FilesOf(old(rows), old(rows).Keys - rows.Keys)
      ensures r.Err? ==> id in rows
      ensures r.Ok? ==> forall x | x in old(rows) :: x in rows <==> !InSubtree(old(rows), id, x)
      ensures !recursive && ChildIds(old(rows), id) != {} ==> r == Err(DirectoryNotEmpty) && rows == old(rows)
      ensures r == Err(DirectoryNotEmpty) ==> !recursive && ChildIds(old(rows), id) != {}
      ensures r.Err? ==> r == Err(DirectoryNotEmpty) || (r == Err(StoreError) && SubtreeBlobFails(old(rows), id, failing))
      ensures (recursive || ChildIds(old(rows), id) == {}) && !SubtreeBlobFails(old(rows), id, failing) ==> r.Ok?
      ensures NoFailingRemoved(old(rows), rows, failing)
      ensures (recursive || ChildIds(old(rows), id) == {}) && SubtreeBlobFails(old(rows), id, failing) ==>
        r == Err(StoreError)
      decreases nextId - id
    {
      if recursive {
        var pending := ChildIds(rows, id);
        while pending != {}
          invariant Valid() && nextId == old(nextId) && nextBlob == old(nextBlob)
          invariant id in rows && rows[id] == old(rows)[id]
          invariant Agrees(rows, old(rows))
          invariant RemovedWithin(old(rows), rows, id)
          invariant blobs == old(blobs) - FilesOf(old(rows), old(rows).Keys - rows.Keys)
          invariant PendingChildren(rows, id, pending)
          invariant NoFailingRemoved(old(rows), rows, failing)
          decreases pending
        {
          var c :| c in pending;
          ghost var before, blobsBefore := rows, blobs;
          var res := Remove(c, true, failing);
          RemoveChildStep(old(rows), before, rows, id, c);
          BlobsStep(old(blobs), blobsBefore, blobs, old(rows), before, rows);
          NoFailingRemovedTrans(old(rows), before, rows, failing);
          if res.Err? {
            SubtreeBlobFailsOfChild(old(rows), before, id, c, failing);
            return res;
          }
          PendingStep(before, rows, id, c, pending);
          pending := pending - {c};
        }
      }
      ghost var before, blobsBefore := rows, blobs;
      assert recursive ==> ChildIds(rows, id) == {};
      assert InSubtree(old(rows), id, id);
      r := Unlink(id, failing);
      if r.Ok? {
        assert before.Keys - rows.Keys == {id};
        BlobsStep(old(blobs), blobsBefore, blobs, old(rows), before, rows);
        RemoveFinish(old(rows), before, rows, id);
        NoFailingRemovedTrans(old(rows), before, rows, failing);
        RemovedSubtreeHadNoFailing(old(rows), rows, id, failing);
      }
    }

    /** `to_dict`: fails with `ReadError` when a file's blob cannot be read. */
    function ToDict(id: InodeId, withChildren: bool): (r: Result<InodeDict, FsError>)
      reads this
      requires Valid() && id in rows
      ensures r.Ok? ==> var n := rows[id];
        && r.value.name == n.name && r.value.owner == n.owner
        && r.value.group == n.group && r.value.mode == n.mode
      ensures r.Ok? && IsDir(rows[id]) ==>
        r.value.mimetype.None? && r.value.size.None?
        && (r.value.children.Some? <==> withChildren)
        && (withChildren ==> forall c :: c in r.value.children.value <==>
              exists x | x in ChildIds(rows, id) :: rows[x].name == c)
      ensures r.Err? <==> Content(rows[id]).Err? && IsFile(rows[id])
      ensures r.Ok? && IsFile(rows[id]) ==>
        r.value.children.None?
        && r.value.mimetype == Some(Content(rows[id]).value.mimetype)
        && r.value.size == Some(Size(Content(rows[id]).value))
    {
      var n := rows[id];
      var base := InodeDict(n.name, n.owner, n.group, n.mode, None, None, None);
      if IsDir(n) then
        if withChildren then
          var kids := Select(rows, (x: Inode) => x.parent == Some(id), nextId);
          var names := Names(rows, kids);
          assert forall c :: c in names <==> exists x | x in ChildIds(rows, id) :: rows[x].name == c by {
            forall c | c in names ensures exists x | x in ChildIds(rows, id) :: rows[x].name == c {
              var i :| 0 <= i < |names| && names[i] == c;
              assert kids[i] in ChildIds(rows, id);
            }
            forall c | exists x | x in ChildIds(rows, id) :: rows[x].name == c ensures c in names {
              var x :| x in ChildIds(rows, id) && rows[x].name == c;
              assert x in kids;
              var i :| 0 <= i < |kids| && kids[i] == x;
              assert names[i] == c;
            }
          }
          Ok(base.(children := Some(names)))
        else Ok(base)
      else
        match Content(n)
        case Err(e) => Err(e)
        case Ok(b) => Ok(base.(mimetype := Some(b.mimetype), size := Some(Size(b))))
    }

    /** `dict_for`: visible when the parent (the inode itself at the top)
        is executable by the account, parents included; a directory then
        lists `to_dict` of each child, which, called with the account in
        the place of `children`, carries the child's own child names. The
        executable check is the intended `InodeExecutableBy`; as written it
        raises `AttributeError` whenever the own triads grant. */
    function DictFor(id: InodeId, a: Account): (r: Result<Listing, FsError>)
      reads this
      requires Valid() && id in rows
      ensures var gate := match rows[id].parent case Some(p) => p case None => id;
        && (InodeExecutableBy(rows, gate, a) == Ok(false) <==> r == Ok(Hidden))
        && (InodeExecutableBy(rows, gate, a).Err? ==> r == Err(InodeExecutableBy(rows, gate, a).error))
      ensures r.Ok? && r.value.Shown? ==>
        ToDict(id, false) == Ok(r.value.entry)
        && (r.value.children.Some? <==> IsDir(rows[id]))
      ensures r.Ok? && r.value.Shown? && IsDir(rows[id]) ==>
        var kids := Select(rows, (x: Inode) => x.parent == Some(id), nextId);
        |r.value.children.value| == |kids|
        && forall i | 0 <= i < |kids| :: Ok(r.value.children.value[i]) == ToDict(kids[i], true)
    {
      var gate := match rows[id].parent case Some(p) => p case None => id;
      match InodeExecutableBy(rows, gate, a)
      case Err(e) => Err(e)
      case Ok(false) => Ok(Hidden)
      case Ok(true) =>
        match ToDict(id, false)
        case Err(e) => Err(e)
        case Ok(entry) =>
          if IsFile(rows[id]) then Ok(Shown(entry, None))
          else
            var kids := Select(rows, (x: Inode) => x.parent == Some(id), nextId);
            match ChildDicts(kids)
            case Err(e) => Err(e)
            case Ok(dicts) => Ok(Shown(entry, Some(dicts)))
    }

    /** The children's `to_dict` entries in order, or the first error. */
    function ChildDicts(kids: seq<InodeId>): (r: Result<seq<InodeDict>, FsError>)
      reads this
      requires Valid() && forall i | 0 <= i < |kids| :: kids[i] in rows
      ensures r.Ok? ==>
        |r.value| == |kids| && forall i | 0 <= i < |kids| :: ToDict(kids[i], true) == Ok(r.value[i])
      ensures r.Err? ==> exists i | 0 <= i < |kids| :: ToDict(kids[i], true) == Err(r.error)
    {
      if kids == [] then Ok([])
      else
        match ToDict(kids[0], true)
        case Err(e) => Err(e)
        case Ok(d) =>
          match ChildDicts(kids[1..])
          case Err(e) => Err(e)
          case Ok(rest) => Ok([d] + rest)
    }
  }

  /** One more piece of the split path: an empty piece leaves the walk
      where it is, a non-empty one takes one child step. */
  lemma WalkStep(rows: Rows, bound: nat, s: Scope, start: InodeId, parts: seq<string>, k: nat, byName: bool)
    requires k < |parts|
    ensures var before := Walk(rows, bound, s, start, NonEmpty(parts[..k]), byName);
            var after := Walk(rows, bound, s, start, NonEmpty(parts[..k + 1]), byName);
            && (parts[k] == [] ==> after == before)
            && (before.Err? ==> after == before)
            && (parts[k] != [] && before.Ok? ==>
                  var next := Get(rows, ChildFilter(s, before.value, parts[k], byName), bound);
                  && (next.Ok? ==> after == Ok(next.value))
                  && (next.Err? ==> after == Err(|NonEmpty(parts[..k])|)))
  {
    if parts[k] != [] {
      NonEmptyThroughPiece(parts, k);
      WalkAppend(rows, bound, s, start, NonEmpty(parts[..k]), parts[k], byName);
    } else {
      NonEmptySkipsEmpty(parts, k);
    }
  }

  /** The loop of `by_path` over the pieces of the split path: empty
      pieces are skipped, every other piece steps to a child. */
  method WalkParts(rows: Rows, bound: nat, s: Scope, start: InodeId, parts: seq<string>, byName: bool)
    returns (r: Option<InodeId>)
    ensures r.Some? <==> Walk(rows, bound, s, start, NonEmpty(parts), byName).Ok?
    ensures r.Some? ==> r.value == Walk(rows, bound, s, start, NonEmpty(parts), byName).value
  {
    var inode := start;
    var k := 0;
    while k < |parts|
      invariant 0 <= k <= |parts|
      invariant Walk(rows, bound, s, start, NonEmpty(parts[..k]), byName) == Ok(inode)
    {
      WalkPieceStep(rows, bound, s, start, parts, k, byName, inode);
      if parts[k] != [] {
        var next := Get(rows, ChildFilter(s, inode, parts[k], byName), bound);
        if next.Err? {
          return None;
        }
        inode := next.value;
      }
      k := k + 1;
    }
    assert parts[..|parts|] == parts;
    r := Some(inode);
  }

  /** One round of the `by_path` loop: an empty piece keeps the inode, a
      found child becomes the inode, and a miss makes the whole walk miss. */
  lemma WalkPieceStep(rows: Rows, bound: nat, s: Scope, start: InodeId, parts: seq<string>, k: nat,
                      byName: bool, inode: InodeId)
    requires k < |parts|
    requires Walk(rows, bound, s, start, NonEmpty(parts[..k]), byName) == Ok(inode)
    ensures parts[k] == [] ==> Walk(rows, bound, s, start, NonEmpty(parts[..k + 1]), byName) == Ok(inode)
    ensures parts[k] != [] && Get(rows, ChildFilter(s, inode, parts[k], byName), bound).Ok? ==>
      Walk(rows, bound, s, start, NonEmpty(parts[..k + 1]), byName)
        == Ok(Get(rows, ChildFilter(s, inode, parts[k], byName), bound).value)
    ensures parts[k] != [] && Get(rows, ChildFilter(s, inode, parts[k], byName), bound).Err? ==>
      Walk(rows, bound, s, start, NonEmpty(parts), byName).Err?
  {
    WalkStep(rows, bound, s, start, parts, k, byName);
    if parts[k] != [] && Get(rows, ChildFilter(s, inode, parts[k], byName), bound).Err? {
      WalkFailureStays(rows, bound, s, start, parts, k + 1, byName);
    }
  }

  /** One more component takes one child step from where the walk was. */
  lemma WalkAppend(rows: Rows, bound: nat, s: Scope, start: InodeId, comps: seq<string>, name: string, byName: bool)
    ensures Walk(rows, bound, s, start, comps + [name], byName)
         == match Walk(rows, bound, s, start, comps, byName)
            case Err(i) => Err(i)
            case Ok(cur) =>
              match Get(rows, ChildFilter(s, cur, name, byName), bound)
              case Ok(c) => Ok(c)
              case Err(_) => Err(|comps|)
  {
    assert (comps + [name])[..|comps|] == comps;
  }

  /** Once a walk misses, extending the components keeps the miss and the
      index of the component that missed. */
  lemma {:induction false} WalkFailureStays(
    rows: Rows, bound: nat, s: Scope, start: InodeId, parts: seq<string>, k: nat, byName: bool)
    requires k <= |parts|
    requires Walk(rows, bound, s, start, NonEmpty(parts[..k]), byName).Err?
    ensures Walk(rows, bound, s, start, NonEmpty(parts), byName)
         == Walk(rows, bound, s, start, NonEmpty(parts[..k]), byName)
    decreases |parts| - k
  {
    if k < |parts| {
      WalkStep(rows, bound, s, start, parts, k, byName);
      WalkFailureStays(rows, bound, s, start, parts, k + 1, byName);
    } else {
      assert parts[..k] == parts;
    }
  }

  /** A walk that misses names the first component without a child: the
      walk up to it succeeds and no child matches it there. */
  lemma {:induction false} WalkMissMeaning(
    rows: Rows, bound: nat, s: Scope, start: InodeId, comps: seq<string>, byName: bool)
    requires Walk(rows, bound, s, start, comps, byName).Err?
    ensures var i := Walk(rows, bound, s, start, comps, byName).error;
            var w := Walk(rows, bound, s, start, comps[..i], byName);
            w.Ok? && Get(rows, ChildFilter(s, w.value, comps[i], byName), bound).Err?
    decreases |comps|
  {
    var init := comps[..|comps| - 1];
    var w := Walk(rows, bound, s, start, init, byName);
    if w.Err? {
      WalkMissMeaning(rows, bound, s, start, init, byName);
      assert init[..w.error] == comps[..w.error];
    } else {
      assert comps[..|comps| - 1] == init;
    }
  }

  /** Every step of a walk stays within the scope. */
  lemma {:induction false} WalkStaysInScope(
    rows: Rows, bound: nat, s: Scope, start: InodeId, comps: seq<string>, byName: bool)
    requires start in rows && InScope(s, rows[start])
    requires Walk(rows, bound, s, start, comps, byName).Ok?
    ensures var x := Walk(rows, bound, s, start, comps, byName).value;
            x in rows && InScope(s, rows[x])
    decreases |comps|
  {
    if comps != [] {
      WalkStaysInScope(rows, bound, s, start, comps[..|comps| - 1], byName);
    }
  }

  /** Nothing protects the top-level directory: an empty root directory
      is unlinked like any other inode, whatever blobs the store would fail
      to delete, and the table stays well formed without it. */
  method RootIsNotProtected(store: Store, id: InodeId, failing: set<BlobId>) returns (r: Result<(), FsError>)
    requires store.Valid() && id in store.rows && IsRoot(store.rows[id]) && IsDir(store.rows[id])
    requires ChildIds(store.rows, id) == {}
    modifies store
    ensures r.Ok?
    ensures store.Valid() && store.rows == old(store.rows) - {id} && store.blobs == old(store.blobs)
  {
    r := store.Unlink(id, failing);
    assert FilesOf(old(store.rows), {id}) == {};
  }
}
