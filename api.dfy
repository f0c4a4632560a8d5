/** The handler layer over the inode tree (fs/api.py): resolving a path in a
    customer's tree with an error that names the failing prefix, and the
    permission checks that add the parent chain to an inode's own triads. */
module Api {
  import opened Common
  import opened Text
  import opened Permissions
  import opened Inodes

  /** The scope of a customer's tree: its group. */
  function GroupScope(customer: CustomerId): Scope
  {
    Scope(None, Some(customer))
  }

  /** `INode.from_path`: starting at the customer's root directory, each
      non-empty component steps to the child of that group and name. A miss
      raises `FileNotFound` with '/' and the components up to and including
      the one that missed. */
  method FromPath(store: Store, path: string, customer: CustomerId) returns (r: Result<InodeId, FsError>)
    requires store.Valid()
    ensures RootOf(store.rows, store.nextId, GroupScope(customer)).Err? ==> r == Err(DoesNotExist)
    ensures RootOf(store.rows, store.nextId, GroupScope(customer)).Ok? ==>
      r == Resolved(store.rows, store.nextId, GroupScope(customer),
                    RootOf(store.rows, store.nextId, GroupScope(customer)).value,
                    NonEmpty(Split(path, PathSep)))
  {
    var s := GroupScope(customer);
    var root := RootOf(store.rows, store.nextId, s);
    if root.Err? {
      return Err(DoesNotExist);
    }
    r := Resolve(store.rows, store.nextId, s, root.value, Split(path, PathSep));
  }

  /** What `from_path` answers once the root is found: the inode the
      named walk reaches, or `FileNotFound` naming the components up to
      and including the one that missed. */
  function Resolved(rows: Rows, bound: nat, s: Scope, start: InodeId, comps: seq<string>)
    : Result<InodeId, FsError>
  {
    match Walk(rows, bound, s, start, comps, true)
    case Ok(x) => Ok(x)
    case Err(i) => Err(FileNotFound(Join([[]] + comps[..i + 1], PathSep)))
  }

  /** The loop of `from_path` over the pieces of the split path. */
  method Resolve(rows: Rows, bound: nat, s: Scope, start: InodeId, parts: seq<string>)
    returns (r: Result<InodeId, FsError>)
    ensures r == Resolved(rows, bound, s, start, NonEmpty(parts))
  {
    var parent := start;
    var processed: seq<string> := [[]];
    var k := 0;
    while k < |parts|
      invariant 0 <= k <= |parts|
      invariant Walk(rows, bound, s, start, NonEmpty(parts[..k]), true) == Ok(parent)
      invariant processed == [[]] + NonEmpty(parts[..k])
    {
      ResolveStep(rows, bound, s, start, parts, k, parent);
      if parts[k] != [] {
        processed := processed + [parts[k]];
        var next := Get(rows, ChildFilter(s, parent, parts[k], true), bound);
        if next.Err? {
          return Err(FileNotFound(Join(processed, PathSep)));
        }
        parent := next.value;
      }
      k := k + 1;
    }
    assert parts[..|parts|] == parts;
    r := Ok(parent);
  }

  /** One turn of the loop of `from_path`. */
  lemma ResolveStep(rows: Rows, bound: nat, s: Scope, start: InodeId, parts: seq<string>, k: nat, parent: InodeId)
    requires k < |parts|
    requires Walk(rows, bound, s, start, NonEmpty(parts[..k]), true) == Ok(parent)
    ensures parts[k] == [] ==>
      NonEmpty(parts[..k + 1]) == NonEmpty(parts[..k])
    ensures parts[k] != [] ==>
      && NonEmpty(parts[..k + 1]) == NonEmpty(parts[..k]) + [parts[k]]
      && [[]] + NonEmpty(parts[..k + 1]) == ([[]] + NonEmpty(parts[..k])) + [parts[k]]
    ensures parts[k] != [] && Get(rows, ChildFilter(s, parent, parts[k], true), bound).Ok? ==>
      Walk(rows, bound, s, start, NonEmpty(parts[..k + 1]), true)
      == Ok(Get(rows, ChildFilter(s, parent, parts[k], true), bound).value)
    ensures parts[k] != [] && Get(rows, ChildFilter(s, parent, parts[k], true), bound).Err? ==>
      Resolved(rows, bound, s, start, NonEmpty(parts))
      == Err(FileNotFound(Join(([[]] + NonEmpty(parts[..k])) + [parts[k]], PathSep)))
  {
    if parts[k] != [] {
      NonEmptyThroughPiece(parts, k);
      ConsAppend([], NonEmpty(parts[..k]), parts[k]);
      WalkAppend(rows, bound, s, start, NonEmpty(parts[..k]), parts[k], true);
      if Get(rows, ChildFilter(s, parent, parts[k], true), bound).Err? {
        MissNamesPrefix(rows, bound, s, start, parts, k);
      }
    } else {
      NonEmptySkipsEmpty(parts, k);
    }
  }

  /** A miss at piece `k` is reported at the position that piece has among
      the non-empty components of the whole path. */
  lemma MissNamesPrefix(rows: Rows, bound: nat, s: Scope, start: InodeId, parts: seq<string>, k: nat)
    requires k < |parts| && parts[k] != []
    requires Walk(rows, bound, s, start, NonEmpty(parts[..k]), true).Ok?
    requires Get(rows, ChildFilter(s, Walk(rows, bound, s, start, NonEmpty(parts[..k]), true).value,
                                   parts[k], true), bound).Err?
    ensures var comps := NonEmpty(parts); var before := NonEmpty(parts[..k]);
            && Walk(rows, bound, s, start, comps, true) == Err(|before|)
            && |before| < |comps| && comps[..|before| + 1] == before + [parts[k]]
  {
    NonEmptyThroughPiece(parts, k);
    WalkAppend(rows, bound, s, start, NonEmpty(parts[..k]), parts[k], true);
    WalkFailureStays(rows, bound, s, start, parts, k + 1, true);
    PrefixThroughPiece(parts, k);
  }

  /** A found inode has the path walked: the root's path followed by the
      non-empty components. Separators at either end of the path change
      nothing. */
  lemma FromPathFindsNamedPath(store: Store, path: string, customer: CustomerId, x: InodeId)
    requires store.Valid()
    requires RootOf(store.rows, store.nextId, GroupScope(customer)).Ok?
    requires Resolved(store.rows, store.nextId, GroupScope(customer),
                      RootOf(store.rows, store.nextId, GroupScope(customer)).value,
                      NonEmpty(Split(path, PathSep))) == Ok(x)
    ensures x in store.rows && store.rows[x].group == customer
    ensures PathOf(store.rows, x)
         == Join([PathOf(store.rows, RootOf(store.rows, store.nextId, GroupScope(customer)).value)]
                 + NonEmpty(Split(path, PathSep)), PathSep)
    ensures NonEmpty(Split([PathSep] + path + [PathSep], PathSep)) == NonEmpty(Split(path, PathSep))
  {
    var s := GroupScope(customer);
    var root := RootOf(store.rows, store.nextId, s).value;
    var comps := NonEmpty(Split(path, PathSep));
    WalkPathRoundTrip(store.rows, store.nextId, s, root, comps, x);
    WalkStaysInScope(store.rows, store.nextId, s, root, comps, true);
    OuterSepsIgnored(path, PathSep);
    OuterSepsIgnored([PathSep] + path, PathSep);
  }

  /** A miss names, after the root marker, the components walked up to and
      including the first one for which no child of that name exists. */
  lemma FromPathMissNamesFirstGap(rows: Rows, bound: nat, s: Scope, start: InodeId, comps: seq<string>)
    requires Resolved(rows, bound, s, start, comps).Err?
    ensures exists i | 0 <= i < |comps| ::
      && Resolved(rows, bound, s, start, comps) == Err(FileNotFound(Join([[]] + comps[..i + 1], PathSep)))
      && Walk(rows, bound, s, start, comps[..i], true).Ok?
      && Get(rows, ChildFilter(s, Walk(rows, bound, s, start, comps[..i], true).value, comps[i], true), bound).Err?
  {
    WalkMissMeaning(rows, bound, s, start, comps, true);
  }

  /** `parents_readable` as written, over the corrected orm-level
      `executable_by`: the loop never advances `parent`, so once the first
      parent is a directory the account may execute (its own triads and,
      through `executable_by`, its parents), it runs forever. */
  function ParentsReadableAsWritten(rows: Rows, id: InodeId, a: Account): (r: LoopOutcome)
    requires WellFormed(rows) && id in rows
    ensures r == Diverges <==>
            rows[id].parent.Some? && IsDir(rows[rows[id].parent.value])
            && InodeExecutableBy(rows, rows[id].parent.value, a) == Ok(true)
  {
    match rows[id].parent
    case None => Returns(true)
    case Some(p) =>
      if IsDir(rows[p]) then
        match InodeExecutableBy(rows, p, a)
        case Err(e) => Raises(e)
        case Ok(false) => Returns(false)
        case Ok(true) => Diverges
      else Raises(ConsistencyError(p))
  }

  /** Where the loop as written ends, it agrees with the intended check; it
      never ends for an inode directly below a top-level directory that the
      account may execute, where the intended check answers true. */
  lemma ParentsLoopNeverAdvances(rows: Rows, id: InodeId, a: Account)
    requires WellFormed(rows) && id in rows
    ensures match ParentsReadableAsWritten(rows, id, a)
            case Returns(b) => ParentsCheck(rows, id, a) == Ok(b)
            case Raises(e) => ParentsCheck(rows, id, a) == Err(e)
            case Diverges => true
    ensures rows[id].parent.Some? && IsRoot(rows[rows[id].parent.value])
            && Passable(rows[rows[id].parent.value], a) ==>
            ParentsReadableAsWritten(rows, id, a) == Diverges && ParentsCheck(rows, id, a) == Ok(true)
  {
  }

  /** `parents_readable` entirely as written: `executable_by` of the
      first parent raises `AttributeError` from the orm's own
      `_parents_readable` as soon as that parent's triads grant, so the
      loop ends before it can repeat. */
  function ParentsReadableFullyAsWritten(rows: Rows, id: InodeId, a: Account): (r: LoopOutcome)
    requires WellFormed(rows) && id in rows
    ensures r != Diverges
    ensures r == Raises(MissingAttribute) <==>
            rows[id].parent.Some? && Passable(rows[rows[id].parent.value], a)
  {
    match rows[id].parent
    case None => Returns(true)
    case Some(p) =>
      if IsDir(rows[p]) then
        match ExecutableByAsWritten(rows, p, a)
        case Err(e) => Raises(e)
        case Ok(b) => Returns(b)
      else Raises(ConsistencyError(p))
  }

  /** Directly below a top-level directory the account may execute, the
      intended check answers true; with only the orm corrected the loop
      never ends, and entirely as written it raises `AttributeError`. */
  lemma ParentsAsWrittenBelowRoot(rows: Rows, id: InodeId, a: Account)
    requires WellFormed(rows) && id in rows
    requires rows[id].parent.Some? && IsRoot(rows[rows[id].parent.value])
    requires Passable(rows[rows[id].parent.value], a)
    ensures ParentsCheck(rows, id, a) == Ok(true)
    ensures ParentsReadableAsWritten(rows, id, a) == Diverges
    ensures ParentsReadableFullyAsWritten(rows, id, a) == Raises(MissingAttribute)
  {
  }

  /** `parents_readable` with the loop advancing: a file parent raises
      `ConsistencyError`, a parent directory that `executable_by` refuses
      answers false. Since `executable_by` itself checks that parent's
      parents, the answer is the orm-level parent check. */
  method ParentsReadable(store: Store, id: InodeId, a: Account) returns (r: Result<bool, FsError>)
    requires store.Valid() && id in store.rows
    ensures r == ParentsCheck(store.rows, id, a)
  {
    var rows := store.rows;
    var cur := id;
    var parent := rows[id].parent;
    while parent.Some?
      invariant cur in rows && parent == rows[cur].parent
      invariant ParentsCheck(rows, cur, a) == ParentsCheck(rows, id, a)
      decreases cur
    {
      var p := parent.value;
      if IsDir(rows[p]) {
        var exec := InodeExecutableBy(rows, p, a);
        if exec.Err? {
          return Err(exec.error);
        }
        if !exec.value {
          return Ok(false);
        }
      } else {
        return Err(ConsistencyError(p));
      }
      cur := p;
      parent := rows[p].parent;
    }
    r := Ok(true);
  }

  /** `readable_by`: the inode's own `readable_by` and then the parent
      check; the second check repeats what the first established, so the
      answer is the inode's own `readable_by`. Both run as evidently
      intended: the orm-level check over an advancing parent loop (as
      written they raise `AttributeError` or never end, see
      `ReadableByAsWritten` and `ParentsLoopNeverAdvances`). */
  method ReadableBy(store: Store, id: InodeId, a: Account) returns (r: Result<bool, FsError>)
    requires store.Valid() && id in store.rows
    ensures r == InodeReadableBy(store.rows, id, a)
    ensures r == Ok(true) <==>
            OwnReadable(store.rows[id], a)
            && forall x | x in Ancestors(store.rows, id) :: Passable(store.rows[x], a)
  {
    ParentsCheckMeaning(store.rows, id, a);
    r := InodeReadableBy(store.rows, id, a);
    if r == Ok(true) {
      r := ParentsReadable(store, id, a);
    }
  }

  /** `writable_by`, shaped like `readable_by`, over the same intended
      checks. */
  method WritableBy(store: Store, id: InodeId, a: Account) returns (r: Result<bool, FsError>)
    requires store.Valid() && id in store.rows
    ensures r == InodeWritableBy(store.rows, id, a)
    ensures r == Ok(true) <==>
            OwnWritable(store.rows[id], a)
            && forall x | x in Ancestors(store.rows, id) :: Passable(store.rows[x], a)
  {
    ParentsCheckMeaning(store.rows, id, a);
    r := InodeWritableBy(store.rows, id, a);
    if r == Ok(true) {
      r := ParentsReadable(store, id, a);
    }
  }

  /** `executable_by`, shaped like `readable_by`, over the same intended
      checks. */
  method ExecutableBy(store: Store, id: InodeId, a: Account) returns (r: Result<bool, FsError>)
    requires store.Valid() && id in store.rows
    ensures r == InodeExecutableBy(store.rows, id, a)
    ensures r == Ok(true) <==>
            OwnExecutable(store.rows[id], a)
            && forall x | x in Ancestors(store.rows, id) :: Passable(store.rows[x], a)
  {
    ParentsCheckMeaning(store.rows, id, a);
    r := InodeExecutableBy(store.rows, id, a);
    if r == Ok(true) {
      r := ParentsReadable(store, id, a);
    }
  }
}
