# hisfs in Dafny

This project models the decision and bookkeeping logic of **hisfs**, HOMEINFO's
multi-tenant virtual file system, and proves properties of that model. The
repository holds two generations of the file system, and both are modelled over
an in-memory store: finite maps of records plus a blob store that maps content
ids to bytes.

* **The inode tree** (`fs/orm.py`, `fs/api.py`). The modules are `Permissions`,
  `Inodes` and `Api`.
  * An inode is a directory or a file with a parent link, an owner account, a
    group (customer) and a nine-bit mode.
  * Names are validated. Paths are built from the parent chain and resolved by
    walking them.
  * Permissions are an OR of the owner, group and other triads. Root accounts
    bypass the check for reading only.
  * The directory tree is searched, content is replaced blob by blob, and rows
    are unlinked and removed recursively.
  * `Inodes.Store` is a class whose `rows` and `blobs` maps change in place.
    Row ids come from an autoincrement counter, and a parent's id is always
    below its children's. That ordering is what makes every walk up the tree
    end.
* **The policy layer** (`hisfs/policy.py`), module `Policy`.
  * Path strings are split into nodes and joined back.
  * Read, list and write run their checks in a fixed order: the type check,
    then every parent must be executable, then permission on the target.
* **The later file model** (`hisfs/orm.py`, `hisfs/thumbnails.py`), modules
  `HisFiles` and `Thumbnails`.
  * `File.add` handles a name clash by failing or by renaming. The quota ledger
    sums the customer's file sizes.
  * The thumbnail cache and its create-or-return-the-parent logic are modelled,
    together with the arithmetic behind a thumbnail's size.
  * `HisFiles.Db` is a class holding the file and thumbnail tables.
* **The web handlers and helpers** (`hisfs/wsgi.py`, `hisfs/functions.py`,
  `hisfs/hooks.py`, `hisfs/messages.py`). The modules are `Handlers`,
  `Functions`, `Hooks` and `Messages`.
  * Quota defaulting and allocation.
  * Scoping a file id to the caller's customer.
  * Parsing the thumbnail argument.
  * Single and batch uploads.
  * Deletion with its hooks, and conversion of a PDF into one file per page.
  * Loading hooks from dotted paths.

The modules `Common` (Option, Result, bytes, blobs) and `Text` (Python's
`str.split`, `str.join`, `rsplit`, `Path.stem`/`suffix`, `int`/`str` on
naturals and upper/lower case) hold shared definitions.

A peewee `get` returns the first matching row. It is modelled as the least
matching id below the table's id counter. Failures of the outside world are
boolean or set parameters: the blob store refusing a write or a delete, an
upload too large to read, a hook that raises. Anything the source computes
through a library is a function parameter: rendering an image, rasterising a
PDF, detecting a PDF. Exact reals stand in for Python's floats in the thumbnail
arithmetic.

## Model

| member | source | states |
|---|---|---|
| Permissions.ReadableBy | fs/orm.py:314-329 | A read is granted exactly when the account is root, or the owner with the user read bit, or of the owner's customer with the group read bit, or the other read bit is set. |
| Permissions.WritableBy | fs/orm.py:331-344 | A write is granted by the OR of the three triads' write bits for owner, same customer and anyone. There is no root bypass. |
| Permissions.ExecutableBy | fs/orm.py:346-359 | Execute is granted by the OR of the three triads' execute bits, with no root bypass. |
| Permissions.MoreBitsGrantMore | fs/orm.py:314-359 | Setting more mode bits never takes away an access the triads granted. |
| Permissions.NoOwnerPrecedence | fs/orm.py:320-327 | The owner is not held to the user triad: with only the other read bit set, the owner may still read. |
| Permissions.RootBypassIsForReadOnly | fs/orm.py:320-321 | With an all-clear mode a root account may read but may neither write nor execute. |
| Inodes.SetName | fs/orm.py:135-144 | A name is accepted exactly when it is non-empty and has no '/'. An empty name is EmptyName and one with '/' is NameContainsSeparator. When accepted, only the name changes. |
| Inodes.AcceptedNameIsOneComponent | fs/orm.py:135-144 | An accepted name splits on '/' into itself alone, so it is exactly one path component. |
| Inodes.Select | fs/orm.py:60-74 | A select yields, in ascending id order, exactly the rows below the counter that satisfy the filter. |
| Inodes.Get | fs/orm.py:82-96 | A get returns the least matching id, or DoesNotExist exactly when no row below the counter matches. |
| Inodes.Of | fs/orm.py:60-74 | With neither owner nor group it raises NoOwnerNorGroup. Otherwise it returns exactly the rows in scope. |
| Inodes.RootOf | fs/orm.py:77-96 | With neither owner nor group it raises NoOwnerNorGroup. A success is a root directory in scope. A miss means no row in scope is a root directory. |
| Inodes.Lineage | fs/orm.py:156-167 | The chain of parent links runs from a row without a parent down to the inode itself, each link the parent of the next. |
| Inodes.Names | fs/orm.py:156-167 | The names along a chain of inodes, one per inode, in order. |
| Inodes.NamesToStep | fs/orm.py:156-167 | The names leading to an inode are its parent's names followed by its own. |
| Inodes.PathStartsWithSep | fs/orm.py:156-171 | A path is '/' followed by the names from the outermost ancestor down, joined by '/'. So it starts with '/'. |
| Inodes.PathEndsWithName | fs/orm.py:156-171 | A path ends with '/' and the inode's own name. |
| Inodes.PathOfChild | fs/orm.py:156-171 | A child's path is its parent's path, then '/', then the child's name. |
| Inodes.PathAsWritten | fs/orm.py:169-171 | As written, `path` fails (NotReversible): `reversed` cannot take the generator `revpath` yields. |
| Inodes.Path | fs/orm.py:156-171 | The loop over parent links, with the names reversed, builds exactly the path from the outermost ancestor down. |
| Inodes.RevPathStep | fs/orm.py:159-166 | Moving one parent up while collecting names keeps the collected names, reversed, equal to the rest of the path. |
| Inodes.RevPathDone | fs/orm.py:166-171 | At a row without a parent, the collected names and the root marker, reversed and joined by '/', are the path. |
| Inodes.Walk | fs/orm.py:106-128 | Walking stops at the index of the first component it cannot resolve. |
| Inodes.WalkPathRoundTrip | fs/orm.py:106-128 | Walking components with name matching reaches an inode whose path is the start's path joined with those components. |
| Inodes.ByPathIgnoresNames | fs/orm.py:115-126 | As written, a lookup on parent and scope alone returns the first child. Resolving "b" where "a" has the lower id gives "a", while matching names gives "b". |
| Inodes.ParentsCheck | fs/orm.py:361-372 | The ancestor check returns Ok or raises ConsistencyError at a file ancestor. |
| Inodes.Ancestors | fs/orm.py:361-372 | Every ancestor of a row is a row of the table. |
| Inodes.ParentsCheckMeaning | fs/orm.py:361-372 | The ancestor check is Ok(true) exactly when every ancestor is an executable directory. An error names an ancestor that is a file. |
| Inodes.ReadableByAsWritten | fs/orm.py:361-376 | As written, `readable_by` is false when the own check fails. Otherwise it raises MissingAttribute, because `_parents_readable` reads the missing `self.inode`. |
| Inodes.ReadableByAsWrittenRaises | fs/orm.py:361-376 | An owner reading their own readable root directory gets an exception from the code as written, where the corrected check answers true. |
| Inodes.ExecutableByAsWritten | fs/orm.py:361-384 | As written, `executable_by` is false when the own triads refuse execute and raises MissingAttribute exactly when they grant it. |
| Inodes.ParentsLoopAsWritten | fs/orm.py:365-372 | Started from the parent, the loop as written never ends exactly when that parent is a directory the account may execute by its own triads. |
| Inodes.OrmParentsLoopNeverAdvances | fs/orm.py:365-372 | Where that loop ends it agrees with the intended ancestor check. Below a top-level directory the account may execute it never ends, while the intended check answers true. |
| Inodes.InodeReadableBy | fs/orm.py:374-376 | Readable is the own read check AND the ancestor check. A failing own check is Ok(false) and never consults the parents. |
| Inodes.InodeWritableBy | fs/orm.py:378-380 | Writable is the own write check AND the ancestor check. |
| Inodes.InodeExecutableBy | fs/orm.py:382-384 | Executable is the own execute check AND the ancestor check. |
| Inodes.RootReadsBelowExecutableParents | fs/orm.py:374-376 | A root account reads any inode whose ancestors it may pass, whatever the inode's own mode. |
| Inodes.Store.constructor | fs/orm.py:47-58 | An empty table and blob store. |
| Inodes.Store.Insert | fs/orm.py:47-58 | Saving a row gives it the next id and changes nothing else. |
| Inodes.Store.Content | fs/orm.py:188-197 | Reading data raises NotAFile exactly for a directory. It raises ReadError when the blob is missing, and otherwise returns the stored blob. |
| Inodes.Store.SetData | fs/orm.py:199-213 | A saved directory raises NotAFile. A failing store raises WriteError and changes nothing. Otherwise the new blob gets the next blob id, the old blob is deleted (a failing delete is suppressed) and the new content reads back. |
| Inodes.Store.Children | fs/orm.py:248-254 | A file raises NotADirectory. A directory yields exactly its child rows. |
| Inodes.Store.WalkPath | fs/orm.py:106-128 | The loop over the path's components agrees with the walk over its non-empty components, starting from `root_of`. |
| Inodes.Store.ByPath | fs/orm.py:106-128 | As written: scope errors and a missing root are passed on, and each step takes the first child in scope whatever its name. |
| Inodes.Store.ByPathNamed | fs/orm.py:106-128 | With names matched, the lookup finds an inode exactly when the name-matching walk of the path's non-empty components succeeds, and returns the inode the walk reaches. A found inode is in scope and its path is its root's path joined with those components. A miss is DoesNotExist. |
| Inodes.Store.ParentsReadable | fs/orm.py:361-372 | The loop as evidently intended, starting from the parent and moving to the next parent each round, computes the ancestor check: false at the first directory the account may not execute, ConsistencyError at a file parent, true otherwise. |
| Inodes.Store.Unlink | fs/orm.py:265-277 | A row with children raises DirectoryNotEmpty and nothing changes. Otherwise the blob is deleted (a failing delete raises StoreError) and then the row. |
| Inodes.Store.Remove | fs/orm.py:256-277 | A removal succeeds exactly when it is recursive or the directory is empty, and no blob of the subtree fails to delete; then it deletes exactly the inode's subtree, children before parents, and the blobs of exactly the removed rows. DirectoryNotEmpty comes only from a non-recursive remove of a directory with children, which changes nothing; StoreError exactly when it is recursive or the directory is empty and some blob of the subtree fails to delete. No row whose blob fails to delete is ever removed. |
| Inodes.Store.ToDict | fs/orm.py:279-297 | The dictionary carries name, owner, group and mode. A directory lists its children exactly when asked. A file carries mimetype and size, and fails when its content cannot be read. |
| Inodes.Store.DictFor | fs/orm.py:299-312 | Over the intended executable check (see Findings): the entry is hidden exactly when the parent, or the inode itself for a root, is not executable. A directory lists every child's full dictionary. |
| Inodes.Store.ChildDicts | fs/orm.py:306-308 | Every child's dictionary, or the error of a child whose dictionary fails. |
| Inodes.WalkStep | fs/orm.py:110-126 | One more component leaves the walk unchanged when it is empty or the walk already failed. Otherwise it looks the child up and fails at that index on a miss. |
| Inodes.WalkAppend | fs/orm.py:110-126 | Walking one more component is one lookup after the walk of the rest. |
| Inodes.WalkFailureStays | fs/orm.py:110-126 | Once a prefix fails, the whole path fails at the same component. |
| Inodes.WalkPieceStep | fs/orm.py:109-126 | One round of the loop: an empty component keeps the inode, a found child becomes the inode, and a miss makes the whole walk fail. |
| Inodes.WalkLastStep | fs/orm.py:109-126 | The last step of a successful walk lands on a child, named by the last component, of the inode the rest of the walk reached. |
| Inodes.WalkParts | fs/orm.py:109-126 | The loop finds an inode exactly when the walk over the non-empty components succeeds, and then finds the same inode. |
| Inodes.WalkMissMeaning | fs/orm.py:110-126 | The failing index names a component that has no matching child of the inode reached before it. |
| Inodes.WalkStaysInScope | fs/orm.py:110-126 | Every inode a walk reaches lies in the scope it searched. |
| Inodes.RootIsNotProtected | fs/orm.py:265-277 | Nothing protects a root directory: unlinking an empty root succeeds, removes exactly that row, keeps the blobs and leaves the table well formed. |
| Inodes.InSubtreeOfParent | fs/orm.py:256-263 | A descendant of a child is a descendant of the parent. |
| Inodes.RemoveChildStep | fs/orm.py:258-261 | Removing one child's subtree keeps everything outside the parent's subtree. |
| Inodes.RemoveFinish | fs/orm.py:258-263 | After the children are gone, unlinking the inode leaves exactly the rows outside its subtree. |
| Api.FromPath | fs/api.py:38-56 | Without a group root it raises DoesNotExist. Otherwise it resolves the non-empty components, each step matching group, parent and name. |
| Api.Resolve | fs/api.py:41-56 | The loop appends each non-empty component to the processed path and agrees with the resolution of the non-empty components. |
| Api.ResolveStep | fs/api.py:43-55 | An empty component is skipped. A non-empty one is appended, and the step either moves to the child or stops with FileNotFound. |
| Api.MissNamesPrefix | fs/api.py:47-55 | A miss reports '/' and the components up to and including the failing one. |
| Api.FromPathFindsNamedPath | fs/api.py:38-56 | A resolved inode belongs to the customer. Its path is the root's path joined with the non-empty components, so "/a//b/" and "a/b" agree. |
| Api.FromPathMissNamesFirstGap | fs/api.py:41-55 | FileNotFound carries the path up to the first component that has no child, after which no lookup is made. |
| Api.ParentsReadableAsWritten | fs/api.py:58-69 | With the orm-level `executable_by` corrected, the loop as written diverges exactly when the parent is a directory that check grants, because it never moves on. |
| Api.ParentsReadableFullyAsWritten | fs/api.py:58-69 | Entirely as written the loop never diverges: `executable_by` raises AttributeError (MissingAttribute) exactly when the parent is a directory whose own triads grant execute. |
| Api.ParentsAsWrittenBelowRoot | fs/api.py:58-69 | Below a top-level directory the account may execute, the intended check answers true, the loop over the corrected orm diverges and the loop entirely as written raises MissingAttribute. |
| Api.ParentsLoopNeverAdvances | fs/api.py:58-69 | Where the loop as written ends, it agrees with the corrected check. Directly below an executable root directory it never returns, although the corrected check answers true. |
| Api.ParentsReadable | fs/api.py:58-69 | The advancing loop computes the ancestor check: false at a non-executable directory, ConsistencyError at a file. |
| Api.ReadableBy | fs/api.py:71-74 | Over the intended orm check and advancing parent loop (see Findings): Ok(true) exactly when the own read check passes and every ancestor is passable. |
| Api.WritableBy | fs/api.py:76-79 | Over the intended orm check and advancing parent loop (see Findings): Ok(true) exactly when the own write check passes and every ancestor is passable. |
| Api.ExecutableBy | fs/api.py:81-84 | Over the intended orm check and advancing parent loop (see Findings): Ok(true) exactly when the own execute check passes and every ancestor is passable. |
| Policy.ToPath | hisfs/policy.py:4-7 | A path built from nodes starts with '/'. |
| Policy.Nodes | hisfs/policy.py:21-27 | No node contains '/'. |
| Policy.NodesOfToPath | hisfs/policy.py:4-27 | For non-empty nodes without '/', the nodes of the joined path are the nodes themselves. |
| Policy.NodesOfEmptyPath | hisfs/policy.py:4-27 | No nodes join to "/", which splits back into one empty node. |
| Policy.ToPathOfNodes | hisfs/policy.py:4-27 | A path starting with '/' is rebuilt exactly from its nodes. |
| Policy.TrailingSepKeepsEmptyNode | hisfs/policy.py:21-27 | A trailing '/' adds one empty node. |
| Policy.FirstBlockedMeaning | hisfs/policy.py:80-82 | The parent loop reports the first parent that is not executable, and none exactly when all of them are. |
| Policy.FirstBlocked | hisfs/policy.py:80-82 | A reported parent is one of the parents and is not executable. |
| Policy.ReadDecision | hisfs/policy.py:75-87 | NotExecutable names an ancestor that is not executable. NotReadable names the file itself, which is not readable. A store error is the content lookup's error. |
| Policy.ListDecision | hisfs/policy.py:89-98 | NotExecutable names an ancestor that is not executable. NotReadable names the inode itself, which is not readable. A store error is the dictionary's error. |
| Policy.WriteDecision | hisfs/policy.py:100-127 | NotExecutable names the directory or one of its ancestors, not executable. NotWritable names a row that is not writable. NotAFile names the directory child of that name. |
| Policy.CheckParents | hisfs/policy.py:80-82 | The loop over parents stops at the first that is not executable. |
| Policy.ReadFile | hisfs/policy.py:75-87 | The loop decides like the read decision. |
| Policy.ReadOnlyWhenPermitted | hisfs/policy.py:75-87 | Data is returned exactly for a file whose parents are executable and which is readable. A directory raises NotAFile before any permission check. |
| Policy.ListInode | hisfs/policy.py:89-98 | The loop decides like the list decision. |
| Policy.ListOnlyWhenPermitted | hisfs/policy.py:89-98 | A listing succeeds exactly when every ancestor is executable, the inode is readable and its dictionary can be built, and then it is that dictionary. NotReadable exactly when the ancestors pass and the inode is not readable. NotExecutable(p) exactly when p is the first ancestor that is not executable. |
| Policy.ChildNamed | hisfs/policy.py:112-114 | The child found carries the name and the parent. A miss means no child below the counter has that name. |
| Policy.WriteOnlyWhenPermitted | hisfs/policy.py:100-127 | Writing needs a directory, executable parents and an executable directory. Creating needs a writable directory and no child of that name. Overwriting needs an existing writable file child of that name. |
| Policy.WriteDecisionOrder | hisfs/policy.py:100-127 | The checks in their order, as if-and-only-ifs: a non-directory target is NotADirectory; NotExecutable(p) exactly when p is the first of the parents and then the directory that may not be executed; Create exactly when all those pass, no child has the name and the directory is writable; Overwrite(c) exactly when they pass and c is the named child, a writable file; a directory child is NotAFile, a missing child in a directory that is not writable is NotWritable(dir), and a file child that is not writable is NotWritable(c). |
| Policy.FirstBlockedAppend | hisfs/policy.py:105-110 | Checking the directory after its parents reports the first blocked parent, else the directory when it may not be executed. |
| Policy.WriteFile | hisfs/policy.py:100-127 | A refusal changes nothing. Creating adds exactly one child row owned by the account, stores the data under the next blob id and answers the new row. Overwriting points the file at a newly stored blob, deleting the old one unless that delete fails, and keeps the rows otherwise. A success reads back the data. |
| Thumbnails.Round | hisfs/thumbnails.py:27-28 | Python's `round` moves a value by at most one half. |
| Thumbnails.RoundWhole | hisfs/thumbnails.py:27-28 | A whole number rounds to itself. |
| Thumbnails.RoundBelow | hisfs/thumbnails.py:27-28 | Rounding never exceeds a whole number at or above the value. |
| Thumbnails.NewResolutionAsWritten | hisfs/thumbnails.py:15-29 | As written, NoThumbnailRequired is raised exactly when either dimension already fits. |
| Thumbnails.FactorAtLeastOne | hisfs/thumbnails.py:18-24 | An axis factor is at least one exactly when the box is at least as large as the image on that axis. |
| Thumbnails.AsWrittenSkipsTooTallImage | hisfs/thumbnails.py:23-24 | A 400x200 image for a 500x100 box gets no thumbnail, although it does not fit. |
| Thumbnails.NewResolution | hisfs/thumbnails.py:15-29 | No thumbnail is required exactly when the image fits the box on both axes. |
| Thumbnails.ScaledFits | hisfs/thumbnails.py:26-28 | The one scaled size fits the box and the image. It touches the box on the limiting axis and is strictly smaller on one axis. |
| Thumbnails.ScaledAxis | hisfs/thumbnails.py:26-28 | On each axis the capped, rounded length fits the box and the image, is within one half of the exact scaled length, and equals the box on the limiting axis. |
| Thumbnails.NewResolutionShrinksToFit | hisfs/thumbnails.py:15-29 | A computed size fits the box, touches it on one axis and is smaller than the image. |
| Thumbnails.AsWrittenAgreesWhenItScales | hisfs/thumbnails.py:23-28 | When the written test makes a thumbnail, it agrees with the corrected one, and both axes shrink strictly. |
| Thumbnails.SaveFormat | hisfs/thumbnails.py:39-40 | Without a guessed extension the format is JPEG. Otherwise it is the extension without its dot, upper-cased. |
| Thumbnails.SaveFormatOfExtension | hisfs/thumbnails.py:39-40 | The format of ".ext" is the upper-cased "ext"; no guess gives JPEG and ".png" gives PNG. |
| Thumbnails.GenThumbnail | hisfs/thumbnails.py:32-48 | Over the intended both-axes resolution (see Findings): NoThumbnailRequired exactly when the image fits. Otherwise the size is the aspect-keeping resolution computed for the box, which fits the box and touches it on one axis, and the bytes are the image rendered at that size in the save format. |
| HisFiles.FindNamed | hisfs/orm.py:146-147 | The lookup finds the least id with that name and customer, or reports that none exists. |
| HisFiles.MaxNameLen | hisfs/orm.py:142-157 | A bound on the length of every stored name. |
| HisFiles.Renamed | hisfs/orm.py:142-144 | The renamed candidate is the stem, " (k)" and the suffix. |
| HisFiles.RenamedInjective | hisfs/orm.py:142-144 | Different counters give different names. |
| HisFiles.AddAsWritten | hisfs/orm.py:138-159 | As written: FileExists with the first clash exactly when not renaming and the name is taken. Otherwise a record with a free name, the customer and the content. |
| HisFiles.AddAsWrittenRetries | hisfs/orm.py:150-157 | A taken candidate is retried with the candidate itself as the name and the next counter. |
| HisFiles.RenamedAt | hisfs/orm.py:142-144 | A name "stem.ext" renamed with k becomes "stem (k).ext". |
| HisFiles.RenamedOnce | hisfs/orm.py:142-144 | "a.txt" renamed with 1 is "a (1).txt". |
| HisFiles.RenamedTwice | hisfs/orm.py:142-144 | "a (1).txt" renamed with 2 is "a (1) (2).txt". |
| HisFiles.AddAccumulatesSuffixes | hisfs/orm.py:142-157 | With "a.txt" and "a (1).txt" stored, adding "a.txt" with renaming gives "a (1) (2).txt", although "a (2).txt" is free. |
| HisFiles.FirstFree | hisfs/orm.py:155-157 | The least counter from k on whose renamed name is free. |
| HisFiles.TakenCounterBound | hisfs/orm.py:142-157 | A counter whose renamed name is taken is below 10 to the power of the longest stored name length, so the search for a free counter ends. |
| HisFiles.Add | hisfs/orm.py:138-159 | FileExists exactly when not renaming and the name is taken. A free name is kept. A taken one is renamed from the original with the least free counter. |
| HisFiles.AddAgreesUntilSecondRetry | hisfs/orm.py:142-157 | The written and corrected versions agree unless a second retry is needed. |
| HisFiles.AddKeepsNamesUnique | hisfs/orm.py:146-153 | Storing what `add` returns keeps (name, customer) unique. |
| HisFiles.UsedIgnoresAbove | hisfs/orm.py:221-230 | Rows not yet counted do not change the usage. |
| HisFiles.UsedAfterSave | hisfs/orm.py:221-230 | Saving a record adds its size to its customer's usage and leaves the others unchanged. |
| HisFiles.UsedNone | hisfs/orm.py:226-230 | A customer without files uses nothing. |
| HisFiles.UsedCountsFile | hisfs/orm.py:226-230 | Every file of the customer counts in full towards the usage. |
| HisFiles.Free | hisfs/orm.py:232-235 | The free space is non-negative exactly when the usage is within the quota. |
| HisFiles.Alloc | hisfs/orm.py:237-242 | Allocation succeeds exactly when usage plus size is within the quota. A refusal carries quota, free space and size. |
| HisFiles.AllocThenSaveWithinQuota | hisfs/orm.py:221-242 | Saving after a granted allocation keeps usage within the quota. |
| HisFiles.CachedAsWritten | hisfs/orm.py:188-193 | As written, a cached thumbnail of the parent matches when either dimension equals the request. |
| HisFiles.CachedAsWrittenServesWrongSize | hisfs/orm.py:188-193 | A stored 100x50 thumbnail (what a 400x200 image gets for a 100x100 box) is returned for a 100x30 request it does not fit. |
| HisFiles.Cached | hisfs/orm.py:188-193 | The corrected cache matches the parent and the exact computed size, or reports that none exists. |
| HisFiles.Db.constructor | hisfs/orm.py:130-184 | Empty file and thumbnail tables with the configured quotas. |
| HisFiles.Db.Save | hisfs/orm.py:122-127 | Saving gives the record the next file id and changes nothing else. |
| HisFiles.Db.Delete | hisfs/orm.py:179-181 | Deleting a file deletes its thumbnails by cascade and nothing else. |
| HisFiles.Db.FromFile | hisfs/orm.py:185-206 | The parent is returned exactly when the image fits, and nothing changes then. Otherwise the thumbnail has the computed size: a cached one is returned unchanged, and on a miss exactly one row is added under the next id, holding the bytes rendered at that size. |
| HisFiles.Db.Thumbnail | hisfs/orm.py:161-166 | UnsupportedFileType exactly when the mimetype is not JPEG or PNG, and nothing changes then. Otherwise, over the intended `from_file` (see Findings), the thumbnail table changes exactly as `from_file` says, and what is served fits the request. |
| Functions.GetFile | hisfs/functions.py:12-29 | No id gives None. A file is found exactly when it is visible, that is, root or of the caller's customer. A miss raises the given exception, or DoesNotExist when none is given. |
| Functions.GetFileTenantScoped | hisfs/functions.py:18-21 | Another customer's file is found only by a root account. |
| Hooks.FromDict | hisfs/hooks.py:45-50 | Each field is present exactly when its key is. |
| Hooks.FromDictToDict | hisfs/hooks.py:45-50 | Every hook is read back from its own configuration entry. |
| Hooks.Load | hisfs/hooks.py:52-56 | An event's hooks in configuration order, and none for an unconfigured event. |
| Hooks.PathNodes | hisfs/hooks.py:58-61 | At most the three fields after the name. |
| Hooks.PythonPathIgnoresName | hisfs/hooks.py:58-61 | The hook's name takes no part in its python path. |
| Hooks.PythonPathSplits | hisfs/hooks.py:58-67 | With dot-free fields, the path splits back into the fields, and its last '.' separates the function from the rest. |
| Hooks.Callable | hisfs/hooks.py:63-79 | InvalidPythonPath exactly when the path has no '.'. A success is a member of an importable module, split at the last '.'. |
| Hooks.Call | hisfs/hooks.py:33-43 | Nothing escapes a call. A loading error or an exception of the hook is recorded, and the hook completes otherwise. |
| Hooks.RunDeleteHooks | hisfs/hooks.py:21-25 | Every 'on_delete' hook runs in configuration order with the same ident, whatever the earlier ones did. |
| Handlers.QuotaFor | hisfs/wsgi.py:36-42 | The customer's quota row, or the default quota when the customer has none. |
| Handlers.QAlloc | hisfs/wsgi.py:45-51 | Allocation is granted exactly when usage plus size is within the quota, and answers QUOTA_EXCEEDED otherwise. |
| Handlers.WithFile | hisfs/wsgi.py:71-90 | A file is served exactly when it exists and the caller is root or of its customer. Otherwise the answer is NO_SUCH_FILE. |
| Handlers.WithFileAgreesWithGetFile | hisfs/wsgi.py:71-90 | The handler's scoping agrees with the exported lookup and its default exception. |
| Handlers.ParseResolution | hisfs/wsgi.py:54-68 | An accepted argument has exactly two parts around 'x'. |
| Handlers.ParseResolutionRoundTrip | hisfs/wsgi.py:54-68 | "WxH" parses back to W and H. |
| Handlers.TryThumbnail | hisfs/wsgi.py:54-68 | Without an argument the file is served unchanged. A malformed argument is refused, and a non-image is served unchanged; the thumbnail table is untouched in these cases. For a parsed size and an image, over the intended `from_file` (see Findings), a thumbnail is served exactly when the image does not fit, with the table changed exactly as `from_file` says. |
| Handlers.Post | hisfs/wsgi.py:124-137 | The quota is checked before the clash. A clash answers FILE_EXISTS with the first clash's id. A creation stores, under the next id, what the intended `add` returns (the first free counter; see Findings). Usage stays within the quota. |
| Handlers.NamesWith | hisfs/wsgi.py:148-162 | The list of refused names is empty exactly when no upload met that refusal. |
| Handlers.StepFacts | hisfs/wsgi.py:151-171 | One upload takes exactly one outcome, which is appended in order, and earlier rows are kept. |
| Handlers.StepBranch | hisfs/wsgi.py:151-171 | One upload appends one outcome, TooLarge exactly when it cannot be read, and adds its name to the too-large or over-quota list exactly for those outcomes. |
| Handlers.StepRows | hisfs/wsgi.py:151-171 | One upload keeps every earlier row, never lowers the id counter and keeps the rows below it. |
| Handlers.StepWithinQuota | hisfs/wsgi.py:158-171 | One upload keeps usage within the quota and names unique. |
| Handlers.BatchAccounting | hisfs/wsgi.py:151-171 | One outcome per upload, in order. TooLarge exactly for an unreadable upload. The too-large and over-quota lists are the names with those outcomes. |
| Handlers.BatchOutcomes | hisfs/wsgi.py:151-171 | One outcome per upload, TooLarge exactly for an unreadable one. |
| Handlers.BatchLists | hisfs/wsgi.py:151-171 | The too-large and over-quota lists are exactly the names of the uploads with those outcomes, in order. |
| Handlers.BatchRows | hisfs/wsgi.py:151-171 | A batch keeps every earlier row and never lowers the id counter. |
| Handlers.BatchStatusMeaning | hisfs/wsgi.py:173-176 | The status is 400 exactly when some upload was too large or over quota, and 200 otherwise. |
| Handlers.BatchWithinQuota | hisfs/wsgi.py:158-171 | Allocation is evaluated afresh after each save, so a whole batch keeps usage within the quota and names unique. |
| Handlers.PostMulti | hisfs/wsgi.py:142-176 | The loop stores exactly the files of the batch run, each renamed by the intended `add` (see Findings), and answers FILES_CREATED with its lists and status. |
| Handlers.Delete | hisfs/wsgi.py:179-187 | An unknown or foreign id answers NO_SUCH_FILE. Otherwise every delete hook runs, then the file row is removed and exactly the thumbnails of that file are removed; the counters are unchanged. |
| Handlers.PageNamesDistinct | hisfs/wsgi.py:206-208 | Different page numbers give different names. |
| Handlers.PageNameParts | hisfs/wsgi.py:201-208 | A page name's stem is the document's stem, "-page" and the number. Its suffix is '.' and the lower-cased format. |
| Handlers.SavePage | hisfs/wsgi.py:210-216 | A page whose name is taken answers the first clashing row and changes nothing. Otherwise exactly one row is added under the next id, holding the page. |
| Handlers.ConvertPdf | hisfs/wsgi.py:190-219 | An unknown id answers NO_SUCH_FILE. A non-PDF answers NOT_A_PDF_DOCUMENT. Neither changes anything. Otherwise the tables end as the page run says and the answer is QUOTA_EXCEEDED if an allocation was refused and FILES_CREATED with the run's ids otherwise. Earlier rows are kept, FILES_CREATED stores every page under its page name, and usage stays within the quota. |
| Handlers.RunPagesFirstRefusal | hisfs/wsgi.py:206-217 | A stopped run stops at its first refused page, with the books of the pages before it. A run that is not stopped answers one id per page, every allocation having been granted. |
| Handlers.RunPagesCompleted | hisfs/wsgi.py:206-217 | A run that is not stopped answers one id per page, and every page's allocation was granted. |
| Handlers.RunPagesStopped | hisfs/wsgi.py:206-217 | A stopped run is refused at the page after the last id answered, with the books of the pages before it. |
| Handlers.RunPagesExceededIff | hisfs/wsgi.py:206-217 | QUOTA_EXCEEDED is answered exactly when some page is reached and its allocation is refused. |
| Handlers.RunPagesStaysExceeded | hisfs/wsgi.py:206-207 | Once an allocation is refused, the later pages change nothing. |
| Handlers.PageStepRows | hisfs/wsgi.py:207-217 | One page keeps the earlier rows and ids and adds at most its own row. |
| Handlers.RunPagesRows | hisfs/wsgi.py:206-217 | A run keeps the earlier rows, and every added row is a page id answered. |
| Handlers.PageStepStored | hisfs/wsgi.py:207-217 | One page stores its id under its page name and keeps the earlier pages stored and the usage within the quota. |
| Handlers.RunPagesStored | hisfs/wsgi.py:206-217 | Every page id answered is a row of the customer under its page name, and usage that starts within the quota stays within it. |
| Handlers.PageStepUsage | hisfs/wsgi.py:207-217 | A page that is not refused adds at most its bytes to the usage. |
| Handlers.RunPagesUsage | hisfs/wsgi.py:206-217 | A run that is not stopped adds at most the pages' total bytes to the usage. |
| Handlers.RunPagesAllFit | hisfs/wsgi.py:206-217 | When the free space holds all pages together, no allocation is refused and every page is answered. |
| Handlers.RunPagesFacts | hisfs/wsgi.py:206-219 | A run keeps earlier rows, a completed run stores one page per page given, and usage stays within the quota. |
| Text.SplitJoin | hisfs/policy.py:4-27 | Splitting a join of separator-free parts gives the parts back. |
| Text.JoinSplit | hisfs/policy.py:4-27 | Joining a split gives the string back. |
| Text.RSplitOnce | hisfs/hooks.py:67 | Splitting at the last separator fails exactly when there is none. Otherwise the separator-free tail and the head rebuild the string. |
| Text.StemSuffix | hisfs/orm.py:143-144 | A name is its stem followed by its suffix. |
| Text.NatToStringInjective | hisfs/orm.py:144 | Different numbers print differently. |
| Text.ParseNatToString | hisfs/wsgi.py:54-68 | Parsing a printed natural number gives it back. |
| Text.ParseInt | hisfs/wsgi.py:63 | A parse succeeds only on a non-empty string, and a negative value needs a leading '-'. |
| Text.ParseSignedNatToString | hisfs/wsgi.py:63 | A sign before a printed natural number is honoured: '-' negates it and '+' keeps it. |
| Text.StemSuffixShape | hisfs/wsgi.py:203 | A non-empty name has a non-empty stem, and a suffix is a '.' followed by at least one character and no further '.'. |
| Text.Upper | hisfs/wsgi.py:201 | The result has the same length, each character upper-cased. |
| Text.Lower | hisfs/wsgi.py:202 | The result has the same length, each character lower-cased. |

## Left out

- Flask, the session globals (`ACCOUNT`, `CUSTOMER`), the HTTP request and the response wrappers are left out. What a handler reads from them is a parameter.
- The filedb client's storage, streaming, `sha256sum`, `last_access`/`accessed` and `to_json` are left out. A file record embeds its blob, because the filedb row is not separately visible.
- Image decoding, the PIL resize and encoding, PDF rasterisation and PDF detection are left out. They are function parameters.
- Python's float division and `round` on floats are modelled with exact reals.
- `list_` and `get` in hisfs/wsgi.py are HTTP glue over the lookups that are modelled.
- `hisfs/wsgi.py` imports `DEFAULT_QUOTA` and `LOG_FORMAT`, and `hisfs/hooks.py` imports `HOOKS` and `LOG_FORMAT`, none of which hisfs/config.py defines. The default quota and the hook configuration are therefore parameters, and logging is not modelled.
- The logging in `Hook.__call__` and `run_delete_hooks` is left out.
- Inodes.Store.DictFor: as written, `dict_for` calls `executable_by`, which raises AttributeError whenever the own triads grant (fs/orm.py:361-372); the model states the intended check.
- Api.ReadableBy, Api.WritableBy, Api.ExecutableBy: as written, the orm check they call raises AttributeError whenever the own triads grant, and their parent loop never advances; the model states the intended checks (see Findings).
- GenThumbnail: as written, `_get_new_resolution` answers NoThumbnailRequired as soon as one axis fits (hisfs/thumbnails.py:23-24); the model uses the intended both-axes rule.
- Thumbnail: HisFiles.Db.Thumbnail runs over the intended `from_file`; as written the cache can serve a thumbnail of the wrong size (hisfs/orm.py:190), so "what is served fits the request" holds of the intended code only.
- TryThumbnail: Handlers.TryThumbnail inherits both corrections above; as written an image that fits on one axis only is served unscaled, and a cached thumbnail of the wrong size can be served.
- Handlers.Post: stores what the intended `add` returns (HisFiles.Add, the first free counter); as written `File.add` renames the renamed name on each retry (hisfs/orm.py:142-157), so with "a.txt" and "a (1).txt" stored, posting "a.txt" with renaming stores "a (1) (2).txt" where the model stores "a (2).txt".
- Handlers.PostMulti: the batch (Handlers.Step, Handlers.RunBatch) uses the same intended `add`, so a renamed upload gets the first free counter where the code as written stores the accumulated-suffix name; names stay unique either way (HisFiles.AddAsWritten never returns a taken name).
- Inodes.Store.Remove: the order in which the database returns children is unspecified, so only the set of rows removed is stated.
- HisFiles.Alloc: `QuotaExceeded` is raised with keyword arguments that hisfs/exceptions.py:31-32 gives no `__init__` for, so as written a refusal would surface as a TypeError. It is modelled as the quota refusal it is meant to be.
- HisFiles.Db.FromFile: the thumbnail's blob takes the parent's mimetype, because the encoder's actual format is not visible.
- `Quota.by_customer` rows are a map from customer to quota.
- Handlers.ParseResolution: Text.ParseInt accepts an optional '+' or '-' followed by ASCII digits. Python's `int` also accepts surrounding whitespace, underscores between digits and non-ASCII decimal digits; those inputs are refused by the model.
- Text.Upper, Text.Lower: only ASCII letters change case. Python's `str.upper` and `str.lower` use the full Unicode mappings, which can change the length ('ß'.upper() is 'SS'), so Text.LowerOfUpper does not hold for Python in general. This touches the format argument of `convert_pdf`.
- Text.Stem, Text.Suffix: they split the whole string at its last '.', whereas `Path(name).stem` and `.suffix` look only at the last path component, so a name holding '/' ("x/a.txt" has the stem "a") is not modelled as Python splits it.
- fs/api.py refers to `ORMInode.root_for` and `INode`, which do not exist. The group root is modelled with `root_of`.
- hisfs/policy.py imports nothing, so `PATHSEP` and the exceptions it raises (`NotAFile`, `NotADirectory`, `NotExecutable`, `NotReadable`, `NotWritable`, `DoesNotExist`, `NoSuchInode`) are undefined names there: as written `to_path`, `nodes` and every refusal raise NameError. The model gives them their evident meaning, with '/' as the separator and one error constructor each.
- hisfs/policy.py uses an Inode interface (`parents`, `get_child`, `add_file`, `executable_by(user, group)`) that no module defines. It is modelled over the inode table with a permission parameter.
- Policy.WriteFile: the source calls `file.writable_by(directory, data, filename)` with the wrong arguments. The model asks whether the file is writable.
- Policy.WriteFile: an overwrite sets the data without saving the row.
- `UserInode.inodes` and `UserInode.__init__` (undefined names, broken final lookup) are not part of this model.
- `Inode.by_sha256sum` is not part of this model.
- Api.ParentsReadableAsWritten: its divergence is stated over the corrected orm-level `executable_by`. Entirely as written, that call raises AttributeError first, which Api.ParentsReadableFullyAsWritten states.
- `RootDeletionError` exists only as a message, and no code enforces it. The model states the opposite (Inodes.RootIsNotProtected).
- Check-then-act races on quota and name uniqueness are out of scope, because the model is sequential.
- `file_usage` in hisfs/functions.py is an unimplemented stub.
- fs/wsgi.py is HTTP glue with undefined names. The message catalogues are used only as error constructors and status codes (Messages.Status).

## Findings

| source | as written | input that shows it | evidently intended | confidence | as-written member | corrected member |
|---|---|---|---|---|---|---|
| fs/orm.py:115-126 | `by_path` looks each child up by parent and scope only | root 0 with children "a" (id 1) and "b" (id 2); path "b" gives id 1 | match the component's name too | not executed | Inodes.Store.ByPath, Inodes.ByPathIgnoresNames | Inodes.Store.ByPathNamed, Inodes.WalkPathRoundTrip |
| fs/orm.py:361-372 | `_parents_readable` reads `self.inode`, which an Inode does not have | any inode the account may read by its own bits, e.g. an owner-readable root | start from `self.parent` | not executed | Inodes.ReadableByAsWritten, Inodes.ReadableByAsWrittenRaises, Inodes.ExecutableByAsWritten | Inodes.InodeReadableBy, Inodes.ParentsCheckMeaning |
| fs/orm.py:365-370 | the loop of `_parents_readable` never assigns `parent = parent.parent` | even starting from `self.parent`: an inode below a top-level directory the account may execute, the loop never returns | start from `self.parent` and move to `parent.parent` each round | not executed | Inodes.ParentsLoopAsWritten, Inodes.OrmParentsLoopNeverAdvances | Inodes.Store.ParentsReadable, Inodes.ParentsCheckMeaning |
| fs/api.py:60-69 | the loop never assigns `parent = parent.parent` | an inode below a top-level directory the account may execute: with the orm check corrected the loop never returns; entirely as written `executable_by` raises AttributeError first | move to the next parent each round | not executed | Api.ParentsReadableAsWritten, Api.ParentsLoopNeverAdvances, Api.ParentsReadableFullyAsWritten, Api.ParentsAsWrittenBelowRoot | Api.ParentsReadable, Inodes.ParentsCheckMeaning |
| fs/orm.py:169-171 | `reversed` is applied to the generator `revpath` | any inode: TypeError | reverse the list of names | not executed | Inodes.PathAsWritten | Inodes.Path, Inodes.PathStartsWithSep |
| hisfs/orm.py:142-157 | each retry renames the already renamed name | "a.txt" and "a (1).txt" stored, add "a.txt" with rename: "a (1) (2).txt" | rename the original name with the next counter, giving "a (2).txt" | not executed | HisFiles.AddAsWritten, HisFiles.AddAccumulatesSuffixes | HisFiles.Add, HisFiles.FirstFree |
| hisfs/orm.py:190 | a cached thumbnail matches when either dimension equals the request | 100x50 stored for a 400x200 image; request 100x30 returns it | match the size the request scales to | not executed | HisFiles.CachedAsWritten, HisFiles.CachedAsWrittenServesWrongSize | HisFiles.Cached, HisFiles.Db.FromFile |
| hisfs/thumbnails.py:23-24 | no thumbnail as soon as one dimension fits | 400x200 image, 500x100 box: left at 400x200 | no thumbnail only when both dimensions fit | not executed | Thumbnails.NewResolutionAsWritten, Thumbnails.AsWrittenSkipsTooTallImage | Thumbnails.NewResolution, Thumbnails.NewResolutionShrinksToFit |
