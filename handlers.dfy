/** The web handlers of the later generation (hisfs/wsgi.py) as far as
    they decide and keep books: the quota that applies to a customer,
    allocation before every write, the scoping of a file id to the
    caller, the thumbnail argument, single and batch uploads, deletion
    with its hooks, and the conversion of a PDF document into one image
    file per page. The request, the session and the imaging library are
    parameters. */
module Handlers {
  import opened Common
  import opened Text
  import opened Thumbnails
  import opened HisFiles
  import opened Messages
  import opened Functions
  import opened Hooks

  /** `DEFAULT_FORMAT` of `convert_pdf`. */
  const DefaultFormat: string := "png"

  /** `_get_quota`: the customer's `Quota` row, or an unsaved one with the
      configured default. */
  function QuotaFor(quotas: map<CustomerId, int>, customer: CustomerId, defaultQuota: int): (q: Quota)
    ensures q.customer == customer
    ensures customer in quotas ==> q.quota == quotas[customer]
    ensures customer !in quotas ==> q.quota == defaultQuota
  {
    Quota(customer, if customer in quotas then quotas[customer] else defaultQuota)
  }

  /** `qalloc`: a refused allocation answers `QUOTA_EXCEEDED`. */
  function QAlloc(files: Files, bound: nat, q: Quota, size: int): (r: Result<bool, Message>)
    ensures r.Ok? <==> Used(files, bound, q.customer) + size <= q.quota
    ensures r.Err? ==> r.error == QuotaExceededMessage
  {
    match Alloc(q, files, bound, size)
    case Ok(granted) => Ok(granted)
    case Err(_) => Err(QuotaExceededMessage)
  }

  /** `with_file`: the file of that id if the account may see it, else
      `NO_SUCH_FILE`. */
  function WithFile(files: Files, ident: FileId, root: bool, customer: CustomerId): (r: Result<FileId, Message>)
    ensures r.Ok? <==> ident in files && (root || files[ident].customer == customer)
    ensures r.Ok? ==> r.value == ident
    ensures r.Err? ==> r.error == NoSuchFile
  {
    if Visible(files, ident, root, customer) then Ok(ident) else Err(NoSuchFile)
  }

  /** The handlers' scoping and the exported lookup with its default
      exception agree on every id. */
  lemma WithFileAgreesWithGetFile(files: Files, ident: FileId, root: bool, customer: CustomerId)
    ensures WithFile(files, ident, root, customer).Ok? ==>
      GetFile(files, Some(ident), root, customer, DefaultException) == Ok(Some(ident))
    ensures WithFile(files, ident, root, customer).Err? ==>
      GetFile(files, Some(ident), root, customer, DefaultException) == Err(Raised(NoSuchFile))
  {
  }

  // ---------------------------------------------------------------------
  // try_thumbnail

  /** The 'thumbnail' argument "WxH": split on 'x' into exactly two
      integers; `None` where Python raises `ValueError`. */
  function ParseResolution(arg: string): (r: Option<Resolution>)
    ensures r.Some? ==> |Split(arg, 'x')| == 2
  {
    var parts := Split(arg, 'x');
    if |parts| != 2 then None
    else
      match (ParseInt(parts[0]), ParseInt(parts[1]))
      case (Some(x), Some(y)) => Some(Resolution(x, y))
      case _ => None
  }

  /** "WxH" written from two numbers is read back as those numbers. */
  lemma ParseResolutionRoundTrip(x: nat, y: nat)
    ensures ParseResolution(NatToString(x) + "x" + NatToString(y)) == Some(Resolution(x, y))
  {
    var sx, sy := NatToString(x), NatToString(y);
    assert 'x' !in sx by {
      assert forall i | 0 <= i < |sx| :: sx[i] != 'x';
    }
    assert 'x' !in sy by {
      assert forall i | 0 <= i < |sy| :: sy[i] != 'x';
    }
    SplitPrefix(sx, sy, 'x');
    SplitNoSep(sy, 'x');
    ParseNatToString(x);
    ParseNatToString(y);
  }

  /** A malformed 'thumbnail' argument: the `ValueError` is not caught. */
  datatype RequestError = BadThumbnailArgument

  /** `try_thumbnail`: the file itself unless a thumbnail is asked for and
      the file is an image. `imageSize` is the file's decoded size,
      `guessed` what the MIME table reports for its type and `render` the
      imaging library's encoder. The thumbnail comes from the intended
      `from_file` and `_get_new_resolution`. */
  method TryThumbnail(db: Db, id: FileId, arg: Option<string>, imageSize: Resolution,
                      guessed: Option<string>, render: (Resolution, string) -> Bytes)
    returns (r: Result<Served, RequestError>)
    requires db.Valid() && id in db.files
    requires imageSize.x > 0 && imageSize.y > 0
    modifies db
    ensures db.Valid()
    ensures db.files == old(db.files) && db.nextFile == old(db.nextFile) && db.quotas == old(db.quotas)
    ensures arg.None? ==>
      r == Ok(Original(id)) && db.thumbs == old(db.thumbs) && db.nextThumb == old(db.nextThumb)
    ensures arg.Some? && ParseResolution(arg.value).None? ==>
      r == Err(BadThumbnailArgument) && db.thumbs == old(db.thumbs) && db.nextThumb == old(db.nextThumb)
    ensures arg.Some? && ParseResolution(arg.value).Some? && !IsImage(db.files[id].content) ==>
      r == Ok(Original(id)) && db.thumbs == old(db.thumbs) && db.nextThumb == old(db.nextThumb)
    ensures arg.Some? && ParseResolution(arg.value).Some? && IsImage(db.files[id].content) ==>
      && r.Ok?
      && (r.value.Original? <==> FitsIn(imageSize, ParseResolution(arg.value).value))
      && FromFileDone(db.files, old(db.thumbs), old(db.nextThumb), db.thumbs, db.nextThumb,
                      id, ParseResolution(arg.value).value, imageSize, guessed, render, r.value)
    ensures r.Ok? && r.value.Thumb? ==>
      && arg.Some? && ParseResolution(arg.value).Some?
      && r.value.id in db.thumbs && db.thumbs[r.value.id].parent == id
      && FitsIn(db.thumbs[r.value.id].size, ParseResolution(arg.value).value)
  {
    if arg.None? {
      return Ok(Original(id));
    }
    var request := ParseResolution(arg.value);
    if request.None? {
      return Err(BadThumbnailArgument);
    }
    var thumb := db.Thumbnail(id, request.value, imageSize, guessed, render);
    match thumb
    case Err(_) =>
      r := Ok(Original(id));
    case Ok(served) =>
      r := Ok(served);
  }

  // ---------------------------------------------------------------------
  // post

  /** `post`: allocation first, then the name check, then the save. The
      save uses the intended `add` (first free counter); the code as written
      keeps renaming the renamed name, see HisFiles.AddAsWritten. */
  method Post(db: Db, customer: CustomerId, defaultQuota: int, name: string, data: Bytes, mimetype: string,
              rename: bool) returns (m: Message)
    requires db.Valid()
    modifies db
    ensures db.Valid()
    ensures db.thumbs == old(db.thumbs) && db.quotas == old(db.quotas)
    ensures m.QuotaExceededMessage? || m.FileAlreadyExists? || m.FileCreated?
    ensures m.QuotaExceededMessage? <==>
      Used(old(db.files), old(db.nextFile), customer) + |data| > QuotaFor(old(db.quotas), customer, defaultQuota).quota
    ensures !m.FileCreated? ==> db.files == old(db.files) && db.nextFile == old(db.nextFile)
    ensures m.FileAlreadyExists? ==>
      && !rename && Taken(old(db.files), old(db.nextFile), name, customer)
      && m.id == FindNamed(old(db.files), old(db.nextFile), name, customer).value
    ensures m.FileCreated? ==>
      && m.id == old(db.nextFile) && db.nextFile == old(db.nextFile) + 1
      && Add(old(db.files), old(db.nextFile), name, customer, Blob(data, mimetype), rename).Ok?
      && db.files == old(db.files)[m.id := Add(old(db.files), old(db.nextFile), name, customer, Blob(data, mimetype), rename).value]
    ensures Used(old(db.files), old(db.nextFile), customer) <= QuotaFor(old(db.quotas), customer, defaultQuota).quota ==>
      Used(db.files, db.nextFile, customer) <= QuotaFor(old(db.quotas), customer, defaultQuota).quota
  {
    var q := QuotaFor(db.quotas, customer, defaultQuota);
    var granted := QAlloc(db.files, db.nextFile, q, |data|);
    if granted.Err? {
      return granted.error;
    }
    var added := Add(db.files, db.nextFile, name, customer, Blob(data, mimetype), rename);
    match added
    case Err(FileExists(existing)) =>
      m := FileAlreadyExists(existing);
    case Ok(rec) =>
      AllocThenSaveWithinQuota(q, db.files, db.nextFile, rec);
      var id := db.Save(rec);
      m := FileCreated(id);
  }

  // ---------------------------------------------------------------------
  // post_multi

  /** One uploaded part: its name, its bytes or `None` where reading them
      ran out of memory, and the MIME type the content store gives them. */
  datatype Upload = Upload(name: string, data: Option<Bytes>, mimetype: string)

  /** The branch one upload took. */
  datatype Outcome = TooLarge | OverQuota | Existing(id: FileId) | Created(id: FileId)

  /** The books of a batch: the file table and its counter, the four
      collections the answer reports, and the branch every upload took. */
  datatype Batch = Batch(files: Files, next: nat,
                         created: map<string, FileId>, existing: map<string, FileId>,
                         tooLarge: seq<string>, quotaExceeded: seq<string>,
                         outcomes: seq<Outcome>)

  function Start(files: Files, next: nat): Batch
  {
    Batch(files, next, map[], map[], [], [], [])
  }

  /** One pass of the `post_multi` loop. The quota is read afresh, so the
      files saved earlier in the batch count against it. Renaming uses the
      intended `add`, as in Post. */
  function Step(b: Batch, q: Quota, u: Upload, rename: bool): Batch
  {
    match u.data
    case None =>
      b.(tooLarge := b.tooLarge + [u.name], outcomes := b.outcomes + [TooLarge])
    case Some(data) =>
      if Alloc(q, b.files, b.next, |data|).Err? then
        b.(quotaExceeded := b.quotaExceeded + [u.name], outcomes := b.outcomes + [OverQuota])
      else
        match Add(b.files, b.next, u.name, q.customer, Blob(data, u.mimetype), rename)
        case Err(FileExists(id)) =>
          b.(existing := b.existing[b.files[id].name := id], outcomes := b.outcomes + [Existing(id)])
        case Ok(rec) =>
          b.(files := b.files[b.next := rec], next := b.next + 1,
             created := b.created[u.name := b.next], outcomes := b.outcomes + [Created(b.next)])
  }

  /** The loop over the uploads in order. */
  function RunBatch(init: Batch, q: Quota, uploads: seq<Upload>, rename: bool): Batch
  {
    if uploads == [] then init
    else Step(RunBatch(init, q, uploads[..|uploads| - 1], rename), q, uploads[|uploads| - 1], rename)
  }

  /** The batch answer's status. */
  function BatchStatus(b: Batch): int
  {
    if b.tooLarge != [] || b.quotaExceeded != [] then 400 else 200
  }

  /** The names of the uploads whose branch was `TooLarge` (`tooLarge`
      true) or `OverQuota` (false), in upload order. */
  function NamesWith(uploads: seq<Upload>, outcomes: seq<Outcome>, tooLarge: bool): (r: seq<string>)
    requires |uploads| == |outcomes|
    ensures r == [] <==> forall i | 0 <= i < |outcomes| ::
      !(if tooLarge then outcomes[i].TooLarge? else outcomes[i].OverQuota?)
  {
    if uploads == [] then []
    else
      var n := |uploads| - 1;
      NamesWith(uploads[..n], outcomes[..n], tooLarge)
      + (if (if tooLarge then outcomes[n].TooLarge? else outcomes[n].OverQuota?) then [uploads[n].name] else [])
  }

  /** One pass appends exactly one branch, extends the refusal list of
      that branch by the upload's name, and keeps every earlier row. */
  lemma StepFacts(b: Batch, q: Quota, u: Upload, rename: bool)
    requires Below(b.files, b.next)
    ensures var r := Step(b, q, u, rename);
      && |r.outcomes| == |b.outcomes| + 1 && r.outcomes[..|b.outcomes|] == b.outcomes
      && (r.outcomes[|b.outcomes|].TooLarge? <==> u.data.None?)
      && r.tooLarge == b.tooLarge + (if r.outcomes[|b.outcomes|].TooLarge? then [u.name] else [])
      && r.quotaExceeded == b.quotaExceeded + (if r.outcomes[|b.outcomes|].OverQuota? then [u.name] else [])
      && b.next <= r.next && Below(r.files, r.next) && Kept(b.files, r.files)
  {
    StepBranch(b, q, u, rename);
    StepRows(b, q, u, rename);
  }

  /** The branch one pass takes and the refusal lists it extends. */
  lemma StepBranch(b: Batch, q: Quota, u: Upload, rename: bool)
    ensures var r := Step(b, q, u, rename);
      && |r.outcomes| == |b.outcomes| + 1 && r.outcomes[..|b.outcomes|] == b.outcomes
      && (r.outcomes[|b.outcomes|].TooLarge? <==> u.data.None?)
      && r.tooLarge == b.tooLarge + (if r.outcomes[|b.outcomes|].TooLarge? then [u.name] else [])
      && r.quotaExceeded == b.quotaExceeded + (if r.outcomes[|b.outcomes|].OverQuota? then [u.name] else [])
  {
    var r := Step(b, q, u, rename);
    match u.data {
      case None =>
        assert r.outcomes == b.outcomes + [TooLarge];
      case Some(data) =>
        if Alloc(q, b.files, b.next, |data|).Err? {
          assert r.outcomes == b.outcomes + [OverQuota];
        } else {
          assert r.tooLarge == b.tooLarge && r.quotaExceeded == b.quotaExceeded;
          assert r.outcomes[|b.outcomes|].Existing? || r.outcomes[|b.outcomes|].Created?;
        }
    }
    assert r.outcomes[..|b.outcomes|] == b.outcomes;
  }

  /** The rows after one pass: at most the next id is added. */
  lemma StepRows(b: Batch, q: Quota, u: Upload, rename: bool)
    requires Below(b.files, b.next)
    ensures var r := Step(b, q, u, rename);
      b.next <= r.next && Below(r.files, r.next) && Kept(b.files, r.files)
  {
    var r := Step(b, q, u, rename);
    if u.data.Some? && Alloc(q, b.files, b.next, |u.data.value|).Ok? {
      var add := Add(b.files, b.next, u.name, q.customer, Blob(u.data.value, u.mimetype), rename);
      if add.Ok? {
        assert r.files == b.files[b.next := add.value] && r.next == b.next + 1;
      }
    }
  }

  /** The names that took a branch, one upload more. */
  lemma NamesWithSnoc(uploads: seq<Upload>, outcomes: seq<Outcome>, tooLarge: bool)
    requires |uploads| == |outcomes| && uploads != []
    ensures var n := |uploads| - 1;
      NamesWith(uploads, outcomes, tooLarge)
      == NamesWith(uploads[..n], outcomes[..n], tooLarge)
         + (if (if tooLarge then outcomes[n].TooLarge? else outcomes[n].OverQuota?) then [uploads[n].name] else [])
  {
  }

  /** The branches of a batch: one per upload, in order, and `TooLarge`
      exactly for the uploads that could not be read. */
  lemma {:induction false} BatchOutcomes(files: Files, next: nat, q: Quota, uploads: seq<Upload>, rename: bool)
    requires Below(files, next)
    ensures var r := RunBatch(Start(files, next), q, uploads, rename);
      && |r.outcomes| == |uploads|
      && (forall i | 0 <= i < |uploads| :: r.outcomes[i].TooLarge? <==> uploads[i].data.None?)
  {
    if uploads != [] {
      var n := |uploads| - 1;
      var b := RunBatch(Start(files, next), q, uploads[..n], rename);
      BatchOutcomes(files, next, q, uploads[..n], rename);
      BatchRows(files, next, q, uploads[..n], rename);
      StepFacts(b, q, uploads[n], rename);
      var r := Step(b, q, uploads[n], rename);
      forall i | 0 <= i < |uploads|
        ensures r.outcomes[i].TooLarge? <==> uploads[i].data.None?
      {
        if i < n {
          assert r.outcomes[i] == b.outcomes[i] && uploads[i] == uploads[..n][i];
        }
      }
    }
  }

  /** The refusal lists of a batch are the names of the uploads that took
      those branches, in upload order. */
  lemma {:induction false} BatchLists(files: Files, next: nat, q: Quota, uploads: seq<Upload>, rename: bool)
    requires Below(files, next)
    ensures var r := RunBatch(Start(files, next), q, uploads, rename);
      && |r.outcomes| == |uploads|
      && r.tooLarge == NamesWith(uploads, r.outcomes, true)
      && r.quotaExceeded == NamesWith(uploads, r.outcomes, false)
  {
    if uploads != [] {
      var n := |uploads| - 1;
      var b := RunBatch(Start(files, next), q, uploads[..n], rename);
      BatchLists(files, next, q, uploads[..n], rename);
      BatchRows(files, next, q, uploads[..n], rename);
      StepFacts(b, q, uploads[n], rename);
      var r := Step(b, q, uploads[n], rename);
      NamesWithSnoc(uploads, r.outcomes, true);
      NamesWithSnoc(uploads, r.outcomes, false);
    }
  }

  /** The rows of a batch: ids stay below the counter and every earlier
      row is kept. */
  lemma {:induction false} BatchRows(files: Files, next: nat, q: Quota, uploads: seq<Upload>, rename: bool)
    requires Below(files, next)
    ensures var r := RunBatch(Start(files, next), q, uploads, rename);
      next <= r.next && Below(r.files, r.next) && Kept(files, r.files)
  {
    if uploads != [] {
      var n := |uploads| - 1;
      var b := RunBatch(Start(files, next), q, uploads[..n], rename);
      BatchRows(files, next, q, uploads[..n], rename);
      StepFacts(b, q, uploads[n], rename);
      KeptTrans(files, b.files, Step(b, q, uploads[n], rename).files);
    }
  }

  /** Every upload takes exactly one branch, in upload order; an upload is
      too large exactly when it could not be read; the two refusal lists
      are the names of the uploads that took those branches; every earlier
      row is kept. */
  lemma BatchAccounting(files: Files, next: nat, q: Quota, uploads: seq<Upload>, rename: bool)
    requires Below(files, next)
    ensures var r := RunBatch(Start(files, next), q, uploads, rename);
      && |r.outcomes| == |uploads|
      && (forall i | 0 <= i < |uploads| :: r.outcomes[i].TooLarge? <==> uploads[i].data.None?)
      && r.tooLarge == NamesWith(uploads, r.outcomes, true)
      && r.quotaExceeded == NamesWith(uploads, r.outcomes, false)
      && next <= r.next && Below(r.files, r.next) && Kept(files, r.files)
  {
    BatchOutcomes(files, next, q, uploads, rename);
    BatchLists(files, next, q, uploads, rename);
    BatchRows(files, next, q, uploads, rename);
  }

  /** The batch answers 400 exactly when some upload was too large or
      over quota; uploads that already existed alone leave it at 200. */
  lemma BatchStatusMeaning(files: Files, next: nat, q: Quota, uploads: seq<Upload>, rename: bool)
    requires Below(files, next)
    ensures var r := RunBatch(Start(files, next), q, uploads, rename);
      BatchStatus(r) == 400 <==>
        exists i | 0 <= i < |r.outcomes| :: r.outcomes[i].TooLarge? || r.outcomes[i].OverQuota?
  {
    BatchAccounting(files, next, q, uploads, rename);
  }

  /** A batch that starts within the quota ends within it: each save was
      preceded by an allocation against the usage of the moment. It also
      keeps the ids below the counter and the names unique. */
  lemma {:induction false} BatchWithinQuota(files: Files, next: nat, q: Quota, uploads: seq<Upload>, rename: bool)
    requires Below(files, next) && NamesUnique(files)
    requires Used(files, next, q.customer) <= q.quota
    ensures var r := RunBatch(Start(files, next), q, uploads, rename);
      && Below(r.files, r.next) && NamesUnique(r.files)
      && Used(r.files, r.next, q.customer) <= q.quota
  {
    if uploads != [] {
      var n := |uploads| - 1;
      BatchWithinQuota(files, next, q, uploads[..n], rename);
      StepWithinQuota(RunBatch(Start(files, next), q, uploads[..n], rename), q, uploads[n], rename);
    }
  }

  /** One pass keeps the ids below the counter, the names unique and the
      usage within the quota. */
  lemma StepWithinQuota(b: Batch, q: Quota, u: Upload, rename: bool)
    requires Below(b.files, b.next) && NamesUnique(b.files)
    requires Used(b.files, b.next, q.customer) <= q.quota
    ensures var r := Step(b, q, u, rename);
      && Below(r.files, r.next) && NamesUnique(r.files)
      && Used(r.files, r.next, q.customer) <= q.quota
  {
    if u.data.Some? && Alloc(q, b.files, b.next, |u.data.value|).Ok? {
      var add := Add(b.files, b.next, u.name, q.customer, Blob(u.data.value, u.mimetype), rename);
      if add.Ok? {
        AllocThenSaveWithinQuota(q, b.files, b.next, add.value);
        AddKeepsNamesUnique(b.files, b.next, u.name, q.customer, Blob(u.data.value, u.mimetype), rename);
      }
    }
  }

  /** `post_multi`, over the intended `add` (see Step). */
  method PostMulti(db: Db, customer: CustomerId, defaultQuota: int, uploads: seq<Upload>, rename: bool)
    returns (m: Message)
    requires db.Valid()
    modifies db
    ensures db.Valid()
    ensures db.thumbs == old(db.thumbs) && db.quotas == old(db.quotas)
    ensures var r := RunBatch(Start(old(db.files), old(db.nextFile)), QuotaFor(old(db.quotas), customer, defaultQuota), uploads, rename);
      && db.files == r.files && db.nextFile == r.next
      && m == FilesCreated(r.created, r.existing, r.tooLarge, r.quotaExceeded, BatchStatus(r))
  {
    var q := QuotaFor(db.quotas, customer, defaultQuota);
    var created: map<string, FileId> := map[];
    var existing: map<string, FileId> := map[];
    var tooLarge: seq<string> := [];
    var quotaExceeded: seq<string> := [];
    ghost var init := Start(db.files, db.nextFile);
    ghost var outcomes: seq<Outcome> := [];
    var i := 0;
    while i < |uploads|
      invariant 0 <= i <= |uploads|
      decreases |uploads| - i
      invariant db.Valid()
      invariant db.thumbs == old(db.thumbs) && db.quotas == old(db.quotas)
      invariant RunBatch(init, q, uploads[..i], rename)
             == Batch(db.files, db.nextFile, created, existing, tooLarge, quotaExceeded, outcomes)
    {
      var u := uploads[i];
      assert uploads[..i + 1][..i] == uploads[..i];
      ghost var before := Batch(db.files, db.nextFile, created, existing, tooLarge, quotaExceeded, outcomes);
      assert RunBatch(init, q, uploads[..i + 1], rename) == Step(before, q, u, rename);
      match u.data {
        case None =>
          tooLarge := tooLarge + [u.name];
          outcomes := outcomes + [TooLarge];
        case Some(data) =>
          if Alloc(q, db.files, db.nextFile, |data|).Err? {
            quotaExceeded := quotaExceeded + [u.name];
            outcomes := outcomes + [OverQuota];
          } else {
            match Add(db.files, db.nextFile, u.name, customer, Blob(data, u.mimetype), rename) {
              case Err(FileExists(id)) =>
                existing := existing[db.files[id].name := id];
                outcomes := outcomes + [Existing(id)];
              case Ok(rec) =>
                var id := db.Save(rec);
                created := created[u.name := id];
                outcomes := outcomes + [Created(id)];
            }
          }
      }
      i := i + 1;
    }
    assert uploads[..i] == uploads;
    var status := if tooLarge != [] || quotaExceeded != [] then 400 else 200;
    m := FilesCreated(created, existing, tooLarge, quotaExceeded, status);
  }

  // ---------------------------------------------------------------------
  // delete

  /** `delete`: the delete hooks run with the file's id, then the file and
      its thumbnails are deleted; hooks never stop the deletion. */
  method Delete(db: Db, ident: FileId, root: bool, customer: CustomerId,
                config: HooksConfig, modules: Modules, raises: (Target, nat) -> bool)
    returns (m: Message, runs: seq<HookRun>)
    requires db.Valid()
    modifies db
    ensures db.Valid()
    ensures db.quotas == old(db.quotas) && db.nextFile == old(db.nextFile) && db.nextThumb == old(db.nextThumb)
    ensures WithFile(old(db.files), ident, root, customer).Err? ==>
      m == NoSuchFile && runs == [] && db.files == old(db.files) && db.thumbs == old(db.thumbs)
    ensures WithFile(old(db.files), ident, root, customer).Ok? ==>
      && m == FileDeleted
      && db.files == old(db.files) - {ident}
      && db.thumbs == (map t | t in old(db.thumbs) && old(db.thumbs)[t].parent != ident :: old(db.thumbs)[t])
      && |runs| == |Load(config, "on_delete")|
      && forall i | 0 <= i < |runs| :: runs[i] == Call(Load(config, "on_delete")[i], ident, modules, raises)
  {
    var found := WithFile(db.files, ident, root, customer);
    if found.Err? {
      return found.error, [];
    }
    runs := RunDeleteHooks(config, ident, modules, raises);
    db.Delete(ident);
    m := FileDeleted;
  }

  // ---------------------------------------------------------------------
  // convert_pdf

  /** The name of page `index` of a document with stem `stem`:
      `stem + f'-page{index}' + '.' + format.lower()`. */
  function PageName(stem: string, index: nat, format: string): string
  {
    stem + "-page" + NatToString(index) + "." + Lower(format)
  }

  /** Different pages get different names. */
  lemma PageNamesDistinct(stem: string, i: nat, j: nat, format: string)
    requires PageName(stem, i, format) == PageName(stem, j, format)
    ensures i == j
  {
    var p := stem + "-page";
    var si, sj := NatToString(i), NatToString(j);
    var n := PageName(stem, i, format);
    assert n == p + si + "." + Lower(format);
    assert PageName(stem, j, format) == p + sj + "." + Lower(format);
    assert |si| == |sj|;
    assert n[|p|..|p| + |si|] == si;
    assert n[|p|..|p| + |sj|] == sj;
    NatToStringInjective(i, j);
  }

  /** A page's file name has the format as its suffix and the page number
      at the end of its stem. */
  lemma PageNameParts(stem: string, index: nat, format: string)
    requires format != [] && '.' !in format
    ensures Stem(PageName(stem, index, format)) == stem + "-page" + NatToString(index)
    ensures Suffix(PageName(stem, index, format)) == "." + Lower(format)
  {
    var l := Lower(format);
    assert '.' !in l by {
      forall i | 0 <= i < |l|
        ensures l[i] != '.'
      {
        assert format[i] != '.';
      }
    }
    StemSuffixAt(stem + "-page" + NatToString(index), l);
  }

  /** Every page named so far is a row of the customer under that name. */
  predicate PagesStored(files: Files, pages: seq<FileId>, stem: string, format: string, customer: CustomerId)
  {
    forall k | 0 <= k < |pages| ::
      pages[k] in files && Named(files[pages[k]], PageName(stem, k + 1, format), customer)
  }

  /** Rows of `before` are still there, unchanged. */
  predicate Kept(before: Files, after: Files)
  {
    forall id | id in before :: id in after && after[id] == before[id]
  }

  lemma KeptTrans(a: Files, b: Files, c: Files)
    requires Kept(a, b) && Kept(b, c)
    ensures Kept(a, c)
  {
    forall id | id in a
      ensures id in c && c[id] == a[id]
    {
      assert id in b;
    }
  }

  /** The format argument of `convert_pdf`, or `DEFAULT_FORMAT`. */
  function FormatArg(format: Option<string>): string
  {
    if format.Some? then format.value else DefaultFormat
  }

  /** The books of `convert_pdf`: the file table and its counter, the ids
      answered for the pages handled so far, and whether an allocation
      was refused, which ends the loop. */
  datatype PageRun = PageRun(files: Files, next: nat, ids: seq<FileId>, exceeded: bool)

  /** Page `index` of the loop: `qalloc` of its size, then `File.add`
      without renaming; the id is the new row's or the clashing row's. */
  function PageStep(r: PageRun, q: Quota, stem: string, format: string, index: nat, page: Bytes, mime: string): PageRun
  {
    if QAlloc(r.files, r.next, q, |page|).Err? then r.(exceeded := true)
    else
      match Add(r.files, r.next, PageName(stem, index, format), q.customer, Blob(page, mime), false)
      case Err(FileExists(id)) => r.(ids := r.ids + [id])
      case Ok(rec) => r.(files := r.files[r.next := rec], next := r.next + 1, ids := r.ids + [r.next])
  }

  /** The loop over the pages in order, numbered from 1, up to the first
      refused allocation. */
  function RunPages(files: Files, next: nat, q: Quota, stem: string, format: string,
                    pages: seq<Bytes>, mime: string): PageRun
  {
    if pages == [] then PageRun(files, next, [], false)
    else
      var r := RunPages(files, next, q, stem, format, pages[..|pages| - 1], mime);
      if r.exceeded then r else PageStep(r, q, stem, format, |pages|, pages[|pages| - 1], mime)
  }

  /** Page `k` (from 0) is reached and its allocation is granted. */
  predicate Granted(files: Files, next: nat, q: Quota, stem: string, format: string,
                    pages: seq<Bytes>, mime: string, k: nat)
    requires k < |pages|
  {
    var p := RunPages(files, next, q, stem, format, pages[..k], mime);
    !p.exceeded && Used(p.files, p.next, q.customer) + |pages[k]| <= q.quota
  }

  /** Page `k` (from 0) is reached and its allocation is refused. */
  predicate Refused(files: Files, next: nat, q: Quota, stem: string, format: string,
                    pages: seq<Bytes>, mime: string, k: nat)
    requires k < |pages|
  {
    var p := RunPages(files, next, q, stem, format, pages[..k], mime);
    !p.exceeded && Used(p.files, p.next, q.customer) + |pages[k]| > q.quota
  }

  /** A run that is not stopped answers one id per page, every allocation
      having been granted. */
  lemma {:induction false} RunPagesCompleted(files: Files, next: nat, q: Quota, stem: string, format: string,
                                             pages: seq<Bytes>, mime: string)
    ensures var r := RunPages(files, next, q, stem, format, pages, mime);
      !r.exceeded ==>
        && |r.ids| == |pages|
        && forall k | 0 <= k < |pages| :: Granted(files, next, q, stem, format, pages, mime, k)
  {
    if pages != [] {
      var n := |pages|;
      var init := pages[..n - 1];
      RunPagesCompleted(files, next, q, stem, format, init, mime);
      var p := RunPages(files, next, q, stem, format, init, mime);
      var r := RunPages(files, next, q, stem, format, pages, mime);
      if !r.exceeded {
        assert !p.exceeded;
        forall k | 0 <= k < n
          ensures Granted(files, next, q, stem, format, pages, mime, k)
        {
          if k < n - 1 {
            GrantedOfInit(files, next, q, stem, format, pages, mime, k);
          } else {
            assert pages[..k] == init;
          }
        }
      }
    }
  }

  /** A stopped run stops at the first page whose allocation is refused,
      with the books of the pages before it. */
  lemma {:induction false} RunPagesStopped(files: Files, next: nat, q: Quota, stem: string, format: string,
                                           pages: seq<Bytes>, mime: string)
    ensures var r := RunPages(files, next, q, stem, format, pages, mime);
      r.exceeded ==>
        && |r.ids| < |pages| && Refused(files, next, q, stem, format, pages, mime, |r.ids|)
        && r == RunPages(files, next, q, stem, format, pages[..|r.ids|], mime).(exceeded := true)
  {
    if pages != [] {
      var n := |pages|;
      var init := pages[..n - 1];
      RunPagesStopped(files, next, q, stem, format, init, mime);
      var p := RunPages(files, next, q, stem, format, init, mime);
      if p.exceeded {
        PrefixOfInit(pages, |p.ids|);
        RefusedOfInit(files, next, q, stem, format, pages, mime, |p.ids|);
      } else {
        RunPagesCompleted(files, next, q, stem, format, init, mime);
        StoppedAtLast(files, next, q, stem, format, pages, mime);
      }
    }
  }

  /** A run stopped by its last page answers the ids of the pages before. */
  lemma StoppedAtLast(files: Files, next: nat, q: Quota, stem: string, format: string,
                      pages: seq<Bytes>, mime: string)
    requires pages != []
    requires var p := RunPages(files, next, q, stem, format, pages[..|pages| - 1], mime);
      !p.exceeded && |p.ids| == |pages| - 1
    ensures var r := RunPages(files, next, q, stem, format, pages, mime);
      r.exceeded ==>
        && |r.ids| < |pages| && Refused(files, next, q, stem, format, pages, mime, |r.ids|)
        && r == RunPages(files, next, q, stem, format, pages[..|r.ids|], mime).(exceeded := true)
  {
    var n := |pages|;
    var p := RunPages(files, next, q, stem, format, pages[..n - 1], mime);
    var r := RunPages(files, next, q, stem, format, pages, mime);
    assert r == PageStep(p, q, stem, format, n, pages[n - 1], mime);
    if r.exceeded {
      assert QAlloc(p.files, p.next, q, |pages[n - 1]|).Err?;
      assert r == p.(exceeded := true);
    }
  }

  /** A run stops exactly at the first page whose allocation is refused,
      with the books of the pages before it; a run that is not stopped
      answers one id per page, every allocation having been granted. */
  lemma RunPagesFirstRefusal(files: Files, next: nat, q: Quota, stem: string, format: string,
                             pages: seq<Bytes>, mime: string)
    ensures var r := RunPages(files, next, q, stem, format, pages, mime);
      && (r.exceeded ==>
            && |r.ids| < |pages| && Refused(files, next, q, stem, format, pages, mime, |r.ids|)
            && r == RunPages(files, next, q, stem, format, pages[..|r.ids|], mime).(exceeded := true))
      && (!r.exceeded ==>
            && |r.ids| == |pages|
            && forall k | 0 <= k < |pages| :: Granted(files, next, q, stem, format, pages, mime, k))
  {
    RunPagesStopped(files, next, q, stem, format, pages, mime);
    RunPagesCompleted(files, next, q, stem, format, pages, mime);
  }

  /** A prefix of all pages but the last is a prefix of all pages. */
  lemma PrefixOfInit<T>(pages: seq<T>, k: nat)
    requires k < |pages| - 1
    ensures pages[..|pages| - 1][..k] == pages[..k] && pages[..|pages| - 1][k] == pages[k]
  {
  }

  lemma GrantedOfInit(files: Files, next: nat, q: Quota, stem: string, format: string,
                      pages: seq<Bytes>, mime: string, k: nat)
    requires k < |pages| - 1
    requires Granted(files, next, q, stem, format, pages[..|pages| - 1], mime, k)
    ensures Granted(files, next, q, stem, format, pages, mime, k)
  {
    PrefixOfInit(pages, k);
  }

  lemma RefusedOfInit(files: Files, next: nat, q: Quota, stem: string, format: string,
                      pages: seq<Bytes>, mime: string, k: nat)
    requires k < |pages| - 1
    requires Refused(files, next, q, stem, format, pages[..|pages| - 1], mime, k)
    ensures Refused(files, next, q, stem, format, pages, mime, k)
  {
    PrefixOfInit(pages, k);
  }

  /** Hence the refusal is answered exactly when some page's allocation is
      refused. */
  lemma RunPagesExceededIff(files: Files, next: nat, q: Quota, stem: string, format: string,
                            pages: seq<Bytes>, mime: string)
    ensures RunPages(files, next, q, stem, format, pages, mime).exceeded <==>
      exists k | 0 <= k < |pages| :: Refused(files, next, q, stem, format, pages, mime, k)
  {
    RunPagesFirstRefusal(files, next, q, stem, format, pages, mime);
    var r := RunPages(files, next, q, stem, format, pages, mime);
    if !r.exceeded {
      forall k | 0 <= k < |pages|
        ensures !Refused(files, next, q, stem, format, pages, mime, k)
      {
        assert Granted(files, next, q, stem, format, pages, mime, k);
      }
    }
  }

  /** A stopped run stays stopped: the later pages change nothing. */
  lemma {:induction false} RunPagesStaysExceeded(files: Files, next: nat, q: Quota, stem: string, format: string,
                                                 pages: seq<Bytes>, mime: string, k: nat)
    requires k <= |pages|
    requires RunPages(files, next, q, stem, format, pages[..k], mime).exceeded
    ensures RunPages(files, next, q, stem, format, pages, mime) == RunPages(files, next, q, stem, format, pages[..k], mime)
  {
    if k < |pages| {
      var init := pages[..|pages| - 1];
      assert init[..k] == pages[..k];
      RunPagesStaysExceeded(files, next, q, stem, format, init, mime, k);
    } else {
      assert pages[..k] == pages;
    }
  }

  /** The rows after one page: earlier rows are kept and at most the
      page's own row is added. */
  lemma PageStepRows(r: PageRun, q: Quota, stem: string, format: string, index: nat, page: Bytes, mime: string)
    requires Below(r.files, r.next)
    ensures var s := PageStep(r, q, stem, format, index, page, mime);
      && r.next <= s.next && Below(s.files, s.next) && Kept(r.files, s.files)
      && (forall id | id in s.files :: id in r.files || id in s.ids)
      && (forall id | id in r.ids :: id in s.ids)
  {
  }

  /** The rows after a run: earlier rows are kept, and every added row is
      one of the pages answered. */
  lemma {:induction false} RunPagesRows(files: Files, next: nat, q: Quota, stem: string, format: string,
                                        pages: seq<Bytes>, mime: string)
    requires Below(files, next)
    ensures var r := RunPages(files, next, q, stem, format, pages, mime);
      && next <= r.next && Below(r.files, r.next) && Kept(files, r.files)
      && (forall id | id in r.files :: id in files || id in r.ids)
  {
    if pages != [] {
      var init := pages[..|pages| - 1];
      RunPagesRows(files, next, q, stem, format, init, mime);
      var p := RunPages(files, next, q, stem, format, init, mime);
      if !p.exceeded {
        PageStepRows(p, q, stem, format, |pages|, pages[|pages| - 1], mime);
        KeptTrans(files, p.files, RunPages(files, next, q, stem, format, pages, mime).files);
      }
    }
  }

  /** One page keeps the pages answered so far stored and stores its own
      under its name, and a granted page keeps usage within the quota. */
  lemma PageStepStored(r: PageRun, q: Quota, stem: string, format: string, page: Bytes, mime: string)
    requires Below(r.files, r.next) && PagesStored(r.files, r.ids, stem, format, q.customer)
    requires !r.exceeded
    ensures var s := PageStep(r, q, stem, format, |r.ids| + 1, page, mime);
      && PagesStored(s.files, s.ids, stem, format, q.customer)
      && (Used(r.files, r.next, q.customer) <= q.quota ==> Used(s.files, s.next, q.customer) <= q.quota)
  {
    var s := PageStep(r, q, stem, format, |r.ids| + 1, page, mime);
    PageStepRows(r, q, stem, format, |r.ids| + 1, page, mime);
    if !s.exceeded {
      var name := PageName(stem, |r.ids| + 1, format);
      var add := Add(r.files, r.next, name, q.customer, Blob(page, mime), false);
      if add.Ok? {
        AllocThenSaveWithinQuota(q, r.files, r.next, add.value);
      }
      PagesStoredGrow(r.files, s.files, r.ids, s.ids[|r.ids|], stem, format, q.customer);
      assert s.ids == r.ids + [s.ids[|r.ids|]];
    }
  }

  /** Every page answered is a row of the customer under its page name,
      and a run that starts within the quota stays within it. */
  lemma {:induction false} RunPagesStored(files: Files, next: nat, q: Quota, stem: string, format: string,
                                          pages: seq<Bytes>, mime: string)
    requires Below(files, next)
    ensures var r := RunPages(files, next, q, stem, format, pages, mime);
      && PagesStored(r.files, r.ids, stem, format, q.customer)
      && (Used(files, next, q.customer) <= q.quota ==> Used(r.files, r.next, q.customer) <= q.quota)
  {
    if pages != [] {
      var init := pages[..|pages| - 1];
      RunPagesStored(files, next, q, stem, format, init, mime);
      RunPagesRows(files, next, q, stem, format, init, mime);
      RunPagesFirstRefusal(files, next, q, stem, format, init, mime);
      var p := RunPages(files, next, q, stem, format, init, mime);
      if !p.exceeded {
        PageStepStored(p, q, stem, format, pages[|pages| - 1], mime);
      }
    }
  }

  /** What `convert_pdf` answers about a run: earlier rows are kept, a
      run that is not stopped stores one page per page given, and usage
      that starts within the quota stays within it. */
  lemma RunPagesFacts(files: Files, next: nat, q: Quota, stem: string, format: string,
                      pages: seq<Bytes>, mime: string)
    requires Below(files, next)
    ensures var r := RunPages(files, next, q, stem, format, pages, mime);
      && Kept(files, r.files)
      && (!r.exceeded ==> |r.ids| == |pages| && PagesStored(r.files, r.ids, stem, format, q.customer))
      && (Used(files, next, q.customer) <= q.quota ==> Used(r.files, r.next, q.customer) <= q.quota)
  {
    RunPagesRows(files, next, q, stem, format, pages, mime);
    RunPagesStored(files, next, q, stem, format, pages, mime);
    RunPagesCompleted(files, next, q, stem, format, pages, mime);
  }

  /** The bytes of all pages together. */
  function TotalSize(pages: seq<Bytes>): nat
  {
    if pages == [] then 0 else TotalSize(pages[..|pages| - 1]) + |pages[|pages| - 1]|
  }

  /** A run that is not stopped adds at most the pages' bytes to the
      customer's usage. */
  lemma {:induction false} RunPagesUsage(files: Files, next: nat, q: Quota, stem: string, format: string,
                                         pages: seq<Bytes>, mime: string)
    requires Below(files, next)
    ensures var r := RunPages(files, next, q, stem, format, pages, mime);
      !r.exceeded ==> Used(r.files, r.next, q.customer) <= Used(files, next, q.customer) + TotalSize(pages)
  {
    if pages != [] {
      var init := pages[..|pages| - 1];
      var page := pages[|pages| - 1];
      RunPagesUsage(files, next, q, stem, format, init, mime);
      RunPagesRows(files, next, q, stem, format, init, mime);
      var p := RunPages(files, next, q, stem, format, init, mime);
      if !p.exceeded {
        PageStepUsage(p, q, stem, format, |pages|, page, mime);
      }
    }
  }

  /** One page that is not refused adds at most its bytes to the usage. */
  lemma PageStepUsage(r: PageRun, q: Quota, stem: string, format: string, index: nat, page: Bytes, mime: string)
    requires Below(r.files, r.next)
    ensures var s := PageStep(r, q, stem, format, index, page, mime);
      !s.exceeded ==> Used(s.files, s.next, q.customer) <= Used(r.files, r.next, q.customer) + |page|
  {
    if QAlloc(r.files, r.next, q, |page|).Ok? {
      var add := Add(r.files, r.next, PageName(stem, index, format), q.customer, Blob(page, mime), false);
      if add.Ok? {
        UsedAfterSave(r.files, r.next, add.value, q.customer);
      }
    }
  }

  /** When the free space holds all pages together, no allocation is
      refused and every page is answered. */
  lemma {:induction false} RunPagesAllFit(files: Files, next: nat, q: Quota, stem: string, format: string,
                                          pages: seq<Bytes>, mime: string)
    requires Below(files, next)
    requires Used(files, next, q.customer) + TotalSize(pages) <= q.quota
    ensures var r := RunPages(files, next, q, stem, format, pages, mime);
      !r.exceeded && |r.ids| == |pages|
  {
    RunPagesFirstRefusal(files, next, q, stem, format, pages, mime);
    if pages != [] {
      var init := pages[..|pages| - 1];
      RunPagesAllFit(files, next, q, stem, format, init, mime);
      RunPagesUsage(files, next, q, stem, format, init, mime);
    }
  }

  /** Pages stored so far stay stored while rows are only added, and the
      next page's row extends them. */
  lemma PagesStoredGrow(before: Files, after: Files, ids: seq<FileId>, id: FileId,
                        stem: string, format: string, customer: CustomerId)
    requires PagesStored(before, ids, stem, format, customer) && Kept(before, after)
    requires id in after && Named(after[id], PageName(stem, |ids| + 1, format), customer)
    ensures PagesStored(after, ids + [id], stem, format, customer)
  {
    forall k | 0 <= k < |ids| + 1
      ensures (ids + [id])[k] in after
      ensures Named(after[(ids + [id])[k]], PageName(stem, k + 1, format), customer)
    {
      if k < |ids| {
        assert ids[k] in before;
      }
    }
  }

  /** One page of `convert_pdf` after its allocation was granted:
      `File.add` without renaming, then `save` of a new row. */
  method SavePage(db: Db, q: Quota, name: string, content: Blob) returns (id: FileId)
    requires db.Valid()
    modifies db
    ensures db.Valid()
    ensures db.thumbs == old(db.thumbs) && db.nextThumb == old(db.nextThumb) && db.quotas == old(db.quotas)
    ensures Taken(old(db.files), old(db.nextFile), name, q.customer) ==>
      && id == FindNamed(old(db.files), old(db.nextFile), name, q.customer).value
      && db.files == old(db.files) && db.nextFile == old(db.nextFile)
    ensures !Taken(old(db.files), old(db.nextFile), name, q.customer) ==>
      && id == old(db.nextFile) && db.nextFile == old(db.nextFile) + 1
      && db.files == old(db.files)[id := FileRec(name, q.customer, content)]
    ensures id in db.files && Named(db.files[id], name, q.customer)
  {
    match Add(db.files, db.nextFile, name, q.customer, content, false) {
      case Err(FileExists(existing)) =>
        id := existing;
      case Ok(rec) =>
        id := db.Save(rec);
    }
  }

  /** `convert_pdf`: `isPdf` is the content sniffer's verdict and `pages`
      the rasterised pages, each given with the MIME type the content
      store reports for it. The pages are handled as `RunPages` says: a
      refused allocation stops the conversion with `QUOTA_EXCEEDED`,
      keeping the pages saved so far. */
  method ConvertPdf(db: Db, ident: FileId, root: bool, customer: CustomerId, defaultQuota: int,
                    isPdf: bool, format: Option<string>, pages: seq<Bytes>, pageMime: string)
    returns (m: Message)
    requires db.Valid()
    modifies db
    ensures db.Valid()
    ensures db.thumbs == old(db.thumbs) && db.nextThumb == old(db.nextThumb) && db.quotas == old(db.quotas)
    ensures m == NoSuchFile <==> WithFile(old(db.files), ident, root, customer).Err?
    ensures m == NotAPdfDocument <==> WithFile(old(db.files), ident, root, customer).Ok? && !isPdf
    ensures m == NoSuchFile || m == NotAPdfDocument ==>
      db.files == old(db.files) && db.nextFile == old(db.nextFile)
    ensures WithFile(old(db.files), ident, root, customer).Ok? && isPdf ==>
      var run := RunPages(old(db.files), old(db.nextFile), QuotaFor(old(db.quotas), customer, defaultQuota),
                          Stem(old(db.files)[ident].name), FormatArg(format), pages, pageMime);
      && db.files == run.files && db.nextFile == run.next
      && m == (if run.exceeded then QuotaExceededMessage else PagesCreated(run.ids))
    ensures Kept(old(db.files), db.files)
    ensures m.PagesCreated? ==>
      && |m.pages| == |pages|
      && PagesStored(db.files, m.pages, Stem(old(db.files)[ident].name), FormatArg(format), customer)
    ensures Used(old(db.files), old(db.nextFile), customer) <= QuotaFor(old(db.quotas), customer, defaultQuota).quota ==>
      Used(db.files, db.nextFile, customer) <= QuotaFor(old(db.quotas), customer, defaultQuota).quota
  {
    var found := WithFile(db.files, ident, root, customer);
    if found.Err? {
      return found.error;
    }
    if !isPdf {
      return NotAPdfDocument;
    }
    var fmt := Upper(FormatArg(format));
    var suffix := "." + Lower(fmt);
    LowerOfUpper(FormatArg(format));
    var stem := Stem(db.files[ident].name);
    ghost var frmt := FormatArg(format);
    var q := QuotaFor(db.quotas, customer, defaultQuota);
    ghost var files0, next0 := db.files, db.nextFile;
    var ids: seq<FileId> := [];
    var index := 1;
    while index <= |pages|
      invariant 1 <= index <= |pages| + 1
      decreases |pages| + 1 - index
      invariant db.Valid()
      invariant db.thumbs == old(db.thumbs) && db.nextThumb == old(db.nextThumb) && db.quotas == old(db.quotas)
      invariant RunPages(files0, next0, q, stem, frmt, pages[..index - 1], pageMime)
             == PageRun(db.files, db.nextFile, ids, false)
    {
      var bytes := pages[index - 1];
      assert pages[..index][..index - 1] == pages[..index - 1];
      var granted := QAlloc(db.files, db.nextFile, q, |bytes|);
      if granted.Err? {
        RunPagesStaysExceeded(files0, next0, q, stem, frmt, pages, pageMime, index);
        RunPagesFacts(files0, next0, q, stem, frmt, pages, pageMime);
        return granted.error;
      }
      var name := stem + "-page" + NatToString(index) + suffix;
      assert name == PageName(stem, index, frmt);
      var id := SavePage(db, q, name, Blob(bytes, pageMime));
      ids := ids + [id];
      index := index + 1;
    }
    assert pages[..index - 1] == pages;
    RunPagesFacts(files0, next0, q, stem, frmt, pages, pageMime);
    m := PagesCreated(ids);
  }
}
