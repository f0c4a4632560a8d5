/** The file model of the later file system generation (hisfs/orm.py):
    flat per-customer files, each holding one blob of the content store,
    image thumbnails cached per parent file and size, and the per-customer
    disk quota. The database is an in-memory table per model with an
    autoincrement counter; a query's first match is the matching row of
    least id. */
module HisFiles {
  import opened Common
  import opened Text
  import opened Thumbnails

  type FileId = nat
  type ThumbId = nat

  /** `IMAGE_MIMETYPES`. */
  const ImageMimetypes: set<string> := {"image/jpeg", "image/png"}

  /** A row of `File`: its name, its customer and its content. */
  datatype FileRec = FileRec(name: string, customer: CustomerId, content: Blob)

  /** A row of `Thumbnail`: the parent file, the stored size and its content. */
  datatype ThumbRec = ThumbRec(parent: FileId, size: Resolution, content: Blob)

  type Files = map<FileId, FileRec>
  type Thumbs = map<ThumbId, ThumbRec>

  /** `BasicFile.is_image`. */
  predicate IsImage(b: Blob)
  {
    b.mimetype in ImageMimetypes
  }

  /** `FileExists(file)`, identifying the existing record. */
  datatype AddError = FileExists(existing: FileId)

  // ---------------------------------------------------------------------
  // File.add

  predicate Named(f: FileRec, name: string, customer: CustomerId)
  {
    f.name == name && f.customer == customer
  }

  /** `File.get((File.name == name) & (File.customer == customer))`. */
  function FindNamed(files: Files, bound: nat, name: string, customer: CustomerId): (r: Option<FileId>)
    ensures r.Some? ==> r.value < bound && r.value in files && Named(files[r.value], name, customer)
    ensures r.Some? ==> forall id | id < r.value && id in files :: !Named(files[id], name, customer)
    ensures r.None? ==> forall id | id < bound && id in files :: !Named(files[id], name, customer)
  {
    if bound == 0 then None
    else
      match FindNamed(files, bound - 1, name, customer)
      case Some(id) => Some(id)
      case None =>
        if bound - 1 in files && Named(files[bound - 1], name, customer) then Some(bound - 1) else None
  }

  predicate Taken(files: Files, bound: nat, name: string, customer: CustomerId)
  {
    FindNamed(files, bound, name, customer).Some?
  }

  /** The longest name among the rows below `bound`. */
  function MaxNameLen(files: Files, bound: nat): (r: nat)
    ensures forall id | id < bound && id in files :: |files[id].name| <= r
  {
    if bound == 0 then 0
    else
      var m := MaxNameLen(files, bound - 1);
      if bound - 1 in files && |files[bound - 1].name| > m then |files[bound - 1].name| else m
  }

  /** `f'{path.stem} ({k}){path.suffix}'`. */
  function Renamed(name: string, k: nat): (r: string)
    ensures |r| == |name| + 3 + |NatToString(k)|
  {
    StemSuffix(name);
    Stem(name) + " (" + NatToString(k) + ")" + Suffix(name)
  }

  /** Different counters give different names. */
  lemma RenamedInjective(name: string, a: nat, b: nat)
    requires Renamed(name, a) == Renamed(name, b)
    ensures a == b
  {
    var pre, post := Stem(name) + " (", ")" + Suffix(name);
    assert Renamed(name, a) == pre + NatToString(a) + post;
    assert Renamed(name, b) == pre + NatToString(b) + post;
    MiddleEqual(pre, NatToString(a), NatToString(b), post);
    NatToStringInjective(a, b);
  }

  /** Equal strings with the same head and tail agree in the middle. */
  lemma MiddleEqual(pre: string, x: string, y: string, post: string)
    requires pre + x + post == pre + y + post
    ensures x == y
  {
    assert |x| == |y|;
    assert x == (pre + x + post)[|pre|..|pre| + |x|];
    assert y == (pre + y + post)[|pre|..|pre| + |y|];
  }

  /** The name `File.add` looks up: renamed once a retry has begun. */
  function Candidate(name: string, rename: bool, suffix: nat): string
  {
    if rename && suffix != 0 then Renamed(name, suffix) else name
  }

  /** `File.add` as written: every retry renames the previous candidate,
      so the counters pile up. The result is the unsaved record. */
  function AddAsWritten(files: Files, bound: nat, name: string, customer: CustomerId, content: Blob,
                        rename: bool, suffix: nat): (r: Result<FileRec, AddError>)
    ensures r.Err? <==> !rename && Taken(files, bound, name, customer)
    ensures r.Err? ==> r.error == FileExists(FindNamed(files, bound, name, customer).value)
    ensures r.Ok? ==> r.value.customer == customer && r.value.content == content
    ensures r.Ok? ==> !Taken(files, bound, r.value.name, customer)
    ensures r.Ok? && !rename ==> r.value.name == name
    decreases MaxNameLen(files, bound) + 1 - |Candidate(name, rename, suffix)|
  {
    var candidate := Candidate(name, rename, suffix);
    match FindNamed(files, bound, candidate, customer)
    case None => Ok(FileRec(candidate, customer, content))
    case Some(id) =>
      if rename then AddAsWritten(files, bound, candidate, customer, content, rename, suffix + 1)
      else Err(FileExists(id))
  }

  /** Renaming a name with a suffix puts the counter between stem and
      suffix. */
  lemma RenamedAt(stem: string, ext: string, k: nat)
    requires stem != [] && ext != [] && '.' !in ext
    ensures Renamed(stem + "." + ext, k) == stem + " (" + NatToString(k) + ")" + "." + ext
  {
    StemSuffixAt(stem, ext);
  }

  lemma RenamedOnce()
    ensures Renamed("a.txt", 1) == "a (1).txt"
  {
    assert "a" + "." + "txt" == "a.txt";
    RenamedAt("a", "txt", 1);
    assert NatToString(1) == "1";
  }

  lemma RenamedTwice()
    ensures Renamed("a (1).txt", 2) == "a (1) (2).txt"
  {
    assert "a (1)" + "." + "txt" == "a (1).txt";
    assert NatToString(2) == "2";
    assert "a (1)" + " (" + "2" + ")" + "." + "txt" == "a (1) (2).txt";
    RenamedAt("a (1)", "txt", 2);
  }

  /** A retry of `File.add` as written: a taken candidate is renamed
      again with the next counter. */
  lemma AddAsWrittenRetries(files: Files, bound: nat, name: string, customer: CustomerId, content: Blob, suffix: nat)
    requires FindNamed(files, bound, Candidate(name, true, suffix), customer).Some?
    ensures AddAsWritten(files, bound, name, customer, content, true, suffix)
         == AddAsWritten(files, bound, Candidate(name, true, suffix), customer, content, true, suffix + 1)
  {
  }

  /** The two files of the example below. */
  function TwoTaken(customer: CustomerId, content: Blob): Files
  {
    map[0 := FileRec("a.txt", customer, content), 1 := FileRec("a (1).txt", customer, content)]
  }

  lemma TwoTakenLookups(customer: CustomerId, content: Blob)
    ensures FindNamed(TwoTaken(customer, content), 2, "a.txt", customer) == Some(0)
    ensures FindNamed(TwoTaken(customer, content), 2, "a (1).txt", customer) == Some(1)
  {
    var files := TwoTaken(customer, content);
    assert Named(files[0], "a.txt", customer);
    assert Named(files[1], "a (1).txt", customer) && !Named(files[0], "a (1).txt", customer);
  }

  lemma TwoTakenFree(customer: CustomerId, content: Blob, name: string)
    requires name != "a.txt" && name != "a (1).txt"
    ensures FindNamed(TwoTaken(customer, content), 2, name, customer).None?
  {
    var files := TwoTaken(customer, content);
    assert !Named(files[0], name, customer) && !Named(files[1], name, customer);
  }

  /** With "a.txt" and "a (1).txt" taken, a renaming add of "a.txt" yields
      "a (1) (2).txt", although "a (2).txt" is free. */
  lemma AddAccumulatesSuffixes(customer: CustomerId, content: Blob)
    ensures var files := TwoTaken(customer, content);
      && AddAsWritten(files, 2, "a.txt", customer, content, true, 0) == Ok(FileRec("a (1) (2).txt", customer, content))
      && !Taken(files, 2, "a (2).txt", customer)
  {
    var files := TwoTaken(customer, content);
    RenamedOnce();
    RenamedTwice();
    TwoTakenLookups(customer, content);
    assert "a (1) (2).txt" != "a.txt" && "a (1) (2).txt" != "a (1).txt";
    TwoTakenFree(customer, content, "a (1) (2).txt");
    assert "a (2).txt" != "a.txt" && "a (2).txt" != "a (1).txt";
    TwoTakenFree(customer, content, "a (2).txt");
    AddAsWrittenRetries(files, 2, "a.txt", customer, content, 0);
    AddAsWrittenRetries(files, 2, "a.txt", customer, content, 1);
    assert Candidate("a (1).txt", true, 2) == "a (1) (2).txt";
  }

  /** The least counter from `k` on whose renamed name is free. It exists
      because a taken name is no longer than the longest stored one. */
  function FirstFree(files: Files, bound: nat, name: string, customer: CustomerId, k: nat): (r: nat)
    ensures r >= k && !Taken(files, bound, Renamed(name, r), customer)
    ensures forall j | k <= j < r :: Taken(files, bound, Renamed(name, j), customer)
    decreases Pow10(MaxNameLen(files, bound)) - k
  {
    if !Taken(files, bound, Renamed(name, k), customer) then k
    else
      TakenCounterBound(files, bound, name, customer, k);
      var r := FirstFree(files, bound, name, customer, k + 1);
      assert forall j | k <= j < r :: Taken(files, bound, Renamed(name, j), customer);
      r
  }

  /** A counter whose renamed name is taken has fewer digits than the
      longest stored name. */
  lemma TakenCounterBound(files: Files, bound: nat, name: string, customer: CustomerId, k: nat)
    requires Taken(files, bound, Renamed(name, k), customer)
    ensures k < Pow10(MaxNameLen(files, bound))
  {
    var id := FindNamed(files, bound, Renamed(name, k), customer).value;
    assert |files[id].name| <= MaxNameLen(files, bound);
    NatToStringBound(k, MaxNameLen(files, bound));
  }

  /** `File.add` as intended: a taken name is retried as "stem (1)suffix",
      "stem (2)suffix", ... of the ORIGINAL name, and the first free one
      is used. */
  function Add(files: Files, bound: nat, name: string, customer: CustomerId, content: Blob,
               rename: bool): (r: Result<FileRec, AddError>)
    ensures r.Err? <==> !rename && Taken(files, bound, name, customer)
    ensures r.Err? ==> r.error == FileExists(FindNamed(files, bound, name, customer).value)
    ensures r.Ok? ==> r.value.customer == customer && r.value.content == content
    ensures r.Ok? ==> !Taken(files, bound, r.value.name, customer)
    ensures r.Ok? && !Taken(files, bound, name, customer) ==> r.value.name == name
    ensures r.Ok? && Taken(files, bound, name, customer) ==>
      r.value.name == Renamed(name, FirstFree(files, bound, name, customer, 1))
  {
    match FindNamed(files, bound, name, customer)
    case None => Ok(FileRec(name, customer, content))
    case Some(id) =>
      if rename then Ok(FileRec(Renamed(name, FirstFree(files, bound, name, customer, 1)), customer, content))
      else Err(FileExists(id))
  }

  /** The two agree unless a second retry is needed. */
  lemma AddAgreesUntilSecondRetry(files: Files, bound: nat, name: string, customer: CustomerId, content: Blob,
                                  rename: bool)
    requires !(rename && Taken(files, bound, name, customer) && Taken(files, bound, Renamed(name, 1), customer))
    ensures AddAsWritten(files, bound, name, customer, content, rename, 0) == Add(files, bound, name, customer, content, rename)
  {
    if rename && Taken(files, bound, name, customer) {
      assert FirstFree(files, bound, name, customer, 1) == 1;
      var once := AddAsWritten(files, bound, name, customer, content, rename, 1);
      assert once == Ok(FileRec(Renamed(name, 1), customer, content));
    }
  }

  /** No two rows share a name within one customer. */
  predicate NamesUnique(files: Files)
  {
    forall a, b | a in files && b in files && a != b ::
      !Named(files[b], files[a].name, files[a].customer)
  }

  predicate Below(files: Files, bound: nat)
  {
    forall id | id in files :: id < bound
  }

  /** Saving what `Add` returns at the next id keeps names unique. */
  lemma AddKeepsNamesUnique(files: Files, bound: nat, name: string, customer: CustomerId, content: Blob,
                            rename: bool)
    requires NamesUnique(files) && Below(files, bound)
    requires Add(files, bound, name, customer, content, rename).Ok?
    ensures NamesUnique(files[bound := Add(files, bound, name, customer, content, rename).value])
  {
    var rec := Add(files, bound, name, customer, content, rename).value;
    var after := files[bound := rec];
    forall a, b | a in after && b in after && a != b
      ensures !Named(after[b], after[a].name, after[a].customer)
    {
      if a == bound {
        assert b in files && b < bound;
      } else if b == bound {
        assert a in files && a < bound;
        assert !Named(files[a], rec.name, rec.customer);
      }
    }
  }

  // ---------------------------------------------------------------------
  // Quota

  /** A row of `Quota`: a customer's limit in bytes. */
  datatype Quota = Quota(customer: CustomerId, quota: int)

  /** `Quota.used`: the sizes of the customer's files, summed. */
  function Used(files: Files, bound: nat, customer: CustomerId): nat
  {
    if bound == 0 then 0
    else
      Used(files, bound - 1, customer)
      + (if bound - 1 in files && files[bound - 1].customer == customer then Size(files[bound - 1].content) else 0)
  }

  /** A customer without files below `bound` uses nothing. */
  lemma {:induction false} UsedNone(files: Files, bound: nat, customer: CustomerId)
    requires forall id | id < bound && id in files :: files[id].customer != customer
    ensures Used(files, bound, customer) == 0
  {
    if bound > 0 {
      UsedNone(files, bound - 1, customer);
    }
  }

  /** Every file of the customer below `bound` counts in full. */
  lemma {:induction false} UsedCountsFile(files: Files, bound: nat, customer: CustomerId, id: FileId)
    requires id < bound && id in files && files[id].customer == customer
    ensures Size(files[id].content) <= Used(files, bound, customer)
  {
    if id < bound - 1 {
      UsedCountsFile(files, bound - 1, customer, id);
    }
  }

  /** Rows at or above `bound` do not count. */
  lemma {:induction false} UsedIgnoresAbove(files: Files, bound: nat, id: FileId, rec: FileRec, customer: CustomerId)
    requires id >= bound
    ensures Used(files[id := rec], bound, customer) == Used(files, bound, customer)
  {
    if bound > 0 {
      UsedIgnoresAbove(files, bound - 1, id, rec, customer);
    }
  }

  /** Saving a new file adds its size to its customer's usage and leaves
      every other customer's usage alone. */
  lemma UsedAfterSave(files: Files, bound: nat, rec: FileRec, customer: CustomerId)
    ensures Used(files[bound := rec], bound + 1, customer)
         == Used(files, bound, customer) + (if rec.customer == customer then Size(rec.content) else 0)
  {
    UsedIgnoresAbove(files, bound, bound, rec, customer);
  }

  /** `Quota.free`. */
  function Free(q: Quota, files: Files, bound: nat): (r: int)
    ensures r >= 0 <==> Used(files, bound, q.customer) <= q.quota
  {
    q.quota - Used(files, bound, q.customer)
  }

  /** `QuotaExceeded(quota=..., free=..., size=...)`. */
  datatype QuotaExceeded = QuotaExceeded(quota: int, free: int, size: int)

  /** `Quota.alloc`: grants `size` bytes exactly when they fit the free
      space. */
  function Alloc(q: Quota, files: Files, bound: nat, size: int): (r: Result<bool, QuotaExceeded>)
    ensures r.Ok? <==> Used(files, bound, q.customer) + size <= q.quota
    ensures r.Ok? ==> r.value
    ensures r.Err? ==> r.error == QuotaExceeded(q.quota, Free(q, files, bound), size)
  {
    if size > Free(q, files, bound) then Err(QuotaExceeded(q.quota, Free(q, files, bound), size))
    else Ok(true)
  }

  /** A file saved after a successful allocation of its size keeps its
      customer within the quota. */
  lemma AllocThenSaveWithinQuota(q: Quota, files: Files, bound: nat, rec: FileRec)
    requires rec.customer == q.customer
    requires Alloc(q, files, bound, Size(rec.content)).Ok?
    ensures Used(files[bound := rec], bound + 1, q.customer) <= q.quota
  {
    UsedAfterSave(files, bound, rec, q.customer);
  }

  // ---------------------------------------------------------------------
  // Thumbnail cache

  /** `Thumbnail.from_file`'s lookup as written: a thumbnail of the parent
      whose width OR height equals the requested one. */
  function CachedAsWritten(thumbs: Thumbs, bound: nat, parent: FileId, request: Resolution): (r: Option<ThumbId>)
    ensures r.Some? ==>
      && r.value < bound && r.value in thumbs && thumbs[r.value].parent == parent
      && (thumbs[r.value].size.x == request.x || thumbs[r.value].size.y == request.y)
  {
    if bound == 0 then None
    else
      match CachedAsWritten(thumbs, bound - 1, parent, request)
      case Some(t) => Some(t)
      case None =>
        var t := bound - 1;
        if t in thumbs && thumbs[t].parent == parent && (thumbs[t].size.x == request.x || thumbs[t].size.y == request.y)
        then Some(t) else None
  }

  /** A 400x200 image first asked for 100x100 is stored at 100x50; asked
      for 100x30 afterwards, the cache answers with that 100x50 thumbnail,
      which is taller than requested. */
  lemma CachedAsWrittenServesWrongSize(b: Blob)
    ensures NewResolution(Resolution(400, 200), Resolution(100, 100)) == Ok(Resolution(100, 50))
    ensures var thumbs := map[0 := ThumbRec(0, Resolution(100, 50), b)];
      && CachedAsWritten(thumbs, 1, 0, Resolution(100, 30)) == Some(0)
      && !FitsIn(thumbs[0].size, Resolution(100, 30))
  {
    var o, d := Resolution(400, 200), Resolution(100, 100);
    assert Factor(o, d) == 0.25;
    assert Round(100.0) == 100 by { RoundWhole(100); }
    assert Round(50.0) == 50 by { RoundWhole(50); }
  }

  /** The lookup as intended: a thumbnail of the parent stored at exactly
      the size a new one would get. */
  function Cached(thumbs: Thumbs, bound: nat, parent: FileId, size: Resolution): (r: Option<ThumbId>)
    ensures r.Some? ==>
      && r.value < bound && r.value in thumbs && thumbs[r.value].parent == parent
      && thumbs[r.value].size == size
    ensures r.None? ==> forall t | t < bound && t in thumbs :: !(thumbs[t].parent == parent && thumbs[t].size == size)
  {
    if bound == 0 then None
    else
      match Cached(thumbs, bound - 1, parent, size)
      case Some(t) => Some(t)
      case None =>
        var t := bound - 1;
        if t in thumbs && thumbs[t].parent == parent && thumbs[t].size == size then Some(t) else None
  }

  /** No two thumbnails of one parent share a size. */
  predicate CacheDistinct(thumbs: Thumbs)
  {
    forall a, b | a in thumbs && b in thumbs && a != b ::
      !(thumbs[a].parent == thumbs[b].parent && thumbs[a].size == thumbs[b].size)
  }

  /** What `File.thumbnail` hands out: the file itself or a thumbnail. */
  datatype Served = Original(id: FileId) | Thumb(id: ThumbId)

  /** `UnsupportedFileType`. */
  datatype ThumbnailError = UnsupportedFileType

  /** The thumbnail table after `Thumbnail.from_file` with the intended
      lookup, from `thumbs0` with counter `next0`: the parent itself
      exactly when the image fits, otherwise a thumbnail of the parent at
      the size `gen_thumbnail` computes, either the cached one or, on a
      miss, a new row under the next id holding what it rendered. */
  ghost predicate FromFileDone(files: Files, thumbs0: Thumbs, next0: nat, thumbs: Thumbs, next: nat,
                               parent: FileId, request: Resolution, imageSize: Resolution,
                               guessed: Option<string>, render: (Resolution, string) -> Bytes, r: Served)
    requires parent in files && imageSize.x > 0 && imageSize.y > 0
  {
    && (r.Original? <==> FitsIn(imageSize, request))
    && (r.Original? ==> r.id == parent && thumbs == thumbs0 && next == next0)
    && (r.Thumb? ==>
          var size := NewResolution(imageSize, request).value;
          && r.id in thumbs && thumbs[r.id].parent == parent && thumbs[r.id].size == size
          && (r.id in thumbs0 ==>
                Cached(thumbs0, next0, parent, size) == Some(r.id) && thumbs == thumbs0 && next == next0)
          && (r.id !in thumbs0 ==>
                && Cached(thumbs0, next0, parent, size).None?
                && r.id == next0 && next == next0 + 1
                && thumbs == thumbs0[r.id := ThumbRec(parent, size,
                                                      Blob(render(size, SaveFormat(guessed)), files[parent].content.mimetype))]))
  }

  /** The `File`, `Thumbnail` and `Quota` tables. */
  class Db {
    var files: Files
    var nextFile: nat
    var thumbs: Thumbs
    var nextThumb: nat
    var quotas: map<CustomerId, int>

    /** Ids stay below the counters, every thumbnail's parent exists
        (the foreign key cascades on delete), and the cache holds one
        thumbnail per parent and size. */
    ghost predicate Valid()
      reads this
    {
      && Below(files, nextFile)
      && (forall t | t in thumbs :: t < nextThumb && thumbs[t].parent in files)
      && CacheDistinct(thumbs)
    }

    constructor (quotas: map<CustomerId, int>)
      ensures Valid()
      ensures files == map[] && thumbs == map[] && nextFile == 0 && nextThumb == 0
      ensures this.quotas == quotas
    {
      files := map[];
      nextFile := 0;
      thumbs := map[];
      nextThumb := 0;
      this.quotas := quotas;
    }

    /** `save` of a new `File`: its blob and then its row. */
    method Save(rec: FileRec) returns (id: FileId)
      requires Valid()
      modifies this
      ensures Valid()
      ensures id == old(nextFile) && id !in old(files)
      ensures files == old(files)[id := rec] && nextFile == old(nextFile) + 1
      ensures thumbs == old(thumbs) && nextThumb == old(nextThumb) && quotas == old(quotas)
    {
      id := nextFile;
      files := files[id := rec];
      nextFile := nextFile + 1;
    }

    /** `delete_instance` of a file; its thumbnails go with it. */
    method Delete(id: FileId)
      requires Valid()
      modifies this
      ensures Valid()
      ensures files == old(files) - {id}
      ensures thumbs == map t | t in old(thumbs) && old(thumbs)[t].parent != id :: old(thumbs)[t]
      ensures nextFile == old(nextFile) && nextThumb == old(nextThumb) && quotas == old(quotas)
    {
      files := files - {id};
      thumbs := map t | t in thumbs && thumbs[t].parent != id :: thumbs[t];
    }

    /** `Thumbnail.from_file` with the intended lookup. `imageSize` is the
        parent's decoded size, `guessed` what the MIME table reports for
        its type and `render` the imaging library's encoder; the new
        row's type is the parent's. */
    method FromFile(parent: FileId, request: Resolution, imageSize: Resolution,
                    guessed: Option<string>, render: (Resolution, string) -> Bytes)
      returns (r: Served)
      requires Valid() && parent in files
      requires imageSize.x > 0 && imageSize.y > 0
      modifies this
      ensures Valid()
      ensures files == old(files) && nextFile == old(nextFile) && quotas == old(quotas)
      ensures FromFileDone(files, old(thumbs), old(nextThumb), thumbs, nextThumb,
                           parent, request, imageSize, guessed, render, r)
    {
      match GenThumbnail(imageSize, request, guessed, render)
      case Err(_) =>
        r := Original(parent);
      case Ok(g) =>
        match Cached(thumbs, nextThumb, parent, g.size)
        case Some(t) =>
          r := Thumb(t);
        case None =>
          var rec := ThumbRec(parent, g.size, Blob(g.bytes, files[parent].content.mimetype));
          thumbs := thumbs[nextThumb := rec];
          r := Thumb(nextThumb);
          nextThumb := nextThumb + 1;
    }

    /** `File.thumbnail`: only images have thumbnails. It runs over the
        intended `from_file`: the cache is matched on both axes and the size
        on both axes (as written, `CachedAsWritten` can serve a thumbnail of
        the wrong size). */
    method Thumbnail(id: FileId, request: Resolution, imageSize: Resolution,
                     guessed: Option<string>, render: (Resolution, string) -> Bytes)
      returns (r: Result<Served, ThumbnailError>)
      requires Valid() && id in files
      requires imageSize.x > 0 && imageSize.y > 0
      modifies this
      ensures Valid()
      ensures files == old(files) && nextFile == old(nextFile) && quotas == old(quotas)
      ensures r.Err? <==> !IsImage(files[id].content)
      ensures r.Err? ==> r.error == UnsupportedFileType && thumbs == old(thumbs) && nextThumb == old(nextThumb)
      ensures r.Ok? ==> FromFileDone(files, old(thumbs), old(nextThumb), thumbs, nextThumb,
                                     id, request, imageSize, guessed, render, r.value)
      ensures r.Ok? && r.value.Thumb? ==> FitsIn(thumbs[r.value.id].size, request)
    {
      if IsImage(files[id].content) {
        var served := FromFile(id, request, imageSize, guessed, render);
        NewResolutionShrinksToFit(imageSize, request);
        r := Ok(served);
      } else {
        r := Err(UnsupportedFileType);
      }
    }
  }
}
