/** The lookup the later generation offers other services
    (hisfs/functions.py): a file by id, restricted to the caller's
    customer unless the caller is a root account. */
module Functions {
  import opened Common
  import opened HisFiles
  import opened Messages

  /** A file the account may see: any file for a root account, else only
      its own customer's. */
  predicate Visible(files: Files, id: FileId, root: bool, customer: CustomerId)
  {
    id in files && (root || files[id].customer == customer)
  }

  /** How a miss surfaces: the lookup's own `DoesNotExist`, or the
      exception the caller chose. */
  datatype GetFileError = DoesNotExist | Raised(message: Message)

  /** The default of `exception`. */
  const DefaultException: Option<Message> := Some(NoSuchFile)

  /** `get_file`. No id means no file and no lookup. */
  function GetFile(files: Files, fileId: Option<FileId>, root: bool, customer: CustomerId,
                   exception: Option<Message>): (r: Result<Option<FileId>, GetFileError>)
    ensures fileId.None? ==> r == Ok(None)
    ensures fileId.Some? ==> (r.Ok? <==> Visible(files, fileId.value, root, customer))
    ensures r.Ok? && fileId.Some? ==> r.value == fileId
    ensures r.Err? && exception.None? ==> r.error == DoesNotExist
    ensures r.Err? && exception.Some? ==> r.error == Raised(exception.value)
  {
    match fileId
    case None => Ok(None)
    case Some(id) =>
      if Visible(files, id, root, customer) then Ok(Some(id))
      else if exception.None? then Err(DoesNotExist)
      else Err(Raised(exception.value))
  }

  /** Only root accounts see other customers' files. */
  lemma GetFileTenantScoped(files: Files, id: FileId, root: bool, customer: CustomerId, exception: Option<Message>)
    requires id in files && files[id].customer != customer
    ensures GetFile(files, Some(id), root, customer, exception).Ok? <==> root
  {
  }
}
