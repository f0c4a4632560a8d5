/** The answers the later generation's handlers give (hisfs/messages.py),
    with their HTTP status codes. */
module Messages {
  datatype Message =
    | NoSuchFile
    | FileCreated(id: nat)
    | FilesCreated(created: map<string, nat>, existing: map<string, nat>,
                   tooLarge: seq<string>, quotaExceeded: seq<string>, status: int)
    | PagesCreated(pages: seq<nat>)
    | FileAlreadyExists(id: nat)
    | FileDeleted
    | ReadError
    | QuotaExceededMessage
    | NotAPdfDocument

  /** The status each message is sent with; the batch answer carries its
      own. */
  function Status(m: Message): int
  {
    match m
    case NoSuchFile => 404
    case FileCreated(_) => 201
    case FilesCreated(_, _, _, _, status) => status
    case PagesCreated(_) => 200
    case FileAlreadyExists(_) => 409
    case FileDeleted => 200
    case ReadError => 500
    case QuotaExceededMessage => 403
    case NotAPdfDocument => 400
  }
}
