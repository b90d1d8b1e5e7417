/** What the two routes answer: the failures they report, with the HTTP status
    and message of each, and the three shapes of reply. */
module Responses {

  newtype byte = x: int | 0 <= x < 256

  type Bytes = seq<byte>

  /** Every reason a request is refused. `OtherUploadError` is any other error
      the multipart library raises; the route passes its message through. */
  datatype Failure =
    | MissingFields
    | InvalidYear
    | InvalidMonth
    | InvalidExtension
    | InvalidMime
    | FileTooLarge
    | NoFile
    | OtherUploadError(message: string)
    | InvalidDate
    | NotFound

  /** The `message` of the `{ status: 'error', message }` body (index.js:31-111). */
  function Message(f: Failure): string {
    match f
    case MissingFields => "Missing required fields in payload"
    case InvalidYear => "Invalid year format. Year must be YYYY."
    case InvalidMonth => "Invalid month format. Month must be MM (01-12)."
    case InvalidExtension => "Invalid file extension"
    case InvalidMime => "Invalid MIME type"
    case FileTooLarge => "File too large. Max 5MB allowed."
    case NoFile => "No file uploaded"
    case OtherUploadError(m) => m
    case InvalidDate => "Invalid year or month format."
    case NotFound => "Image not found"
  }

  /** Every refusal is a 400 except a missing image, which is a 404. */
  function FailureStatus(f: Failure): nat {
    if f == NotFound then 404 else 400
  }

  const CacheControl: string := "public, max-age=86400"

  datatype Response =
    | Saved(path: string)         // 200 `{ message: 'Image saved', path }`
    | Failed(failure: Failure)    // FailureStatus(failure) `{ status: 'error', message: Message(failure) }`
    | Image(contentType: string, contentLength: nat, cacheControl: string, body: Bytes)

  function Status(r: Response): nat {
    match r
    case Saved(_) => 200
    case Failed(f) => FailureStatus(f)
    case Image(_, _, _, _) => 200
  }
}
