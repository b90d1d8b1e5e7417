# BPA image storage: a Dafny model of the upload and read routes

The server in `index.js` stores images under a directory tree keyed by a
five-part business key — trading code, order type, year, month, order id —
below a storage root (`NAS_DIR`), and serves them back by the same key. This
project models the part of `index.js` that decides *where* a file goes and
*whether* a request is accepted:

- the `destination` callback of the multipart storage (presence of the five
  fields, the year test `/^\d{4}$/`, the month test `/^(0[1-9]|1[0-2])$/`, the
  directory `path.join(NAS_DIR, tradCode, orderType, year, month, orderId)`);
- the `fileFilter` callback (lower-cased extension in `.jpg .jpeg .png .webp`,
  declared MIME type in `image/jpeg image/png image/webp`);
- the 5 MiB size limit (`MAX_SIZE`), modelled as `|content| <= MAX_SIZE`;
- the `filename` callback, `` `${Date.now()}-${base}${ext}` ``, with Node's
  `path.extname` and `path.basename(name, ext)` modelled closely enough to keep
  their quirks: the lower-cased extension is removed from the base name only
  when the original name ends in it exactly, so `photo.JPG` is stored as
  `<ts>-photo.JPG.jpg` while `photo.jpg` is stored as `<ts>-photo.jpg`;
- the reply of `POST /upload` (library error, no file, repeated presence check,
  the relative path `path.join(tradCode, …, filename)`);
- the `GET /image/:tradCode/:orderType/:year/:month/:orderId/:filename` route:
  the same date tests, the 404 for a missing file, and the content type
  recomputed from the requested name's lower-cased extension.

Modules, one file each:

| module | file | contents |
|---|---|---|
| `Options` | options.dfy | `Option`, `Outcome`, `Result` |
| `Strings` | strings.dfy | ASCII `toLowerCase`, first/last index of a character, decimal rendering of the timestamp |
| `Regex` | regex.dfy | a small anchored regular-expression matcher; the year and month expressions as terms of it, proved equal to plain definitions |
| `NodePath` | node_path.dfy | `path.extname`, `path.basename` with and without a suffix, `path.join`, and the route's split on `/` |
| `Responses` | responses.dfy | the failures with their messages and HTTP statuses, the three reply shapes |
| `Upload` | upload.dfy | `Destination`, `FileFilter`, the size bound, `StoredName`, `RelativePath`, the upload reply, and their lemmas |
| `Retrieve` | retrieve.dfy | the read route: `MimeForExt`, `ImagePath`, `ReadImage`, the route pattern, and their lemmas |
| `Server` | server.dfy | class `Nas`: the storage tree as a map from file path to bytes, with the two routes as methods; the upload-then-read round trip |

The clock is a parameter: `Date.now()` becomes the `ts: nat` argument of
`StoredName` and `Nas.Upload`. The file system is the `files` field of `Nas`,
a map from full path to contents; `Nas.Upload` adds one entry and
`Nas.Retrieve` only reads.

Three behaviours of the code that the model keeps as they are:

- `tradCode`, `orderType` and `orderId` are only checked for presence: a
  value holding '/', '.' or '..' is accepted, and so it is by `Destination`.
  The only safety the model claims is that an accepted year and month are
  digit strings (`Upload.AcceptedDateSegments`).
- The multipart library runs `fileFilter` when the file part arrives, then
  `destination`, and enforces the size while streaming. `Nas.Upload` promises
  only that a refused upload reports one of the checks that failed.
- `path.basename(name, ext)` removes the lower-cased extension only when the
  name ends in it exactly, so an upper-case extension stays in the base name
  and is followed by the lower-cased one (`Upload.StoredNameShape`).

## Model

| member | source | states |
|---|---|---|
| Strings.Lower | index.js:51 | `toLowerCase` keeps the length and folds each character on its own |
| Strings.LowerIdempotent | index.js:51 | lower-casing an already lower-cased extension changes nothing, so the extension kept in the stored name is still lower-case |
| Strings.LowerKeepsChar | index.js:59 | lower-casing neither creates nor removes a '/' or a '.', so the dot structure of an extension survives it |
| Strings.Decimal | index.js:53 | the rendered timestamp is a non-empty digit string, of two or more digits exactly for values of 10 or more |
| Strings.DecimalValue | index.js:53 | the digits of the rendered timestamp denote the timestamp itself |
| Strings.DecimalInjective | index.js:53 | different timestamps render as different strings |
| Regex.YearRegexSpec | index.js:34-40 | `/^\d{4}$/` accepts a string exactly when it is four ASCII digits |
| Regex.MonthRegexSpec | index.js:35-45 | the month expression accepts a string exactly when it is one of "01" … "12" |
| Regex.MonthRegexRejects | index.js:35 | the month test rejects every length but two, "00", and "13" … "19" |
| Regex.DateSegmentsAreDigits | index.js:34-46 | whatever either date test accepts is 2 to 4 digits, with no separator or dot |
| NodePath.BasenameIsLastComponent | index.js:52 | the last component is a suffix of the path with its trailing separators dropped, and is preceded there by a '/' unless it is all of it |
| NodePath.Basename | index.js:52 | the last component of a path holds no '/' and is no longer than the path |
| NodePath.Extname | index.js:51 | `extname` is empty or a '.' followed by no further '.', and is a proper suffix of the last component; it is empty for the component ".." |
| NodePath.BasenameSuffix | index.js:52 | `basename(p, ext)` with an empty suffix is the last component; with a suffix shorter than the last component it drops that suffix exactly when the component ends in it, case-sensitively |
| NodePath.Join | index.js:46 | a join starts with its first segment, followed by a '/' when there are more |
| NodePath.Split | index.js:105 | the route's split on '/' yields separator-free segments whose join is the original string |
| NodePath.BasenameOfSegment | index.js:52 | a name with no '/' is its own last component |
| NodePath.ExtnameOfSuffixed | index.js:51 | a separator-free name ending in a one-dot extension, after more than a lone '.', has exactly that extension |
| NodePath.ExtnameAtDot | index.js:51 | the extension starts at the last dot of the last component when that dot is not its first character and the component is not ".." |
| NodePath.JoinPair | index.js:48-54 | joining the destination with the stored name, as the library does to write the file, puts one '/' between them |
| NodePath.JoinSix | index.js:46 | the upload directory is the root and the five key fields with '/' between each |
| NodePath.JoinSnoc | index.js:114 | the read route's seven-segment join is the upload directory joined with the filename |
| NodePath.SplitCons | index.js:105 | splitting at the first '/' yields the separator-free segment before it, then the split of the rest |
| NodePath.SplitJoin | index.js:99-105 | splitting a join of separator-free segments on '/' gives back exactly those segments |
| Upload.Destination | index.js:28-48 | a refusal is one of the three key failures; an accepted key has all five fields and its directory string begins with the root and a '/' (a statement about the verbatim join, not containment: Node's `path.join` folds a '..' key field) |
| Upload.DestinationDecision | index.js:29-48 | each of the three refusals happens exactly when its check is the first to fail (missing field, then year, then month), and on success the directory is the root and the five fields joined by '/' |
| Upload.AcceptedDateSegments | index.js:34-46 | the year of an accepted key is four digits and its month two digits |
| Upload.AllowedExtWellFormed | index.js:23 | each allowed extension is a dot followed by dot-free characters |
| Upload.ExtensionIs | index.js:51 | the lower-cased extension equals a given one-dot lower-case extension exactly when the last component ends in it, ignoring case, after at least one other character |
| Upload.ExtensionEndsComponent | index.js:51 | a non-empty lower-cased extension is how the last component ends, ignoring case |
| Upload.EndingGivesExtension | index.js:51 | a last component ending, ignoring case, in a one-dot extension has that lower-cased extension |
| Upload.ExtensionAllowed | index.js:59-62 | the lower-cased extension is allowed exactly when the last component ends, ignoring case, in one of the four allowed extensions |
| Upload.Extension | index.js:51 | the lower-cased extension is as long as `extname`'s, and is empty or a '.' followed by no further '.' |
| Upload.FileFilter | index.js:58-67 | a refusal is the extension failure or the MIME failure; an accepted file has a non-empty extension and an allowed MIME type |
| Upload.FileFilterDecision | index.js:58-67 | the filter accepts exactly the names with an allowed extension and an allowed MIME type, reports the extension when it is wrong and the MIME type only when the extension is right |
| Upload.ExtensionShape | index.js:51 | the lower-cased extension is empty or a '.' then dot-free, separator-free, lower-case characters |
| Upload.StoredName | index.js:50-55 | the stored name starts with the rendered timestamp followed by '-' |
| Upload.StoredNameShape | index.js:50-55 | the stored name is the timestamp, '-', the original last component, and the lower-cased extension again only when the original extension was not already lower-case |
| Upload.LowerCaseExtensionStripped | index.js:51-53 | a lower-case extension is removed from the base name and put back, giving the original last component |
| Upload.OtherExtensionKept | index.js:51-53 | an extension with an upper-case letter is not removed from the base name |
| Upload.StoredNameKeepsLowerCaseName | index.js:50-55 | a one-component name with a lower-case extension is stored as the timestamp, '-' and the name itself |
| Upload.StoredNameIsSegment | index.js:50-55 | the stored name is a single path segment: non-empty, no '/', starting with a digit |
| Upload.StoredNameExtension | index.js:50-55 | the stored name's own extension is the lower-cased original extension |
| Upload.AcceptedStoredNameAllowed | index.js:50-67 | an accepted file is stored under a name whose extension is allowed |
| Upload.StoredNameTimestamps | index.js:53 | equal stored names come from equal timestamps, whatever the original names |
| Upload.DistinctTimestampsDistinctFiles | index.js:46-54 | uploads under one key at different milliseconds are written to different files |
| Upload.RelativePath | index.js:99 | the returned path starts with the trading code and a '/', and ends with '/' and the stored name |
| Upload.UploadReply | index.js:76-100 | the reply is the saved path exactly when the library reported no error, a file came and all five fields are present; otherwise it is a refusal |
| Upload.UploadReplyDecision | index.js:76-100 | a library error is a 400 carrying its failure, no file is "No file uploaded", and once the destination check has passed the reply is the relative path |
| Upload.RejectionsDecision | index.js:58-81 | an upload is admitted exactly when no check fails, and "file too large" is among the failures exactly when the file exceeds 5 MiB |
| Retrieve.ContentType | index.js:120-124 | the declared type is an allowed image type exactly when the requested name's lower-cased extension is an allowed upload extension |
| Retrieve.ImagePath | index.js:114 | the looked-up file is the requested name under the directory an upload with the same key writes to |
| Retrieve.ReadImage | index.js:105-134 | the reply is never an upload reply; a refusal is the date failure or the missing-file failure; an image reply carries exactly the bytes stored at the looked-up path, their length and the one-day cache directive |
| Retrieve.MatchImageRoute | index.js:105-106 | a matching URL is "/image/" followed by the join of the six parameters, each non-empty and separator-free |
| Retrieve.MimeForExt | index.js:120-124 | an extension maps to an image type exactly when it is an allowed upload extension, and to `application/octet-stream` otherwise |
| Retrieve.ServedTypes | index.js:122-124 | .jpg and .jpeg are served as image/jpeg, .png as image/png, .webp as image/webp |
| Retrieve.ReadImageDecision | index.js:105-134 | 400 exactly for a malformed year or month, 404 exactly for a well-formed key whose file is absent, otherwise 200 with the stored bytes, their length, the name's content type and the one-day cache directive |
| Retrieve.DateCheckedBeforeLookup | index.js:108-117 | with a malformed year or month the reply is the same whatever is stored |
| Retrieve.MatchJoinedRoute | index.js:105 | "/image/" followed by six non-empty separator-free segments matches the route with exactly those parameters |
| Server.Nas.constructor | index.js:15-21 | a freshly created, non-empty storage root holds no files |
| Server.Nas.Upload | index.js:27-101 | no file gives "No file uploaded"; a refused upload reports a failing check with a 400 and writes nothing; an admitted one writes exactly its bytes under destination/stored name and replies with the relative path |
| Server.Nas.Retrieve | index.js:105-134 | the read route's reply is `ReadImage` over the current files |
| Server.RouteOfUpload | index.js:99-114 | the path an upload returns matches the read route, naming the very file the upload wrote |
| Server.UploadThenRead | index.js:46-134 | an admitted upload read back through its returned path gives 200, its bytes, and an allowed image type |
| Server.UploadThenRetrieve | index.js:76-134 | calling the two routes in turn: the upload is saved and the read returns what it stored |

## Left out

- Express and multer wiring, dotenv, `PORT`, `app.listen` and the start-up creation of `NAS_DIR` (index.js:2-21, 69-77, 136-138): plumbing with no decision in it; the root is the `root` of `Nas`.
- Directory creation, `existsSync`, `statSync`, the read stream and header setting (index.js:47, 115, 125-133): the file system is a map from full path to bytes, so a path is present exactly when a file was written there; directories are not modelled.
- `Date.now()`: a parameter. Timestamps are rendered as plain decimal; JavaScript switches to exponent form only from 10^21, far beyond any clock value.
- Server.Nas.Upload: does not say which failing check is reported when several fail, because the order is decided inside the multipart library (filter when the file part arrives, destination next, size while streaming); it promises one of them.
- Server.Nas.Upload: a key field sent after the file part is not yet in `req.body` when `destination` runs; the model treats the form fields as all known up front.
- `OtherUploadError` covers the multipart library's other errors (unexpected field, too many parts); no operation of the model raises it.
- The JSON envelope round trip of `destination` errors (index.js:31, 37, 42, 86-91): the model carries the failure itself, whose message is `Responses.Message`.
- The size limit is a bound on the whole content (`|content| <= MaxSize`); the streaming abort is not modelled; an oversize file is treated as never written.
- Strings.Lower: folds only A-Z. Full Unicode `toLowerCase` also turns the Kelvin sign into 'k' and the dotted capital I into 'i' with a combining dot; none of the allowed extensions contains 'k' or 'i', so the allow-list decision is the same, but the model does not prove this.
- `path.join` is modelled as joining the segments with '/' verbatim: normalisation of '.', '..', empty and repeated separators, and Windows separators are not modelled. Node's path module source is not part of this model; `extname` and `basename` follow Node's documented POSIX behaviour.
- Path traversal: the code does not reject '/', '..' or NUL in `tradCode`, `orderType` or `orderId`, and neither does the model; nothing is claimed about the written path staying under the root.
- Server.UploadThenRead, Server.RouteOfUpload, Server.UploadThenRetrieve: require the three free-form key fields to be plain segments (no '/', not "." or ".."). With a '/' the returned path splits into more than six route segments; a "." or ".." is dropped or folded by `path.join`'s normalisation, leaving fewer than six. In both cases the read route does not match the returned path, and the model, whose `Join` is verbatim, does not capture the normalised path. Server.RouteOfUpload also requires the file name to be a plain segment; a stored name always is, since it starts with a digit.
- Server.Nas.constructor: starts from an empty store; index.js:19-20 also reuse an existing NAS_DIR with the files it already holds, which the model does not start from.
- URL decoding of route parameters, case-insensitive routing and trailing slashes in the route matcher are not modelled; `MatchImageRoute` splits the raw path on '/'.
- Form fields sent twice (arriving as arrays) are not modelled; a field is a string or absent.
- Concurrent requests are not modelled; each method call is one request run to completion. Two uploads in the same millisecond under the same key can still collide (for example `x.jpg` and `a/x.jpg`, whose last components agree); only distinct timestamps are proved to give distinct files.
