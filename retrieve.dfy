/** The read side of index.js: the GET /image/:tradCode/:orderType/:year/:month/:orderId/:filename
    route, its date check, the file it looks up and the content type it declares. */
module Retrieve {
  import opened Options
  import opened Regex
  import opened NodePath
  import opened Responses
  import opened Upload

  /** The six route parameters. */
  datatype ImageParams = ImageParams(
    tradCode: string,
    orderType: string,
    year: string,
    month: string,
    orderId: string,
    filename: string)

  /** The if-chain from a lower-cased extension to the declared content type. */
  function MimeForExt(ext: string): (m: string)
    ensures ext in AllowedExt <==> m in AllowedMime
    ensures ext !in AllowedExt ==> m == "application/octet-stream"
  {
    if ext == ".jpg" || ext == ".jpeg" then "image/jpeg"
    else if ext == ".png" then "image/png"
    else if ext == ".webp" then "image/webp"
    else "application/octet-stream"
  }

  /** The content type is recomputed from the requested name alone. */
  function ContentType(filename: string): (m: string)
    ensures m in AllowedMime <==> Extension(filename) in AllowedExt
  {
    MimeForExt(Extension(filename))
  }

  /** The file the route looks up under `root`. */
  function ImagePath(root: string, p: ImageParams): (r: string)
    ensures r == StoredPath(Join([root, p.tradCode, p.orderType, p.year, p.month, p.orderId]), p.filename)
  {
    var dir := [root, p.tradCode, p.orderType, p.year, p.month, p.orderId];
    JoinSnoc(dir, p.filename);
    assert dir + [p.filename] == [root, p.tradCode, p.orderType, p.year, p.month, p.orderId, p.filename];
    Join([root, p.tradCode, p.orderType, p.year, p.month, p.orderId, p.filename])
  }

  /** The reply of the route over a store that maps file paths to contents. */
  function ReadImage(files: map<string, Bytes>, root: string, p: ImageParams): (r: Response)
    ensures !r.Saved?
    ensures r.Failed? ==> r.failure == InvalidDate || r.failure == NotFound
    ensures r.Image? ==>
      && ImagePath(root, p) in files
      && r.body == files[ImagePath(root, p)]
      && r.contentLength == |r.body|
      && r.cacheControl == CacheControl
  {
    if !Matches(YearRegex, p.year) || !Matches(MonthRegex, p.month) then Failed(InvalidDate)
    else
      var path := ImagePath(root, p);
      if path !in files then Failed(NotFound)
      else Image(ContentType(p.filename), |files[path]|, CacheControl, files[path])
  }

  /** The route pattern: "/image/" and six non-empty segments. */
  function MatchImageRoute(url: string): (r: Option<ImageParams>)
    ensures r.Some? ==>
      var v := r.value;
      var segs := [v.tradCode, v.orderType, v.year, v.month, v.orderId, v.filename];
      && url == "/image/" + Join(segs)
      && forall i :: 0 <= i < 6 ==> segs[i] != "" && '/' !in segs[i]
  {
    if |url| < 7 || url[..7] != "/image/" then None
    else
      var segs := Split(url[7..]);
      if |segs| == 6 && forall i :: 0 <= i < 6 ==> segs[i] != "" then
        assert segs == [segs[0], segs[1], segs[2], segs[3], segs[4], segs[5]];
        assert url == url[..7] + url[7..];
        Some(ImageParams(segs[0], segs[1], segs[2], segs[3], segs[4], segs[5]))
      else None
  }

  /** A malformed year or month is a 400 and a missing file a 404; otherwise the
      reply is the stored bytes with their length, the content type of the
      requested name and a one-day cache directive. */
  lemma ReadImageDecision(files: map<string, Bytes>, root: string, p: ImageParams)
    ensures var r := ReadImage(files, root, p);
      && (Status(r) == 400 <==> !FourDigits(p.year) || p.month !in Months)
      && (Status(r) == 400 ==> r == Failed(InvalidDate))
      && (Status(r) == 404 <==> FourDigits(p.year) && p.month in Months && ImagePath(root, p) !in files)
      && (Status(r) == 404 ==> r == Failed(NotFound))
      && (Status(r) == 200 <==> FourDigits(p.year) && p.month in Months && ImagePath(root, p) in files)
      && (Status(r) == 200 ==>
            r == Image(ContentType(p.filename), |files[ImagePath(root, p)]|, CacheControl, files[ImagePath(root, p)]))
  {
    YearRegexSpec(p.year);
    MonthRegexSpec(p.month);
  }

  /** The date check comes before any lookup: with a malformed year or month the
      reply does not depend on what is stored. */
  lemma DateCheckedBeforeLookup(f1: map<string, Bytes>, f2: map<string, Bytes>, root: string, p: ImageParams)
    requires !FourDigits(p.year) || p.month !in Months
    ensures ReadImage(f1, root, p) == ReadImage(f2, root, p) == Failed(InvalidDate)
  {
    YearRegexSpec(p.year);
    MonthRegexSpec(p.month);
  }

  /** Each allowed upload extension is served as the image type it names. */
  lemma ServedTypes()
    ensures MimeForExt(".jpg") == "image/jpeg" && MimeForExt(".jpeg") == "image/jpeg"
    ensures MimeForExt(".png") == "image/png" && MimeForExt(".webp") == "image/webp"
  {
  }

  /** A URL built from "/image/" and six non-empty, separator-free segments
      matches the route with exactly those parameters. */
  lemma MatchJoinedRoute(segs: seq<string>)
    requires |segs| == 6
    requires forall i :: 0 <= i < 6 ==> segs[i] != "" && '/' !in segs[i]
    ensures MatchImageRoute("/image/" + Join(segs))
         == Some(ImageParams(segs[0], segs[1], segs[2], segs[3], segs[4], segs[5]))
  {
    var url := "/image/" + Join(segs);
    assert url[..7] == "/image/";
    assert url[7..] == Join(segs);
    SplitJoin(segs);
  }
}
