/** The two routes over the storage tree under NAS_DIR. The tree is a map from
    file path to contents; the upload route adds to it and the read route only
    looks in it. */
module Server {
  import opened Options
  import opened Strings
  import opened NodePath
  import opened Responses
  import opened Upload
  import opened Retrieve

  class Nas {
    /** NAS_DIR. */
    const root: string
    /** Every stored file, by full path. */
    var files: map<string, Bytes>

    /** A freshly created NAS_DIR; the source refuses to start without one. */
    constructor (root: string)
      requires root != ""
      ensures this.root == root && files == map[]
    {
      this.root := root;
      files := map[];
    }

    /** POST /upload. The checks run in the library's order (filter,
        destination, size while streaming); the contract promises only that a
        refused upload reports one of the checks that failed and writes nothing,
        and that an admitted one writes exactly its stored file. */
    method Upload(fields: UploadFields, part: Option<FilePart>, ts: nat) returns (resp: Response)
      modifies this
      ensures part.None? ==> resp == Failed(NoFile) && files == old(files)
      ensures part.Some? && !Admitted(root, fields, part.value) ==>
        && files == old(files)
        && resp.Failed? && resp.failure in Rejections(root, fields, part.value)
        && Status(resp) == 400
      ensures part.Some? && Admitted(root, fields, part.value) ==>
        var name := StoredName(ts, part.value.originalname);
        && files == old(files)[StoredPath(Destination(root, fields).value, name) := part.value.content]
        && resp == Saved(RelativePath(fields, name))
    {
      if part.None? {
        resp := UploadReply(None, None, fields);
        return;
      }
      var file := part.value;
      var err: Failure;
      var filter := FileFilter(file.originalname, file.mimetype);
      if filter.Fail? {
        err := filter.error;
      } else {
        var dest := Destination(root, fields);
        if dest.Err? {
          err := dest.error;
        } else if !WithinSizeLimit(|file.content|) {
          err := FileTooLarge;
        } else {
          var name := StoredName(ts, file.originalname);
          files := files[StoredPath(dest.value, name) := file.content];
          resp := UploadReply(None, Some(name), fields);
          return;
        }
      }
      resp := UploadReply(Some(err), None, fields);
    }

    /** GET /image/:tradCode/:orderType/:year/:month/:orderId/:filename. */
    method Retrieve(p: ImageParams) returns (resp: Response)
      ensures resp == ReadImage(files, root, p)
    {
      resp := ReadImage(files, root, p);
    }
  }

  /** The round trip: the path an admitted upload returns, requested under
      /image/, matches the route, names the very file the upload wrote, and is
      answered with its bytes and an allowed image type. The three free-form key
      fields must be plain segments: with a '/' the returned path splits into
      more than six segments, and a "." or ".." is removed by `join`'s
      normalisation, which the verbatim `Join` does not model. */
  lemma UploadThenRead(root: string, f: UploadFields, part: FilePart, ts: nat, files: map<string, Bytes>)
    requires Admitted(root, f, part)
    requires PlainSegment(f.tradCode.value) && PlainSegment(f.orderType.value) && PlainSegment(f.orderId.value)
    ensures var name := StoredName(ts, part.originalname);
      var target := StoredPath(Destination(root, f).value, name);
      var route := MatchImageRoute("/image/" + RelativePath(f, name));
      && route.Some?
      && ImagePath(root, route.value) == target
      && ReadImage(files[target := part.content], root, route.value)
         == Image(ContentType(part.originalname), |part.content|, CacheControl, part.content)
      && ContentType(part.originalname) in AllowedMime
  {
    var name := StoredName(ts, part.originalname);
    var target := StoredPath(Destination(root, f).value, name);
    StoredNameIsSegment(ts, part.originalname);
    var p := RouteOfUpload(root, f, name);
    assert ReadImage(files[target := part.content], root, p)
        == Image(ContentType(name), |part.content|, CacheControl, part.content);
    assert ContentType(name) == ContentType(part.originalname) by {
      StoredNameExtension(ts, part.originalname);
    }
  }

  /** The route a returned upload path matches: the key fields and the stored
      name, naming the file under the upload's destination. */
  lemma RouteOfUpload(root: string, f: UploadFields, name: string) returns (p: ImageParams)
    requires Destination(root, f).Ok?
    requires PlainSegment(f.tradCode.value) && PlainSegment(f.orderType.value) && PlainSegment(f.orderId.value)
    requires name != [] && PlainSegment(name)
    ensures MatchImageRoute("/image/" + RelativePath(f, name)) == Some(p)
    ensures ImagePath(root, p) == StoredPath(Destination(root, f).value, name)
    ensures p.year == f.year.value && p.month == f.month.value && p.filename == name
  {
    var segs := [f.tradCode.value, f.orderType.value, f.year.value, f.month.value, f.orderId.value, name];
    AcceptedDateSegments(root, f);
    DigitsHaveNo(f.year.value, '/');
    DigitsHaveNo(f.month.value, '/');
    MatchJoinedRoute(segs);
    p := ImageParams(segs[0], segs[1], segs[2], segs[3], segs[4], segs[5]);
  }

  /** A client of the two methods: what one upload stored, one read returns. */
  method UploadThenRetrieve(nas: Nas, fields: UploadFields, part: FilePart, ts: nat) returns (saved: Response, read: Response)
    requires Admitted(nas.root, fields, part)
    requires PlainSegment(fields.tradCode.value) && PlainSegment(fields.orderType.value)
    requires PlainSegment(fields.orderId.value)
    modifies nas
    ensures saved.Saved?
    ensures read == Image(ContentType(part.originalname), |part.content|, CacheControl, part.content)
  {
    saved := nas.Upload(fields, Some(part), ts);
    UploadThenRead(nas.root, fields, part, ts, old(nas.files));
    var route := MatchImageRoute("/image/" + saved.path);
    read := nas.Retrieve(route.value);
  }
}
