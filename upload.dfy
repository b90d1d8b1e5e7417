/** The upload side of index.js: the `destination` check of the business key,
    the `fileFilter` allow-lists, the size bound, the `filename` generator and
    the reply of the POST /upload route. */
module Upload {
  import opened Options
  import opened Strings
  import opened Regex
  import opened NodePath
  import opened Responses

  const AllowedExt: seq<string> := [".jpg", ".jpeg", ".png", ".webp"]
  const AllowedMime: seq<string> := ["image/jpeg", "image/png", "image/webp"]
  /** 5 MiB, the multipart library's `fileSize` limit. */
  const MaxSize: nat := 5 * 1024 * 1024

  /** The five business-key form fields; a field the form did not send is None. */
  datatype UploadFields = UploadFields(
    tradCode: Option<string>,
    orderType: Option<string>,
    year: Option<string>,
    month: Option<string>,
    orderId: Option<string>)

  /** One uploaded file as the multipart library describes it. */
  datatype FilePart = FilePart(originalname: string, mimetype: string, content: Bytes)

  /** JavaScript truthiness of a form field: sent and not empty. */
  predicate Truthy(f: Option<string>) {
    f.Some? && f.value != ""
  }

  predicate AllPresent(f: UploadFields) {
    Truthy(f.tradCode) && Truthy(f.orderType) && Truthy(f.year) && Truthy(f.month) && Truthy(f.orderId)
  }

  /** The `destination` callback: presence, then year, then month; on success
      the directory string, which begins with `root` and a '/'. The join is
      taken verbatim, so this is a statement about the string, not about
      containment: Node's `path.join` folds a ".." key field. */
  function Destination(root: string, f: UploadFields): (r: Result<string, Failure>)
    ensures r.Err? ==> r.error == MissingFields || r.error == InvalidYear || r.error == InvalidMonth
    ensures r.Ok? ==> AllPresent(f) && |r.value| > |root| && r.value[..|root|] == root && r.value[|root|] == '/'
  {
    if !AllPresent(f) then Err(MissingFields)
    else if !Matches(YearRegex, f.year.value) then Err(InvalidYear)
    else if !Matches(MonthRegex, f.month.value) then Err(InvalidMonth)
    else Ok(Join([root, f.tradCode.value, f.orderType.value, f.year.value, f.month.value, f.orderId.value]))
  }

  /** The lower-cased extension both `fileFilter` and `filename` compute. */
  function Extension(name: string): (r: string)
    ensures |r| == |Extname(name)|
    ensures r != [] ==> r[0] == '.' && '.' !in r[1..]
  {
    Lower(Extname(name))
  }

  /** The `fileFilter` callback: extension first, then declared MIME type. */
  function FileFilter(originalname: string, mimetype: string): (r: Outcome<Failure>)
    ensures r.Fail? ==> r.error == InvalidExtension || r.error == InvalidMime
    ensures r == Pass ==> Extension(originalname) != [] && mimetype in AllowedMime
  {
    if Extension(originalname) !in AllowedExt then Fail(InvalidExtension)
    else if mimetype !in AllowedMime then Fail(InvalidMime)
    else Pass
  }

  predicate WithinSizeLimit(size: nat) {
    size <= MaxSize
  }

  /** The `filename` callback: `<ts>-<basename><lower-cased extension>`, where the
      basename drops the lower-cased extension only when the name ends in it
      exactly. */
  function StoredName(ts: nat, originalname: string): (r: string)
    ensures var d := Decimal(ts); |r| > |d| && r[..|d|] == d && r[|d|] == '-'
  {
    var ext := Extension(originalname);
    Decimal(ts) + "-" + BasenameSuffix(originalname, ext) + ext
  }

  /** The `path` of the reply: the five key fields and the stored name. */
  function RelativePath(f: UploadFields, name: string): (r: string)
    requires AllPresent(f)
    ensures var t := f.tradCode.value; |r| > |t| && r[..|t|] == t && r[|t|] == '/'
    ensures IsSuffix("/" + name, r)
  {
    var key := [f.tradCode.value, f.orderType.value, f.year.value, f.month.value, f.orderId.value];
    JoinSnoc(key, name);
    JoinPair(Join(key), name);
    assert key + [name] == [f.tradCode.value, f.orderType.value, f.year.value, f.month.value, f.orderId.value, name];
    Join([f.tradCode.value, f.orderType.value, f.year.value, f.month.value, f.orderId.value, name])
  }

  /** The reply of the POST /upload route, given the error the multipart library
      reports (if any) and the name the file was stored under (if a file came). */
  function UploadReply(err: Option<Failure>, stored: Option<string>, f: UploadFields): (r: Response)
    ensures r.Saved? <==> err.None? && stored.Some? && AllPresent(f)
    ensures r.Failed? <==> !r.Saved?
  {
    if err.Some? then Failed(err.value)
    else if stored.None? then Failed(NoFile)
    else if !AllPresent(f) then Failed(MissingFields)
    else Saved(RelativePath(f, stored.value))
  }

  // ---------------------------------------------------------------------------
  // Key validation

  /** The destination check short-circuits in a fixed order (missing field,
      year, month) and yields a directory exactly when all three pass: the five
      key segments under `root`, in order. */
  lemma DestinationDecision(root: string, f: UploadFields)
    ensures Destination(root, f) == Err(MissingFields) <==> !AllPresent(f)
    ensures Destination(root, f) == Err(InvalidYear)
        <==> AllPresent(f) && !FourDigits(f.year.value)
    ensures Destination(root, f) == Err(InvalidMonth)
        <==> AllPresent(f) && FourDigits(f.year.value) && f.month.value !in Months
    ensures Destination(root, f).Ok?
        <==> AllPresent(f) && FourDigits(f.year.value) && f.month.value in Months
    ensures Destination(root, f).Ok? ==>
      Destination(root, f).value
        == root + "/" + f.tradCode.value + "/" + f.orderType.value + "/" + f.year.value
           + "/" + f.month.value + "/" + f.orderId.value
  {
    if AllPresent(f) {
      YearRegexSpec(f.year.value);
      MonthRegexSpec(f.month.value);
      JoinSix(root, f.tradCode.value, f.orderType.value, f.year.value, f.month.value, f.orderId.value);
    }
  }

  /** The year and month of an accepted key are digit strings, so they cannot
      carry a separator or a dot into the directory. */
  lemma AcceptedDateSegments(root: string, f: UploadFields)
    requires Destination(root, f).Ok?
    ensures AllDigits(f.year.value) && |f.year.value| == 4
    ensures AllDigits(f.month.value) && |f.month.value| == 2
  {
    YearRegexSpec(f.year.value);
    DateSegmentsAreDigits(f.month.value);
    MonthRegexSpec(f.month.value);
  }

  // ---------------------------------------------------------------------------
  // File acceptance

  /** `c` ends, ignoring ASCII case, with `e` and has something before it. */
  predicate EndsWithIgnoringCase(c: string, e: string) {
    |e| < |c| && Lower(c[|c| - |e|..]) == e
  }

  /** The last component of the name ends, ignoring case, in an allowed extension. */
  predicate HasAllowedExtension(name: string) {
    exists e :: e in AllowedExt && EndsWithIgnoringCase(Basename(name), e)
  }

  /** An extension as `extname` returns it: a dot, then at least one character, none a dot. */
  predicate OneDotExtension(e: string) {
    |e| >= 2 && e[0] == '.' && '.' !in e[1..]
  }

  lemma AllowedExtWellFormed(e: string)
    requires e in AllowedExt
    ensures OneDotExtension(e)
  {
  }

  /** The lower-cased extension is a given lower-case one-dot extension exactly
      when the last component ends in it, ignoring case, after at least one
      other character. */
  lemma ExtensionIs(name: string, e: string)
    requires OneDotExtension(e)
    ensures Extension(name) == e <==> EndsWithIgnoringCase(Basename(name), e)
  {
    if Extension(name) == e {
      ExtensionEndsComponent(name);
    }
    if EndsWithIgnoringCase(Basename(name), e) {
      EndingGivesExtension(name, e);
    }
  }

  lemma ExtensionEndsComponent(name: string)
    requires Extension(name) != []
    ensures EndsWithIgnoringCase(Basename(name), Extension(name))
  {
    var c, x, ext := Basename(name), Extname(name), Extension(name);
    assert |ext| == |x| && x != [];
    assert IsSuffix(x, c) && |x| < |c|;
    assert c[|c| - |ext|..] == x;
  }

  lemma EndingGivesExtension(name: string, e: string)
    requires OneDotExtension(e)
    requires EndsWithIgnoringCase(Basename(name), e)
    ensures Extension(name) == e
  {
    var c := Basename(name);
    var start := |c| - |e|;
    var tail := c[start..];
    assert Lower(tail) == e;
    assert c[start] == '.' by {
      assert Lower(tail)[0] == LowerChar(tail[0]);
      LowerCharKeeps(tail[0]);
    }
    forall j | start < j < |c|
      ensures c[j] != '.'
    {
      assert Lower(tail)[j - start] == LowerChar(c[j]);
      assert e[j - start] == e[1..][j - start - 1];
      LowerCharKeeps(c[j]);
    }
    ExtnameAtDot(name, start);
  }

  /** `fileFilter` accepts exactly the names whose last component ends, ignoring
      case, in .jpg, .jpeg, .png or .webp, declared with an allowed MIME type;
      when both are wrong it reports the extension. */
  lemma FileFilterDecision(name: string, mimetype: string)
    ensures FileFilter(name, mimetype) == Pass
        <==> HasAllowedExtension(name) && mimetype in AllowedMime
    ensures FileFilter(name, mimetype) == Fail(InvalidExtension) <==> !HasAllowedExtension(name)
    ensures FileFilter(name, mimetype) == Fail(InvalidMime)
        <==> HasAllowedExtension(name) && mimetype !in AllowedMime
  {
    ExtensionAllowed(name);
  }

  lemma ExtensionAllowed(name: string)
    ensures Extension(name) in AllowedExt <==> HasAllowedExtension(name)
  {
    var ext := Extension(name);
    if ext in AllowedExt {
      AllowedExtWellFormed(ext);
      ExtensionIs(name, ext);
    }
    if HasAllowedExtension(name) {
      var e :| e in AllowedExt && EndsWithIgnoringCase(Basename(name), e);
      AllowedExtWellFormed(e);
      ExtensionIs(name, e);
    }
  }

  // ---------------------------------------------------------------------------
  // Stored-filename generation

  /** The stored name is the timestamp, a dash, the original last component, and
      the lower-cased extension appended again unless the original extension was
      already lower-case: `photo.JPG` is stored as `<ts>-photo.JPG.jpg`. */
  lemma StoredNameShape(ts: nat, name: string)
    ensures StoredName(ts, name) == Decimal(ts) + "-" + Basename(name)
        + (if Extension(name) == Extname(name) then "" else Extension(name))
  {
    var c, x, ext := Basename(name), Extname(name), Extension(name);
    var b := BasenameSuffix(name, ext);
    var pre := Decimal(ts) + "-";
    var tail := if ext == x then "" else ext;
    assert b + ext == c + tail by {
      if x == [] {
        assert ext == [] && b == c;
      } else if ext == x {
        LowerCaseExtensionStripped(name);
      } else {
        OtherExtensionKept(name);
      }
    }
    AppendAssoc(pre, b, ext);
    AppendAssoc(pre, c, tail);
  }

  lemma LowerCaseExtensionStripped(name: string)
    requires Extname(name) != [] && Extension(name) == Extname(name)
    ensures BasenameSuffix(name, Extension(name)) + Extension(name) == Basename(name)
  {
    var c, x := Basename(name), Extname(name);
    assert c[..|c| - |x|] + c[|c| - |x|..] == c;
  }

  lemma OtherExtensionKept(name: string)
    requires Extname(name) != [] && Extension(name) != Extname(name)
    ensures BasenameSuffix(name, Extension(name)) == Basename(name)
  {
    var c, x, ext := Basename(name), Extname(name), Extension(name);
    assert |ext| == |x| < |c|;
  }

  /** A name that is one path component with a lower-case extension is kept
      whole after the timestamp. */
  lemma StoredNameKeepsLowerCaseName(ts: nat, name: string)
    requires '/' !in name && Extension(name) == Extname(name)
    ensures StoredName(ts, name) == Decimal(ts) + "-" + name
  {
    StoredNameShape(ts, name);
    BasenameOfSegment(name);
  }

  /** The lower-cased extension is itself a one-dot, separator-free, lower-case
      extension, or empty. */
  lemma ExtensionShape(name: string)
    ensures var ext := Extension(name);
      ext != [] ==> ext[0] == '.' && '.' !in ext[1..] && '/' !in ext && Lower(ext) == ext
  {
    var x, ext := Extname(name), Extension(name);
    LowerIdempotent(x);
    if x != [] {
      var c := Basename(name);
      assert c[|c| - |x|..] == x;
      assert '/' !in x by {
        forall i | 0 <= i < |x|
          ensures x[i] != '/'
        {
          assert x[i] == c[|c| - |x| + i];
        }
      }
      assert Lower(x) == [LowerChar(x[0])] + Lower(x[1..]);
      LowerCharKeeps(x[0]);
      LowerKeepsChar(x, '/');
      LowerKeepsChar(x[1..], '.');
    }
  }

  /** The stored name is a single path segment: non-empty, separator-free, and
      starting with a digit, so never "." or "..". */
  lemma StoredNameIsSegment(ts: nat, name: string)
    ensures var s := StoredName(ts, name); s != [] && IsDigit(s[0]) && '/' !in s
  {
    var c, x, ext := Basename(name), Extname(name), Extension(name);
    StoredNameShape(ts, name);
    ExtensionShape(name);
    var tail := if ext == x then "" else ext;
    var d := Decimal(ts);
    DigitsHaveNo(d, '/');
    NotInConcat(d, "-", '/');
    NotInConcat(d + "-", c, '/');
    NotInConcat(d + "-" + c, tail, '/');
  }

  /** The stored name's own extension is the lower-cased original extension. */
  lemma StoredNameExtension(ts: nat, name: string)
    requires Extension(name) != []
    ensures Extname(StoredName(ts, name)) == Extension(name)
    ensures Extension(StoredName(ts, name)) == Extension(name)
  {
    var ext := Extension(name);
    var prefix := Decimal(ts) + "-" + BasenameSuffix(name, ext);
    assert StoredName(ts, name) == prefix + ext;
    StoredNameIsSegment(ts, name);
    ExtensionShape(name);
    assert '/' !in prefix by {
      forall i | 0 <= i < |prefix|
        ensures prefix[i] != '/'
      {
        assert prefix[i] == StoredName(ts, name)[i];
      }
    }
    assert |prefix| >= 2;
    ExtnameOfSuffixed(prefix, ext);
  }

  /** Every upload the filter accepts is stored under a name that carries an
      allowed extension. */
  lemma AcceptedStoredNameAllowed(ts: nat, name: string, mimetype: string)
    requires FileFilter(name, mimetype) == Pass
    ensures Extension(StoredName(ts, name)) in AllowedExt
  {
    StoredNameExtension(ts, name);
  }

  /** Names generated at different milliseconds never coincide, whatever the
      original names. */
  lemma StoredNameTimestamps(t1: nat, n1: string, t2: nat, n2: string)
    requires StoredName(t1, n1) == StoredName(t2, n2)
    ensures t1 == t2
  {
    DigitsBeforeDash(StoredName(t1, n1), Decimal(t1), Decimal(t2));
    DecimalInjective(t1, t2);
  }

  /** Two digit strings that each end right before the first dash of `s` are equal. */
  lemma DigitsBeforeDash(s: string, d1: string, d2: string)
    requires AllDigits(d1) && AllDigits(d2)
    requires |s| > |d1| && s[..|d1|] == d1 && s[|d1|] == '-'
    requires |s| > |d2| && s[..|d2|] == d2 && s[|d2|] == '-'
    ensures d1 == d2
  {
  }

  // ---------------------------------------------------------------------------
  // The route's reply

  /** Any library error is a 400 that carries its message; without one, a
      request that brought no file is refused, and the repeated presence check
      never fires once the destination check has passed. */
  lemma UploadReplyDecision(err: Option<Failure>, stored: Option<string>, root: string, f: UploadFields)
    ensures err.Some? ==> UploadReply(err, stored, f) == Failed(err.value)
    ensures err.None? && stored.None? ==> UploadReply(err, stored, f) == Failed(NoFile)
    ensures err.None? && stored.Some? && Destination(root, f).Ok?
        ==> UploadReply(err, stored, f) == Saved(RelativePath(f, stored.value))
    ensures err.Some? && err.value != NotFound ==> Status(UploadReply(err, stored, f)) == 400
  {
  }

  // ---------------------------------------------------------------------------
  // The checks together

  /** The upload passes every check: the filter, the destination and the size bound. */
  predicate Admitted(root: string, f: UploadFields, part: FilePart) {
    FileFilter(part.originalname, part.mimetype) == Pass
    && Destination(root, f).Ok?
    && WithinSizeLimit(|part.content|)
  }

  /** The failures of the checks that do not pass. Which of them the library
      reports first is its own affair. */
  function Rejections(root: string, f: UploadFields, part: FilePart): set<Failure> {
    FailuresOf(FileFilter(part.originalname, part.mimetype), Destination(root, f), WithinSizeLimit(|part.content|))
  }

  function FailuresOf(filter: Outcome<Failure>, dest: Result<string, Failure>, fits: bool): set<Failure> {
    (if filter.Fail? then {filter.error} else {})
    + (if dest.Err? then {dest.error} else {})
    + (if fits then {} else {FileTooLarge})
  }

  /** Where the library writes an accepted file: the stored name under the destination. */
  function StoredPath(dir: string, name: string): string {
    Join([dir, name])
  }

  /** An upload is admitted exactly when no check fails, and a file over the
      size bound is always among the rejections. */
  lemma RejectionsDecision(root: string, f: UploadFields, part: FilePart)
    ensures Admitted(root, f, part) <==> Rejections(root, f, part) == {}
    ensures FileTooLarge in Rejections(root, f, part) <==> |part.content| > MaxSize
  {
    var filter := FileFilter(part.originalname, part.mimetype);
    var dest := Destination(root, f);
    assert filter.Fail? ==> filter.error in {InvalidExtension, InvalidMime};
    assert dest.Err? ==> dest.error in {MissingFields, InvalidYear, InvalidMonth};
    FailuresOfDecision(filter, dest, WithinSizeLimit(|part.content|));
  }

  lemma FailuresOfDecision(filter: Outcome<Failure>, dest: Result<string, Failure>, fits: bool)
    requires filter.Fail? ==> filter.error != FileTooLarge
    requires dest.Err? ==> dest.error != FileTooLarge
    ensures FailuresOf(filter, dest, fits) == {} <==> filter.Pass? && dest.Ok? && fits
    ensures FileTooLarge in FailuresOf(filter, dest, fits) <==> !fits
  {
    var r := FailuresOf(filter, dest, fits);
    assert filter.Fail? ==> filter.error in r;
    assert dest.Err? ==> dest.error in r;
  }

  /** Two uploads of the same key at different milliseconds are written to
      different files, whatever their original names. */
  lemma DistinctTimestampsDistinctFiles(dir: string, t1: nat, n1: string, t2: nat, n2: string)
    requires t1 != t2
    ensures StoredPath(dir, StoredName(t1, n1)) != StoredPath(dir, StoredName(t2, n2))
  {
    var a, b := StoredName(t1, n1), StoredName(t2, n2);
    if StoredPath(dir, a) == StoredPath(dir, b) {
      SameFileSameName(dir, a, b);
      StoredNameTimestamps(t1, n1, t2, n2);
    }
  }

  lemma SameFileSameName(dir: string, a: string, b: string)
    requires StoredPath(dir, a) == StoredPath(dir, b)
    ensures a == b
  {
    JoinPair(dir, a);
    JoinPair(dir, b);
    assert a == (dir + "/" + a)[|dir| + 1..];
    assert b == (dir + "/" + b)[|dir| + 1..];
  }
}
