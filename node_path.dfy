/** The three functions of Node's `path` module (POSIX flavour) that the server
    calls: `extname`, `basename` with and without a suffix, and `join`. They are
    stated from Node's documented behaviour, component by component, reading
    the path from its end as Node does. `join` is taken as a plain
    concatenation with '/' (no normalisation of '.', '..' or repeated
    separators). */
module NodePath {
  import opened Strings

  /** `p` without its trailing separators. */
  function TrimTrailingSeps(p: string): (r: string)
    ensures |r| <= |p| && p[..|r|] == r
    ensures r == [] || r[|r| - 1] != '/'
    ensures forall i :: |r| <= i < |p| ==> p[i] == '/'
  {
    if p != [] && p[|p| - 1] == '/' then TrimTrailingSeps(p[..|p| - 1]) else p
  }

  /** The separators that end `p`. */
  function TrailingSeps(p: string): string {
    p[|TrimTrailingSeps(p)|..]
  }

  /** `path.basename(p)`: the last component, trailing separators ignored. */
  function Basename(p: string): (r: string)
    ensures '/' !in r
    ensures |r| <= |p|
  {
    var t := TrimTrailingSeps(p);
    t[LastIndexOf(t, '/') + 1..]
  }

  /** The last component is what follows the last separator once trailing
      separators are dropped: a suffix of the trimmed path, preceded there by
      a '/' unless it is the whole trimmed path. */
  lemma BasenameIsLastComponent(p: string)
    ensures var t, r := TrimTrailingSeps(p), Basename(p);
      && IsSuffix(r, t)
      && (|r| < |t| ==> t[|t| - |r| - 1] == '/')
  {
  }

  /** `path.extname(p)`: from the last '.' of the last component to its end;
      empty when that component has no '.', when its only '.' is the first
      character, or when it is "..". */
  function Extname(p: string): (r: string)
    ensures r != [] ==> r[0] == '.' && '.' !in r[1..]
    ensures r != [] ==> |r| < |Basename(p)| && IsSuffix(r, Basename(p))
    ensures Basename(p) == ".." ==> r == []
  {
    var c := Basename(p);
    var d := LastIndexOf(c, '.');
    if d <= 0 || c == ".." then "" else c[d..]
  }

  /** `path.basename(p, suffix)`: the last component with `suffix` removed when
      it is a proper, case-sensitive suffix of that component. Node keeps the
      component when the suffix is all of it, returns "" when the suffix is all
      of `p`, and returns the component with its trailing separators when the
      component is a proper suffix of `suffix`. */
  function BasenameSuffix(p: string, suffix: string): (r: string)
    ensures suffix == [] ==> r == Basename(p)
    ensures var c := Basename(p);
      suffix != [] && |suffix| < |c| ==> r == if IsSuffix(suffix, c) then c[..|c| - |suffix|] else c
  {
    if suffix == [] || |suffix| > |p| then Basename(p)
    else if suffix == p then ""
    else
      var c := Basename(p);
      if IsSuffix(suffix, c) then (if |suffix| < |c| then c[..|c| - |suffix|] else c)
      else if IsSuffix(c, suffix) then c + TrailingSeps(p)
      else c
  }

  /** `path.join(s1, ..., sn)` on the segments as given, joined by '/'. */
  function Join(segs: seq<string>): (r: string)
    requires |segs| >= 1
    ensures |r| >= |segs[0]| && r[..|segs[0]|] == segs[0]
    ensures |segs| > 1 ==> |r| > |segs[0]| && r[|segs[0]|] == '/'
  {
    if |segs| == 1 then segs[0] else segs[0] + "/" + Join(segs[1..])
  }

  /** A segment that `join`'s normalisation leaves as it is: no separator, and
      neither "." (dropped) nor ".." (which removes the segment before it). */
  predicate PlainSegment(s: string) {
    '/' !in s && s != "." && s != ".."
  }

  /** `p.split('/')`. */
  function Split(p: string): (r: seq<string>)
    ensures |r| >= 1
    ensures forall k :: 0 <= k < |r| ==> '/' !in r[k]
    ensures Join(r) == p
    decreases |p|
  {
    var i := IndexOf(p, '/');
    if i < 0 then [p]
    else
      var rest := Split(p[i + 1..]);
      assert ([p[..i]] + rest)[1..] == rest;
      assert p == p[..i] + "/" + p[i + 1..];
      [p[..i]] + rest
  }

  /** A string that holds no separator is its own last component. */
  lemma BasenameOfSegment(s: string)
    requires '/' !in s
    ensures TrimTrailingSeps(s) == s && Basename(s) == s
  {
    if s != [] {
      assert s[|s| - 1] != '/';
    }
    assert LastIndexOf(s, '/') == -1;
  }

  /** Splitting at the first separator: the segment before it, then the rest. */
  lemma SplitCons(first: string, rest: string)
    requires '/' !in first
    ensures Split(first + "/" + rest) == [first] + Split(rest)
  {
    var p, n := first + "/" + rest, |first|;
    forall j | 0 <= j < n
      ensures p[j] != '/'
    {
      assert p[j] == first[j];
    }
    IndexOfIs(p, '/', n);
    assert p[..n] == first && p[n + 1..] == rest;
  }

  /** Splitting a join of separator-free segments gives the segments back. */
  lemma {:induction false} SplitJoin(segs: seq<string>)
    requires |segs| >= 1
    requires forall i :: 0 <= i < |segs| ==> '/' !in segs[i]
    ensures Split(Join(segs)) == segs
  {
    if |segs| == 1 {
      assert IndexOf(segs[0], '/') == -1;
    } else {
      var first, rest := segs[0], Join(segs[1..]);
      SplitCons(first, rest);
      SplitJoin(segs[1..]);
      assert segs == [first] + segs[1..];
    }
  }

  /** Joining a joined prefix with one more segment is joining all of them. */
  lemma {:induction false} JoinSnoc(segs: seq<string>, last: string)
    requires |segs| >= 1
    ensures Join([Join(segs), last]) == Join(segs + [last])
  {
    if |segs| > 1 {
      JoinSnoc(segs[1..], last);
      assert (segs + [last])[1..] == segs[1..] + [last];
    }
  }

  /** A separator-free name that ends in a one-dot extension, with something
      other than a lone '.' before it, has exactly that extension. */
  lemma ExtnameOfSuffixed(prefix: string, ext: string)
    requires prefix != [] && prefix != "."
    requires '/' !in prefix && '/' !in ext
    requires ext != [] && ext[0] == '.' && '.' !in ext[1..]
    ensures Extname(prefix + ext) == ext
  {
    var s := prefix + ext;
    assert '/' !in s by {
      assert forall i :: 0 <= i < |s| ==> s[i] == (if i < |prefix| then prefix[i] else ext[i - |prefix|]);
    }
    BasenameOfSegment(s);
    var d := LastIndexOf(s, '.');
    assert s[|prefix|] == '.';
    assert forall j :: |prefix| < j < |s| ==> s[j] == ext[1..][j - |prefix| - 1];
    assert d == |prefix|;
    if |s| == 2 {
      assert prefix == [s[0]];
      assert s[0] != s[1];
    }
    assert s[d..] == ext;
  }

  lemma JoinPair(x: string, y: string)
    ensures Join([x, y]) == x + "/" + y
  {
    assert [x, y][1..] == [y];
  }

  /** The extension starts at the last dot of the last component when that dot
      is not its first character and the component is not "..". */
  lemma ExtnameAtDot(p: string, k: nat)
    requires var c := Basename(p); 0 < k < |c| && c != ".." && c[k] == '.'
    requires var c := Basename(p); forall j :: k < j < |c| ==> c[j] != '.'
    ensures Extname(p) == Basename(p)[k..]
  {
    LastIndexOfIs(Basename(p), '.', k);
  }

  lemma JoinSix(a: string, b: string, c: string, d: string, e: string, f: string)
    ensures Join([a, b, c, d, e, f]) == a + "/" + b + "/" + c + "/" + d + "/" + e + "/" + f
  {
    var segs := [a, b, c, d, e, f];
    assert Join(segs[5..]) == f;
    assert Join(segs[4..]) == e + "/" + Join(segs[5..]);
    assert Join(segs[3..]) == d + "/" + Join(segs[4..]);
    assert Join(segs[2..]) == c + "/" + Join(segs[3..]);
    assert Join(segs[1..]) == b + "/" + Join(segs[2..]);
  }
}
