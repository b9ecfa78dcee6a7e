/** The two functions of Node's `path` module (POSIX flavour) that the
    endpoints call: `basename` for the URL of an upload and `extname` for
    the classification of a listed file. */
module NodePath {

  import opened Text

  /** `path.basename(p)`: trailing slashes are ignored, then what follows
      the last `/`. */
  function Basename(p: string): (r: string)
    ensures '/' !in r
    ensures |r| <= |p|
  {
    AfterLast(StripTrailingSlashes(p), '/')
  }

  /** The basename is empty exactly when the path is made of slashes only. */
  lemma BasenameEmpty(p: string)
    ensures Basename(p) == [] <==> forall i :: 0 <= i < |p| ==> p[i] == '/'
  {
    var stripped := StripTrailingSlashes(p);
    if stripped != [] {
      assert p[|stripped| - 1] != '/';
    }
  }

  /** The name a file was stored under is the basename of its path in the
      upload directory. */
  lemma BasenameOfChild(dir: string, name: string)
    requires name != [] && '/' !in name
    ensures Basename(dir + "/" + name) == name
  {
    var p := dir + "/" + name;
    assert p[|p| - 1] == name[|name| - 1];
    assert StripTrailingSlashes(p) == p;
    AfterLastOfJoin(dir, '/', name);
  }

  /** A name without `/` (what a directory listing yields) is its own
      basename. */
  lemma BasenameOfName(name: string)
    requires '/' !in name
    ensures Basename(name) == name
  {
    if name != [] {
      assert name[|name| - 1] in name;
    }
    AfterLastAbsent(name, '/');
  }

  /** The extension `extname` reports for one path segment: from the last
      `.` to the end, or nothing when no dot follows the first character or
      the segment is `..`. */
  function SegmentExtension(seg: string): (r: string)
    ensures r != [] ==> r[0] == '.' && '.' !in r[1..]
    ensures r == [] || (|r| < |seg| && r == seg[|seg| - |r|..])
  {
    var t := AfterLast(seg, '.');
    if seg == ".." || |t| + 1 >= |seg| then
      []
    else
      var r := seg[|seg| - |t| - 1..];
      assert r[1..] == t;
      r
  }

  /** A segment has an extension exactly when it is not `..` and a dot
      follows its first character. */
  lemma SegmentExtensionNonEmpty(seg: string)
    ensures SegmentExtension(seg) != [] <==> seg != ".." && exists i :: 0 < i < |seg| && seg[i] == '.'
  {
    var t := AfterLast(seg, '.');
    if |t| + 1 >= |seg| {
      forall i | 0 < i < |seg| ensures seg[i] != '.' {
        assert seg[i] == t[i - (|seg| - |t|)];
      }
    }
  }

  /** `path.extname(p)`: the extension of the last segment. */
  function ExtName(p: string): (r: string)
    ensures r != [] ==> r[0] == '.' && '.' !in r[1..] && '/' !in r
  {
    SegmentExtension(Basename(p))
  }

  /** For a name without `/`, the extension is a proper suffix of the
      name itself. */
  lemma ExtNameOfName(name: string)
    requires '/' !in name
    ensures ExtName(name) == SegmentExtension(name)
    ensures var e := ExtName(name); e == [] || (|e| < |name| && e == name[|name| - |e|..])
  {
    BasenameOfName(name);
  }

  /** The extension of a bare file name is a suffix of that name. This is
      the second half of `ExtNameOfName` stated about a given `e`: a caller
      that also reasons about other text containing the name can use it
      without having `ExtName` itself unfolded next to that text. */
  lemma ExtNameIsSuffix(name: string, e: string)
    requires '/' !in name
    requires e == ExtName(name)
    ensures |e| <= |name| && e == name[|name| - |e|..]
  {
    ExtNameOfName(name);
  }

  lemma BasenameLower(p: string)
    ensures Basename(Lower(p)) == Lower(Basename(p))
  {
    StripTrailingSlashesLower(p);
    AfterLastLower(StripTrailingSlashes(p), '/');
  }

  lemma SegmentExtensionLower(seg: string)
    ensures SegmentExtension(Lower(seg)) == Lower(SegmentExtension(seg))
  {
    var low := Lower(seg);
    var t := AfterLast(seg, '.');
    AfterLastLower(seg, '.');
    assert AfterLast(low, '.') == Lower(t);
    assert low == ".." <==> seg == ".." by {
      if |seg| == 2 {
        LowerCharKeepsClass(seg[0]);
        LowerCharKeepsClass(seg[1]);
      }
    }
    if |t| + 1 < |seg| && seg != ".." {
      LowerSlice(seg, |seg| - |t| - 1, |seg|);
    }
  }

  /** Lower-casing a path and then taking its extension is the same as
      lower-casing its extension. */
  lemma ExtNameLower(p: string)
    ensures ExtName(Lower(p)) == Lower(ExtName(p))
  {
    BasenameLower(p);
    SegmentExtensionLower(Basename(p));
  }
}
