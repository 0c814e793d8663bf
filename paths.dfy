/** PHP's pathinfo() on the paths this program builds: a directory part, the last
    '/', a basename that holds a '.', split at its last '.' into filename and
    extension. Paths outside that shape (no '/', a '/' doubled before the
    basename, no extension) are not given a decomposition. */
module Paths {
  import opened Strings

  datatype PathInfo = PathInfo(dirname: string, filename: string, extension: string)

  /** The path pathinfo() decomposes into info: dirname '/' filename '.' extension. */
  function Render(info: PathInfo): string
  {
    info.dirname + "/" + info.filename + "." + info.extension
  }

  /** A decomposition pathinfo() would return unchanged for the rendered path. */
  predicate WellFormedInfo(info: PathInfo)
  {
    && |info.dirname| > 0
    && info.dirname[|info.dirname| - 1] != '/'
    && '/' !in info.filename
    && '/' !in info.extension
    && '.' !in info.extension
  }

  /** The path has a non-empty dirname not ending in '/' and a basename with an extension. */
  predicate HasPathInfo(path: string)
  {
    var i := LastIndexOf(path, '/');
    i > 0 && path[i - 1] != '/' && '.' in path[i + 1..]
  }

  /** Reassociating the two splits of a path into the shape Render builds. */
  lemma RenderParts(path: string, d: string, base: string, f: string, e: string)
    requires path == d + ['/'] + base && base == f + ['.'] + e
    ensures path == Render(PathInfo(d, f, e))
  {
  }

  /** pathinfo(path): dirname before the last '/', basename after it, the basename
      split at its last '.'. */
  function GetPathInfo(path: string): (info: PathInfo)
    requires HasPathInfo(path)
    ensures Render(info) == path
    ensures WellFormedInfo(info)
  {
    var i := LastIndexOf(path, '/');
    var base := path[i + 1..];
    var j := LastIndexOf(base, '.');
    var d, f, e := path[..i], base[..j], base[j + 1..];
    SplitAtLast(path, '/');
    SplitAtLast(base, '.');
    NotInSlice(base, '/', 0, j);
    NotInSlice(base, '/', j + 1, |base|);
    assert base[..j] == base[0..j];
    RenderParts(path, d, base, f, e);
    var info := PathInfo(d, f, e);
    info
  }

  /** Decomposing a rendered well-formed decomposition gives it back. */
  lemma PathInfoOfRender(info: PathInfo)
    requires WellFormedInfo(info)
    ensures HasPathInfo(Render(info))
    ensures GetPathInfo(Render(info)) == info
  {
    var d, f, e := info.dirname, info.filename, info.extension;
    var base := f + ['.'] + e;
    var path := d + ['/'] + base;
    RenderParts(path, d, base, f, e);
    JoinSlices(d, '/', base);
    LastIndexOfJoin(d, '/', base);
    assert path[|d| - 1] == d[|d| - 1];
    JoinSlices(f, '.', e);
    LastIndexOfJoin(f, '.', e);
  }

  /** PHP pathinfo($path, PATHINFO_EXTENSION): what follows the last '.' of the
      basename, or "" when the basename holds no '.'. */
  function Extension(path: string): (ext: string)
    ensures '/' !in ext && '.' !in ext
    ensures '.' !in path[LastIndexOf(path, '/') + 1..] ==> ext == ""
    ensures var base := path[LastIndexOf(path, '/') + 1..];
      '.' in base ==> |ext| < |base| && base[|base| - |ext| - 1..] == "." + ext
    ensures HasPathInfo(path) ==> ext == GetPathInfo(path).extension
  {
    var i := LastIndexOf(path, '/');
    var base := path[i + 1..];
    var j := LastIndexOf(base, '.');
    if j < 0 then ""
    else
      NotInSlice(base, '/', j + 1, |base|);
      assert base[j..] == "." + base[j + 1..];
      base[j + 1..]
  }
}
