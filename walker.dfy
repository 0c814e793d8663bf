/** scanDirAndSubdir (arrangephotos.php:100-116): a depth-first walk that appends
    the resolved path of every image file to an accumulator. The file system is
    a finite tree: a directory's listing (what scandir returns, "." and ".."
    included) is a sequence of entries, each with its name, its resolved path
    (what realpath returns) and what it is; getimagesize succeeding is the
    isImage flag of a file. */
module Walker {

  datatype Node = File(isImage: bool) | Dir(listing: seq<Entry>)

  datatype Entry = Entry(name: string, way: string, node: Node)

  /** "." and "..", the two listing entries the walk does not descend into. */
  predicate IsDotEntry(name: string)
  {
    name == "." || name == ".."
  }

  /** The paths one entry contributes, in walk order. */
  function EntryWalk(e: Entry): seq<string>
    decreases e, 0
  {
    match e.node
    case File(isImage) => if isImage then [e.way] else []
    case Dir(listing) => if IsDotEntry(e.name) then [] else Walk(listing)
  }

  /** The paths a walk over a listing appends, in walk order. */
  function Walk(listing: seq<Entry>): seq<string>
    decreases listing, 1
  {
    if listing == [] then []
    else Walk(listing[..|listing| - 1]) + EntryWalk(listing[|listing| - 1])
  }

  /** way is the resolved path of an image file that is reached from the listing
      through directories other than "." and "..". */
  predicate ImageIn(e: Entry, way: string)
    decreases e, 0
  {
    match e.node
    case File(isImage) => isImage && e.way == way
    case Dir(listing) => !IsDotEntry(e.name) && Reached(listing, way)
  }

  predicate Reached(listing: seq<Entry>, way: string)
    decreases listing, 1
  {
    exists i | 0 <= i < |listing| :: ImageIn(listing[i], way)
  }

  lemma {:induction false} EntryWalkImages(e: Entry, way: string)
    ensures way in EntryWalk(e) <==> ImageIn(e, way)
    decreases e, 0
  {
    match e.node
    case File(isImage) =>
    case Dir(listing) =>
      if !IsDotEntry(e.name) {
        WalkImages(listing, way);
      }
  }

  /** The walk appends exactly the image files reachable without going through
      "." or "..": every appended path is an image file, and every such image
      file is appended. */
  lemma {:induction false} WalkImages(listing: seq<Entry>, way: string)
    ensures way in Walk(listing) <==> Reached(listing, way)
    decreases listing, 1
  {
    if listing != [] {
      var init, last := listing[..|listing| - 1], listing[|listing| - 1];
      WalkImages(init, way);
      EntryWalkImages(last, way);
      if Reached(listing, way) {
        var i :| 0 <= i < |listing| && ImageIn(listing[i], way);
        if i < |init| {
          assert ImageIn(init[i], way);
        }
      }
      if Reached(init, way) {
        var i :| 0 <= i < |init| && ImageIn(init[i], way);
        assert ImageIn(listing[i], way);
      }
    }
  }

  /** A directory named "." or ".." adds nothing, whatever it lists. */
  lemma DotEntriesSkipped(listing: seq<Entry>, name: string, way: string, inner: seq<Entry>)
    requires IsDotEntry(name)
    ensures Walk(listing + [Entry(name, way, Dir(inner))]) == Walk(listing)
  {
    assert (listing + [Entry(name, way, Dir(inner))])[..|listing|] == listing;
  }

  /** scanDirAndSubdir(dir, out): the paths already in out stay, as a prefix, and
      the walk of dir's listing follows them. */
  method ScanDirAndSubdir(listing: seq<Entry>, out0: seq<string>) returns (out: seq<string>)
    ensures out == out0 + Walk(listing)
    decreases listing
  {
    out := out0;
    var i := 0;
    while i < |listing|
      invariant 0 <= i <= |listing|
      invariant out == out0 + Walk(listing[..i])
    {
      var entry := listing[i];
      assert listing[..i + 1][..i] == listing[..i];
      match entry.node {
        case File(isImage) =>
          if isImage {
            out := out + [entry.way];
          }
        case Dir(children) =>
          if entry.name != "." && entry.name != ".." {
            out := ScanDirAndSubdir(children, out);
          }
      }
      i := i + 1;
    }
    assert listing[..i] == listing;
  }
}
