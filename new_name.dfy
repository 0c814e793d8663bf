/** get_newname (arrangephotos.php:83-98): the collision-safe renamer. The
    file_exists() query is membership in the finite set `existing` of paths that
    are already taken. */
module NewName {
  import opened Strings
  import opened Paths

  /** A path get_newname can rename: pathinfo() gives it a dirname and an
      extension, and when its filename holds a '_' the segment after the first
      '_' (up to the next one) is a decimal number. */
  predicate Renamable(path: string)
  {
    && HasPathInfo(path)
    && var f := GetPathInfo(path).filename;
       '_' in f ==> IsDigits(Explode('_', f)[1])
  }

  /** What get_newname reads off a taken path: its dirname, the filename up to
      the first '_' (all of it when there is none), the number after that '_'
      (0 when there is none) and its extension. */
  datatype NameParts = NameParts(dirname: string, base: string, counter: nat, extension: string)

  /** The parts of a renamable path (arrangephotos.php:85-88). The base is again
      a filename pathinfo() accepts, and it holds no '_'. */
  function Parts(path: string): (p: NameParts)
    requires Renamable(path)
    ensures WellFormedInfo(PathInfo(p.dirname, p.base, p.extension))
    ensures '_' !in p.base
    ensures p.dirname == GetPathInfo(path).dirname && p.extension == GetPathInfo(path).extension
  {
    var info := GetPathInfo(path);
    if '_' in info.filename then
      var fileparts := Explode('_', info.filename);
      NotInSlice(info.filename, '/', 0, IndexOf(info.filename, '_'));
      NameParts(info.dirname, fileparts[0], ParseDigits(fileparts[1]), info.extension)
    else
      NameParts(info.dirname, info.filename, 0, info.extension)
  }

  /** The base is the whole filename when it holds no '_', and otherwise the
      filename's text before its first '_'; a filename without '_' has counter 0. */
  lemma PartsOfFilename(path: string)
    requires Renamable(path)
    ensures var f, p := GetPathInfo(path).filename, Parts(path);
      && ('_' !in f ==> p.base == f && p.counter == 0)
      && ('_' in f ==> |p.base| < |f| && f[..|p.base|] == p.base && f[|p.base|] == '_')
  {
    var f := GetPathInfo(path).filename;
    if '_' in f {
      var i := IndexOf(f, '_');
      assert Parts(path).base == f[..i];
    }
  }

  /** The path dir/base_n.ext, concatenated as arrangephotos.php:89 and :93 do. */
  function Numbered(dir: string, base: string, n: nat, ext: string): string
  {
    dir + "/" + base + "_" + ToDec(n) + "." + ext
  }

  /** The candidate tried after a taken path (arrangephotos.php:86-94): a
      filename A_n... becomes A_(n+1), anything after a second '_' dropped; a
      filename without '_' gets "_1" appended (its counter reads as 0).
      Dirname and extension are kept. */
  function NextName(path: string): string
    requires Renamable(path)
  {
    var p := Parts(path);
    Numbered(p.dirname, p.base, p.counter + 1, p.extension)
  }

  /** Only unfolds the definition of NextName, as a step for the proofs below. */
  lemma NextOfParts(path: string)
    requires Renamable(path)
    ensures NextName(path) == Numbered(Parts(path).dirname, Parts(path).base, Parts(path).counter + 1, Parts(path).extension)
  {
  }

  /** A numbered path is renamable and reads back the dirname, base, counter and
      extension it was built from. */
  lemma NumberedParts(dir: string, base: string, n: nat, ext: string)
    requires WellFormedInfo(PathInfo(dir, base, ext))
    requires '_' !in base
    ensures Renamable(Numbered(dir, base, n, ext))
    ensures GetPathInfo(Numbered(dir, base, n, ext)) == PathInfo(dir, base + "_" + ToDec(n), ext)
    ensures Parts(Numbered(dir, base, n, ext)) == NameParts(dir, base, n, ext)
  {
    var digits := ToDec(n);
    var f := base + "_" + digits;
    assert f == base + ['_'] + digits;
    assert Numbered(dir, base, n, ext) == Render(PathInfo(dir, f, ext));
    NoSeparatorInDigits(digits, '/');
    NoSeparatorInDigits(digits, '_');
    PathInfoOfRender(PathInfo(dir, f, ext));
    ExplodeJoin('_', base, digits);
    assert Explode('_', f) == [base, digits];
    ParseToDec(n);
  }

  /** The longest path in a finite set bounds the length of every member. */
  ghost function MaxLen(s: set<string>): (m: nat)
    ensures forall p :: p in s ==> |p| <= m
  {
    if s == {} then 0
    else
      var p :| p in s;
      var rest := MaxLen(s - {p});
      if |p| > rest then |p| else rest
  }

  /** A taken path's counter is below 10^(longest taken path). */
  lemma CounterBelowBound(existing: set<string>, path: string)
    requires path in existing && Renamable(path)
    ensures Parts(path).counter < Pow10(MaxLen(existing))
  {
    var f := GetPathInfo(path).filename;
    if '_' in f {
      var seg := Explode('_', f)[1];
      ParseBelowPow10(seg);
      assert |f| <= |path|;
      Pow10Monotone(|seg|, MaxLen(existing));
    }
  }

  /** Termination measure of the renaming chain: the counter grows and stays
      below a bound fixed by the longest taken path. */
  ghost function Measure(existing: set<string>, path: string): nat
  {
    var bound := Pow10(MaxLen(existing));
    if Renamable(path) && Parts(path).counter < bound then bound - Parts(path).counter else 0
  }

  /** One renaming step: the next candidate keeps dirname, base and extension,
      has the counter one higher and a smaller measure. */
  lemma RenameStep(existing: set<string>, path: string)
    requires path in existing && Renamable(path)
    ensures var p := Parts(path);
      && Renamable(NextName(path))
      && Parts(NextName(path)) == p.(counter := p.counter + 1)
      && GetPathInfo(NextName(path)).dirname == p.dirname
      && GetPathInfo(NextName(path)).extension == p.extension
      && Measure(existing, NextName(path)) < Measure(existing, path)
  {
    var p := Parts(path);
    NumberedParts(p.dirname, p.base, p.counter + 1, p.extension);
    CounterBelowBound(existing, path);
  }

  /** get_newname(path): path itself if it is free, otherwise the first free
      path along the renaming chain. The answer is never taken and keeps the
      candidate's dirname and extension. */
  function GetNewName(existing: set<string>, path: string): (r: string)
    requires path in existing ==> Renamable(path)
    ensures r !in existing
    ensures path !in existing ==> r == path
    ensures path in existing ==>
      && HasPathInfo(r)
      && GetPathInfo(r).dirname == GetPathInfo(path).dirname
      && GetPathInfo(r).extension == GetPathInfo(path).extension
    decreases Measure(existing, path)
  {
    if path !in existing then path
    else
      RenameStep(existing, path);
      GetNewName(existing, NextName(path))
  }

  /** A taken dir/base_c.ext resolves as dir/base_(c+1).ext does, which is
      closer to the end of the chain. */
  lemma ChainStep(existing: set<string>, d: string, b: string, c: nat, e: string)
    requires WellFormedInfo(PathInfo(d, b, e)) && '_' !in b
    requires Numbered(d, b, c, e) in existing
    ensures Renamable(Numbered(d, b, c, e)) && Renamable(Numbered(d, b, c + 1, e))
    ensures GetNewName(existing, Numbered(d, b, c, e)) == GetNewName(existing, Numbered(d, b, c + 1, e))
  {
    var path := Numbered(d, b, c, e);
    NumberedParts(d, b, c, e);
    NumberedParts(d, b, c + 1, e);
    RenameStep(existing, path);
    assert NextName(path) == Numbered(d, b, c + 1, e);
  }

  /** A taken dir/base_c.ext has its counter below the bound of the chain. */
  lemma TakenBelowBound(existing: set<string>, d: string, b: string, c: nat, e: string)
    requires WellFormedInfo(PathInfo(d, b, e)) && '_' !in b
    requires Numbered(d, b, c, e) in existing
    ensures c < Pow10(MaxLen(existing))
  {
    NumberedParts(d, b, c, e);
    CounterBelowBound(existing, Numbered(d, b, c, e));
  }

  /** dir/base_m.ext exists. */
  predicate Taken(existing: set<string>, d: string, b: string, m: nat, e: string)
  {
    Numbered(d, b, m, e) in existing
  }

  /** The first counter from c on whose dir/base_counter.ext is free. */
  ghost function ChainEnd(existing: set<string>, d: string, b: string, c: nat, e: string): nat
    requires WellFormedInfo(PathInfo(d, b, e)) && '_' !in b
    decreases Pow10(MaxLen(existing)) - c
  {
    if Numbered(d, b, c, e) !in existing then c
    else
      TakenBelowBound(existing, d, b, c, e);
      ChainEnd(existing, d, b, c + 1, e)
  }

  /** get_newname of dir/base_c.ext is dir/base_n.ext for the first free n from c on. */
  lemma {:induction false} ChainResolves(existing: set<string>, d: string, b: string, c: nat, e: string)
    requires WellFormedInfo(PathInfo(d, b, e)) && '_' !in b
    ensures Renamable(Numbered(d, b, c, e))
    ensures GetNewName(existing, Numbered(d, b, c, e)) == Numbered(d, b, ChainEnd(existing, d, b, c, e), e)
    decreases Pow10(MaxLen(existing)) - c
  {
    NumberedParts(d, b, c, e);
    if Numbered(d, b, c, e) in existing {
      ChainStep(existing, d, b, c, e);
      TakenBelowBound(existing, d, b, c, e);
      ChainResolves(existing, d, b, c + 1, e);
    }
  }

  /** Every counter from c up to the first free one is taken. */
  lemma {:induction false} ChainTaken(existing: set<string>, d: string, b: string, c: nat, e: string)
    requires WellFormedInfo(PathInfo(d, b, e)) && '_' !in b
    ensures c <= ChainEnd(existing, d, b, c, e)
    ensures forall m: nat :: c <= m < ChainEnd(existing, d, b, c, e) ==> Taken(existing, d, b, m, e)
    decreases Pow10(MaxLen(existing)) - c
  {
    if Taken(existing, d, b, c, e) {
      TakenBelowBound(existing, d, b, c, e);
      ChainTaken(existing, d, b, c + 1, e);
      var n := ChainEnd(existing, d, b, c + 1, e);
      assert ChainEnd(existing, d, b, c, e) == n;
      forall m: nat | c <= m < n
        ensures Taken(existing, d, b, m, e)
      {
        if m > c {
          assert c + 1 <= m < n;
        }
      }
    }
  }

  /** The counter scheme: a taken path resolves to dir/base_n.ext with n above
      its own counter, and every dir/base_m.ext with a counter in between is
      taken, so the answer is the first free one. */
  lemma CounterScheme(existing: set<string>, path: string) returns (n: nat)
    requires path in existing && Renamable(path)
    ensures var p := Parts(path);
      && n > p.counter
      && GetNewName(existing, path) == Numbered(p.dirname, p.base, n, p.extension)
      && forall m: nat :: p.counter < m < n ==> Taken(existing, p.dirname, p.base, m, p.extension)
  {
    var p := Parts(path);
    RenameStep(existing, path);
    NumberedParts(p.dirname, p.base, p.counter + 1, p.extension);
    assert NextName(path) == Numbered(p.dirname, p.base, p.counter + 1, p.extension);
    n := ChainEnd(existing, p.dirname, p.base, p.counter + 1, p.extension);
    ChainResolves(existing, p.dirname, p.base, p.counter + 1, p.extension);
    ChainTaken(existing, p.dirname, p.base, p.counter + 1, p.extension);
  }

  /** An un-numbered path is renamable and is first retried as dir/stem_1.ext. */
  lemma FirstRetry(dir: string, stem: string, ext: string)
    requires WellFormedInfo(PathInfo(dir, stem, ext)) && '_' !in stem
    ensures Renamable(Render(PathInfo(dir, stem, ext)))
    ensures Parts(Render(PathInfo(dir, stem, ext))) == NameParts(dir, stem, 0, ext)
    ensures NextName(Render(PathInfo(dir, stem, ext))) == Numbered(dir, stem, 1, ext)
  {
    var path := Render(PathInfo(dir, stem, ext));
    PathInfoOfRender(PathInfo(dir, stem, ext));
    assert Parts(path) == NameParts(dir, stem, 0, ext);
  }

  /** A numbered path is retried with the next counter. */
  lemma NextRetry(dir: string, stem: string, ext: string, n: nat)
    requires WellFormedInfo(PathInfo(dir, stem, ext)) && '_' !in stem
    ensures Renamable(Numbered(dir, stem, n, ext))
    ensures NextName(Numbered(dir, stem, n, ext)) == Numbered(dir, stem, n + 1, ext)
  {
    NumberedParts(dir, stem, n, ext);
  }

  /** A filename stem_digits, possibly followed by a second '_' and more, reads
      as base stem with the counter digits stands for (leading zeros allowed);
      whatever follows the second '_' is ignored. */
  lemma CounterOfFilename(dir: string, filename: string, ext: string, stem: string, digits: string, tail: string)
    requires filename == stem + "_" + (digits + tail)
    requires WellFormedInfo(PathInfo(dir, filename, ext))
    requires '_' !in stem && IsDigits(digits)
    requires tail == "" || tail[0] == '_'
    ensures Renamable(Render(PathInfo(dir, filename, ext)))
    ensures Parts(Render(PathInfo(dir, filename, ext))) == NameParts(dir, stem, ParseDigits(digits), ext)
  {
    ExplodeCounter(stem, digits, tail);
    PathInfoOfRender(PathInfo(dir, filename, ext));
  }

  /** Such a path is retried as dir/stem_(digits + 1).ext: the counter goes up
      by one and anything after a second '_' is dropped. */
  lemma RetryNextCounter(dir: string, filename: string, ext: string, stem: string, digits: string, tail: string)
    requires filename == stem + "_" + (digits + tail)
    requires WellFormedInfo(PathInfo(dir, filename, ext))
    requires '_' !in stem && IsDigits(digits)
    requires tail == "" || tail[0] == '_'
    ensures Renamable(Render(PathInfo(dir, filename, ext)))
    ensures NextName(Render(PathInfo(dir, filename, ext))) == Numbered(dir, stem, ParseDigits(digits) + 1, ext)
  {
    var path := Render(PathInfo(dir, filename, ext));
    CounterOfFilename(dir, filename, ext, stem, digits, tail);
    NextOfParts(path);
    var p := Parts(path);
    assert p.dirname == dir;
    assert p.base == stem;
    assert p.counter + 1 == ParseDigits(digits) + 1;
    assert p.extension == ext;
  }

  /** With dir/stem.ext and dir/stem_1.ext taken and dir/stem_2.ext free (say
      100.jpg and 100_1.jpg taken, 100_2.jpg free), dir/stem.ext resolves to
      dir/stem_2.ext; with dir/stem_1.ext free, to dir/stem_1.ext. */
  lemma CollisionExample(existing: set<string>, dir: string, stem: string, ext: string)
    requires WellFormedInfo(PathInfo(dir, stem, ext)) && '_' !in stem
    requires Render(PathInfo(dir, stem, ext)) in existing
    requires Numbered(dir, stem, 2, ext) !in existing
    ensures Renamable(Render(PathInfo(dir, stem, ext)))
    ensures GetNewName(existing, Render(PathInfo(dir, stem, ext))) ==
      if Numbered(dir, stem, 1, ext) in existing then Numbered(dir, stem, 2, ext)
      else Numbered(dir, stem, 1, ext)
  {
    var path := Render(PathInfo(dir, stem, ext));
    var first, second := Numbered(dir, stem, 1, ext), Numbered(dir, stem, 2, ext);
    FirstRetry(dir, stem, ext);
    NextRetry(dir, stem, ext, 1);
    assert GetNewName(existing, path) == GetNewName(existing, first);
    if first in existing {
      assert GetNewName(existing, first) == GetNewName(existing, second);
    }
  }
}
