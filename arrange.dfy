/** The arrange loop and the count verdict (arrangephotos.php:178-209). Every
    photo found in the source tree is copied to destination/year/month/mtime.ext,
    renamed by get_newname when that path is taken; a failing mkdir ends the
    script. The destination is the set of paths that exist there: image files
    (what a later walk counts), other files and directories. The photo's
    modification time, and the year and month date() derives from it, are
    inputs, as are the outcomes of mkdir and copy. */
module Arrange {
  import opened Strings
  import opened Paths
  import opened NewName

  /** One entry of $allphotos: its path, whether getimagesize still succeeds on
      it, filemtime, and date("Y") and date("m") of that time. */
  datatype Photo = Photo(way: string, decodes: bool, mtime: nat, year: string, month: string)

  /** date() renders the year and the month as decimal digits. */
  predicate ValidPhoto(photo: Photo)
  {
    IsDigits(photo.year) && IsDigits(photo.month)
  }

  predicate AllValid(photos: seq<Photo>)
  {
    forall i :: 0 <= i < |photos| ==> ValidPhoto(photos[i])
  }

  datatype Disk = Disk(images: set<string>, otherFiles: set<string>, dirs: set<string>)

  /** What file_exists reports: any file or directory. */
  function Existing(disk: Disk): set<string>
  {
    disk.images + disk.otherFiles + disk.dirs
  }

  /** Which mkdir calls (by directory) and which copy calls (by source and
      target) fail. */
  datatype Env = Env(mkdirFails: set<string>, copyFails: set<(string, string)>)

  datatype Outcome = Copied(source: string, target: string) | NotCopied(source: string)

  /** The state of the run: the destination, the copies reported so far, and
      whether the script has died. */
  datatype Progress = Progress(disk: Disk, outcomes: seq<Outcome>, died: bool)

  /** The month directory a photo goes to (arrangephotos.php:184). */
  function Bucket(dest: string, year: string, month: string): string
  {
    dest + "/" + year + "/" + month
  }

  /** The first path tried for a photo (arrangephotos.php:189). */
  function Candidate(dest: string, photo: Photo): string
  {
    Bucket(dest, photo.year, photo.month) + "/" + ToDec(photo.mtime) + "." + Extension(photo.way)
  }

  /** The candidate decomposes into the month directory, the mtime and the
      photo's extension, so get_newname may be called on it. */
  lemma CandidateShape(dest: string, photo: Photo)
    requires ValidPhoto(photo)
    ensures var info := PathInfo(Bucket(dest, photo.year, photo.month), ToDec(photo.mtime), Extension(photo.way));
      && WellFormedInfo(info)
      && '_' !in ToDec(photo.mtime)
      && Candidate(dest, photo) == Render(info)
      && Renamable(Candidate(dest, photo))
      && GetPathInfo(Candidate(dest, photo)) == info
      && Parts(Candidate(dest, photo)) == NameParts(info.dirname, info.filename, 0, info.extension)
  {
    var bucket := Bucket(dest, photo.year, photo.month);
    var stem := ToDec(photo.mtime);
    var ext := Extension(photo.way);
    assert bucket[|bucket| - 1] == photo.month[|photo.month| - 1];
    NoSeparatorInDigits(stem, '/');
    NoSeparatorInDigits(stem, '_');
    FirstRetry(bucket, stem, ext);
    PathInfoOfRender(PathInfo(bucket, stem, ext));
  }

  /** Where a photo is copied when existing is what exists: the candidate when
      it is free, otherwise mtime_n.ext in the same directory for the first
      counter n from 1 up that is free. */
  lemma TargetShape(existing: set<string>, dest: string, photo: Photo) returns (n: nat)
    requires ValidPhoto(photo)
    ensures Renamable(Candidate(dest, photo))
    ensures var bucket, stem, ext := Bucket(dest, photo.year, photo.month), ToDec(photo.mtime), Extension(photo.way);
      var target := GetNewName(existing, Candidate(dest, photo));
      && target !in existing
      && (n == 0 <==> Candidate(dest, photo) !in existing)
      && target == (if n == 0 then Candidate(dest, photo) else Numbered(bucket, stem, n, ext))
      && forall m: nat :: 0 < m < n ==> Taken(existing, bucket, stem, m, ext)
  {
    CandidateShape(dest, photo);
    if Candidate(dest, photo) in existing {
      n := CounterScheme(existing, Candidate(dest, photo));
    } else {
      n := 0;
    }
  }

  /** One iteration of the foreach at arrangephotos.php:178-199. */
  function Step(p: Progress, photo: Photo, dest: string, env: Env): Progress
    requires ValidPhoto(photo)
  {
    if p.died || !photo.decodes then p
    else
      var bucket := Bucket(dest, photo.year, photo.month);
      if bucket !in p.disk.dirs && bucket in env.mkdirFails then p.(died := true)
      else
        var disk := if bucket in p.disk.dirs then p.disk
                    else p.disk.(dirs := p.disk.dirs + {dest + "/" + photo.year, bucket});
        CandidateShape(dest, photo);
        var target := GetNewName(Existing(disk), Candidate(dest, photo));
        if (photo.way, target) in env.copyFails
        then Progress(disk, p.outcomes + [NotCopied(photo.way)], false)
        else Progress(disk.(images := disk.images + {target}), p.outcomes + [Copied(photo.way, target)], false)
  }

  /** The state after the loop has run over the photos in order. */
  function RunAll(photos: seq<Photo>, dest: string, env: Env, start: Progress): Progress
    requires AllValid(photos)
  {
    if photos == [] then start
    else Step(RunAll(photos[..|photos| - 1], dest, env, start), photos[|photos| - 1], dest, env)
  }

  /** The run as the script performs it, with die as an early return. */
  method ArrangePhotos(photos: seq<Photo>, dest: string, env: Env, disk0: Disk)
    returns (disk: Disk, outcomes: seq<Outcome>, died: bool)
    requires AllValid(photos)
    ensures Progress(disk, outcomes, died) == RunAll(photos, dest, env, Progress(disk0, [], false))
  {
    ghost var start := Progress(disk0, [], false);
    disk, outcomes, died := disk0, [], false;
    var i := 0;
    while i < |photos|
      invariant 0 <= i <= |photos|
      invariant Progress(disk, outcomes, false) == RunAll(photos[..i], dest, env, start)
    {
      var photo := photos[i];
      assert photos[..i + 1][..i] == photos[..i];
      var ext := Extension(photo.way);
      if photo.decodes {
        var year, month := photo.year, photo.month;
        if dest + "/" + year + "/" + month !in disk.dirs {
          if dest + "/" + year + "/" + month in env.mkdirFails {
            died := true;
            DiedSticks(photos, i + 1, dest, env, start);
            break;
          }
          disk := disk.(dirs := disk.dirs + {dest + "/" + year, dest + "/" + year + "/" + month});
        }
        var newName := dest + "/" + year + "/" + month + "/" + ToDec(photo.mtime) + "." + ext;
        CandidateShape(dest, photo);
        newName := GetNewName(disk.images + disk.otherFiles + disk.dirs, newName);
        var copied := (photo.way, newName) !in env.copyFails;
        if !copied {
          outcomes := outcomes + [NotCopied(photo.way)];
        } else {
          disk := disk.(images := disk.images + {newName});
          outcomes := outcomes + [Copied(photo.way, newName)];
        }
      }
      i := i + 1;
    }
    if !died {
      assert photos[..i] == photos;
    }
  }

  /** Once the script has died, the remaining photos change nothing. */
  lemma {:induction false} DiedSticks(photos: seq<Photo>, k: nat, dest: string, env: Env, start: Progress)
    requires AllValid(photos) && k <= |photos|
    requires RunAll(photos[..k], dest, env, start).died
    ensures RunAll(photos, dest, env, start) == RunAll(photos[..k], dest, env, start)
    decreases |photos|
  {
    if k < |photos| {
      var init := photos[..|photos| - 1];
      assert init[..k] == photos[..k];
      DiedSticks(init, k, dest, env, start);
    } else {
      assert photos[..k] == photos;
    }
  }

  /** The targets of the successful copies. */
  function CopiedTargets(outcomes: seq<Outcome>): set<string>
  {
    if outcomes == [] then {}
    else
      var last := outcomes[|outcomes| - 1];
      CopiedTargets(outcomes[..|outcomes| - 1]) + (if last.Copied? then {last.target} else {})
  }

  /** The number of successful copies. */
  function CountCopied(outcomes: seq<Outcome>): (n: nat)
    ensures n <= |outcomes|
    ensures n == |outcomes| <==> forall i :: 0 <= i < |outcomes| ==> outcomes[i].Copied?
  {
    if outcomes == [] then 0
    else
      var last := outcomes[|outcomes| - 1];
      CountCopied(outcomes[..|outcomes| - 1]) + (if last.Copied? then 1 else 0)
  }

  /** The paths of the photos getimagesize accepts, in order. */
  function DecodingWays(photos: seq<Photo>): (ways: seq<string>)
    ensures |ways| <= |photos|
    ensures |ways| == |photos| <==> forall i :: 0 <= i < |photos| ==> photos[i].decodes
  {
    if photos == [] then []
    else
      var last := photos[|photos| - 1];
      DecodingWays(photos[..|photos| - 1]) + (if last.decodes then [last.way] else [])
  }

  /** The source of each reported copy. */
  function Sources(outcomes: seq<Outcome>): (s: seq<string>)
    ensures |s| == |outcomes|
  {
    if outcomes == [] then []
    else Sources(outcomes[..|outcomes| - 1]) + [outcomes[|outcomes| - 1].source]
  }

  /** The path lies in one of the directories dirs: its pathinfo dirname is one. */
  predicate InDirectory(path: string, dirs: set<string>)
  {
    HasPathInfo(path) && GetPathInfo(path).dirname in dirs
  }

  /** A path stays in a directory that exists when more directories come to exist. */
  lemma InDirectoryGrows(path: string, dirs: set<string>, more: set<string>)
    requires InDirectory(path, dirs) && dirs <= more
    ensures InDirectory(path, more)
  {
  }

  /** d is one of the directories mkdir creates for photo: its year directory
      or its month directory. */
  predicate MadeFor(dest: string, photo: Photo, d: string)
  {
    photo.decodes && (d == dest + "/" + photo.year || d == Bucket(dest, photo.year, photo.month))
  }

  /** One iteration, for a run that has not died, on images and the report:
      other files stay, directories are only added; a successful copy adds
      exactly its target, which did not exist before; a failed copy leaves the
      images as they are. */
  lemma StepImages(p: Progress, photo: Photo, dest: string, env: Env)
    requires ValidPhoto(photo) && !p.died
    ensures var q := Step(p, photo, dest, env);
      && q.disk.otherFiles == p.disk.otherFiles
      && p.disk.dirs <= q.disk.dirs
      && (q.died ==> q.outcomes == p.outcomes && q.disk == p.disk && photo.decodes)
      && (!q.died && !photo.decodes ==> q == p)
      && (!q.died && photo.decodes ==>
            && |q.outcomes| == |p.outcomes| + 1
            && q.outcomes[..|p.outcomes|] == p.outcomes
            && q.outcomes[|p.outcomes|].source == photo.way
            && var o := q.outcomes[|p.outcomes|];
               (o.Copied? ==> o.target !in Existing(p.disk) && q.disk.images == p.disk.images + {o.target})
               && (o.NotCopied? ==> q.disk.images == p.disk.images))
  {
    var q := Step(p, photo, dest, env);
    if !q.died && photo.decodes {
      assert q.outcomes[..|p.outcomes|] == p.outcomes;
    }
  }

  /** One iteration, for a run that has not died, on directories: only the
      photo's year and month directories are added; unless the step died, the
      month directory exists afterwards, and a successful copy's target lies in
      it. */
  lemma StepDirs(p: Progress, photo: Photo, dest: string, env: Env)
    requires ValidPhoto(photo) && !p.died
    ensures var q := Step(p, photo, dest, env);
      && q.disk.dirs <= p.disk.dirs + {dest + "/" + photo.year, Bucket(dest, photo.year, photo.month)}
      && (!q.died && photo.decodes ==>
            && Bucket(dest, photo.year, photo.month) in q.disk.dirs
            && |q.outcomes| == |p.outcomes| + 1
            && var o := q.outcomes[|p.outcomes|];
               o.Copied? ==> HasPathInfo(o.target) && GetPathInfo(o.target).dirname == Bucket(dest, photo.year, photo.month))
  {
    var q := Step(p, photo, dest, env);
    var bucket := Bucket(dest, photo.year, photo.month);
    if photo.decodes && !(bucket !in p.disk.dirs && bucket in env.mkdirFails) {
      var disk := if bucket in p.disk.dirs then p.disk
                  else p.disk.(dirs := p.disk.dirs + {dest + "/" + photo.year, bucket});
      assert bucket in disk.dirs && disk.dirs <= p.disk.dirs + {dest + "/" + photo.year, bucket};
      TargetInBucket(Existing(disk), dest, photo);
      var target := GetNewName(Existing(disk), Candidate(dest, photo));
      if (photo.way, target) in env.copyFails {
        assert q == Progress(disk, p.outcomes + [NotCopied(photo.way)], false);
      } else {
        assert q == Progress(disk.(images := disk.images + {target}), p.outcomes + [Copied(photo.way, target)], false);
      }
    }
  }

  /** One iteration, for a run that has not died: other files stay; directories
      are only added, and only the photo's year and month directories; unless
      the step died, the month directory exists afterwards; a successful copy
      adds exactly its target, which did not exist before and lies in the month
      directory; a failed copy leaves the images as they are. */
  lemma StepGrowth(p: Progress, photo: Photo, dest: string, env: Env)
    requires ValidPhoto(photo) && !p.died
    ensures var q := Step(p, photo, dest, env);
      && q.disk.otherFiles == p.disk.otherFiles
      && p.disk.dirs <= q.disk.dirs
      && q.disk.dirs <= p.disk.dirs + {dest + "/" + photo.year, Bucket(dest, photo.year, photo.month)}
      && (!q.died && photo.decodes ==> Bucket(dest, photo.year, photo.month) in q.disk.dirs)
      && (q.died ==> q.outcomes == p.outcomes && q.disk == p.disk && photo.decodes)
      && (!q.died && !photo.decodes ==> q == p)
      && (!q.died && photo.decodes ==>
            && |q.outcomes| == |p.outcomes| + 1
            && q.outcomes[..|p.outcomes|] == p.outcomes
            && q.outcomes[|p.outcomes|].source == photo.way
            && var o := q.outcomes[|p.outcomes|];
               (o.Copied? ==> o.target !in Existing(p.disk) && q.disk.images == p.disk.images + {o.target}
                              && HasPathInfo(o.target)
                              && GetPathInfo(o.target).dirname == Bucket(dest, photo.year, photo.month))
               && (o.NotCopied? ==> q.disk.images == p.disk.images))
  {
    StepImages(p, photo, dest, env);
    StepDirs(p, photo, dest, env);
  }

  /** Whatever exists, the copy target lies in the photo's month directory. */
  lemma TargetInBucket(existing: set<string>, dest: string, photo: Photo)
    requires ValidPhoto(photo)
    ensures Renamable(Candidate(dest, photo))
    ensures var target := GetNewName(existing, Candidate(dest, photo));
      HasPathInfo(target) && GetPathInfo(target).dirname == Bucket(dest, photo.year, photo.month)
  {
    CandidateShape(dest, photo);
  }

  /** The images after the run are those before plus the copy targets; other
      files stay; directories are only added. */
  lemma {:induction false} RunImages(photos: seq<Photo>, dest: string, env: Env, disk0: Disk)
    requires AllValid(photos)
    ensures var q := RunAll(photos, dest, env, Progress(disk0, [], false));
      && q.disk.images == disk0.images + CopiedTargets(q.outcomes)
      && q.disk.otherFiles == disk0.otherFiles
      && disk0.dirs <= q.disk.dirs
  {
    if photos != [] {
      var start := Progress(disk0, [], false);
      var init, photo := photos[..|photos| - 1], photos[|photos| - 1];
      var p := RunAll(init, dest, env, start);
      var q := RunAll(photos, dest, env, start);
      RunImages(init, dest, env, disk0);
      if !p.died {
        StepImages(p, photo, dest, env);
        if !q.died && photo.decodes {
          assert q.outcomes == p.outcomes + [q.outcomes[|p.outcomes|]];
        }
      }
    }
  }

  /** Each directory the run adds is the year or month directory of a photo
      that decoded. */
  lemma {:induction false} RunDirs(photos: seq<Photo>, dest: string, env: Env, disk0: Disk)
    requires AllValid(photos)
    ensures var q := RunAll(photos, dest, env, Progress(disk0, [], false));
      forall d :: d in q.disk.dirs && d !in disk0.dirs ==>
        exists i :: 0 <= i < |photos| && MadeFor(dest, photos[i], d)
  {
    if photos != [] {
      var start := Progress(disk0, [], false);
      var init, photo := photos[..|photos| - 1], photos[|photos| - 1];
      var p := RunAll(init, dest, env, start);
      var q := RunAll(photos, dest, env, start);
      RunDirs(init, dest, env, disk0);
      forall d | d in p.disk.dirs && d !in disk0.dirs
        ensures exists i :: 0 <= i < |photos| && MadeFor(dest, photos[i], d)
      {
        var i :| 0 <= i < |init| && MadeFor(dest, init[i], d);
        assert photos[i] == init[i];
      }
      if !p.died {
        StepGrowth(p, photo, dest, env);
        forall d | d in q.disk.dirs && d !in p.disk.dirs
          ensures exists i :: 0 <= i < |photos| && MadeFor(dest, photos[i], d)
        {
          assert q.disk != p.disk && photo.decodes;
          assert MadeFor(dest, photos[|photos| - 1], d);
        }
      }
    }
  }

  /** Every copy reported so far went into a directory that exists. */
  predicate Placed(q: Progress)
  {
    forall j :: 0 <= j < |q.outcomes| && q.outcomes[j].Copied? ==> InDirectory(q.outcomes[j].target, q.disk.dirs)
  }

  /** Every copy target lies in a directory that exists at the end of the run:
      the month directory was there, or was made, before the copy. */
  lemma {:induction false} RunPlaced(photos: seq<Photo>, dest: string, env: Env, disk0: Disk)
    requires AllValid(photos)
    ensures Placed(RunAll(photos, dest, env, Progress(disk0, [], false)))
  {
    if photos != [] {
      var init, photo := photos[..|photos| - 1], photos[|photos| - 1];
      var p := RunAll(init, dest, env, Progress(disk0, [], false));
      var q := RunAll(photos, dest, env, Progress(disk0, [], false));
      RunPlaced(init, dest, env, disk0);
      if !p.died {
        StepGrowth(p, photo, dest, env);
        if !q.died && photo.decodes {
          var k := |p.outcomes|;
          assert q.outcomes == p.outcomes + [q.outcomes[k]];
          forall j | 0 <= j < |q.outcomes| && q.outcomes[j].Copied?
            ensures InDirectory(q.outcomes[j].target, q.disk.dirs)
          {
            if j < k {
              assert q.outcomes[j] == p.outcomes[j];
              InDirectoryGrows(q.outcomes[j].target, p.disk.dirs, q.disk.dirs);
            } else {
              assert Bucket(dest, photo.year, photo.month) in q.disk.dirs;
            }
          }
        }
      }
    }
  }

  /** The destination only grows, by the copies: the images after the run are
      those before plus the copy targets; other files stay; directories are
      only added, each the year or month directory of a photo that decoded;
      every copy target lies in a directory that exists. */
  lemma RunGrowth(photos: seq<Photo>, dest: string, env: Env, disk0: Disk)
    requires AllValid(photos)
    ensures var q := RunAll(photos, dest, env, Progress(disk0, [], false));
      && q.disk.images == disk0.images + CopiedTargets(q.outcomes)
      && q.disk.otherFiles == disk0.otherFiles
      && disk0.dirs <= q.disk.dirs
      && (forall d :: d in q.disk.dirs && d !in disk0.dirs ==>
            exists i :: 0 <= i < |photos| && MadeFor(dest, photos[i], d))
      && Placed(q)
  {
    RunImages(photos, dest, env, disk0);
    RunDirs(photos, dest, env, disk0);
    RunPlaced(photos, dest, env, disk0);
  }

  /** Each copy target is fresh when it is chosen: it is neither a path that
      existed before the run nor the target of an earlier copy. */
  lemma {:induction false} RunFresh(photos: seq<Photo>, dest: string, env: Env, disk0: Disk)
    requires AllValid(photos)
    ensures var q := RunAll(photos, dest, env, Progress(disk0, [], false));
      forall j :: 0 <= j < |q.outcomes| && q.outcomes[j].Copied? ==>
        q.outcomes[j].target !in Existing(disk0) + CopiedTargets(q.outcomes[..j])
  {
    if photos != [] {
      var start := Progress(disk0, [], false);
      var init, photo := photos[..|photos| - 1], photos[|photos| - 1];
      var p := RunAll(init, dest, env, start);
      var q := RunAll(photos, dest, env, start);
      RunFresh(init, dest, env, disk0);
      if !p.died {
        RunImages(init, dest, env, disk0);
        StepImages(p, photo, dest, env);
        if !q.died && photo.decodes {
          var k := |p.outcomes|;
          forall j | 0 <= j < |q.outcomes| && q.outcomes[j].Copied?
            ensures q.outcomes[j].target !in Existing(disk0) + CopiedTargets(q.outcomes[..j])
          {
            if j < k {
              assert q.outcomes[j] == p.outcomes[j];
              assert q.outcomes[..j] == p.outcomes[..j];
            } else {
              assert Existing(disk0) + CopiedTargets(p.outcomes) <= Existing(p.disk);
            }
          }
        }
      }
    }
  }

  /** The image count rises by exactly the number of successful copies. */
  lemma {:induction false} RunCount(photos: seq<Photo>, dest: string, env: Env, disk0: Disk)
    requires AllValid(photos)
    ensures var q := RunAll(photos, dest, env, Progress(disk0, [], false));
      |q.disk.images| == |disk0.images| + CountCopied(q.outcomes)
  {
    if photos != [] {
      var start := Progress(disk0, [], false);
      var init, photo := photos[..|photos| - 1], photos[|photos| - 1];
      var p := RunAll(init, dest, env, start);
      var q := RunAll(photos, dest, env, start);
      RunCount(init, dest, env, disk0);
      if !p.died {
        StepImages(p, photo, dest, env);
        if !q.died && photo.decodes {
          assert q.outcomes == p.outcomes + [q.outcomes[|p.outcomes|]];
        }
      }
    }
  }

  /** Nothing that existed before the run is overwritten, and no two copies
      share a target. */
  lemma RunTargets(photos: seq<Photo>, dest: string, env: Env, disk0: Disk)
    requires AllValid(photos)
    ensures var q := RunAll(photos, dest, env, Progress(disk0, [], false));
      && (forall i :: 0 <= i < |q.outcomes| && q.outcomes[i].Copied? ==> q.outcomes[i].target !in Existing(disk0))
      && (forall i, j :: 0 <= i < j < |q.outcomes| && q.outcomes[i].Copied? && q.outcomes[j].Copied? ==>
            q.outcomes[i].target != q.outcomes[j].target)
  {
    var outcomes := RunAll(photos, dest, env, Progress(disk0, [], false)).outcomes;
    RunFresh(photos, dest, env, disk0);
    assert var q := RunAll(photos, dest, env, Progress(disk0, [], false));
      forall j :: 0 <= j < |q.outcomes| && q.outcomes[j].Copied? ==>
        q.outcomes[j].target !in Existing(disk0) + CopiedTargets(q.outcomes[..j]);
    forall i, j | 0 <= i < j < |outcomes| && outcomes[i].Copied? && outcomes[j].Copied?
      ensures outcomes[i].target != outcomes[j].target
    {
      assert outcomes[j].target !in Existing(disk0) + CopiedTargets(outcomes[..j]);
      TargetsExist(outcomes[..j]);
      assert outcomes[..j][i] == outcomes[i];
    }
  }

  /** Unless the script died, every photo that decodes is reported exactly
      once, in order. */
  lemma {:induction false} RunSources(photos: seq<Photo>, dest: string, env: Env, disk0: Disk)
    requires AllValid(photos)
    ensures var q := RunAll(photos, dest, env, Progress(disk0, [], false));
      !q.died ==> Sources(q.outcomes) == DecodingWays(photos)
  {
    if photos != [] {
      var start := Progress(disk0, [], false);
      var init, photo := photos[..|photos| - 1], photos[|photos| - 1];
      var p := RunAll(init, dest, env, start);
      var q := RunAll(photos, dest, env, start);
      if !q.died {
        assert !p.died;
        RunSources(init, dest, env, disk0);
        StepImages(p, photo, dest, env);
        if photo.decodes {
          var k := |p.outcomes|;
          assert q.outcomes == p.outcomes + [q.outcomes[k]];
        }
      }
    }
  }

  /** Every copy target is among the images the targets were added to. */
  lemma {:induction false} TargetsExist(outcomes: seq<Outcome>)
    ensures forall i :: 0 <= i < |outcomes| && outcomes[i].Copied? ==>
      outcomes[i].target in CopiedTargets(outcomes)
  {
    if outcomes != [] {
      var init := outcomes[..|outcomes| - 1];
      TargetsExist(init);
      forall i | 0 <= i < |outcomes| - 1 && outcomes[i].Copied?
        ensures outcomes[i].target in CopiedTargets(outcomes)
      {
        assert outcomes[i] == init[i];
      }
    }
  }

  /** What the script prints at the end: nothing, when it died, or whether the
      destination count is the source count plus the earlier destination count
      (arrangephotos.php:205). */
  datatype Report = Died | Counted(allCopied: bool)

  function Verdict(photos: seq<Photo>, dest: string, env: Env, disk0: Disk): Report
    requires AllValid(photos)
  {
    var q := RunAll(photos, dest, env, Progress(disk0, [], false));
    if q.died then Died
    else Counted(|q.disk.images| == |photos| + |disk0.images|)
  }

  /** The verdict reports success exactly when the script did not die, every
      photo still decoded, and every copy succeeded. */
  lemma VerdictMeaning(photos: seq<Photo>, dest: string, env: Env, disk0: Disk)
    requires AllValid(photos)
    ensures var q := RunAll(photos, dest, env, Progress(disk0, [], false));
      Verdict(photos, dest, env, disk0) == Counted(true) <==>
        && !q.died
        && (forall i :: 0 <= i < |photos| ==> photos[i].decodes)
        && (forall i :: 0 <= i < |q.outcomes| ==> q.outcomes[i].Copied?)
  {
    var q := RunAll(photos, dest, env, Progress(disk0, [], false));
    RunCount(photos, dest, env, disk0);
    RunSources(photos, dest, env, disk0);
    if !q.died {
      assert |q.outcomes| == |Sources(q.outcomes)| == |DecodingWays(photos)|;
    }
  }
}
