# arrangephotos in Dafny

`arrangephotos.php` is a command-line script. It copies every image under a
source directory into `destination/YEAR/MONTH/MTIME.EXT` and renames on
collision (`MTIME_1.EXT`, `MTIME_2.EXT`, …). At the end it reports whether the
destination's image count rose by the number of photos found. This project
models the script's four pieces of logic and proves what each one promises:

- **`cli_get_params`**, the option parser, is modelled in module `CliParams`.
  - `CliGetParams` is a method with the source's loops.
  - It is proved equal to the specification function `Params`.
  - Lemmas then state what `Params` means: cutting at `--`, dropping the
    script name, splitting at `=`, flags, long and short options, the order of
    unrecognised arguments, last-one-wins, and defaults.
- **`get_newname`**, the collision-safe renamer, is the function
  `NewName.GetNewName`.
  - Its arguments are the set of existing paths and the candidate.
  - `file_exists` is membership in that set.
  - `pathinfo` is modelled in module `Paths`.
  - `explode`/`implode`, and decimal rendering and reading, are in module
    `Strings`.
  - Proved:
    - the result is fresh;
    - a free candidate comes back unchanged;
    - dirname and extension are preserved;
    - the `_n` counter scheme, with every skipped counter taken;
    - termination: the counter rises and is bounded by 10^(length of the
      longest existing path).
- **`scanDirAndSubdir`** is the method `Walker.ScanDirAndSubdir` over a finite
  tree of directory listings.
  - It is proved to append the walk `Walk` after the accumulator's contents.
  - `WalkImages` proves the walk yields exactly the image files reachable
    without entering `.` or `..`.
- **The arrange loop and count verdict** are the method
  `Arrange.ArrangePhotos`, proved equal to the step function `RunAll`. Proved
  properties:
  - the candidate path;
  - where a photo lands;
  - additive growth of the destination: fresh, distinct targets, with other
    files untouched;
  - the exact image count;
  - `die` stops everything;
  - the verdict holds exactly when nothing died, every photo decoded, and every
    copy succeeded.

The file system is abstract:
- A directory tree is a datatype of listings.
- The destination is a `Disk` of image paths, other file paths and directory
  paths.
- The results of `getimagesize`, `filemtime`, `date`, `mkdir` and `copy` are
  inputs. `Photo` carries the first three; `Env` says which `mkdir` and `copy`
  calls fail.

## Model

| member | source | states |
|---|---|---|
| `Strings.Explode` | arrangephotos.php:38 | explode yields at least one piece; exactly one iff the separator is absent; no piece holds the separator; the first piece is what precedes the first separator |
| `Strings.Implode` | arrangephotos.php:44 | implode joins the pieces with the separator between neighbours; `ImplodeExplode` makes it the inverse of explode, and `ImplodeTail` shows that the pieces after the first separator join back to everything after it |
| `Strings.ExplodeCounter` | arrangephotos.php:87-88 | explode('_') of stem_digits followed by nothing or by a second '_' and more has stem as its first piece and digits as its second |
| `Strings.ImplodeExplode` | arrangephotos.php:43-44 | imploding the pieces of explode with the same separator gives the string back |
| `Strings.ToDec` | arrangephotos.php:89 | an integer's decimal rendering is a non-empty digit string |
| `Strings.ToDecNoLeadingZero` | arrangephotos.php:89 | the rendering starts with '0' exactly when the number is 0, so it has no leading zeros |
| `Strings.ParseDigits` | arrangephotos.php:88 | PHP's numeric reading of the digit segment after '_'; `ParseToDec` makes it the inverse of the decimal rendering, and `ExplodeCounter` and `CounterOfFilename` show it is the counter read off a filename |
| `Strings.ParseToDec` | arrangephotos.php:88-89 | reading back the decimal rendering of n gives n |
| `Paths.GetPathInfo` | arrangephotos.php:85 | pathinfo splits the path into dirname, filename and extension that reassemble to the path, with no '/' in filename or extension and no '.' in the extension |
| `Paths.PathInfoOfRender` | arrangephotos.php:85 | pathinfo of dirname/filename.extension gives that decomposition back |
| `Paths.Extension` | arrangephotos.php:179 | PATHINFO_EXTENSION holds neither '/' nor '.'; it is empty when the basename has no '.', and otherwise the basename ends with '.' followed by it, so it is the text after the basename's last '.'; on every path pathinfo decomposes it equals `pathinfo()['extension']`, the extension get_newname keeps (:89, :93) |
| `NewName.Parts` | arrangephotos.php:85-88 | the pieces get_newname renames from: the dirname and extension are those of pathinfo; the base holds no '_' and forms, with them, a decomposition pathinfo accepts |
| `NewName.PartsOfFilename` | arrangephotos.php:86-88 | the base is the whole filename with counter 0 when it holds no '_', and otherwise the filename's text before its first '_' |
| `NewName.Numbered` | arrangephotos.php:89-93 | dir/base_n.ext as both branches concatenate it; `NumberedParts` shows that pathinfo and the parts read back dir, base, n and ext |
| `NewName.NextName` | arrangephotos.php:86-94 | the path retried after a taken one; `RenameStep`, `FirstRetry`, `NextRetry` and `RetryNextCounter` show that it keeps dirname, base and extension and raises the counter by one |
| `NewName.NumberedParts` | arrangephotos.php:89 | dir/base_n.ext is renamable and decomposes into dir, base, counter n and ext |
| `NewName.CounterOfFilename` | arrangephotos.php:86-88 | a filename stem_digits, with or without a second '_' and more after it, reads as base stem and counter digits, leading zeros allowed |
| `NewName.RetryNextCounter` | arrangephotos.php:86-90 | such a path is retried as dir/stem_(digits+1).ext: anything after a second '_' is dropped |
| `NewName.RenameStep` | arrangephotos.php:86-94 | one retry keeps dirname, base and extension, raises the counter by one and lowers the termination measure |
| `NewName.GetNewName` | arrangephotos.php:83-98 | the result never exists; a free candidate is returned unchanged; a taken candidate yields a path with the same dirname and extension |
| `NewName.ChainStep` | arrangephotos.php:86-94 | a taken dir/base_c.ext resolves to the same path as dir/base_(c+1).ext |
| `NewName.TakenBelowBound` | arrangephotos.php:84-90 | the counter of a taken dir/base_c.ext is below 10 to the length of the longest taken path, so the retries end |
| `NewName.ChainResolves` | arrangephotos.php:84-97 | get_newname of dir/base_c.ext is dir/base_n.ext, n being the first free counter from c on |
| `NewName.ChainTaken` | arrangephotos.php:86-94 | that first free counter is at least c, and every counter from c up to it is taken |
| `NewName.CounterScheme` | arrangephotos.php:86-94 | a taken path resolves to dir/base_n.ext with n above its counter and every counter in between taken; anything after a second '_' is dropped |
| `NewName.FirstRetry` | arrangephotos.php:91-94 | a filename without '_' is retried as filename_1 |
| `NewName.NextRetry` | arrangephotos.php:86-90 | base_n is retried as base_(n+1) |
| `NewName.CollisionExample` | arrangephotos.php:84-97 | with stem.ext and stem_1.ext taken the result is stem_2.ext; with only stem.ext taken, stem_1.ext |
| `CliParams.BeforeDoubleDash` | arrangephotos.php:29-31 | the arguments kept are the prefix of argv before its first "--" |
| `CliParams.Tokens` | arrangephotos.php:29-34 | the arguments parsed are argv[1..] up to the first "--", none of them "--" |
| `CliParams.SplitOption` | arrangephotos.php:38-45 | an option body split at its first '='; `SplitOptionExplode` proves it equal to the source's explode, array_shift and implode |
| `CliParams.SplitOptionJoin` | arrangephotos.php:38-45 | the name holds no '='; the value is true exactly when the body holds no '='; otherwise name=value reassembles the body |
| `CliParams.SplitOptionExplode` | arrangephotos.php:38-45 | the first-'=' split equals the source's explode, array_shift and implode |
| `CliParams.SplitOptionCases` | arrangephotos.php:38-45 | a body without '=' is a flag with value true; name=value splits at the first '=' and keeps later '=' in the value |
| `CliParams.TokenEffect` | arrangephotos.php:36-69 | what one argument does, branch by branch; `LongOptionRule`, `ShortOptionRule` and `PlainArgumentRule` state each branch and `OnlyOptionsStore` what all of them share |
| `CliParams.OnlyOptionsStore` | arrangephotos.php:36-69 | only an argument starting with '-' stores a value, "--" ones only under a long option; every stored key is a long option or a short mapping's target; a string value needs an '=' |
| `CliParams.LongOptionRule` | arrangephotos.php:36-50 | --name and --name=value store true or the value under name when it is a long option, and are rejected otherwise |
| `CliParams.SingleDash` | arrangephotos.php:52-53 | an argument with one leading '-' is read as a short option |
| `CliParams.ShortOptionRule` | arrangephotos.php:52-66 | -x and -x=value store true or the value under the long name x maps to, and are rejected when x is not mapped |
| `CliParams.PlainArgumentRule` | arrangephotos.php:67-69 | an argument not starting with '-' is unrecognised |
| `CliParams.Apply` | arrangephotos.php:46-69 | the state update one argument makes at :46-50, :62-66 and :67-69; `ApplyParts` states that it appends the argument or sets exactly one key |
| `CliParams.ApplyParts` | arrangephotos.php:46-50 | one argument either appends itself to the unrecognised list or sets exactly one option, leaving other keys alone |
| `CliParams.Parse` | arrangephotos.php:35-71 | the foreach over the arguments, as a fold of `Apply`; `ParseUnrecognized` and `ParseOptions` state its two results, and `CliGetParams`' loop invariant ties the loop to it |
| `CliParams.ParseUnrecognized` | arrangephotos.php:35-71 | the unrecognised list is exactly the rejected arguments, in input order |
| `CliParams.ParseOptions` | arrangephotos.php:35-71 | an option is set iff some argument stores it, and holds the value of the last such argument |
| `CliParams.EmptyArgv` | arrangephotos.php:22-25 | an empty argv gives two empty results, without defaults |
| `CliParams.CutAtDoubleDash` | arrangephotos.php:28-31 | everything from the first "--" on is ignored; when the arguments start with "--", only the defaults come back |
| `CliParams.ScriptNameIgnored` | arrangephotos.php:33-34 | argv[0] does not influence the result, unless it is "--" |
| `CliParams.ParamsResult` | arrangephotos.php:17-80 | on a non-empty argv the unrecognised arguments are the rejected ones; every long option is present with its last given value or its default; another key is present only when an argument stored it |
| `CliParams.Params` | arrangephotos.php:17-80 | cli_get_params as a function of argv and the two tables; `ParamsResult`, `CutAtDoubleDash`, `ScriptNameIgnored` and `EmptyArgv` state its meaning, and `CliGetParams` is proved equal to it |
| `CliParams.ApplyDefaults` | arrangephotos.php:72-77 | every long option not given gets its default, given ones keep their value |
| `CliParams.CliGetParams` | arrangephotos.php:17-80 | the loops compute exactly Params |
| `Walker.EntryWalk` | arrangephotos.php:104-112 | what one entry of the foreach appends; `EntryWalkImages` and `DotEntriesSkipped` state it |
| `Walker.EntryWalkImages` | arrangephotos.php:103-113 | one entry contributes a path iff it is an image file with that path, or a directory other than "." or ".." from which that image is reached |
| `Walker.Walk` | arrangephotos.php:100-116 | the paths the walk of one listing appends, in order; `WalkImages` shows they are exactly the reachable image files |
| `Walker.WalkImages` | arrangephotos.php:100-116 | a path is appended iff it is an image file reached without entering "." or ".." |
| `Walker.DotEntriesSkipped` | arrangephotos.php:109-111 | a directory entry named "." or ".." adds nothing, whatever it lists |
| `Walker.ScanDirAndSubdir` | arrangephotos.php:100-116 | the accumulator's old contents stay as a prefix, followed by the walk of the listing |
| `Arrange.Existing` | arrangephotos.php:84 | what file_exists reports on the destination: any image, other file or directory; `RunFresh` and `RunTargets` show that no copy target is among them |
| `Arrange.CandidateShape` | arrangephotos.php:189 | the candidate is dest/year/month/mtime.ext with pathinfo dirname dest/year/month, filename mtime and the photo's extension, and is renamable |
| `Arrange.Bucket` | arrangephotos.php:184 | the month directory dest/year/month; `CandidateShape` shows that it is the pathinfo dirname of the candidate |
| `Arrange.Candidate` | arrangephotos.php:189 | the first path tried; `CandidateShape` shows that it decomposes into the bucket, the decimal mtime and the photo's extension |
| `Arrange.TargetShape` | arrangephotos.php:189-190 | the copy target never exists; it is the candidate iff that is free, otherwise mtime_n.ext in the month directory for the first free n from 1 |
| `Arrange.Step` | arrangephotos.php:178-199 | one iteration of the loop; `StepGrowth` states what it does to the destination and the report, and `TargetShape` where its copy goes |
| `Arrange.TargetInBucket` | arrangephotos.php:184-190 | whatever exists, the copy target's pathinfo dirname is the month directory dest/year/month |
| `Arrange.StepImages` | arrangephotos.php:180-197 | one photo, on images and the report: a success adds exactly its fresh target, a failure adds nothing, a died step changes nothing, other files stay |
| `Arrange.StepDirs` | arrangephotos.php:184-190 | one photo, on directories: only dest/year and dest/year/month are added; unless the step died the month directory exists afterwards and a successful copy's target lies in it |
| `Arrange.StepGrowth` | arrangephotos.php:180-197 | one photo: a success adds exactly its fresh target, which lies in the month directory, to the images; a failure adds nothing; a died step changes nothing; other files stay; directories are only added, and only dest/year and dest/year/month; unless the step died, the month directory exists afterwards |
| `Arrange.ArrangePhotos` | arrangephotos.php:178-199 | the loop, with die as an early exit, computes exactly RunAll |
| `Arrange.DiedSticks` | arrangephotos.php:185-187 | after die the remaining photos change nothing |
| `Arrange.RunAll` | arrangephotos.php:178-199 | the foreach over the photos, as a fold of `Step`; `RunGrowth`, `RunFresh`, `RunTargets`, `RunCount`, `RunSources` and `VerdictMeaning` state what it does, and `ArrangePhotos` is proved equal to it |
| `Arrange.RunImages` | arrangephotos.php:191-196 | final images are the initial images plus the copy targets; other files unchanged; directories only added |
| `Arrange.RunDirs` | arrangephotos.php:184-186 | every directory the run adds is dest/year or dest/year/month of a photo that decoded |
| `Arrange.RunPlaced` | arrangephotos.php:184-196 | every successful copy's target lies in a directory that exists: its month directory was made, or was there, before the copy |
| `Arrange.RunGrowth` | arrangephotos.php:184-196 | final images are the initial images plus the copy targets; other files unchanged; directories only added, each the year or month directory of a photo that decoded; every copy target lies in an existing directory |
| `Arrange.RunFresh` | arrangephotos.php:189-196 | each copy target is, when chosen, neither a path that existed before the run nor an earlier copy's target |
| `Arrange.TargetsExist` | arrangephotos.php:191-196 | every successful copy's target is among the collected copy targets |
| `Arrange.RunTargets` | arrangephotos.php:189-196 | no target existed before the run, and no two copies share a target |
| `Arrange.RunCount` | arrangephotos.php:191-196 | the image count rises by exactly the number of successful copies |
| `Arrange.RunSources` | arrangephotos.php:178-181 | unless the script died, every photo that decodes is reported exactly once, in order |
| `Arrange.Verdict` | arrangephotos.php:205-209 | the final comparison of the counts; `VerdictMeaning` states when it reports success |
| `Arrange.VerdictMeaning` | arrangephotos.php:205-209 | the count equality holds iff the script did not die, every photo decoded and every copy succeeded |

## Left out

- File-system I/O is abstract:
  - `scandir` and `realpath` become the tree of listings with resolved paths;
  - `is_dir`, `getimagesize`, `filemtime` and `file_exists` become datatype fields and set membership;
  - `mkdir` and `copy` become the failure sets of `Env`.
- Symbolic links, cycles in the tree and concurrent changes to the disk are not modelled.
- `date("Y")` and `date("m")` depend on the host's time zone. The year and month are inputs, required to be digit strings.
- Paths are compared as strings. A destination given with a trailing '/' or by a relative spelling builds candidates that differ from the canonical paths `realpath` yields, while `file_exists` still resolves them. The model treats such spellings as different paths.
- mtime is a `nat`: negative timestamps are not modelled.
- NewName.GetNewName: a segment after '_' that is not all digits is excluded by a precondition, even where every PHP version reads it as a number. For example, PHP turns `a_1.5.jpg` into `a_2.5.jpg` and `a_1e2.jpg` into `a_101.jpg`; the model does not rename such paths.
- NewName.GetNewName: a non-numeric segment after '_' is also excluded by a precondition, because PHP arithmetic on it is version-dependent (a warning and 0 in PHP 7, an error in PHP 8). So are a leading sign or whitespace, and an empty segment. Every candidate the script builds has none of these.
- NewName.GetNewName: counters are unbounded integers. PHP turns a counter beyond `PHP_INT_MAX` into a float, and its rendering then differs.
- Paths.GetPathInfo: only paths with a non-empty dirname not ending in '/' and a basename containing '.' are decomposed. A path with no extension makes `$pathinfo['extension']` undefined in the source. PHP's handling of the other shapes (trailing slashes, root dirname) is not modelled. Every path the script passes to `get_newname` has this shape.
- PHP arrays keep insertion order and turn numeric string keys into integers. Options are a `map` from strings to values: key order and that coercion are not modelled.
- `(array)null` for a missing short mapping is the empty map.
- The option values the script then reads are not modelled: the help text and condition, source and destination validation, `cli_error`, `mtrace`, the messages echoed, output buffering, the log file and the xdebug setting. The two walks that count the photos at the end are not modelled as walks either. Their counts are the number of photos and the sizes of the destination's image sets.
- Arrange.VerdictMeaning: counting `$existingphotos` and `$existingphotosnow` by the size of the destination's image set assumes the walk yields each image once and that the source tree is not inside the destination. The source tree being inside the destination would change the later count.
- A copied file is assumed to be an image again (copy keeps the bytes). A copy that fails leaves nothing behind.
