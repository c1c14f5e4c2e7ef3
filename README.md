# aRchive: a verified model of the revision walk and the version-run reduction

aRchive builds an archive of old Bioconductor package versions for Galaxy.
It has two scripts, and this project models the core of both in Dafny.

- **`aRchive.py`** walks the svn history of every package in a Bioconductor
  working copy. `makeVersion` reads the package's version from DESCRIPTION.
  It then updates the working copy to each revision that `svn log -q`
  lists, newest first. Whenever DESCRIPTION declares a version other than
  the one read first, it copies the tree into
  `archive_dir/<package>/<version>`, unless that directory already exists.
  At the end it updates back to HEAD. `archiveLocalRepo` creates
  `archive_dir`, drops hidden entries from the listing of `bioc_dir`, and
  runs `makeVersion` on each package in turn. Each call sits inside its own
  `try`/`except`.
- **`reduce_versions.py`** reads a `<package>_versions_full.txt` file. Each
  row has the form `revision TAB version TAB dep,dep,...`.
  `_important_revisions` keeps the first row of every run of rows with the
  same version. For each kept row, `main` writes
  `<package>_<version>_dependencies.txt`. That file holds one line per
  dependency, and each line is what `get_version_at_rev` found for the
  dependency at that revision by searching the dependency's own versions
  file.

The project has five modules:

| file | module | content |
|---|---|---|
| `wrappers.dfy` | `Wrappers` | `Option`, Python's `None` or a value |
| `text.dfy` | `Text` | the Python 2 `str` operations both scripts use, on `seq<char>`, with their contracts and round trips |
| `paths.dfy` | `Paths` | `os.path.join`, `basename` and `dirname` as Python's `posixpath` defines them |
| `archive.dfy` | `Archive` | `makeVersion` and `archiveLocalRepo` |
| `reduce_versions.dfy` | `ReduceVersions` | `_important_revisions`, `get_version_at_rev` and `main` |

### How `aRchive.py` is modelled

The svn working copy is a scripted fake, `PackageScript`. Each package has:

- the text `svn log -q` prints;
- what DESCRIPTION holds at HEAD;
- what DESCRIPTION holds at every revision `svn update -r` can reach. It
  may be `Missing`, `Malformed` (yaml or `['Version']` raises) or
  `Declares(v)`.

A revision that is absent from that map makes the update raise.

The class `Workspace` keeps the state the scripts change:

- `pinned`: which packages are left at a historical revision;
- `archive`: a map from each `(package, version)` directory to the revision
  whose tree was copied into it;
- `archiveDirExists`: whether `archive_dir` exists.

Each method is proved against a specification function:

- `Workspace.WalkLog` (the loop) is proved against `Snapshots`, `FirstHalt`
  and `LoopEnd`.
- `Workspace.MakeVersion` is proved against `Walk`.
- `Workspace.ArchiveLocalRepo` is proved against `Attempts`, `Union` and
  `Replayed`.

The lemmas beside them state what the history walk promises.

The code compares each revision's version with the version read **before
the loop**, not with the previous revision's. A design that compares each
revision with the one seen just before it would start a new entry at every
change of version. The code does not do that, and the model follows the
code: every version other than the first one read gets one directory,
holding the first revision in log order that declared it.

The version read before the loop is read where the package's working copy
stands: HEAD, unless an earlier failed walk left it pinned. The scripted log,
however, is always the one `svn log -q` prints at HEAD (see "Left out").

The code keeps no version intervals, no index, no resume cursor and no
periodic `svn cleanup` (that is only a TODO at aRchive.py:136). None of
these is modelled.

### How `reduce_versions.py` is modelled

The file system is a map from path to contents, in the class `FileStore`:

- `inputs` holds the files read;
- `written` holds the files `main` writes.

This split is sound because every name written ends in `_dependencies.txt`
and every name looked up ends in `_versions_full.txt`, so no write is ever
read back (`OutputsAreNotInputs`). For the same reason, the model computes
the generator's records before the loop that writes. Python interleaves the
two, but that order makes no observable difference.

`for line in f` keeps each line's `'\n'` (`Text.FileLines`).

Three error paths are modelled:

- a row that does not unpack into three fields raises `ValueError`, after
  the files of the rows before it have been written;
- a lookup that gives `None` (no line matches) makes `'\n'.join` raise
  `TypeError` after `open(..., 'w')` has already emptied the file;
- `main` stops at that point, and `GenerateDependencyFiles` returns the
  error as a `Status`.

One consequence of following the code: a row whose dependency list is
empty, `rev\tver\t`, loses its trailing tab to `strip()`, splits into two
fields, and so raises `ValueError` like any malformed row.

## Model

| member | source | states |
|---|---|---|
| Text.StripLeft | reduce_versions.py:10 | the result is a suffix of the input; everything dropped is whitespace; it does not start with whitespace |
| Text.StripRight | reduce_versions.py:10 | the result is a prefix of the input; everything dropped is whitespace; it does not end with whitespace |
| Text.Strip | reduce_versions.py:10 | `strip()` returns a slice of the input with only whitespace cut at both ends, and it neither starts nor ends with whitespace |
| Text.Split | reduce_versions.py:10 | `split('\t')` returns one more piece than there are tabs, and no piece contains a tab |
| Text.JoinSplit | reduce_versions.py:21-26 | joining the pieces of a split restores the string |
| Text.SplitJoin | reduce_versions.py:21-26 | splitting a tab-join of tab-free fields gives the fields back |
| Text.SplitLinesKeepsText | aRchive.py:93 | `splitlines()` loses nothing but the line terminators: the lines, concatenated, are the text without its line breaks (where each line ends is stated by `Text.SplitLinesCut`) |
| Text.SplitLinesCut | aRchive.py:93 | every LF, CR LF or lone CR ends a line: a break-free line, its terminator and the rest split into that line followed by the lines of the rest |
| Text.SplitLinesOfPlain | aRchive.py:93 | the last line needs no terminator: a non-empty break-free text is one line |
| Text.FirstWord | aRchive.py:93 | `split()[0]` of a line is its longest whitespace-free prefix, followed by whitespace or the end of the line |
| Text.FileLinesConcat | reduce_versions.py:8 | the lines that iterating a file yields, concatenated, form the file |
| Text.FileLineShape | reduce_versions.py:19 | each line yielded is non-empty, has '\n' only at its end, and every line but the last ends with '\n' |
| Text.RemoveAllSuffix | reduce_versions.py:32 | `replace(pat, '')` on a name that ends in `pat` and has no other occurrence of it leaves the stem |
| Paths.JoinParts | reduce_versions.py:18 | `os.path.join(a, b)`: an absolute `b` is the result; otherwise the result is `a`, then one `/` exactly when `a` is non-empty and does not end in `/`, then `b` |
| Paths.Basename | reduce_versions.py:32 | `basename` is the longest slash-free suffix, preceded by a `/` or the start of the path |
| Paths.DirnameShape | reduce_versions.py:33 | `dirname` is a prefix of the path that ends before the basename; only slashes lie between the two; it does not end in `/` unless it is all slashes, and then it is the whole part before the basename (`dirname("/x") == "/"`); it is empty exactly for a path without `/` |
| Paths.DirnameOfJoin | reduce_versions.py:33 | the directory of a slash-free name joined onto a directory without a trailing `/` is that directory |
| Paths.DirnameAtRoot | reduce_versions.py:33 | the directory of a slash-free name joined onto the root `/` is `/` |
| Paths.BasenameOfJoin | aRchive.py:115 | the basename of a slash-free entry joined onto a directory is that entry |
| Archive.RevisionIds | aRchive.py:93 | at most one id per log line |
| Archive.RevisionIdIsToken | aRchive.py:92-93 | every revision id is the first whitespace token of some log line starting with 'r'; the id keeps its 'r' and holds no whitespace |
| Archive.RevisionIdsAppend | aRchive.py:93 | the ids of two pieces of log are the ids of the first followed by those of the second, so log order is kept |
| Archive.RevisionIdsOfLine | aRchive.py:93 | a line contributes an id exactly when it starts with 'r', and that id is its first token |
| Archive.MovedCheckout | aRchive.py:102 | after `svn update -r` on one package, that package stands at the new revision and every other package where it stood |
| Archive.MovedNowhere | aRchive.py:102 | moving a package to where it already stands changes nothing |
| Archive.MovedConsistent | aRchive.py:102 | updating a package to a revision it can reach keeps every pinned package at a reachable revision |
| Archive.FirstHaltIsFirst | aRchive.py:100-110 | the loop stops at index k when it gets past every revision before k and the update or the DESCRIPTION read fails at k |
| Archive.FirstHaltStops | aRchive.py:100-110 | before the stopping index no revision fails, and at it one does, unless the log is exhausted |
| Archive.SnapshotsAreFirstSightings | aRchive.py:107-120 | the directories made are exactly the versions seen that differ from the version read first; each holds the first revision in log order that declared its version |
| Archive.SnapshotsDeclare | aRchive.py:110-116 | every directory is for this package and for a version other than the first one read, and the revision copied into it declares that version |
| Archive.IgnoredRevision | aRchive.py:107-112 | a revision with no DESCRIPTION, or already at the first version read, can be removed from the history without changing what is archived |
| Archive.WalkCompletes | aRchive.py:96-124 | `makeVersion` completes exactly when DESCRIPTION declares a version where the walk starts, and for every revision of the log the update succeeds and reaches a DESCRIPTION that is either missing or declares a version; then the checkout is back at HEAD and the directories are every version of the log other than the first one read; a walk that raises never brings a package that started off HEAD back to HEAD |
| Archive.WalkSkipsLatest | aRchive.py:96-116 | the first version read is never archived, and no directory is made for another package |
| Archive.MissingDescriptionAbortsEarly | aRchive.py:96 | a DESCRIPTION missing where the walk starts raises before any directory is made and leaves the checkout where it was |
| Archive.RerunAddsNothing | aRchive.py:115-124 | a completed walk from HEAD leaves the working copy at HEAD, so running it again completes back at HEAD; every directory the rerun would make already exists, so skip-if-exists leaves the archive unchanged |
| Archive.LogTextIds | aRchive.py:92-93 | a log of separator lines and `r<id> \| ...` entries is read back as exactly the revisions it lists, in log order |
| Archive.WalkThrough | aRchive.py:96-124 | a walk from HEAD at which no revision raises completes at HEAD with the directories of the whole log |
| Archive.ExampleSnapshots | aRchive.py:100-122 | for the history r6 (2.0, as read first), r5 and r4 (1.1), r3 (no DESCRIPTION), r1 (1.0), directories 1.1 (holding r5) and 1.0 (holding r1) are made, and 2.0 is not |
| Archive.WorkedExample | aRchive.py:88-124 | the same history with its `svn log -q` text and 2.0 at HEAD: `makeVersion` reads the five ids from the log, completes back at HEAD, and makes exactly directories 1.1 (holding r5) and 1.0 (holding r1) |
| Archive.Packages | aRchive.py:135 | the package list holds exactly the listing's entries that do not start with '.' |
| Archive.PackagesAppend | aRchive.py:135 | filtering keeps the listing's order: the filter of two pieces is the filter of the first followed by that of the second |
| Archive.PackagesDistinct | aRchive.py:135 | when the listing's names are distinct, the packages are distinct |
| Archive.PrefixDistinct | aRchive.py:139 | no package appears earlier in the list than its own position |
| Archive.ArchiveNameIsEntry | aRchive.py:115 | a listing entry names its own archive directory: `os.path.split(os.path.join(bioc_dir, entry))[-1] == entry` |
| Archive.Outcomes | aRchive.py:141-146 | one outcome per package, in order: how that package's walk ended |
| Archive.ReplayedUntouched | aRchive.py:139-146 | an entry that is not among the packages keeps its checkout through the whole run |
| Archive.ReplayedCheckouts | aRchive.py:139-146 | with distinct packages, each ends where its own walk left it, and every other entry where it stood |
| Archive.UnionMembers | aRchive.py:139-146 | a directory is made by the run exactly when some package's walk made it |
| Archive.UnionFirstWins | aRchive.py:117-120 | a directory made by the run holds what the first walk that made it copied in |
| Archive.UnionStep | aRchive.py:139-146 | one more package's walk puts its directories under those already made |
| Archive.Workspace.MakeVersion | aRchive.py:88-124 | `makeVersion` adds only the directories absent from the archive, and leaves the package where the walk of the history left it |
| Archive.Workspace.WalkLog | aRchive.py:100-124 | the loop stops at the first failing revision, adds the directories the revisions before it make, and restores HEAD only when it gets through the whole log |
| Archive.Workspace.ArchiveLocalRepo | aRchive.py:127-147 | `archive_dir` exists afterwards; every non-hidden entry is attempted in listing order, each from its own checkout, even after earlier ones raised; the archive gains what the walks made, the first maker winning |
| ReduceVersions.FirstMalformed | reduce_versions.py:8-10 | the index where the generator raises is at most the number of rows |
| ReduceVersions.FirstMalformedIsFirst | reduce_versions.py:8-10 | the generator raises at row n when the rows before n unpack into three fields and row n does not |
| ReduceVersions.Parsed | reduce_versions.py:8-10 | the generator never unpacks more rows than the file has |
| ReduceVersions.ParsedLength | reduce_versions.py:8-10 | one entry is unpacked per row before the first malformed one |
| ReduceVersions.ParsedAt | reduce_versions.py:10-13 | each entry comes from a row of exactly three tab fields and is `(rev, version, deps.split(','))` of that row |
| ReduceVersions.ParsedStep | reduce_versions.py:8-10 | unpacking one more well-formed row appends its entry |
| ReduceVersions.ParsedStops | reduce_versions.py:10 | nothing after a malformed row is unpacked |
| ReduceVersions.Important | reduce_versions.py:11-13 | at most one record is yielded per row |
| ReduceVersions.ImportantStep | reduce_versions.py:11-13 | a row is yielded exactly when it is the first row or its version differs from the previous row's |
| ReduceVersions.ImportantFirst | reduce_versions.py:7-13 | the first row is always yielded first, because `old_version` starts as None |
| ReduceVersions.ImportantLast | reduce_versions.py:11-13 | a non-empty input yields something, and the last record yielded has the version of the last row |
| ReduceVersions.ImportantIsRunStart | reduce_versions.py:11-13 | every record yielded is a row that starts a run of equal versions |
| ReduceVersions.RunStartsAreImportant | reduce_versions.py:11-13 | every row that starts a run is yielded |
| ReduceVersions.ImportantNeighboursDiffer | reduce_versions.py:11-13 | two records yielded one after the other never share a version |
| ReduceVersions.RunStarts | reduce_versions.py:11-13 | the run-start indices are indices of the input |
| ReduceVersions.RunStartsAreRuns | reduce_versions.py:11-13 | the run-start indices are increasing, and they are exactly the indices of the rows that start a run |
| ReduceVersions.ImportantAtRunStarts | reduce_versions.py:8-13 | the records are the rows at the run-start indices, in order: the input with some rows left out, with one record per run of equal versions |
| ReduceVersions.CollapseStep | reduce_versions.py:11-13 | the front-to-back collapse of runs keeps one more row exactly when its version differs from the previous row's |
| ReduceVersions.ImportantIsCollapse | reduce_versions.py:8-13 | what the generator yields equals the independent, front-to-back collapse of each run onto its first row |
| ReduceVersions.ImportantExample | reduce_versions.py:6-13 | versions 1.1, 1.1, 1.0, 1.1 down the file yield the first, third and fourth rows |
| ReduceVersions.ImportantRevisions | reduce_versions.py:6-13 | the records yielded are the run starts among the rows unpacked before the first malformed one; the method also returns where the generator stops |
| ReduceVersions.RecordParsesBack | reduce_versions.py:21-26 | the tab-joined record splits back into the package, the version, `<package>_<version>_dependencies.txt` and `<package>_<version>.tar.gz` |
| ReduceVersions.FirstMatch | reduce_versions.py:19-20 | a match is an index of a line of the file |
| ReduceVersions.FirstMatchIsFirst | reduce_versions.py:19-20 | the line found starts with `revision + '\t'` and no earlier line does; when none is found, no line does |
| ReduceVersions.FirstMatchAt | reduce_versions.py:19-20 | the first line that starts with the prefix is the one found |
| ReduceVersions.ScanIsNone | reduce_versions.py:17-24 | the `for line in handle` loop falls through (the function returns None) exactly when no line starts with the revision and a tab |
| ReduceVersions.VersionAtRevIsNone | reduce_versions.py:17-28 | the lookup gives None exactly when the versions file exists and no line starts with the revision and a tab |
| ReduceVersions.VersionAtRevFound | reduce_versions.py:18-26 | a found version is the second field of the first matching line, returned in a record that splits back into its four fields |
| ReduceVersions.MissingVersionsFile | reduce_versions.py:17-18 | a missing versions file gives `"# Could not find <package> at r<revision>"` |
| ReduceVersions.VersionAtRevShortLine | reduce_versions.py:19-28 | a first matching line with no second field after `strip()` raises IndexError inside the `try`, which gives `"# Could not find <package> at r<revision>"` |
| ReduceVersions.ShortLineExample | reduce_versions.py:19-23 | the line `"r5\t\n"` starts with `"r5\t"` but strips to the single field `"r5"` |
| ReduceVersions.PackageNameOfVersionsFile | reduce_versions.py:32 | the package name recovered from `<dir>/<package>_versions_full.txt` is the package |
| ReduceVersions.MainWorksBesideInput | reduce_versions.py:33-37 | `package_dir` of `<dir>/<package>_versions_full.txt` is `dir`, so outputs are written and lookups are read in the input's directory |
| ReduceVersions.JoinEndsWith | reduce_versions.py:35 | a joined path ends with its last component |
| ReduceVersions.OutputsAreNotInputs | reduce_versions.py:35 | no dependency file written is a versions file that a lookup reads |
| ReduceVersions.OutputNamesVersion | reduce_versions.py:35 | in one directory and for one package, different versions give different output files |
| ReduceVersions.NeighboursWriteApart | reduce_versions.py:34-35 | records yielded one after the other write different files |
| ReduceVersions.JoinInjective | reduce_versions.py:35 | different names joined onto one directory give different paths when both are relative or both are absolute |
| ReduceVersions.BodyLines | reduce_versions.py:37-40 | a dependency file, split on '\n', gives back the lookup results, one per dependency, in order |
| ReduceVersions.FirstUnjoinable | reduce_versions.py:37-40 | the row where the join first fails is at most the number of rows |
| ReduceVersions.FirstUnjoinableIsFirst | reduce_versions.py:37-40 | the loop stops at row k when every row before k joins and row k does not |
| ReduceVersions.FirstUnjoinableFrom | reduce_versions.py:37-40 | scanning on from a row before the first failure, the scan stops at k exactly when k is the end or row k cannot join |
| ReduceVersions.Writes | reduce_versions.py:34-40 | one write per record |
| ReduceVersions.WritesAt | reduce_versions.py:35-40 | record k writes its joined lookups to `<package>_<version>_dependencies.txt` in the input's directory |
| ReduceVersions.AppliedPaths | reduce_versions.py:39 | a file exists after the writes exactly when it existed before or one of them wrote it |
| ReduceVersions.LastWriteWins | reduce_versions.py:39-40 | a file holds what the last write to it put there, since `open(..., 'w')` truncates |
| ReduceVersions.UnwrittenKept | reduce_versions.py:39-40 | a file that no write touches keeps its contents |
| ReduceVersions.FileStore.WriteDependencyFile | reduce_versions.py:35-40 | one iteration replaces the record's dependency file with its joined lookups, or empties it when a lookup gave None, and reports which |
| ReduceVersions.FileStore.WriteDependencyFiles | reduce_versions.py:34-40 | the loop writes each record's file in order, stops after the first whose join fails, and returns that record's index |
| ReduceVersions.FileStore.GenerateDependencyFiles | reduce_versions.py:31-40 | `main` writes what the loop over the important records of the input writes, and ends with the join's TypeError, the unpacking ValueError (once the rows before it are done), or normally |

## Left out

- The svn subprocess calls (`svn log -q`, `svn update -r`, `svn update`) are not run. They are replaced by the scripted `PackageScript` fake: a log text and a map from revision to DESCRIPTION state.
- `yaml.load` of DESCRIPTION is an oracle, the `Description` value per checkout. DESCRIPTION's format is not modelled.
- Archive.Walk: covers only versions that YAML reads as strings. YAML reads `Version: 1.1` as a float. With a float version, `os.path.join` at aRchive.py:116 raises whenever it differs from the first version read, and two versions such as `1.10` and `1.1` compare equal at aRchive.py:112. `Declares(v)` treats every version as its own string.
- Archive.Walk: versions are taken to be non-empty and free of `/`. An empty version would name the package directory itself, and an absolute one would lie outside `archive_dir`.
- Archive.LogIds: the log is the one `svn log -q` prints at HEAD, whatever the checkout. In a working copy left at an older revision by an earlier failed walk, the real log lists only revisions up to that one. So for a walk that starts off HEAD, the model may visit revisions the real walk would not.
- `copyDirectory` / `shutil.copytree` is modelled as adding the key and the revision to the archive. The tree contents are not modelled. The copy is taken to succeed, so the errors it catches and prints are not modelled either.
- `os.mkdir(archive_dir)` is taken to succeed.
- The final `svn update` back to HEAD is taken to succeed.
- `os.chdir` into `bioc_dir/<package>` is modelled only as "the entry is a working copy or the walk raises at once". Relative paths and the process's current directory are not modelled.
- `print` output, `PrintException`, `linecache` and the `argparse` / `__main__` blocks of both scripts are diagnostics and command-line plumbing, and are not modelled.
- Archive.Workspace.ArchiveLocalRepo: requires the listing's names to be distinct. `os.listdir` guarantees this; the model does not derive it.
- ReduceVersions.FileStore.GenerateDependencyFiles: keeps the input versions file apart from the outputs. An input whose name does not end in `_versions_full.txt` and equals an output name is not modelled.
- The generator of `_important_revisions` is lazy, and rows are parsed while files are written. The model computes the records first. This is equivalent because no write touches a file that is read.
- Python 2 byte strings are `seq<char>`, and the file system is a map from path to contents. Permissions, text-mode newline translation on other platforms and I/O errors other than a missing file are not modelled.
- `get_galaxy_tool_dependencies.py` and the Angular front end under `app/js/` are not part of this model.
