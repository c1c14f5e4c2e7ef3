/**
 * reduce_versions.py: from a package's `<package>_versions_full.txt`
 * (one row `revision TAB version TAB dep,dep,...` per revision, in file
 * order), keep the first row of every run of rows with the same version,
 * and for each such row write `<package>_<version>_dependencies.txt`
 * beside it: one line per dependency, naming the dependency's version at
 * that revision as found in the dependency's own versions file.
 *
 * The file system is a map from path to file contents. The files read
 * (`inputs`) and the files written (`written`) are kept apart: a written
 * name ends with `_dependencies.txt` and a name read by a lookup ends with
 * `_versions_full.txt` (lemma OutputsAreNotInputs), so no write changes
 * what a later lookup reads.
 */
module ReduceVersions {
  import Wrappers
  import Text
  import Paths

  /** One row of a versions file, unpacked: `(rev, version, deps.split(','))`. */
  datatype Entry = Entry(rev: string, version: string, deps: seq<string>)

  // ------------------------------------------------ _important_revisions (lines 6-13)

  /** `line.strip().split('\t')` */
  function Fields(line: string): seq<string> {
    Text.Split(Text.Strip(line), '\t')
  }

  /** Every line of the file split into its fields. */
  function Rows(lines: seq<string>): seq<seq<string>> {
    seq(|lines|, i requires 0 <= i < |lines| => Fields(lines[i]))
  }

  /** `(rev, version, deps) = fields` unpacks without a ValueError: exactly three fields. */
  predicate WellFormed(fields: seq<string>) {
    |fields| == 3
  }

  /** The unpacked row. */
  function ToEntry(fields: seq<string>): Entry
    requires WellFormed(fields)
  {
    Entry(fields[0], fields[1], Text.Split(fields[2], ','))
  }

  /** The index of the first row that does not unpack (the generator raises there), `|rows|` if every row does. */
  function FirstMalformed(rows: seq<seq<string>>): (n: nat)
    ensures n <= |rows|
  {
    if |rows| == 0 || !WellFormed(rows[0]) then 0 else 1 + FirstMalformed(rows[1..])
  }

  /** Rows before `n` unpack and row `n` does not (or is past the end): `n` is where the generator raises. */
  lemma {:induction false} FirstMalformedIsFirst(rows: seq<seq<string>>, n: nat)
    requires n <= |rows|
    requires forall i :: 0 <= i < n ==> WellFormed(rows[i])
    requires n < |rows| ==> !WellFormed(rows[n])
    ensures FirstMalformed(rows) == n
    decreases n
  {
    if n > 0 {
      FirstMalformedIsFirst(rows[1..], n - 1);
    }
  }

  /** The entries the generator unpacks before it raises or reaches the end: the rows up to the first malformed one. */
  function Parsed(rows: seq<seq<string>>): (es: seq<Entry>)
    ensures |es| <= |rows|
  {
    if |rows| == 0 || !WellFormed(rows[0]) then [] else [ToEntry(rows[0])] + Parsed(rows[1..])
  }

  /** One entry per row before the first malformed one. */
  lemma {:induction false} ParsedLength(rows: seq<seq<string>>)
    ensures |Parsed(rows)| == FirstMalformed(rows)
    decreases |rows|
  {
    if |rows| > 0 && WellFormed(rows[0]) {
      ParsedLength(rows[1..]);
    }
  }

  /** Each entry is its row unpacked. */
  lemma {:induction false} ParsedAt(rows: seq<seq<string>>, i: nat)
    requires i < |Parsed(rows)|
    ensures WellFormed(rows[i]) && Parsed(rows)[i] == ToEntry(rows[i])
    decreases i
  {
    if i > 0 {
      ParsedAt(rows[1..], i - 1);
    }
  }

  /** Unpacking one more well-formed row appends its entry. */
  lemma {:induction false} ParsedStep(rows: seq<seq<string>>, k: nat)
    requires k < |rows| && forall i :: 0 <= i <= k ==> WellFormed(rows[i])
    ensures Parsed(rows[..k + 1]) == Parsed(rows[..k]) + [ToEntry(rows[k])]
    decreases k
  {
    if k == 0 {
      assert rows[..1][1..] == [];
    } else {
      ParsedStep(rows[1..], k - 1);
      assert rows[..k + 1][1..] == rows[1..][..k];
      assert rows[..k][1..] == rows[1..][..k - 1];
    }
  }

  /** Nothing after a malformed row is unpacked. */
  lemma {:induction false} ParsedStops(rows: seq<seq<string>>, k: nat)
    requires k <= |rows| && forall i :: 0 <= i < k ==> WellFormed(rows[i])
    requires k < |rows| ==> !WellFormed(rows[k])
    ensures Parsed(rows) == Parsed(rows[..k])
    decreases k
  {
    if k == 0 {
      assert rows[..0] == [];
    } else {
      ParsedStops(rows[1..], k - 1);
      assert rows[..k][1..] == rows[1..][..k - 1];
    }
  }

  /** Row `i` starts a run: it is the first row, or its version differs from the row before. */
  predicate RunStart(es: seq<Entry>, i: nat)
    requires i < |es|
  {
    i == 0 || es[i].version != es[i - 1].version
  }

  /** What `_important_revisions` yields for the rows `es`: the row starting each run of equal versions. */
  function Important(es: seq<Entry>): (r: seq<Entry>)
    ensures |r| <= |es|
  {
    if |es| == 0 then []
    else
      var n := |es| - 1;
      Important(es[..n]) + if RunStart(es, n) then [es[n]] else []
  }

  /** The generator, step by step: the next row is yielded exactly when its version differs from the last row's. */
  lemma {:induction false} ImportantStep(es: seq<Entry>, e: Entry)
    ensures Important(es + [e]) ==
              Important(es) + if |es| == 0 || e.version != es[|es| - 1].version then [e] else []
  {
    assert (es + [e])[..|es|] == es;
  }

  /** Something is yielded for any non-empty input, and the last thing yielded has the version of the last row. */
  lemma {:induction false} ImportantLast(es: seq<Entry>)
    requires |es| > 0
    ensures |Important(es)| > 0
    ensures Important(es)[|Important(es)| - 1].version == es[|es| - 1].version
    decreases |es|
  {
    var n := |es| - 1;
    if !RunStart(es, n) {
      ImportantLast(es[..n]);
    }
  }

  /** The first row is always yielded first. */
  lemma {:induction false} ImportantFirst(es: seq<Entry>)
    requires |es| > 0
    ensures |Important(es)| > 0 && Important(es)[0] == es[0]
    decreases |es|
  {
    var n := |es| - 1;
    if n > 0 {
      ImportantFirst(es[..n]);
    }
  }

  /** Only run starts are yielded: the `j`-th record yielded is a row that starts a run. */
  lemma {:induction false} ImportantIsRunStart(es: seq<Entry>, j: nat)
    requires j < |Important(es)|
    ensures exists i :: 0 <= i < |es| && RunStart(es, i) && Important(es)[j] == es[i]
    decreases |es|
  {
    var n := |es| - 1;
    var init := es[..n];
    if j < |Important(init)| {
      ImportantIsRunStart(init, j);
      var i :| 0 <= i < |init| && RunStart(init, i) && Important(init)[j] == init[i];
      assert init[i] == es[i] && (i > 0 ==> init[i - 1] == es[i - 1]);
      assert RunStart(es, i) && Important(es)[j] == es[i];
    } else {
      assert RunStart(es, n) && Important(es)[j] == es[n];
    }
  }

  /** Every run start is yielded. */
  lemma {:induction false} RunStartsAreImportant(es: seq<Entry>)
    ensures forall i :: 0 <= i < |es| && RunStart(es, i) ==> es[i] in Important(es)
    decreases |es|
  {
    if |es| > 0 {
      var n := |es| - 1;
      var init := es[..n];
      RunStartsAreImportant(init);
      forall i | 0 <= i < |es| && RunStart(es, i) ensures es[i] in Important(es) {
        if i < n {
          assert init[i] == es[i] && (i > 0 ==> init[i - 1] == es[i - 1]);
          assert RunStart(init, i);
        }
      }
    }
  }

  /** Two rows yielded one after the other never share a version. */
  lemma {:induction false} ImportantNeighboursDiffer(es: seq<Entry>)
    ensures forall j :: 0 < j < |Important(es)| ==> Important(es)[j].version != Important(es)[j - 1].version
    decreases |es|
  {
    if |es| > 0 {
      var n := |es| - 1;
      var init := es[..n];
      ImportantNeighboursDiffer(init);
      if RunStart(es, n) && n > 0 {
        ImportantLast(init);
        assert es[n - 1] == init[n - 1];
      }
    }
  }

  /** The indices of the rows that start a run, from first to last. */
  function RunStarts(es: seq<Entry>): (ix: seq<nat>)
    ensures |ix| <= |es|
    ensures forall j :: 0 <= j < |ix| ==> ix[j] < |es|
    decreases |es|
  {
    if |es| == 0 then []
    else
      var n := |es| - 1;
      RunStarts(es[..n]) + if RunStart(es, n) then [n] else []
  }

  /** The indices listed are increasing and are exactly those of the rows that start a run. */
  lemma {:induction false} RunStartsAreRuns(es: seq<Entry>)
    ensures forall j :: 0 <= j < |RunStarts(es)| ==> RunStart(es, RunStarts(es)[j])
    ensures forall j, j' :: 0 <= j < j' < |RunStarts(es)| ==> RunStarts(es)[j] < RunStarts(es)[j']
    ensures forall i :: 0 <= i < |es| && RunStart(es, i) ==> i in RunStarts(es)
    decreases |es|
  {
    if |es| > 0 {
      var n := |es| - 1;
      var init := es[..n];
      RunStartsAreRuns(init);
      var ix := RunStarts(es);
      assert ix[..|RunStarts(init)|] == RunStarts(init);
      forall i | 0 <= i < n ensures RunStart(es, i) == RunStart(init, i) {
        assert init[i] == es[i] && (i > 0 ==> init[i - 1] == es[i - 1]);
      }
      forall j | 0 <= j < |ix| ensures RunStart(es, ix[j]) {
        if j < |RunStarts(init)| {
          assert ix[j] == RunStarts(init)[j];
        }
      }
    }
  }

  /**
   * `_important_revisions` yields the rows at the run starts, in order: the
   * input with the other rows left out, and one output per run.
   */
  lemma {:induction false} ImportantAtRunStarts(es: seq<Entry>)
    ensures |Important(es)| == |RunStarts(es)|
    ensures forall j :: 0 <= j < |RunStarts(es)| ==> Important(es)[j] == es[RunStarts(es)[j]]
    decreases |es|
  {
    if |es| > 0 {
      var n := |es| - 1;
      var init := es[..n];
      ImportantAtRunStarts(init);
      var ix := RunStarts(es);
      forall j | 0 <= j < |ix| ensures Important(es)[j] == es[ix[j]] {
        if j < |RunStarts(init)| {
          assert ix[j] == RunStarts(init)[j];
          assert Important(es)[j] == Important(init)[j];
          assert init[ix[j]] == es[ix[j]];
        }
      }
    }
  }

  /**
   * The same selection defined from the front, as `uniq` does it: of two
   * neighbouring rows with the same version the second is dropped, so each
   * run collapses onto its first row.
   */
  function Collapse(es: seq<Entry>): seq<Entry>
    decreases |es|
  {
    if |es| <= 1 then es
    else if es[0].version == es[1].version then Collapse([es[0]] + es[2..])
    else [es[0]] + Collapse(es[1..])
  }

  /** Collapsing one more row at the end keeps it exactly when its version differs from the row before. */
  lemma {:induction false} CollapseStep(es: seq<Entry>, e: Entry)
    ensures Collapse(es + [e]) == Collapse(es) + if |es| == 0 || e.version != es[|es| - 1].version then [e] else []
    decreases |es|
  {
    if |es| == 1 {
      assert (es + [e])[2..] == [];
      assert (es + [e])[1..] == [e];
      assert [es[0]] + [] == es;
    } else if |es| >= 2 {
      var a, b, r := es[0], es[1], es[2..];
      assert es + [e] == [a, b] + (r + [e]);
      if a.version == b.version {
        var shorter := [a] + r;
        assert (es + [e])[2..] == r + [e];
        assert [a] + (r + [e]) == shorter + [e];
        CollapseStep(shorter, e);
        assert shorter[|shorter| - 1].version == es[|es| - 1].version;
      } else {
        var rest := es[1..];
        assert (es + [e])[1..] == rest + [e];
        CollapseStep(rest, e);
        assert rest[|rest| - 1] == es[|es| - 1];
      }
    }
  }

  /** `_important_revisions` yields what collapsing the runs of equal versions leaves. */
  lemma {:induction false} ImportantIsCollapse(es: seq<Entry>)
    ensures Important(es) == Collapse(es)
    decreases |es|
  {
    if |es| > 0 {
      var n := |es| - 1;
      var init, last := es[..n], es[n];
      assert init + [last] == es;
      ImportantIsCollapse(init);
      ImportantStep(init, last);
      CollapseStep(init, last);
    }
  }

  /** A versions file whose version goes 1.1, 1.1, 1.0, 1.1 down the log yields its first, third and fourth rows. */
  lemma {:induction false} ImportantExample()
    ensures Important([Entry("r5", "1.1", ["A"]), Entry("r4", "1.1", ["A", "B"]),
                       Entry("r3", "1.0", ["A"]), Entry("r2", "1.1", ["C"])])
              == [Entry("r5", "1.1", ["A"]), Entry("r3", "1.0", ["A"]), Entry("r2", "1.1", ["C"])]
  {
    var es := [Entry("r5", "1.1", ["A"]), Entry("r4", "1.1", ["A", "B"]),
               Entry("r3", "1.0", ["A"]), Entry("r2", "1.1", ["C"])];
    assert es[..3][..2][..1] == [es[0]];
    assert Important([es[0]]) == [es[0]];
    assert Important(es[..3][..2]) == [es[0]];
    assert Important(es[..3]) == [es[0], es[2]];
  }

  /**
   * `_important_revisions(dependency_file)`: unpacks the rows in order and
   * returns what the generator yields before it stops, and where it stops:
   * at the first row that does not unpack (a ValueError), or at the end.
   */
  method ImportantRevisions(lines: seq<string>) returns (records: seq<Entry>, stop: nat)
    ensures stop == FirstMalformed(Rows(lines))
    ensures records == Important(Parsed(Rows(lines)))
  {
    ghost var rows := Rows(lines);
    var oldVersion: Wrappers.Option<string> := Wrappers.None;
    records := [];
    stop := 0;
    while stop < |lines|
      invariant stop <= |lines|
      invariant forall i :: 0 <= i < stop ==> WellFormed(rows[i])
      invariant |Parsed(rows[..stop])| == stop
      invariant records == Important(Parsed(rows[..stop]))
      invariant oldVersion == if stop == 0 then Wrappers.None else Wrappers.Some(Parsed(rows[..stop])[stop - 1].version)
    {
      var f := Fields(lines[stop]);
      assert f == rows[stop];
      if |f| != 3 {
        break;
      }
      ghost var es := Parsed(rows[..stop]);
      ParsedStep(rows, stop);
      ImportantStep(es, ToEntry(f));
      if oldVersion != Wrappers.Some(f[1]) {
        oldVersion := Wrappers.Some(f[1]);
        records := records + [Entry(f[0], f[1], Text.Split(f[2], ','))];
      }
      stop := stop + 1;
    }
    FirstMalformedIsFirst(rows, stop);
    ParsedStops(rows, stop);
  }

  // ------------------------------------------------ get_version_at_rev (lines 16-28)

  /** `"# Could not find %s at r%s" % (package, revision)` */
  function NotFound(package: string, revision: string): string {
    "# Could not find " + package + " at r" + revision
  }

  /** The four fields of a found version: package, version, its dependency file and its tarball. */
  function RecordFields(package: string, version: string): seq<string> {
    [package, version, package + "_" + version + "_dependencies.txt", package + "_" + version + ".tar.gz"]
  }

  /** The tab-joined record `get_version_at_rev` returns for a found version. */
  function Record(package: string, version: string): string {
    Text.Join(RecordFields(package, version), '\t')
  }

  /** The record splits back on tabs into its four fields when neither name holds a tab. */
  lemma {:induction false} RecordParsesBack(package: string, version: string)
    requires '\t' !in package && '\t' !in version
    ensures Text.Split(Record(package, version), '\t') == RecordFields(package, version)
  {
    var fs := RecordFields(package, version);
    forall i | 0 <= i < |fs| ensures '\t' !in fs[i] {
      assert '\t' !in "_dependencies.txt" && '\t' !in ".tar.gz" && '\t' !in "_";
    }
    Text.SplitJoin(fs, '\t');
  }

  /** The first line starting with `prefix`, if any. */
  function FirstMatch(lines: seq<string>, prefix: string): (r: Wrappers.Option<nat>)
    ensures r.Some? ==> r.value < |lines|
  {
    if |lines| == 0 then Wrappers.None
    else if Text.StartsWith(lines[0], prefix) then Wrappers.Some(0)
    else
      match FirstMatch(lines[1..], prefix)
      case None => Wrappers.None
      case Some(i) => Wrappers.Some(i + 1)
  }

  /** The line found starts with the prefix and no line before it does; when none is found, no line does. */
  lemma {:induction false} FirstMatchIsFirst(lines: seq<string>, prefix: string)
    ensures var r := FirstMatch(lines, prefix);
            (r.Some? ==> Text.StartsWith(lines[r.value], prefix)
                         && forall j :: 0 <= j < r.value ==> !Text.StartsWith(lines[j], prefix))
            && (r.None? ==> forall j :: 0 <= j < |lines| ==> !Text.StartsWith(lines[j], prefix))
    decreases |lines|
  {
    if |lines| > 0 && !Text.StartsWith(lines[0], prefix) {
      FirstMatchIsFirst(lines[1..], prefix);
      assert forall j :: 0 < j < |lines| ==> lines[j] == lines[1..][j - 1];
    }
  }

  /** A line that starts with the prefix and follows none that does is the one found. */
  lemma {:induction false} FirstMatchAt(lines: seq<string>, prefix: string, i: nat)
    requires i < |lines| && Text.StartsWith(lines[i], prefix)
    requires forall j :: 0 <= j < i ==> !Text.StartsWith(lines[j], prefix)
    ensures FirstMatch(lines, prefix) == Wrappers.Some(i)
    decreases i
  {
    if i > 0 {
      assert forall j :: 0 <= j < i - 1 ==> lines[1..][j] == lines[j + 1];
      FirstMatchAt(lines[1..], prefix, i - 1);
    }
  }

  /** `os.path.join(archive_dir, package + '_versions_full.txt')` */
  function VersionsFile(dir: string, package: string): string {
    Paths.Join(dir, package + "_versions_full.txt")
  }

  /**
   * `get_version_at_rev(package, revision, archive_dir=dir)` against the
   * files `files`: the package's versions file is opened and searched for
   * the first line starting with the revision and a tab. That line's
   * second field is the version. A missing file, or a matching line with
   * fewer than two fields, gives the "Could not find" message; no matching
   * line gives None.
   */
  function VersionAtRev(package: string, revision: string, dir: string, files: map<string, string>): Wrappers.Option<string> {
    var path := VersionsFile(dir, package);
    if path !in files then Wrappers.Some(NotFound(package, revision))
    else ScanVersions(package, revision, Text.FileLines(files[path]))
  }

  /**
   * The `for line in handle` loop: the first line starting with the
   * revision and a tab gives the record of its second field, or the "Could
   * not find" message when it has none; when no line matches the loop
   * falls through and the function returns None.
   */
  function ScanVersions(package: string, revision: string, lines: seq<string>): Wrappers.Option<string> {
    match FirstMatch(lines, revision + "\t")
    case None => Wrappers.None
    case Some(i) =>
      var f := Fields(lines[i]);
      if |f| < 2 then Wrappers.Some(NotFound(package, revision)) else Wrappers.Some(Record(package, f[1]))
  }

  /** No line of the versions file starts with the revision and a tab. */
  predicate Unlisted(revision: string, lines: seq<string>) {
    forall j :: 0 <= j < |lines| ==> !Text.StartsWith(lines[j], revision + "\t")
  }

  /** The scan gives None exactly when no line starts with the revision and a tab. */
  lemma {:induction false} ScanIsNone(package: string, revision: string, lines: seq<string>)
    ensures ScanVersions(package, revision, lines).None? <==> Unlisted(revision, lines)
  {
    FirstMatchIsFirst(lines, revision + "\t");
  }

  /** The lookup gives None exactly when the versions file exists and no line of it starts with the revision and a tab. */
  lemma {:induction false} VersionAtRevIsNone(package: string, revision: string, dir: string, files: map<string, string>)
    ensures VersionAtRev(package, revision, dir, files).None? <==>
              VersionsFile(dir, package) in files && Unlisted(revision, Text.FileLines(files[VersionsFile(dir, package)]))
  {
    var path := VersionsFile(dir, package);
    if path in files {
      ScanIsNone(package, revision, Text.FileLines(files[path]));
    }
  }

  /**
   * A found version is the second field of the FIRST line that starts with
   * the revision and a tab, and the record splits back into the package,
   * that version, and the two file names built from them.
   */
  lemma {:induction false} VersionAtRevFound(package: string, revision: string, dir: string, files: map<string, string>, i: nat)
    requires '\t' !in package
    requires VersionsFile(dir, package) in files
    requires var lines := Text.FileLines(files[VersionsFile(dir, package)]);
             i < |lines| && Text.StartsWith(lines[i], revision + "\t")
             && (forall j :: 0 <= j < i ==> !Text.StartsWith(lines[j], revision + "\t"))
             && |Fields(lines[i])| >= 2
    ensures var lines := Text.FileLines(files[VersionsFile(dir, package)]);
            var r := VersionAtRev(package, revision, dir, files);
            r.Some? && Text.Split(r.value, '\t') == RecordFields(package, Fields(lines[i])[1])
  {
    var lines := Text.FileLines(files[VersionsFile(dir, package)]);
    var v := Fields(lines[i])[1];
    FirstMatchAt(lines, revision + "\t", i);
    assert '\t' !in v;
    RecordParsesBack(package, v);
  }

  /** A package without a versions file is reported, not dropped. */
  lemma {:induction false} MissingVersionsFile(package: string, revision: string, dir: string, files: map<string, string>)
    requires VersionsFile(dir, package) !in files
    ensures VersionAtRev(package, revision, dir, files) == Wrappers.Some("# Could not find " + package + " at r" + revision)
  {
  }

  /**
   * A first matching line that has no second field once stripped makes
   * `split('\t')[1]` raise IndexError, which the `except` turns into the
   * "Could not find" message.
   */
  lemma {:induction false} VersionAtRevShortLine(package: string, revision: string, dir: string, files: map<string, string>, i: nat)
    requires VersionsFile(dir, package) in files
    requires var lines := Text.FileLines(files[VersionsFile(dir, package)]);
             i < |lines| && Text.StartsWith(lines[i], revision + "\t")
             && (forall j :: 0 <= j < i ==> !Text.StartsWith(lines[j], revision + "\t"))
             && |Fields(lines[i])| < 2
    ensures VersionAtRev(package, revision, dir, files) == Wrappers.Some(NotFound(package, revision))
  {
    FirstMatchAt(Text.FileLines(files[VersionsFile(dir, package)]), revision + "\t", i);
  }

  /** `"r5\t\n".rstrip()` is "r5": the tab goes with the newline. */
  lemma {:induction false} ShortLineStripRight()
    ensures Text.StripRight("r5\t\n") == "r5"
  {
    assert "r5\t\n"[..3] == "r5\t";
    assert "r5\t"[..2] == "r5";
    assert Text.StripRight("r5") == "r5";
  }

  /** `"r5\t\n".strip()` is "r5": nothing leads, and the tab goes with the newline. */
  lemma {:induction false} ShortLineStrip()
    ensures Text.Strip("r5\t\n") == "r5"
  {
    assert Text.StripLeft("r5\t\n") == "r5\t\n";
    ShortLineStripRight();
  }

  /** `"r5".split('\t')` is the single field "r5". */
  lemma {:induction false} ShortLineSplit()
    ensures Text.Split("r5", '\t') == ["r5"]
  {
    assert "r5"[1..] == "5" && "5"[1..] == "";
    assert Text.Split("", '\t') == [""];
    assert ['5'] + "" == "5" && [""][1..] == [];
    assert Text.Split("5", '\t') == [['5'] + ""] + [""][1..];
    assert "r5"[0] == 'r' && ['r'] + "5" == "r5" && ["5"][1..] == [];
  }

  /** The line "r5\t\n" matches revision "r5" but strips to the single field "r5", so it gives "Could not find". */
  lemma {:induction false} ShortLineExample()
    ensures Fields("r5\t\n") == ["r5"]
    ensures Text.StartsWith("r5\t\n", "r5" + "\t")
  {
    ShortLineStrip();
    ShortLineSplit();
    assert "r5\t\n"[..3] == "r5\t";
  }

  // ------------------------------------------------ main (lines 31-40)

  /** How `main` ends: normally, with the ValueError of a row that does not unpack, or with the TypeError of joining a None. */
  datatype Status = Done | ValueError(row: nat) | TypeError(version: string)

  const VersionsSuffix: string := "_versions_full.txt"

  /** `os.path.basename(name).replace('_versions_full.txt', '')` */
  function PackageName(name: string): string {
    Text.RemoveAll(Paths.Basename(name), VersionsSuffix)
  }

  /** The versions file of a package is named after it, so the package name is recovered from the file name. */
  lemma {:induction false} PackageNameOfVersionsFile(dir: string, package: string)
    requires '/' !in package
    requires forall i :: 0 <= i < |package| ==> !Text.OccursAt(package + VersionsSuffix, i, VersionsSuffix)
    ensures PackageName(VersionsFile(dir, package)) == package
  {
    assert '/' !in package + VersionsSuffix;
    Paths.BasenameOfJoin(dir, package + VersionsSuffix);
    Text.RemoveAllSuffix(package, VersionsSuffix);
  }

  /**
   * `main` works beside its input: for `<dir>/<package>_versions_full.txt`,
   * `package_dir` is `dir`, so the dependency files are written there and
   * the lookups read the other packages' versions files from there.
   */
  lemma {:induction false} MainWorksBesideInput(dir: string, package: string)
    requires Paths.NeedsSeparator(dir) && '/' !in package
    ensures Paths.Dirname(VersionsFile(dir, package)) == dir
  {
    var entry := package + VersionsSuffix;
    assert '/' !in entry;
    Paths.DirnameOfJoin(dir, entry);
  }

  /** `os.path.join(package_dir, '%s_%s_dependencies.txt' % (package_file, version))` */
  function OutputFile(dir: string, package: string, version: string): string {
    Paths.Join(dir, package + "_" + version + "_dependencies.txt")
  }

  /** A joined path ends with its last component: the character `k` places from its end is that component's. */
  lemma {:induction false} JoinEndsWith(dir: string, name: string, k: nat)
    requires 0 < k <= |name|
    ensures |Paths.Join(dir, name)| >= |name|
    ensures Paths.Join(dir, name)[|Paths.Join(dir, name)| - k] == name[|name| - k]
  {
  }

  /** No file `main` writes is a versions file that a lookup reads: the one ends in `_dependencies.txt`, the other in `_versions_full.txt`. */
  lemma {:induction false} OutputsAreNotInputs(dir: string, package: string, version: string, dir': string, package': string)
    ensures OutputFile(dir, package, version) != VersionsFile(dir', package')
  {
    var out, suffix := package + "_" + version + "_dependencies.txt", package' + VersionsSuffix;
    JoinEndsWith(dir, out, 17);
    JoinEndsWith(dir', suffix, 17);
    assert out[|out| - 17] == '_';
    assert suffix[|suffix| - 17] == 'v';
  }

  /** `[get_version_at_rev(x, rev, archive_dir=package_dir) for x in deps]` */
  function Lookups(deps: seq<string>, revision: string, dir: string, files: map<string, string>): seq<Wrappers.Option<string>> {
    seq(|deps|, i requires 0 <= i < |deps| => VersionAtRev(deps[i], revision, dir, files))
  }

  /** `'\n'.join(...)` succeeds: no lookup gave None. */
  predicate AllFound(xs: seq<Wrappers.Option<string>>) {
    forall i :: 0 <= i < |xs| ==> xs[i].Some?
  }

  function Values(xs: seq<Wrappers.Option<string>>): (vs: seq<string>)
    requires AllFound(xs)
    ensures |vs| == |xs| && forall i :: 0 <= i < |xs| ==> xs[i] == Wrappers.Some(vs[i])
  {
    seq(|xs|, i requires 0 <= i < |xs| => xs[i].value)
  }

  /** The lookups for row `e` can all be joined. */
  predicate Joinable(dir: string, e: Entry, files: map<string, string>) {
    AllFound(Lookups(e.deps, e.rev, dir, files))
  }

  /** What ends up in the dependency file of row `e`: the joined lookups, or nothing when the join raised after `open(..., 'w')`. */
  function Body(dir: string, e: Entry, files: map<string, string>): string {
    var xs := Lookups(e.deps, e.rev, dir, files);
    if AllFound(xs) then Text.Join(Values(xs), '\n') else ""
  }

  /** The joined file splits back, line by line, into the lookups, when none of them holds a newline. */
  lemma {:induction false} BodyLines(dir: string, e: Entry, files: map<string, string>)
    requires Joinable(dir, e, files) && |e.deps| > 0
    requires forall i :: 0 <= i < |Lookups(e.deps, e.rev, dir, files)| ==> '\n' !in Lookups(e.deps, e.rev, dir, files)[i].value
    ensures Text.Split(Body(dir, e, files), '\n') == Values(Lookups(e.deps, e.rev, dir, files))
  {
    Text.SplitJoin(Values(Lookups(e.deps, e.rev, dir, files)), '\n');
  }

  /** The index of the first row whose lookups cannot be joined, `|es|` if all can. */
  function FirstUnjoinable(dir: string, es: seq<Entry>, files: map<string, string>): (k: nat)
    ensures k <= |es|
  {
    if |es| == 0 || !Joinable(dir, es[0], files) then 0 else 1 + FirstUnjoinable(dir, es[1..], files)
  }

  lemma {:induction false} FirstUnjoinableIsFirst(dir: string, es: seq<Entry>, files: map<string, string>, k: nat)
    requires k <= |es|
    requires forall i :: 0 <= i < k ==> Joinable(dir, es[i], files)
    requires k < |es| ==> !Joinable(dir, es[k], files)
    ensures FirstUnjoinable(dir, es, files) == k
    decreases k
  {
    if k > 0 {
      FirstUnjoinableIsFirst(dir, es[1..], files, k - 1);
    }
  }

  /** Scanning on from a row before the first unjoinable one: the scan stops at row `k` exactly when row `k` cannot be joined. */
  lemma {:induction false} FirstUnjoinableFrom(dir: string, es: seq<Entry>, files: map<string, string>, k: nat)
    requires k <= FirstUnjoinable(dir, es, files)
    ensures FirstUnjoinable(dir, es, files) == k <==> k == |es| || !Joinable(dir, es[k], files)
    decreases k
  {
    if k > 0 {
      FirstUnjoinableFrom(dir, es[1..], files, k - 1);
    }
  }

  /** The files after applying the first `n` of `writes`, in order, to `written`; a write replaces the whole file. */
  function Applied(written: map<string, string>, writes: seq<(string, string)>, n: nat): map<string, string>
    requires n <= |writes|
  {
    if n == 0 then written else Applied(written, writes, n - 1)[writes[n - 1].0 := writes[n - 1].1]
  }

  /** The write each row makes: its dependency file, with its body. */
  function Writes(dir: string, package: string, es: seq<Entry>, files: map<string, string>): (ws: seq<(string, string)>)
    ensures |ws| == |es|
  {
    if |es| == 0 then []
    else
      var n := |es| - 1;
      Writes(dir, package, es[..n], files) + [(OutputFile(dir, package, es[n].version), Body(dir, es[n], files))]
  }

  /** The files after the loop of `main` over `es`: every row up to and including the first unjoinable one writes its file. */
  function Rewritten(written: map<string, string>, dir: string, package: string, es: seq<Entry>,
                     files: map<string, string>): map<string, string> {
    var k := FirstUnjoinable(dir, es, files);
    Applied(written, Writes(dir, package, es, files), if k < |es| then k + 1 else k)
  }

  /** Row `k` writes its body to its dependency file. */
  lemma {:induction false} WritesAt(dir: string, package: string, es: seq<Entry>, files: map<string, string>, k: nat)
    requires k < |es|
    ensures Writes(dir, package, es, files)[k] == (OutputFile(dir, package, es[k].version), Body(dir, es[k], files))
    decreases |es|
  {
    var n := |es| - 1;
    if k < n {
      WritesAt(dir, package, es[..n], files, k);
    }
  }

  /** A file exists after the writes exactly when it existed before or one of them wrote it. */
  lemma {:induction false} AppliedPaths(written: map<string, string>, writes: seq<(string, string)>, n: nat, path: string)
    requires n <= |writes|
    ensures path in Applied(written, writes, n) <==> path in written || exists i :: 0 <= i < n && writes[i].0 == path
    decreases n
  {
    if n > 0 {
      AppliedPaths(written, writes, n - 1, path);
    }
  }

  /** A file holds what the LAST write to it put there, since `open(..., 'w')` truncates. */
  lemma {:induction false} LastWriteWins(written: map<string, string>, writes: seq<(string, string)>, n: nat, i: nat)
    requires i < n <= |writes|
    requires forall j :: i < j < n ==> writes[j].0 != writes[i].0
    ensures writes[i].0 in Applied(written, writes, n) && Applied(written, writes, n)[writes[i].0] == writes[i].1
    decreases n
  {
    if i < n - 1 {
      LastWriteWins(written, writes, n - 1, i);
    }
  }

  /** A file no write touches keeps its old contents. */
  lemma {:induction false} UnwrittenKept(written: map<string, string>, writes: seq<(string, string)>, n: nat, path: string)
    requires n <= |writes| && path in written
    requires forall i :: 0 <= i < n ==> writes[i].0 != path
    ensures path in Applied(written, writes, n) && Applied(written, writes, n)[path] == written[path]
    decreases n
  {
    if n > 0 {
      UnwrittenKept(written, writes, n - 1, path);
    }
  }

  /** Consecutive rows yielded by the generator write different files. */
  lemma {:induction false} NeighboursWriteApart(dir: string, package: string, rows: seq<Entry>, j: nat)
    requires 0 < j < |Important(rows)|
    ensures var es := Important(rows);
            OutputFile(dir, package, es[j].version) != OutputFile(dir, package, es[j - 1].version)
  {
    var es := Important(rows);
    ImportantNeighboursDiffer(rows);
    OutputNamesVersion(dir, package, es[j].version, es[j - 1].version);
  }

  /** Within one directory and package, the file name determines the version. */
  lemma {:induction false} OutputNamesVersion(dir: string, package: string, v: string, w: string)
    requires v != w
    ensures OutputFile(dir, package, v) != OutputFile(dir, package, w)
  {
    var a, b := package + "_" + v + "_dependencies.txt", package + "_" + w + "_dependencies.txt";
    if |v| != |w| {
      assert |a| != |b|;
    } else {
      var k :| 0 <= k < |v| && v[k] != w[k];
      assert a[|package| + 1 + k] == v[k] && b[|package| + 1 + k] == w[k];
    }
    assert a[..1] == b[..1];
    JoinInjective(dir, a, b);
  }

  /** Two different names, both absolute or both relative, joined onto one directory give different paths. */
  lemma {:induction false} JoinInjective(dir: string, a: string, b: string)
    requires a != b
    requires Text.StartsWith(a, "/") == Text.StartsWith(b, "/")
    ensures Paths.Join(dir, a) != Paths.Join(dir, b)
  {
    var pre := if Paths.NeedsSeparator(dir) then dir + "/" else dir;
    if !Text.StartsWith(a, "/") {
      var p, q := Paths.Join(dir, a), Paths.Join(dir, b);
      assert p == pre + a && q == pre + b;
      assert p[|pre|..] == a && q[|pre|..] == b;
    }
  }

  /**
   * The file system `main` works in: the files it reads and the files it
   * writes.
   */
  class FileStore {
    const inputs: map<string, string>
    var written: map<string, string>

    constructor (inputs: map<string, string>)
      ensures this.inputs == inputs && written == map[]
    {
      this.inputs := inputs;
      written := map[];
    }

    /**
     * `main(dependency_file)` for the versions file at `name`: for each
     * important revision, in order, `<package>_<version>_dependencies.txt`
     * in the same directory is (re)written with the joined lookups of the
     * row's dependencies. A lookup that gave None makes the join raise
     * after the file was truncated, and nothing further is written; a row
     * that does not unpack raises once the rows before it are done.
     */
    method GenerateDependencyFiles(name: string) returns (status: Status)
      requires name in inputs
      modifies this
      ensures var package, dir := PackageName(name), Paths.Dirname(name);
              var rows := Rows(Text.FileLines(inputs[name]));
              var stop := FirstMalformed(rows);
              var es := Important(Parsed(rows));
              var k := FirstUnjoinable(dir, es, inputs);
              written == Rewritten(old(written), dir, package, es, inputs)
              && status == if k < |es| then TypeError(es[k].version) else if stop < |rows| then ValueError(stop) else Done
    {
      var package := PackageName(name);
      var dir := Paths.Dirname(name);
      var lines := Text.FileLines(inputs[name]);
      var records, stop := ImportantRevisions(lines);
      var k := WriteDependencyFiles(dir, package, records);
      status := if k < |records| then TypeError(records[k].version) else if stop < |lines| then ValueError(stop) else Done;
    }

    /**
     * The loop of `main`: writes the dependency file of each row in turn,
     * stopping after the first one whose lookups cannot be joined, and
     * returns that row's index (`|records|` when every file was written in
     * full).
     */
    method WriteDependencyFiles(dir: string, package: string, records: seq<Entry>) returns (k: nat)
      modifies this
      ensures k == FirstUnjoinable(dir, records, inputs)
      ensures written == Rewritten(old(written), dir, package, records, inputs)
    {
      ghost var written0 := written;
      k := 0;
      while k < |records|
        invariant k <= |records|
        invariant k <= FirstUnjoinable(dir, records, inputs)
        invariant written == Applied(written0, Writes(dir, package, records, inputs), k)
      {
        WritesAt(dir, package, records, inputs, k);
        var joined := WriteDependencyFile(dir, package, records[k]);
        FirstUnjoinableFrom(dir, records, inputs, k);
        if !joined {
          return;
        }
        k := k + 1;
      }
      FirstUnjoinableFrom(dir, records, inputs, k);
    }

    /**
     * One iteration of that loop: the row's dependency file is opened for
     * writing (emptied) and receives the joined lookups; `joined` is false
     * when a lookup gave None, so that the join raised and the file stays
     * empty.
     */
    method WriteDependencyFile(dir: string, package: string, r: Entry) returns (joined: bool)
      modifies this
      ensures joined == Joinable(dir, r, inputs)
      ensures written == old(written)[OutputFile(dir, package, r.version) := Body(dir, r, inputs)]
    {
      var path := OutputFile(dir, package, r.version);
      var looked := Lookups(r.deps, r.rev, dir, inputs);
      if !AllFound(looked) {
        written := written[path := ""];
        return false;
      }
      written := written[path := Text.Join(Values(looked), '\n')];
      return true;
    }
  }
}
