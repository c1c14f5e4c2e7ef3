/**
 * aRchive.py: the revision walk that turns a package's svn history into
 * one archive directory `archive_dir/<package>/<version>` per version seen
 * in that history, and the driver that runs it over every package of the
 * Bioconductor working copy.
 *
 * The svn working copy is a scripted fake: for every package directory,
 * the text `svn log -q` prints, what `get_package_version` finds in
 * DESCRIPTION at HEAD, and what it finds at each revision that
 * `svn update -r` can reach. The archive on disk is a map from the
 * directory's key (package, version) to the revision whose tree was
 * copied into it.
 */
module Archive {
  import Text
  import Paths

  /** `archive_dir/<package>/<version>`, identified by (package, version). */
  type Key = (string, string)

  /** Where one package's working copy stands: HEAD, or a historical revision. */
  datatype Checkout = Head | At(id: string)

  /**
   * DESCRIPTION at one checkout: absent (the `os.path.exists` test fails),
   * present but `get_package_version` raises (not YAML, no `Version`), or
   * declaring a version.
   */
  datatype Description = Missing | Malformed | Declares(version: string)

  /**
   * One package directory of the fake working copy: the `svn log -q`
   * output, DESCRIPTION at HEAD, and DESCRIPTION at every revision that
   * `svn update -r` reaches (a revision absent from `at` makes the update
   * raise).
   */
  datatype PackageScript = PackageScript(log: string, head: Description, at: map<string, Description>)

  /** The exceptions `makeVersion` lets escape. */
  datatype Error =
    | NotAWorkingCopy                      // `os.chdir` or `svn log` raises
    | DescriptionMissing(where: Checkout)  // `open(DESCRIPTION)` raises
    | DescriptionUnreadable(where: Checkout)
    | UpdateFailed(id: string)             // `svn update -r id` exits non-zero

  datatype Outcome = Completed | Raised(error: Error)

  /** What one call of `makeVersion` leaves behind: how it ended, the directories it made, the package's checkout. */
  datatype Walked = Walked(outcome: Outcome, snapshots: map<Key, string>, checkout: Checkout)

  // ------------------------------------------------ revision ids (lines 92-93)

  /** A line of `svn log -q` that names a revision. */
  predicate IsLogEntry(line: string) { Text.StartsWith(line, "r") }

  /** `[line.split()[0] for line in lines if line.startswith('r')]` */
  function RevisionIds(lines: seq<string>): (ids: seq<string>)
    ensures |ids| <= |lines|
  {
    if |lines| == 0 then []
    else
      var rest := RevisionIds(lines[1..]);
      if IsLogEntry(lines[0]) then [Text.FirstWord(lines[0])] + rest else rest
  }

  /**
   * Id `j` is the first whitespace-separated token of a line that starts
   * with 'r' (so it starts with 'r' itself and holds no whitespace).
   */
  lemma {:induction false} RevisionIdIsToken(lines: seq<string>, j: nat)
    requires j < |RevisionIds(lines)|
    ensures exists i :: 0 <= i < |lines| && IsLogEntry(lines[i]) && RevisionIds(lines)[j] == Text.FirstWord(lines[i])
    ensures Text.StartsWith(RevisionIds(lines)[j], "r")
    ensures forall k :: 0 <= k < |RevisionIds(lines)[j]| ==> !Text.IsSpace(RevisionIds(lines)[j][k])
    decreases |lines|
  {
    var tail := lines[1..];
    if IsLogEntry(lines[0]) && j == 0 {
      var w := Text.FirstWord(lines[0]);
      assert RevisionIds(lines)[0] == w;
      assert w[0] == 'r' by { assert !Text.IsSpace(lines[0][0]); }
      assert w[..1] == "r";
    } else {
      var offset := if IsLogEntry(lines[0]) then 1 else 0;
      assert RevisionIds(lines)[j] == RevisionIds(tail)[j - offset];
      RevisionIdIsToken(tail, j - offset);
      var i :| 0 <= i < |tail| && IsLogEntry(tail[i]) && RevisionIds(tail)[j - offset] == Text.FirstWord(tail[i]);
      assert tail[i] == lines[i + 1];
    }
  }

  /** The ids of two pieces of log are the ids of the first piece followed by those of the second: log order is kept. */
  lemma {:induction false} RevisionIdsAppend(a: seq<string>, b: seq<string>)
    ensures RevisionIds(a + b) == RevisionIds(a) + RevisionIds(b)
    decreases |a|
  {
    if |a| == 0 {
      assert a + b == b;
    } else {
      assert (a + b)[1..] == a[1..] + b;
      RevisionIdsAppend(a[1..], b);
    }
  }

  /** One line contributes its first token exactly when it starts with 'r'. */
  lemma {:induction false} RevisionIdsOfLine(line: string)
    ensures RevisionIds([line]) == if IsLogEntry(line) then [Text.FirstWord(line)] else []
  {
    assert [line][1..] == [];
  }

  /** The revisions the walk visits, in the order `svn log` prints them. */
  function LogIds(s: PackageScript): seq<string> {
    RevisionIds(Text.SplitLines(s.log))
  }

  // ------------------------------------------------ working-copy state

  /** The checkout of package `p` when the packages in `pinned` stand at those revisions and all others at HEAD. */
  function CheckoutOf(pinned: map<string, string>, p: string): Checkout {
    if p in pinned then At(pinned[p]) else Head
  }

  /** The pinned packages after package `p` was moved to checkout `c`. */
  function Moved(pinned: map<string, string>, p: string, c: Checkout): map<string, string> {
    match c
    case Head => pinned - {p}
    case At(id) => pinned[p := id]
  }

  /** After the move, `p` stands at `c` and every other package where it stood. */
  lemma {:induction false} MovedCheckout(pinned: map<string, string>, p: string, c: Checkout)
    ensures forall q :: CheckoutOf(Moved(pinned, p, c), q) == if q == p then c else CheckoutOf(pinned, q)
  {
  }

  lemma {:induction false} MovedNowhere(pinned: map<string, string>, p: string)
    ensures Moved(pinned, p, CheckoutOf(pinned, p)) == pinned
  {
    var m := Moved(pinned, p, CheckoutOf(pinned, p));
    assert forall q :: q in m <==> q in pinned;
  }

  /** `svn update -r` could have brought the working copy to `c`. */
  predicate Reachable(s: PackageScript, c: Checkout) {
    c.At? ==> c.id in s.at
  }

  /** Every pinned package is a package of the working copy, pinned at a revision it can reach. */
  predicate Consistent(repo: map<string, PackageScript>, pinned: map<string, string>) {
    forall p :: p in pinned ==> p in repo && pinned[p] in repo[p].at
  }

  /** Moving one package of the working copy to a checkout it can reach keeps the pinned packages consistent. */
  lemma {:induction false} MovedConsistent(repo: map<string, PackageScript>, pinned: map<string, string>, p: string, c: Checkout)
    requires Consistent(repo, pinned) && p in repo && Reachable(repo[p], c)
    ensures Consistent(repo, Moved(pinned, p, c))
  {
  }

  function DescriptionAt(s: PackageScript, c: Checkout): Description
    requires Reachable(s, c)
  {
    match c
    case Head => s.head
    case At(id) => s.at[id]
  }

  // ------------------------------------------------ the walk (lines 100-124)

  /** At revision `id` the loop raises: the update fails, or DESCRIPTION exists and cannot be read. */
  predicate Halts(s: PackageScript, id: string) {
    id !in s.at || s.at[id].Malformed?
  }

  /** The index of the first revision at which the loop raises, `|ids|` when there is none. */
  function FirstHalt(s: PackageScript, ids: seq<string>): (k: nat)
    ensures k <= |ids|
  {
    if |ids| == 0 || Halts(s, ids[0]) then 0 else 1 + FirstHalt(s, ids[1..])
  }

  /** The loop gets past every revision before the first halt, and halts there unless it ran out of revisions. */
  lemma {:induction false} FirstHaltIsFirst(s: PackageScript, ids: seq<string>, k: nat)
    requires k <= |ids|
    requires forall i :: 0 <= i < k ==> !Halts(s, ids[i])
    requires k < |ids| ==> Halts(s, ids[k])
    ensures FirstHalt(s, ids) == k
    decreases k
  {
    if k > 0 {
      FirstHaltIsFirst(s, ids[1..], k - 1);
    }
  }

  /** Conversely: no halt before `FirstHalt`, and a halt at it unless the log is exhausted. */
  lemma {:induction false} FirstHaltStops(s: PackageScript, ids: seq<string>)
    ensures forall i :: 0 <= i < FirstHalt(s, ids) ==> !Halts(s, ids[i])
    ensures FirstHalt(s, ids) < |ids| ==> Halts(s, ids[FirstHalt(s, ids)])
    decreases |ids|
  {
    if |ids| > 0 && !Halts(s, ids[0]) {
      FirstHaltStops(s, ids[1..]);
      forall i | 0 <= i < FirstHalt(s, ids) ensures !Halts(s, ids[i]) {
        if i > 0 { assert ids[i] == ids[1..][i - 1]; }
      }
    }
  }

  /** Revision `id` is one the loop copies, unless its directory exists: DESCRIPTION declares a version other than `latest`. */
  predicate Archivable(s: PackageScript, id: string, latest: string) {
    id in s.at && s.at[id].Declares? && s.at[id].version != latest
  }

  /** Revision `id` is one whose tree would go into directory `key` of package `name`. */
  predicate Contributes(name: string, s: PackageScript, id: string, latest: string, key: Key) {
    Archivable(s, id, latest) && key == (name, s.at[id].version)
  }

  /**
   * The directories that walking `ids` in order creates in an empty
   * archive, each with the revision copied into it: a directory is made
   * the first time its version is seen and skipped afterwards.
   */
  function Snapshots(name: string, s: PackageScript, ids: seq<string>, latest: string): map<Key, string> {
    if |ids| == 0 then map[]
    else
      var before := Snapshots(name, s, ids[..|ids| - 1], latest);
      var id := ids[|ids| - 1];
      if Archivable(s, id, latest) && (name, s.at[id].version) !in before then
        before[(name, s.at[id].version) := id]
      else before
  }

  /**
   * The directories are exactly the versions seen that differ from
   * `latest`, and each holds the tree of the FIRST revision, in log order,
   * that declared its version.
   */
  lemma {:induction false} SnapshotsAreFirstSightings(name: string, s: PackageScript, ids: seq<string>, latest: string)
    ensures forall key :: key in Snapshots(name, s, ids, latest) <==>
              exists i :: 0 <= i < |ids| && Contributes(name, s, ids[i], latest, key)
    ensures forall key :: key in Snapshots(name, s, ids, latest) ==>
              exists i :: 0 <= i < |ids| && Contributes(name, s, ids[i], latest, key)
                          && Snapshots(name, s, ids, latest)[key] == ids[i]
                          && forall j :: 0 <= j < i ==> !Contributes(name, s, ids[j], latest, key)
    decreases |ids|
  {
    if |ids| > 0 {
      var n := |ids| - 1;
      var init := ids[..n];
      SnapshotsAreFirstSightings(name, s, init, latest);
      var before := Snapshots(name, s, init, latest);
      var m := Snapshots(name, s, ids, latest);
      forall key
        ensures key in m <==> exists i :: 0 <= i < |ids| && Contributes(name, s, ids[i], latest, key)
      {
        if key in before {
          var i :| 0 <= i < |init| && Contributes(name, s, init[i], latest, key);
          assert init[i] == ids[i];
        }
        if exists i :: 0 <= i < |ids| && Contributes(name, s, ids[i], latest, key) {
          var i :| 0 <= i < |ids| && Contributes(name, s, ids[i], latest, key);
          if i < n { assert init[i] == ids[i]; }
        }
      }
      forall key | key in m
        ensures exists i :: 0 <= i < |ids| && Contributes(name, s, ids[i], latest, key)
                            && m[key] == ids[i]
                            && forall j :: 0 <= j < i ==> !Contributes(name, s, ids[j], latest, key)
      {
        if key in before {
          var i :| 0 <= i < |init| && Contributes(name, s, init[i], latest, key) && before[key] == init[i]
                   && forall j :: 0 <= j < i ==> !Contributes(name, s, init[j], latest, key);
          assert ids[i] == init[i];
          assert forall j :: 0 <= j < i ==> init[j] == ids[j];
        } else {
          assert Contributes(name, s, ids[n], latest, key) && m[key] == ids[n];
          forall j | 0 <= j < n ensures !Contributes(name, s, ids[j], latest, key) {
            assert init[j] == ids[j];
          }
        }
      }
    }
  }

  /**
   * Every directory belongs to package `name`, is for a version other than
   * `latest`, and holds a revision whose DESCRIPTION declares that version.
   */
  lemma {:induction false} SnapshotsDeclare(name: string, s: PackageScript, ids: seq<string>, latest: string)
    ensures forall key :: key in Snapshots(name, s, ids, latest) ==> key.0 == name && key.1 != latest
    ensures forall key :: key in Snapshots(name, s, ids, latest) ==>
              var id := Snapshots(name, s, ids, latest)[key]; id in s.at && s.at[id] == Declares(key.1)
    decreases |ids|
  {
    if |ids| > 0 {
      SnapshotsDeclare(name, s, ids[..|ids| - 1], latest);
    }
  }

  /**
   * A revision that copies nothing (no DESCRIPTION, or the version read
   * before the walk) can be taken out of the history without changing
   * which directories are made or what goes into them.
   */
  lemma {:induction false} IgnoredRevision(name: string, s: PackageScript, a: seq<string>, r: string, b: seq<string>, latest: string)
    requires !Archivable(s, r, latest)
    ensures Snapshots(name, s, a + [r] + b, latest) == Snapshots(name, s, a + b, latest)
    decreases |b|
  {
    if |b| == 0 {
      assert (a + [r] + b)[..|a|] == a;
      assert a + b == a;
    } else {
      var n := |b| - 1;
      IgnoredRevision(name, s, a, r, b[..n], latest);
      assert (a + [r] + b)[..|a + [r] + b| - 1] == a + [r] + b[..n];
      assert (a + b)[..|a + b| - 1] == a + b[..n];
    }
  }

  /**
   * `makeVersion` on package `name` whose working copy stands at `start`
   * (lines 92-124): the version read before the loop is read where the
   * working copy stands; the loop walks the log, creating a directory for
   * each newly seen version different from that one, and raises at the
   * first revision it cannot update to or whose DESCRIPTION it cannot read,
   * leaving the working copy where it got to; only a loop that runs to the
   * end brings the working copy back to HEAD.
   */
  function Walk(name: string, s: PackageScript, start: Checkout): Walked
    requires Reachable(s, start)
  {
    match DescriptionAt(s, start)
    case Missing => Walked(Raised(DescriptionMissing(start)), map[], start)
    case Malformed => Walked(Raised(DescriptionUnreadable(start)), map[], start)
    case Declares(latest) =>
      var ids := LogIds(s);
      var k := FirstHalt(s, ids);
      var e := LoopEnd(s, ids, k, start);
      Walked(e.0, Snapshots(name, s, ids[..k], latest), e.1)
  }

  /**
   * How the loop ends when it stops at index `k` of `ids` (`|ids|` when it
   * gets through them all): how `makeVersion` ends and where the working
   * copy is left. A failed update leaves it at the previous revision; an
   * unreadable DESCRIPTION at the revision just reached.
   */
  function LoopEnd(s: PackageScript, ids: seq<string>, k: nat, start: Checkout): (Outcome, Checkout)
    requires k <= |ids|
  {
    if k == |ids| then (Completed, Head)
    else if ids[k] in s.at then (Raised(DescriptionUnreadable(At(ids[k]))), At(ids[k]))
    else (Raised(UpdateFailed(ids[k])), if k == 0 then start else At(ids[k - 1]))
  }

  /**
   * The walk completes exactly when DESCRIPTION can be read where the
   * working copy starts and at no revision of the log the update fails or
   * DESCRIPTION is unreadable; then the working copy is back at HEAD and
   * the directories made are every version of the log other than the one
   * read first. Otherwise the working copy is left where the loop stopped.
   */
  lemma {:induction false} WalkCompletes(name: string, s: PackageScript, start: Checkout)
    requires Reachable(s, start)
    ensures var w := Walk(name, s, start);
            w.outcome == Completed <==>
              DescriptionAt(s, start).Declares? && forall i :: 0 <= i < |LogIds(s)| ==> !Halts(s, LogIds(s)[i])
    ensures var w := Walk(name, s, start);
            w.outcome == Completed ==>
              w.checkout == Head
              && forall key :: key in w.snapshots <==>
                   exists i :: 0 <= i < |LogIds(s)| && Contributes(name, s, LogIds(s)[i], DescriptionAt(s, start).version, key)
    ensures var w := Walk(name, s, start);
            w.outcome != Completed ==> w.checkout != Head || start == Head
    ensures Reachable(s, Walk(name, s, start).checkout)
  {
    var ids := LogIds(s);
    if DescriptionAt(s, start).Declares? {
      var latest := DescriptionAt(s, start).version;
      var k := FirstHalt(s, ids);
      FirstHaltStops(s, ids);
      assert ids[..k] == ids ==> k == |ids|;
      if k == |ids| {
        assert ids[..k] == ids;
        SnapshotsAreFirstSightings(name, s, ids, latest);
      } else {
        assert Halts(s, ids[k]);
      }
    }
  }

  /** The walk never makes a directory for the version it read before the loop, and makes none for another package. */
  lemma {:induction false} WalkSkipsLatest(name: string, s: PackageScript, start: Checkout)
    requires Reachable(s, start)
    requires DescriptionAt(s, start).Declares?
    ensures (name, DescriptionAt(s, start).version) !in Walk(name, s, start).snapshots
    ensures forall key :: key in Walk(name, s, start).snapshots ==> key.0 == name
  {
    var ids := LogIds(s);
    SnapshotsDeclare(name, s, ids[..FirstHalt(s, ids)], DescriptionAt(s, start).version);
  }

  /** A DESCRIPTION missing where the walk starts aborts the package before any directory is made. */
  lemma {:induction false} MissingDescriptionAbortsEarly(name: string, s: PackageScript, start: Checkout)
    requires Reachable(s, start)
    requires DescriptionAt(s, start) == Missing
    ensures Walk(name, s, start) == Walked(Raised(DescriptionMissing(start)), map[], start)
  {
  }

  /**
   * Skip-if-exists makes a rerun harmless. A walk from HEAD that completed
   * leaves the working copy at HEAD, so running it again reads the same
   * version first and walks the same log. Every directory it would make
   * then already exists in the archive, so the archive stays as it is.
   */
  lemma {:induction false} RerunAddsNothing(name: string, s: PackageScript, archive: map<Key, string>)
    requires Walk(name, s, Head).outcome == Completed
    ensures var w := Walk(name, s, Head);
            var after := w.snapshots + archive;
            var w2 := Walk(name, s, w.checkout);
            w2.outcome == Completed && w2.checkout == Head
            && (forall key :: key in w2.snapshots ==> key in after)
            && w2.snapshots + after == after
  {
    var w := Walk(name, s, Head);
    WalkCompletes(name, s, Head);
    assert w.checkout == Head;
  }

  /** The history of the worked example, newest first: r6 at 2.0, r5 and r4 at 1.1, no DESCRIPTION at r3, r1 at 1.0. */
  function ExampleHistory(): map<string, Description> {
    map["r6" := Declares("2.0"), "r5" := Declares("1.1"), "r4" := Declares("1.1"),
        "r3" := Missing, "r1" := Declares("1.0")]
  }

  /**
   * Directories 1.1 (holding r5, the newest 1.1 revision) and 1.0 are made
   * when the example history is walked with 2.0 read first.
   */
  lemma {:induction false} ExampleSnapshots(s: PackageScript)
    requires s.at == ExampleHistory()
    ensures Snapshots("pkg", s, ["r6", "r5", "r4", "r3", "r1"], "2.0")
              == map[("pkg", "1.1") := "r5", ("pkg", "1.0") := "r1"]
  {
    var ids := ["r6", "r5", "r4", "r3", "r1"];
    var m: map<Key, string> := map[("pkg", "1.1") := "r5"];
    assert ids[..0] == [];
    SnapshotsStep("pkg", s, ids, 0, "2.0");
    assert Snapshots("pkg", s, ids[..1], "2.0") == map[];
    SnapshotsStep("pkg", s, ids, 1, "2.0");
    assert Snapshots("pkg", s, ids[..2], "2.0") == m;
    SnapshotsStep("pkg", s, ids, 2, "2.0");
    assert Snapshots("pkg", s, ids[..3], "2.0") == m;
    SnapshotsStep("pkg", s, ids, 3, "2.0");
    assert Snapshots("pkg", s, ids[..4], "2.0") == m;
    SnapshotsStep("pkg", s, ids, 4, "2.0");
    WholePrefix(ids);
  }

  /** The first token of a space-free word followed by a space is that word. */
  lemma {:induction false} FirstWordOfToken(w: string, rest: string)
    requires forall i :: 0 <= i < |w| ==> !Text.IsSpace(w[i])
    requires |rest| > 0 && rest[0] == ' '
    ensures Text.FirstWord(w + rest) == w
    decreases |w|
  {
    if |w| > 0 {
      assert (w + rest)[1..] == w[1..] + rest;
      FirstWordOfToken(w[1..], rest);
      assert [w[0]] + w[1..] == w;
    }
  }

  /** One entry of `svn log -q`: a separator line, then the revision's line. */
  function LogEntry(id: string): string {
    "---" + "\n" + (id + " | nt") + "\n"
  }

  /** A revision's line holds no line break. */
  lemma {:induction false} EntryLinePlain(id: string)
    requires forall i :: 0 <= i < |id| ==> !Text.IsSpace(id[i])
    ensures forall i :: 0 <= i < |id + " | nt"| ==> !Text.IsLineBreak((id + " | nt")[i])
  {
    var line := id + " | nt";
    forall i | 0 <= i < |line| ensures !Text.IsLineBreak(line[i]) {
      if i < |id| { assert line[i] == id[i]; }
    }
  }

  /** Two break-free lines, each ended by a line feed, are cut into those two lines. */
  lemma {:induction false} TwoLines(first: string, line: string, rest: string)
    requires forall i :: 0 <= i < |first| ==> !Text.IsLineBreak(first[i])
    requires forall i :: 0 <= i < |line| ==> !Text.IsLineBreak(line[i])
    ensures Text.SplitLines(first + "\n" + line + "\n" + rest) == [first, line] + Text.SplitLines(rest)
  {
    assert first + "\n" + line + "\n" + rest == first + "\n" + (line + "\n" + rest);
    Text.SplitLinesCut(first, "\n", line + "\n" + rest);
    Text.SplitLinesCut(line, "\n", rest);
  }

  /** The two lines of an entry are cut at its two line feeds. */
  lemma {:induction false} LogEntryLines(id: string, rest: string)
    requires forall i :: 0 <= i < |id| ==> !Text.IsSpace(id[i])
    ensures Text.SplitLines(LogEntry(id) + rest) == ["---", id + " | nt"] + Text.SplitLines(rest)
  {
    EntryLinePlain(id);
    TwoLines("---", id + " | nt", rest);
  }

  /** The ids of the two lines of an entry: the entry's revision. */
  lemma {:induction false} LogEntryLineIds(id: string, tail: seq<string>)
    requires |id| > 0 && id[0] == 'r'
    requires forall i :: 0 <= i < |id| ==> !Text.IsSpace(id[i])
    ensures RevisionIds(["---", id + " | nt"] + tail) == [id] + RevisionIds(tail)
  {
    var line := id + " | nt";
    assert ["---", line] + tail == ["---"] + ([line] + tail);
    RevisionIdsAppend(["---"], [line] + tail);
    RevisionIdsAppend([line], tail);
    RevisionIdsOfLine("---");
    RevisionIdsOfLine(line);
    assert line[..1] == "r";
    FirstWordOfToken(id, " | nt");
  }

  /** The ids of a log that starts with one entry: that entry's revision, then the ids of the rest. */
  lemma {:induction false} LogEntryIds(id: string, rest: string)
    requires |id| > 0 && id[0] == 'r'
    requires forall i :: 0 <= i < |id| ==> !Text.IsSpace(id[i])
    ensures RevisionIds(Text.SplitLines(LogEntry(id) + rest)) == [id] + RevisionIds(Text.SplitLines(rest))
  {
    LogEntryLines(id, rest);
    LogEntryLineIds(id, Text.SplitLines(rest));
  }

  /** A revision id as `svn log -q` prints it: 'r' and then no whitespace. */
  predicate IsRevisionId(id: string) {
    |id| > 0 && id[0] == 'r' && forall i :: 0 <= i < |id| ==> !Text.IsSpace(id[i])
  }

  /** A log listing `ids` in order: one entry per revision and a closing separator line. */
  function LogText(ids: seq<string>): string {
    if |ids| == 0 then "---\n" else LogEntry(ids[0]) + LogText(ids[1..])
  }

  /** Reading a log back gives the revisions it lists, in the order it lists them. */
  lemma {:induction false} LogTextIds(ids: seq<string>)
    requires forall j :: 0 <= j < |ids| ==> IsRevisionId(ids[j])
    ensures RevisionIds(Text.SplitLines(LogText(ids))) == ids
    decreases |ids|
  {
    if |ids| == 0 {
      Text.SplitLinesCut("---", "\n", "");
      assert "---" + "\n" + "" == "---\n";
      RevisionIdsOfLine("---");
    } else {
      LogTextIds(ids[1..]);
      LogEntryIds(ids[0], LogText(ids[1..]));
      assert [ids[0]] + ids[1..] == ids;
    }
  }

  /** The `svn log -q` text of the worked example, newest first: r6, r5, r4, r3, r1. */
  function ExampleLog(): string {
    LogText(["r6", "r5", "r4", "r3", "r1"])
  }

  /** A walk from HEAD that no revision halts completes back at HEAD with the directories of the whole log. */
  lemma {:induction false} WalkThrough(name: string, s: PackageScript, latest: string)
    requires s.head == Declares(latest)
    requires FirstHalt(s, LogIds(s)) == |LogIds(s)|
    ensures Walk(name, s, Head) == Walked(Completed, Snapshots(name, s, LogIds(s), latest), Head)
  {
    WholePrefix(LogIds(s));
  }

  /** The example log lists its five revisions, newest first. */
  lemma {:induction false} ExampleLogIds(s: PackageScript)
    requires s.log == ExampleLog()
    ensures LogIds(s) == ["r6", "r5", "r4", "r3", "r1"]
  {
    var ids := ["r6", "r5", "r4", "r3", "r1"];
    assert forall j :: 0 <= j < |ids| ==> IsRevisionId(ids[j]);
    LogTextIds(ids);
  }

  /** The example history reaches each revision of the log without raising. */
  lemma {:induction false} ExampleNoHalt(s: PackageScript)
    requires s.at == ExampleHistory()
    ensures FirstHalt(s, ["r6", "r5", "r4", "r3", "r1"]) == 5
  {
    FirstHaltIsFirst(s, ["r6", "r5", "r4", "r3", "r1"], 5);
  }

  /**
   * The worked example end to end: `svn log -q` prints the entries r6, r5,
   * r4, r3 and r1, and DESCRIPTION declares 2.0 at HEAD. The walk from
   * HEAD completes back at HEAD with directories 1.1 (holding r5) and 1.0
   * (holding r1), and none for 2.0, the version it read first.
   */
  lemma {:induction false} WorkedExample(s: PackageScript)
    requires s == PackageScript(ExampleLog(), Declares("2.0"), ExampleHistory())
    ensures Walk("pkg", s, Head) == Walked(Completed, map[("pkg", "1.1") := "r5", ("pkg", "1.0") := "r1"], Head)
  {
    ExampleLogIds(s);
    ExampleNoHalt(s);
    WalkThrough("pkg", s, "2.0");
    ExampleSnapshots(s);
  }

  // ------------------------------------------------ the driver (lines 127-147)

  /** `directory.startswith('.')` */
  predicate Hidden(entry: string) { Text.StartsWith(entry, ".") }

  /** `[directory for directory in listing if not directory.startswith('.')]` */
  function Packages(listing: seq<string>): (pkgs: seq<string>)
    ensures |pkgs| <= |listing|
    ensures forall x :: x in pkgs <==> x in listing && !Hidden(x)
  {
    if |listing| == 0 then []
    else (if Hidden(listing[0]) then [] else [listing[0]]) + Packages(listing[1..])
  }

  /** Filtering two pieces of a listing filters each in place: the packages keep the listing's order. */
  lemma {:induction false} PackagesAppend(a: seq<string>, b: seq<string>)
    ensures Packages(a + b) == Packages(a) + Packages(b)
    decreases |a|
  {
    if |a| == 0 {
      assert a + b == b;
    } else {
      assert (a + b)[1..] == a[1..] + b;
      PackagesAppend(a[1..], b);
    }
  }

  predicate Distinct(xs: seq<string>) {
    forall i, j :: 0 <= i < j < |xs| ==> xs[i] != xs[j]
  }

  lemma {:induction false} PackagesDistinct(listing: seq<string>)
    requires Distinct(listing)
    ensures Distinct(Packages(listing))
    decreases |listing|
  {
    if |listing| > 0 {
      var rest := listing[1..];
      PackagesDistinct(rest);
      assert listing[0] !in rest by {
        forall j | 0 <= j < |rest| ensures rest[j] != listing[0] { assert rest[j] == listing[j + 1]; }
      }
      var pkgs := Packages(listing);
      if !Hidden(listing[0]) {
        assert pkgs == [listing[0]] + Packages(rest);
        assert listing[0] !in Packages(rest);
      }
    }
  }

  lemma {:induction false} PrefixDistinct(xs: seq<string>, i: nat)
    requires Distinct(xs) && i < |xs|
    ensures Distinct(xs[..i]) && xs[i] !in xs[..i]
  {
  }

  /** `os.path.split(os.path.join(bioc_dir, entry))[-1]`, the package part of each archive key. */
  function ArchiveName(biocDir: string, entry: string): string {
    Paths.Basename(Paths.Join(biocDir, entry))
  }

  /** A directory entry (never containing '/') names its own archive directory. */
  lemma {:induction false} ArchiveNameIsEntry(biocDir: string, entry: string)
    requires '/' !in entry
    ensures ArchiveName(biocDir, entry) == entry
  {
    Paths.BasenameOfJoin(biocDir, entry);
  }

  /** One `makeVersion` call on entry `p` whose working copy stands at `start`; an entry that is no working copy raises at once. */
  function Attempt(biocDir: string, repo: map<string, PackageScript>, p: string, start: Checkout): Walked
    requires p in repo ==> Reachable(repo[p], start)
  {
    if p !in repo then Walked(Raised(NotAWorkingCopy), map[], start)
    else Walk(ArchiveName(biocDir, p), repo[p], start)
  }

  /**
   * The walks of every package in order, each starting from the checkout
   * `pinned` gives it: with distinct packages no walk moves the working
   * copy of a later one.
   */
  function Attempts(biocDir: string, repo: map<string, PackageScript>, pinned: map<string, string>, pkgs: seq<string>): (ws: seq<Walked>)
    requires Consistent(repo, pinned)
    ensures |ws| == |pkgs|
  {
    seq(|pkgs|, i requires 0 <= i < |pkgs| => Attempt(biocDir, repo, pkgs[i], CheckoutOf(pinned, pkgs[i])))
  }

  /** One more package: its walk follows those of the packages before it. */
  lemma {:induction false} AttemptsStep(biocDir: string, repo: map<string, PackageScript>, pinned: map<string, string>, pkgs: seq<string>, i: nat)
    requires Consistent(repo, pinned) && i < |pkgs|
    ensures Attempts(biocDir, repo, pinned, pkgs[..i + 1])
            == Attempts(biocDir, repo, pinned, pkgs[..i]) + [Attempt(biocDir, repo, pkgs[i], CheckoutOf(pinned, pkgs[i]))]
  {
    PrefixStep(pkgs, i);
  }

  /** Before the first package: no walk, no directory, no checkout moved. */
  lemma {:induction false} NoAttempts(biocDir: string, repo: map<string, PackageScript>, pinned: map<string, string>, pkgs: seq<string>)
    requires Consistent(repo, pinned)
    ensures Attempts(biocDir, repo, pinned, pkgs[..0]) == []
    ensures Outcomes([]) == [] && Union([]) == map[] && Replayed(pinned, pkgs[..0], []) == pinned
  {
  }

  lemma {:induction false} AttemptsOfAll(biocDir: string, repo: map<string, PackageScript>, pinned: map<string, string>, pkgs: seq<string>,
                      ws: seq<Walked>)
    requires Consistent(repo, pinned) && |ws| == |pkgs|
    ensures Attempts(biocDir, repo, pinned, pkgs[..|pkgs|]) == Attempts(biocDir, repo, pinned, pkgs)
    ensures Replayed(pinned, pkgs[..|pkgs|], ws) == Replayed(pinned, pkgs, ws)
  {
    WholePrefix(pkgs);
  }

  /** How each walk ended, in order. */
  function Outcomes(ws: seq<Walked>): (outs: seq<Outcome>)
    ensures |outs| == |ws|
    ensures forall j :: 0 <= j < |ws| ==> outs[j] == ws[j].outcome
  {
    if |ws| == 0 then [] else Outcomes(ws[..|ws| - 1]) + [ws[|ws| - 1].outcome]
  }

  lemma {:induction false} OutcomesStep(ws: seq<Walked>, w: Walked)
    ensures Outcomes(ws + [w]) == Outcomes(ws) + [w.outcome]
  {
    assert (ws + [w])[..|ws|] == ws;
  }

  /** The pinned packages after each package in turn was moved to where its walk left it. */
  function Replayed(pinned: map<string, string>, pkgs: seq<string>, ws: seq<Walked>): map<string, string>
    requires |ws| == |pkgs|
  {
    if |pkgs| == 0 then pinned
    else
      var n := |pkgs| - 1;
      Moved(Replayed(pinned, pkgs[..n], ws[..n]), pkgs[n], ws[n].checkout)
  }

  lemma {:induction false} ReplayedStep(pinned: map<string, string>, pkgs: seq<string>, ws: seq<Walked>, i: nat, w: Walked)
    requires |ws| == i < |pkgs|
    ensures Replayed(pinned, pkgs[..i + 1], ws + [w]) == Moved(Replayed(pinned, pkgs[..i], ws), pkgs[i], w.checkout)
  {
    PrefixStep(pkgs, i);
    assert (ws + [w])[..i] == ws;
  }

  /** A package outside the sequence keeps its checkout through the replay. */
  lemma {:induction false} ReplayedUntouched(pinned: map<string, string>, pkgs: seq<string>, ws: seq<Walked>, q: string)
    requires |ws| == |pkgs| && q !in pkgs
    ensures CheckoutOf(Replayed(pinned, pkgs, ws), q) == CheckoutOf(pinned, q)
    decreases |pkgs|
  {
    if |pkgs| > 0 {
      var n := |pkgs| - 1;
      assert pkgs[n] in pkgs;
      ReplayedUntouched(pinned, pkgs[..n], ws[..n], q);
      MovedCheckout(Replayed(pinned, pkgs[..n], ws[..n]), pkgs[n], ws[n].checkout);
    }
  }

  /**
   * With no package attempted twice, every package ends where its own walk
   * left it and every other entry stays where it stood.
   */
  lemma {:induction false} ReplayedCheckouts(pinned: map<string, string>, pkgs: seq<string>, ws: seq<Walked>)
    requires |ws| == |pkgs| && Distinct(pkgs)
    ensures forall j :: 0 <= j < |pkgs| ==> CheckoutOf(Replayed(pinned, pkgs, ws), pkgs[j]) == ws[j].checkout
    ensures forall q :: q !in pkgs ==> CheckoutOf(Replayed(pinned, pkgs, ws), q) == CheckoutOf(pinned, q)
    decreases |pkgs|
  {
    if |pkgs| > 0 {
      var n := |pkgs| - 1;
      var init, before := pkgs[..n], ws[..n];
      assert Distinct(init);
      ReplayedCheckouts(pinned, init, before);
      MovedCheckout(Replayed(pinned, init, before), pkgs[n], ws[n].checkout);
      forall j | 0 <= j < |pkgs| ensures CheckoutOf(Replayed(pinned, pkgs, ws), pkgs[j]) == ws[j].checkout {
        if j < n {
          assert init[j] == pkgs[j] && before[j] == ws[j];
        }
      }
      forall q | q !in pkgs ensures CheckoutOf(Replayed(pinned, pkgs, ws), q) == CheckoutOf(pinned, q) {
        assert q !in init;
      }
    }
  }

  /** The archive directories made by walks run in order: one made earlier is kept against a later one with the same key. */
  function Union(ws: seq<Walked>): map<Key, string> {
    if |ws| == 0 then map[] else ws[|ws| - 1].snapshots + Union(ws[..|ws| - 1])
  }

  /** A directory is in the union exactly when some walk made it. */
  lemma {:induction false} UnionMembers(ws: seq<Walked>)
    ensures forall key :: key in Union(ws) <==> exists i :: 0 <= i < |ws| && key in ws[i].snapshots
    decreases |ws|
  {
    if |ws| > 0 {
      var n := |ws| - 1;
      var init := ws[..n];
      UnionMembers(init);
      forall key
        ensures key in Union(ws) <==> exists i :: 0 <= i < |ws| && key in ws[i].snapshots
      {
        if key in Union(init) {
          var i :| 0 <= i < |init| && key in init[i].snapshots;
          assert init[i] == ws[i];
        }
        if exists i :: 0 <= i < |ws| && key in ws[i].snapshots {
          var i :| 0 <= i < |ws| && key in ws[i].snapshots;
          if i < n { assert init[i] == ws[i]; }
        }
      }
    }
  }

  /** A directory of the union holds what the FIRST walk that made it put there. */
  lemma {:induction false} UnionFirstWins(ws: seq<Walked>, key: Key)
    requires key in Union(ws)
    ensures exists i :: 0 <= i < |ws| && key in ws[i].snapshots && Union(ws)[key] == ws[i].snapshots[key]
                        && forall j :: 0 <= j < i ==> key !in ws[j].snapshots
    decreases |ws|
  {
    var n := |ws| - 1;
    var init := ws[..n];
    if key in Union(init) {
      UnionFirstWins(init, key);
      var i :| 0 <= i < |init| && key in init[i].snapshots && Union(init)[key] == init[i].snapshots[key]
               && forall j :: 0 <= j < i ==> key !in init[j].snapshots;
      assert init[i] == ws[i];
      assert forall j :: 0 <= j < i ==> init[j] == ws[j];
    } else {
      UnionMembers(init);
      forall j | 0 <= j < n ensures key !in ws[j].snapshots {
        assert init[j] == ws[j];
      }
      assert key in ws[n].snapshots && Union(ws)[key] == ws[n].snapshots[key];
    }
  }

  /** One more walk: its directories go under those already made. */
  lemma {:induction false} UnionStep(ws: seq<Walked>, w: Walked, archive: map<Key, string>)
    ensures Union(ws + [w]) + archive == w.snapshots + (Union(ws) + archive)
  {
    assert (ws + [w])[..|ws|] == ws;
    var m1, m2 := Union(ws + [w]) + archive, w.snapshots + (Union(ws) + archive);
    assert m1.Keys == m2.Keys;
  }

  /** Sequence facts stated once over any element type, out of the way of the string axioms. */
  lemma {:induction false} PrefixStep<T>(xs: seq<T>, k: nat)
    requires k < |xs|
    ensures xs[..k + 1][..k] == xs[..k] && xs[..k + 1] == xs[..k] + [xs[k]]
  {
  }

  lemma {:induction false} WholePrefix<T>(xs: seq<T>)
    ensures xs[..|xs|] == xs
  {
  }

  /** Moving a package twice is moving it to the second checkout. */
  lemma {:induction false} MovedTwice(pinned: map<string, string>, p: string, c: Checkout, id: string)
    ensures Moved(pinned, p, c)[p := id] == Moved(pinned, p, At(id))
  {
    var m1, m2 := Moved(pinned, p, c)[p := id], Moved(pinned, p, At(id));
    assert m1.Keys == m2.Keys;
  }

  lemma {:induction false} MovedHome(pinned: map<string, string>, p: string, c: Checkout)
    ensures Moved(pinned, p, c) - {p} == Moved(pinned, p, Head)
  {
    var m1, m2 := Moved(pinned, p, c) - {p}, Moved(pinned, p, Head);
    assert m1.Keys == m2.Keys;
  }

  /** One more revision of the log: the directories after `ids[..k + 1]` from those after `ids[..k]`. */
  lemma {:induction false} SnapshotsStep(name: string, s: PackageScript, ids: seq<string>, k: nat, latest: string)
    requires k < |ids|
    ensures var before := Snapshots(name, s, ids[..k], latest);
            Snapshots(name, s, ids[..k + 1], latest) ==
              if Archivable(s, ids[k], latest) && (name, s.at[ids[k]].version) !in before
              then before[(name, s.at[ids[k]].version) := ids[k]] else before
  {
    PrefixStep(ids, k);
  }

  /** An archive with nothing added is unchanged. */
  lemma {:induction false} NothingAdded(archive: map<Key, string>)
    ensures map[] + archive == archive
  {
  }

  /** Adding a directory absent from the archive extends the walk's directories by it. */
  lemma {:induction false} AddedFresh(made: map<Key, string>, archive: map<Key, string>, key: Key, id: string)
    requires key !in made && key !in archive
    ensures (made + archive)[key := id] == made[key := id] + archive
  {
  }

  /** A directory present before the run shadows the one the walk would make. */
  lemma {:induction false} AddedShadowed(made: map<Key, string>, archive: map<Key, string>, key: Key, id: string)
    requires key !in made && key in archive
    ensures made[key := id] + archive == made + archive
  {
  }

  /**
   * The Bioconductor working copy (`bioc_dir`) and the archive
   * (`archive_dir`) as the scripts change them: which package directories
   * are left at a historical revision, which archive directories exist and
   * which revision each holds, and whether `archive_dir` exists.
   */
  class Workspace {
    const biocDir: string
    const repo: map<string, PackageScript>
    var pinned: map<string, string>
    var archive: map<Key, string>
    var archiveDirExists: bool

    ghost predicate Valid()
      reads this
    {
      Consistent(repo, pinned)
    }

    constructor (biocDir: string, repo: map<string, PackageScript>, pinned: map<string, string>,
                 archive: map<Key, string>, archiveDirExists: bool)
      requires Consistent(repo, pinned)
      ensures Valid()
      ensures this.biocDir == biocDir && this.repo == repo && this.pinned == pinned
      ensures this.archive == archive && this.archiveDirExists == archiveDirExists
    {
      this.biocDir := biocDir;
      this.repo := repo;
      this.pinned := pinned;
      this.archive := archive;
      this.archiveDirExists := archiveDirExists;
    }

    /**
     * `makeVersion(os.path.join(bioc_dir, p), archive_dir)`: the directories
     * of the walk are added to the archive where none exists yet, and the
     * package's working copy ends where the walk left it.
     */
    method MakeVersion(p: string) returns (out: Outcome)
      requires Valid()
      modifies this
      ensures Valid()
      ensures var w := Attempt(biocDir, repo, p, CheckoutOf(old(pinned), p));
              out == w.outcome && archive == w.snapshots + old(archive) && pinned == Moved(old(pinned), p, w.checkout)
      ensures archiveDirExists == old(archiveDirExists)
    {
      MovedNowhere(pinned, p);
      NothingAdded(archive);
      if p !in repo {
        return Raised(NotAWorkingCopy);
      }
      var s := repo[p];
      var start := CheckoutOf(pinned, p);
      var d := DescriptionAt(s, start);
      if d.Missing? {
        return Raised(DescriptionMissing(start));
      } else if d.Malformed? {
        return Raised(DescriptionUnreadable(start));
      }
      var ids := LogIds(s);
      var k, stop := WalkLog(p, s, ids, ArchiveName(biocDir, p), d.version, start);
      out := stop;
    }

    /**
     * The loop of `makeVersion` over the revision ids (lines 100-124),
     * after the version read before it was `latest`: it stops at the first
     * revision where it raises, and brings the working copy back to HEAD
     * only when it gets through them all.
     */
    method WalkLog(p: string, s: PackageScript, ids: seq<string>, name: string, latest: string, start: Checkout)
      returns (k: nat, out: Outcome)
      requires Valid() && p in repo && repo[p] == s && CheckoutOf(pinned, p) == start
      modifies this
      ensures Valid() && archiveDirExists == old(archiveDirExists)
      ensures k == FirstHalt(s, ids)
      ensures archive == Snapshots(name, s, ids[..k], latest) + old(archive)
      ensures out == LoopEnd(s, ids, k, start).0 && pinned == Moved(old(pinned), p, LoopEnd(s, ids, k, start).1)
    {
      ghost var archive0 := archive;
      ghost var pinned0 := pinned;
      ghost var at := start;
      MovedNowhere(pinned, p);
      NothingAdded(archive);
      k := 0;
      while k < |ids|
        invariant 0 <= k <= |ids|
        invariant forall i :: 0 <= i < k ==> !Halts(s, ids[i])
        invariant archive == Snapshots(name, s, ids[..k], latest) + archive0
        invariant at == if k == 0 then start else At(ids[k - 1])
        invariant pinned == Moved(pinned0, p, at) && Reachable(s, at)
        invariant archiveDirExists == old(archiveDirExists)
      {
        var id := ids[k];
        if id !in s.at {
          FirstHaltIsFirst(s, ids, k);
          MovedConsistent(repo, pinned0, p, at);
          return k, Raised(UpdateFailed(id));
        }
        MovedTwice(pinned0, p, at, id);
        pinned := pinned[p := id];
        at := At(id);
        var here := s.at[id];
        if here.Malformed? {
          FirstHaltIsFirst(s, ids, k);
          MovedConsistent(repo, pinned0, p, at);
          return k, Raised(DescriptionUnreadable(At(id)));
        }
        ghost var made := Snapshots(name, s, ids[..k], latest);
        SnapshotsStep(name, s, ids, k, latest);
        if here.Declares? && here.version != latest {
          var key := (name, here.version);
          if key !in archive {
            AddedFresh(made, archive0, key, id);
            archive := archive[key := id];
          } else if key !in made {
            AddedShadowed(made, archive0, key, id);
          }
        }
        k := k + 1;
      }
      FirstHaltIsFirst(s, ids, k);
      MovedHome(pinned0, p, at);
      MovedConsistent(repo, pinned0, p, Head);
      pinned := pinned - {p};
      return k, Completed;
    }

    /**
     * `archiveLocalRepo(bioc_dir, archive_dir)`: creates `archive_dir`,
     * then attempts every non-hidden entry of the listing in order; an
     * exception in one package is reported in its outcome and the next
     * package is still attempted, each from its own checkout.
     */
    method ArchiveLocalRepo(listing: seq<string>) returns (outcomes: seq<Outcome>)
      requires Valid() && Distinct(listing)
      modifies this
      ensures Valid() && archiveDirExists
      ensures var pkgs := Packages(listing);
              var ws := Attempts(biocDir, repo, old(pinned), pkgs);
              outcomes == Outcomes(ws) && archive == Union(ws) + old(archive) && pinned == Replayed(old(pinned), pkgs, ws)
    {
      if !archiveDirExists {
        archiveDirExists := true;
      }
      var pkgs := Packages(listing);
      PackagesDistinct(listing);
      ghost var pinned0 := pinned;
      ghost var archive0 := archive;
      ghost var ws: seq<Walked> := [];
      NoAttempts(biocDir, repo, pinned0, pkgs);
      NothingAdded(archive);
      outcomes := [];
      var i := 0;
      while i < |pkgs|
        invariant 0 <= i <= |pkgs|
        invariant Valid() && archiveDirExists
        invariant ws == Attempts(biocDir, repo, pinned0, pkgs[..i])
        invariant outcomes == Outcomes(ws)
        invariant archive == Union(ws) + archive0
        invariant pinned == Replayed(pinned0, pkgs[..i], ws)
      {
        var p := pkgs[i];
        PrefixDistinct(pkgs, i);
        ReplayedUntouched(pinned0, pkgs[..i], ws, p);
        ghost var w := Attempt(biocDir, repo, p, CheckoutOf(pinned0, p));
        AttemptsStep(biocDir, repo, pinned0, pkgs, i);
        UnionStep(ws, w, archive0);
        OutcomesStep(ws, w);
        ReplayedStep(pinned0, pkgs, ws, i, w);
        var out := MakeVersion(p);
        outcomes := outcomes + [out];
        ws := ws + [w];
        i := i + 1;
      }
      AttemptsOfAll(biocDir, repo, pinned0, pkgs, ws);
    }
  }
}
