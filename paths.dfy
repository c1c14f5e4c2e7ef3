/**
 * The `os.path` functions both scripts use, as Python's `posixpath`
 * defines them: `join` of two components, `basename` (also the tail of
 * `os.path.split`) and `dirname`.
 */
module Paths {
  import Text

  /** `a` is non-empty and does not end in `/`: joining onto it inserts a separator. */
  predicate NeedsSeparator(a: string) {
    a != "" && a[|a| - 1] != '/'
  }

  /**
   * `os.path.join(a, b)`: an absolute `b` replaces `a`. A relative `b`
   * follows `a`, with one `/` between them exactly when `a` is non-empty
   * and does not already end in `/`.
   */
  function Join(a: string, b: string): string {
    if Text.StartsWith(b, "/") then b
    else if a == "" || a[|a| - 1] == '/' then a + b
    else a + "/" + b
  }

  /** What `Join` is made of: `a`, then one `/` exactly when `a` needs a separator, then a relative `b`. */
  lemma {:induction false} JoinParts(a: string, b: string)
    ensures var p := Join(a, b);
            Text.StartsWith(b, "/") ==> p == b
    ensures var p := Join(a, b);
            var gap := if NeedsSeparator(a) then 1 else 0;
            !Text.StartsWith(b, "/") ==>
              |p| == |a| + gap + |b| && p[..|a|] == a && p[|a| + gap..] == b
              && (gap == 1 ==> p[|a|] == '/')
  {
    var p := Join(a, b);
    if !Text.StartsWith(b, "/") && NeedsSeparator(a) {
      assert p == a + "/" + b;
    }
  }

  /**
   * `os.path.basename(p)`, the text after the last `/`: the longest suffix
   * of `p` without a slash.
   */
  function Basename(p: string): (b: string)
    ensures |b| <= |p| && b == p[|p| - |b|..]
    ensures '/' !in b
    ensures |b| < |p| ==> p[|p| - |b| - 1] == '/'
  {
    if |p| == 0 || p[|p| - 1] == '/' then ""
    else Basename(p[..|p| - 1]) + [p[|p| - 1]]
  }

  /** `s.rstrip('/')` */
  function StripTrailingSlashes(s: string): (r: string)
    ensures |r| <= |s| && r == s[..|r|]
    ensures forall i :: |r| <= i < |s| ==> s[i] == '/'
    ensures r == "" || r[|r| - 1] != '/'
  {
    if |s| == 0 || s[|s| - 1] != '/' then s else StripTrailingSlashes(s[..|s| - 1])
  }

  /**
   * `os.path.dirname(p)`: everything before the basename, with its trailing
   * slashes removed unless it consists of slashes only.
   */
  function Dirname(p: string): string {
    var head := p[..|p| - |Basename(p)|];
    var stripped := StripTrailingSlashes(head);
    if head != "" && stripped != "" then stripped else head
  }

  /**
   * The shape of `dirname`: a prefix of the path ending before the
   * basename, with only slashes between the two; it does not end in `/`
   * unless it is all slashes, in which case it is the whole part before
   * the basename; it is empty exactly for a path without `/`.
   */
  lemma {:induction false} DirnameShape(p: string)
    ensures var d := Dirname(p);
            |d| <= |p| - |Basename(p)| && d == p[..|d|]
            && (forall i :: |d| <= i < |p| - |Basename(p)| ==> p[i] == '/')
            && (d == "" || d[|d| - 1] != '/' || forall i :: 0 <= i < |d| ==> d[i] == '/')
            && ((forall i :: 0 <= i < |d| ==> d[i] == '/') ==> |d| == |p| - |Basename(p)|)
            && (d == "" <==> '/' !in p)
  {
    var cut := |p| - |Basename(p)|;
    var head := p[..cut];
    var stripped := StripTrailingSlashes(head);
    var d := Dirname(p);
    assert forall i :: 0 <= i < |head| ==> head[i] == p[i];
    if head != "" && stripped != "" {
      assert d == stripped;
      assert d[|d| - 1] != '/';
    } else {
      assert d == head;
    }
    if cut > 0 {
      assert p[cut - 1] in p;
    }
  }

  /** A slash-free name joined onto the root directory has the root as its directory. */
  lemma {:induction false} DirnameAtRoot(entry: string)
    requires entry != "" && '/' !in entry
    ensures Dirname(Join("/", entry)) == "/"
  {
    var p := "/" + entry;
    assert Join("/", entry) == p by { assert entry[0] in entry; }
    BasenameAfterSlash("/", entry);
    assert p[..|p| - |entry|] == "/";
    assert StripTrailingSlashes("/") == "";
  }

  /** After a slash (or at the start), a slash-free component is the whole basename. */
  lemma {:induction false} BasenameAfterSlash(pre: string, entry: string)
    requires pre == "" || pre[|pre| - 1] == '/'
    requires '/' !in entry
    ensures Basename(pre + entry) == entry
    decreases |entry|
  {
    if |entry| == 0 {
      assert pre + entry == pre;
    } else {
      var n := |entry| - 1;
      var init, c := entry[..n], entry[n];
      var q := pre + init;
      assert entry == init + [c];
      assert pre + entry == q + [c];
      assert c in entry;
      SlashFreePrefix(entry, n);
      BasenameAfterSlash(pre, init);
      BasenameSnoc(q, c);
      assert Basename(q + [c]) == init + [c];
    }
  }

  /** A prefix of a slash-free string is slash-free. */
  lemma {:induction false} SlashFreePrefix(s: string, n: nat)
    requires n <= |s| && '/' !in s
    ensures '/' !in s[..n]
  {
    forall k | 0 <= k < n ensures s[..n][k] != '/' {
      assert s[k] in s;
    }
  }

  /** One more character other than `/` extends the basename by that character. */
  lemma {:induction false} BasenameSnoc(q: string, c: char)
    requires c != '/'
    ensures Basename(q + [c]) == Basename(q) + [c]
  {
    assert (q + [c])[..|q|] == q;
  }

  /**
   * The directory of a component joined onto a directory is that directory,
   * so a file named by `dirname` and `join` sits beside the joined one.
   */
  lemma {:induction false} DirnameOfJoin(dir: string, entry: string)
    requires NeedsSeparator(dir)
    requires entry != "" && '/' !in entry
    ensures Dirname(Join(dir, entry)) == dir
  {
    var head := dir + "/";
    var p := head + entry;
    assert Join(dir, entry) == p by { assert entry[0] in entry; }
    BasenameAfterSlash(head, entry);
    assert p[..|p| - |entry|] == head;
    StripOneSlash(dir);
  }

  /** Stripping the trailing slashes of a directory with one `/` appended gives the directory back. */
  lemma {:induction false} StripOneSlash(dir: string)
    requires NeedsSeparator(dir)
    ensures StripTrailingSlashes(dir + "/") == dir
  {
    assert (dir + "/")[..|dir|] == dir;
  }

  /** The basename of a component joined onto a directory is that component. */
  lemma {:induction false} BasenameOfJoin(dir: string, entry: string)
    requires '/' !in entry
    ensures Basename(Join(dir, entry)) == entry
  {
    assert !Text.StartsWith(entry, "/") by {
      if |entry| > 0 { assert entry[0] in entry; }
    }
    var pre := if NeedsSeparator(dir) then dir + "/" else dir;
    assert Join(dir, entry) == pre + entry;
    BasenameAfterSlash(pre, entry);
  }
}
