/**
 * The Python 2 `str` operations both scripts rely on, on `seq<char>`:
 * `startswith`, `strip()`, `split(sep)` with a one-character separator,
 * `sep.join(...)`, `splitlines()`, iteration over the lines of a file,
 * the first token of `split()` and `replace(pattern, '')`.
 */
module Text {

  /** Python's `str.isspace` for one byte: space, tab, LF, CR, VT, FF. */
  predicate IsSpace(c: char) {
    c == ' ' || c == '\t' || c == '\n' || c == '\r' || c == '\U{000B}' || c == '\U{000C}'
  }

  /** `s.startswith(prefix)` */
  predicate StartsWith(s: string, prefix: string) {
    |prefix| <= |s| && s[..|prefix|] == prefix
  }

  // ---------------------------------------------------------------- strip()

  /** `s.lstrip()`: drops the leading whitespace. */
  function StripLeft(s: string): (r: string)
    ensures |r| <= |s| && r == s[|s| - |r|..]
    ensures forall i :: 0 <= i < |s| - |r| ==> IsSpace(s[i])
    ensures r == [] || !IsSpace(r[0])
  {
    if |s| == 0 || !IsSpace(s[0]) then s else StripLeft(s[1..])
  }

  /** `s.rstrip()`: drops the trailing whitespace. */
  function StripRight(s: string): (r: string)
    ensures |r| <= |s| && r == s[..|r|]
    ensures forall i :: |r| <= i < |s| ==> IsSpace(s[i])
    ensures r == [] || !IsSpace(r[|r| - 1])
  {
    if |s| == 0 || !IsSpace(s[|s| - 1]) then s else StripRight(s[..|s| - 1])
  }

  /**
   * `s.strip()`: the slice of `s` left after removing whitespace at both
   * ends; everything removed is whitespace and the result neither starts
   * nor ends with whitespace.
   */
  function Strip(s: string): (r: string)
    ensures exists i, j :: 0 <= i <= j <= |s| && r == s[i..j]
                        && (forall k :: 0 <= k < i ==> IsSpace(s[k]))
                        && (forall k :: j <= k < |s| ==> IsSpace(s[k]))
    ensures r == [] || (!IsSpace(r[0]) && !IsSpace(r[|r| - 1]))
  {
    var l := StripLeft(s);
    var r := StripRight(l);
    StripSlice(s, l, r);
    r
  }

  /** `strip()` is `rstrip()` after `lstrip()`: a slice with whitespace only on both sides of it. */
  lemma {:induction false} StripSlice(s: string, l: string, r: string)
    requires l == StripLeft(s) && r == StripRight(l)
    ensures var i := |s| - |l|;
            i + |r| <= |s| && r == s[i..i + |r|]
            && (forall k :: 0 <= k < i ==> IsSpace(s[k]))
            && (forall k :: i + |r| <= k < |s| ==> IsSpace(s[k]))
  {
    var i := |s| - |l|;
    SliceOfSuffix(s, i, |r|);
    StripRightTail(s, l, r, i);
  }

  lemma {:induction false} SliceOfSuffix(s: string, i: nat, n: nat)
    requires i + n <= |s|
    ensures s[i..][..n] == s[i..i + n]
  {
  }

  lemma {:induction false} StripRightTail(s: string, l: string, r: string, i: nat)
    requires i <= |s| && l == s[i..] && r == StripRight(l)
    ensures forall k :: i + |r| <= k < |s| ==> IsSpace(s[k])
  {
    forall k | i + |r| <= k < |s| ensures IsSpace(s[k]) {
      assert s[k] == l[k - i];
    }
  }

  // ------------------------------------------------------ split(c), join

  /** Number of occurrences of `c` in `s`. */
  function Count(s: string, c: char): nat {
    if |s| == 0 then 0 else (if s[0] == c then 1 else 0) + Count(s[1..], c)
  }

  /**
   * `s.split(c)` for a one-character separator: the pieces between the
   * occurrences of `c`, one more piece than there are separators, none of
   * them containing `c` (so `''.split(c) == ['']`).
   */
  function Split(s: string, c: char): (r: seq<string>)
    ensures |r| == Count(s, c) + 1
    ensures forall i :: 0 <= i < |r| ==> c !in r[i]
    decreases |s|
  {
    if |s| == 0 then [""]
    else
      var rest := Split(s[1..], c);
      if s[0] == c then [""] + rest
      else [[s[0]] + rest[0]] + rest[1..]
  }

  /** `c.join(xs)` */
  function Join(xs: seq<string>, c: char): string {
    if |xs| == 0 then ""
    else if |xs| == 1 then xs[0]
    else xs[0] + [c] + Join(xs[1..], c)
  }

  /** Joining the pieces of a split gives the original string back. */
  lemma {:induction false} JoinSplit(s: string, c: char)
    ensures Join(Split(s, c), c) == s
    decreases |s|
  {
    if |s| > 0 {
      var rest := Split(s[1..], c);
      JoinSplit(s[1..], c);
      if s[0] == c {
        assert Split(s, c) == [""] + rest;
        assert ([""] + rest)[1..] == rest;
      } else {
        var r := Split(s, c);
        assert r == [[s[0]] + rest[0]] + rest[1..];
        if |rest| == 1 {
          assert Join(r, c) == [s[0]] + rest[0];
        } else {
          assert r[1..] == rest[1..];
          assert Join(rest, c) == rest[0] + [c] + Join(rest[1..], c);
        }
      }
    }
  }

  /** Splitting a join whose parts do not contain the separator gives the parts back. */
  lemma {:induction false} SplitJoin(xs: seq<string>, c: char)
    requires |xs| >= 1
    requires forall i :: 0 <= i < |xs| ==> c !in xs[i]
    ensures Split(Join(xs, c), c) == xs
    decreases |xs|, |xs[0]|
  {
    if |xs[0]| == 0 {
      if |xs| == 1 {
        assert Join(xs, c) == "";
      } else {
        assert Join(xs, c) == [c] + Join(xs[1..], c);
        assert ([c] + Join(xs[1..], c))[1..] == Join(xs[1..], c);
        SplitJoin(xs[1..], c);
        assert [""] + xs[1..] == xs;
      }
    } else {
      var t := [xs[0][1..]] + xs[1..];
      assert forall i :: 0 <= i < |t| ==> c !in t[i] by {
        forall i | 0 <= i < |t| ensures c !in t[i] {
          if i == 0 { assert xs[0] == [xs[0][0]] + xs[0][1..]; } else { assert t[i] == xs[i]; }
        }
      }
      SplitJoin(t, c);
      var j := Join(xs, c);
      if |xs| == 1 {
        assert j == xs[0];
        assert Join(t, c) == xs[0][1..];
      } else {
        assert t[1..] == xs[1..];
        assert Join(t, c) == xs[0][1..] + [c] + Join(xs[1..], c);
        assert j == xs[0] + [c] + Join(xs[1..], c);
      }
      assert j == [xs[0][0]] + Join(t, c);
      assert j[1..] == Join(t, c);
      assert j[0] == xs[0][0] && xs[0][0] != c by {
        assert xs[0][0] in xs[0];
      }
      assert xs[0] == [xs[0][0]] + xs[0][1..];
      assert [xs[0]] + xs[1..] == xs;
    }
  }

  // -------------------------------------------------------- splitlines()

  predicate IsLineBreak(c: char) { c == '\n' || c == '\r' }

  /** Index of the first line break in `s`, or `|s|` when there is none. */
  function LineEnd(s: string): (e: nat)
    ensures e <= |s|
    ensures forall i :: 0 <= i < e ==> !IsLineBreak(s[i])
    ensures e < |s| ==> IsLineBreak(s[e])
  {
    if |s| == 0 || IsLineBreak(s[0]) then 0 else 1 + LineEnd(s[1..])
  }

  /**
   * `s.splitlines()` for a byte string: lines end at LF, CR or CR LF, the
   * terminators are dropped, and there is no empty last line after a
   * final terminator.
   */
  function SplitLines(s: string): (lines: seq<string>)
    ensures forall i, k :: 0 <= i < |lines| && 0 <= k < |lines[i]| ==> !IsLineBreak(lines[i][k])
    decreases |s|
  {
    if |s| == 0 then []
    else
      var e := LineEnd(s);
      if e == |s| then [s]
      else
        [s[..e]] + SplitLines(s[e + BreakLength(s, e)..])
  }

  /** `s` with every line-break character removed. */
  function DropLineBreaks(s: string): string {
    if |s| == 0 then "" else (if IsLineBreak(s[0]) then "" else [s[0]]) + DropLineBreaks(s[1..])
  }

  /** Concatenation of a sequence of strings. */
  function Concat(xs: seq<string>): string {
    if |xs| == 0 then "" else xs[0] + Concat(xs[1..])
  }

  lemma {:induction false} DropLineBreaksAppend(a: string, b: string)
    ensures DropLineBreaks(a + b) == DropLineBreaks(a) + DropLineBreaks(b)
    decreases |a|
  {
    if |a| > 0 {
      assert (a + b)[1..] == a[1..] + b;
      DropLineBreaksAppend(a[1..], b);
    } else {
      assert a + b == b;
    }
  }

  lemma {:induction false} DropLineBreaksOfPlain(s: string)
    requires forall i :: 0 <= i < |s| ==> !IsLineBreak(s[i])
    ensures DropLineBreaks(s) == s
    decreases |s|
  {
    if |s| > 0 { DropLineBreaksOfPlain(s[1..]); }
  }

  lemma {:induction false} DropLineBreaksOfBreaks(s: string)
    requires forall i :: 0 <= i < |s| ==> IsLineBreak(s[i])
    ensures DropLineBreaks(s) == ""
    decreases |s|
  {
    if |s| > 0 { DropLineBreaksOfBreaks(s[1..]); }
  }

  /** Length of the line terminator at `LineEnd(s)`: 2 for CR LF, otherwise 1. */
  function BreakLength(s: string, e: nat): (n: nat)
    requires e < |s| && IsLineBreak(s[e])
    ensures 1 <= n <= 2 && e + n <= |s|
    ensures forall k :: e <= k < e + n ==> IsLineBreak(s[k])
  {
    if s[e] == '\r' && e + 1 < |s| && s[e + 1] == '\n' then 2 else 1
  }

  lemma {:induction false} DropLineBreaksOfLine(s: string, e: nat, skip: nat)
    requires e == LineEnd(s) < |s| && skip == BreakLength(s, e)
    ensures DropLineBreaks(s) == s[..e] + DropLineBreaks(s[e + skip..])
  {
    var head, brk, rest := s[..e], s[e..e + skip], s[e + skip..];
    assert s == (head + brk) + rest;
    assert forall k :: 0 <= k < |head| ==> !IsLineBreak(head[k]);
    assert forall k :: 0 <= k < |brk| ==> IsLineBreak(brk[k]);
    DropLineBreaksAppend(head + brk, rest);
    DropLineBreaksAppend(head, brk);
    DropLineBreaksOfPlain(head);
    DropLineBreaksOfBreaks(brk);
  }

  /** The lines of `s`, put back together, are `s` without its line breaks: nothing but terminators is lost. */
  lemma {:induction false} SplitLinesKeepsText(s: string)
    ensures Concat(SplitLines(s)) == DropLineBreaks(s)
    decreases |s|
  {
    if |s| > 0 {
      var e := LineEnd(s);
      if e == |s| {
        DropLineBreaksOfPlain(s);
        ConcatCons(s, []);
      } else {
        var skip := BreakLength(s, e);
        var rest := s[e + skip..];
        SplitLinesKeepsText(rest);
        SplitLinesHead(s);
        ConcatCons(s[..e], SplitLines(rest));
        DropLineBreaksOfLine(s, e, skip);
      }
    }
  }

  /** A text with a line break: its first line, then the lines after the terminator. */
  lemma {:induction false} SplitLinesHead(s: string)
    requires LineEnd(s) < |s|
    ensures SplitLines(s) == [s[..LineEnd(s)]] + SplitLines(s[LineEnd(s) + BreakLength(s, LineEnd(s))..])
  {
  }

  lemma {:induction false} ConcatCons(x: string, xs: seq<string>)
    ensures Concat([x] + xs) == x + Concat(xs)
  {
    assert ([x] + xs)[1..] == xs;
  }

  /** A break-free prefix followed by a line break: the first break is right after the prefix. */
  lemma {:induction false} LineEndAfterPlain(a: string, rest: string)
    requires forall i :: 0 <= i < |a| ==> !IsLineBreak(a[i])
    requires |rest| > 0 && IsLineBreak(rest[0])
    ensures LineEnd(a + rest) == |a|
    decreases |a|
  {
    if |a| > 0 {
      assert (a + rest)[1..] == a[1..] + rest;
      LineEndAfterPlain(a[1..], rest);
    }
  }

  /** A terminator `splitlines()` recognises: LF, CR LF, or a CR that is not followed by LF. */
  predicate Terminates(brk: string, after: string) {
    brk == "\n" || brk == "\r\n" || (brk == "\r" && !StartsWith(after, "\n"))
  }

  /**
   * Every terminator cuts: a break-free line, its terminator and the rest
   * of the text split into that line followed by the lines of the rest.
   */
  lemma {:induction false} SplitLinesCut(a: string, brk: string, b: string)
    requires forall i :: 0 <= i < |a| ==> !IsLineBreak(a[i])
    requires Terminates(brk, b)
    ensures SplitLines(a + brk + b) == [a] + SplitLines(b)
  {
    var s := a + brk + b;
    assert s == a + (brk + b);
    LineEndAfterPlain(a, brk + b);
    BreakAt(a, brk, b);
  }

  /** After a line `a`, the terminator `brk` is what `BreakLength` skips, and `b` is what follows it. */
  lemma {:induction false} BreakAt(a: string, brk: string, b: string)
    requires Terminates(brk, b)
    ensures |a| < |a + brk + b| && IsLineBreak((a + brk + b)[|a|])
    ensures BreakLength(a + brk + b, |a|) == |brk|
    ensures (a + brk + b)[..|a|] == a && (a + brk + b)[|a| + |brk|..] == b
  {
    var s := a + brk + b;
    assert s[|a|] == brk[0];
    if |brk| == 2 {
      assert s[|a| + 1] == '\n';
    } else if brk == "\r" && |b| > 0 {
      assert s[|a| + 1] == b[0];
      assert b[..1] != "\n";
    }
  }

  /** A non-empty text without a line break is one line. */
  lemma {:induction false} SplitLinesOfPlain(a: string)
    requires |a| > 0 && forall i :: 0 <= i < |a| ==> !IsLineBreak(a[i])
    ensures SplitLines(a) == [a]
  {
    assert LineEnd(a) == |a|;
  }

  // ----------------------------------------------------------- split()[0]

  /**
   * The longest prefix of `s` without whitespace. For a string whose first
   * character is not whitespace this is `s.split()[0]`, the first token.
   */
  function FirstWord(s: string): (w: string)
    ensures |w| <= |s| && w == s[..|w|]
    ensures forall i :: 0 <= i < |w| ==> !IsSpace(w[i])
    ensures |w| < |s| ==> IsSpace(s[|w|])
  {
    if |s| == 0 || IsSpace(s[0]) then "" else [s[0]] + FirstWord(s[1..])
  }

  // ------------------------------------------------------ for line in file

  /** Index of the first '\n' in `s`, or `|s|` when there is none. */
  function NewlineAt(s: string): (e: nat)
    ensures e <= |s|
    ensures forall i :: 0 <= i < e ==> s[i] != '\n'
    ensures e < |s| ==> s[e] == '\n'
  {
    if |s| == 0 || s[0] == '\n' then 0 else 1 + NewlineAt(s[1..])
  }

  /**
   * The lines `for line in f` yields for a file opened in text mode on a
   * POSIX system: the text is cut after every '\n', which stays on its
   * line; a last line without '\n' is yielded as it is.
   */
  function FileLines(s: string): (lines: seq<string>)
    decreases |s|
  {
    if |s| == 0 then []
    else
      var e := NewlineAt(s);
      if e == |s| then [s] else [s[..e + 1]] + FileLines(s[e + 1..])
  }

  /** The lines put back together are the file. */
  lemma {:induction false} FileLinesConcat(s: string)
    ensures Concat(FileLines(s)) == s
    decreases |s|
  {
    if |s| > 0 {
      var e := NewlineAt(s);
      if e < |s| {
        var rest := s[e + 1..];
        FileLinesConcat(rest);
        var lines := FileLines(s);
        assert lines[1..] == FileLines(rest);
        assert s[..e + 1] + rest == s;
      } else {
        assert Concat([s]) == s + Concat([]);
      }
    }
  }

  /**
   * Line `i` is non-empty, holds a '\n' only as its last character, and
   * ends with one unless it is the last line.
   */
  lemma {:induction false} FileLineShape(s: string, i: nat)
    requires i < |FileLines(s)|
    ensures FileLines(s)[i] != ""
    ensures forall k :: 0 <= k < |FileLines(s)[i]| - 1 ==> FileLines(s)[i][k] != '\n'
    ensures i < |FileLines(s)| - 1 ==> FileLines(s)[i][|FileLines(s)[i]| - 1] == '\n'
    decreases |s|
  {
    var e := NewlineAt(s);
    if e < |s| {
      var rest := s[e + 1..];
      if i > 0 {
        assert FileLines(s)[i] == FileLines(rest)[i - 1];
        FileLineShape(rest, i - 1);
      } else {
        assert FileLines(s)[0] == s[..e + 1];
      }
    }
  }

  // ------------------------------------------------------ replace(pat, '')

  /**
   * `s.replace(pat, '')`: every occurrence of `pat`, found left to right
   * without overlap, removed.
   */
  function RemoveAll(s: string, pat: string): string
    requires |pat| > 0
    decreases |s|
  {
    if |s| < |pat| then s
    else if s[..|pat|] == pat then RemoveAll(s[|pat|..], pat)
    else [s[0]] + RemoveAll(s[1..], pat)
  }

  /** `pat` occurs in `s` starting at index `i`. */
  predicate OccursAt(s: string, i: nat, pat: string) {
    i + |pat| <= |s| && s[i..i + |pat|] == pat
  }

  /**
   * Removing a suffix that occurs nowhere else leaves exactly what is in
   * front of it: no occurrence of `pat` starts inside `stem`.
   */
  lemma {:induction false} RemoveAllSuffix(stem: string, pat: string)
    requires |pat| > 0
    requires forall i :: 0 <= i < |stem| ==> !OccursAt(stem + pat, i, pat)
    ensures RemoveAll(stem + pat, pat) == stem
    decreases |stem|
  {
    var s := stem + pat;
    if |stem| == 0 {
      assert s == pat;
      assert s[..|pat|] == pat;
      assert s[|pat|..] == "";
    } else {
      assert !OccursAt(s, 0, pat);
      assert s[..|pat|] == s[0..0 + |pat|];
      assert s[1..] == stem[1..] + pat;
      forall i | 0 <= i < |stem[1..]|
        ensures !OccursAt(stem[1..] + pat, i, pat)
      {
        assert !OccursAt(s, i + 1, pat);
        assert (stem[1..] + pat)[i..i + |pat|] == s[i + 1..i + 1 + |pat|];
      }
      RemoveAllSuffix(stem[1..], pat);
      assert [stem[0]] + stem[1..] == stem;
    }
  }
}
