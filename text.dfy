/** Text utilities shared by the model: Python's line iteration, `str.splitlines(True)`,
    substring search, `''.join` and `str.split` on a single character. Strings are
    sequences of characters; no encoding is modelled. */
module Text {

  datatype Option<T> = None | Some(value: T)

  /** `\w` of Python 2's `re` without the UNICODE flag. */
  predicate IsWordChar(c: char) {
    ('a' <= c <= 'z') || ('A' <= c <= 'Z') || ('0' <= c <= '9') || c == '_'
  }

  /** A match of `\w+`. */
  predicate IsWord(s: string) {
    |s| > 0 && forall i :: 0 <= i < |s| ==> IsWordChar(s[i])
  }

  predicate StartsWith(s: string, p: string) {
    |p| <= |s| && s[..|p|] == p
  }

  /** Python's `w in s` for strings. */
  predicate Has(s: string, w: string) {
    exists i :: 0 <= i <= |s| && StartsWith(s[i..], w)
  }

  /** Length of the longest prefix of `s` made of `\w` characters. */
  function WordLen(s: string): (n: nat)
    ensures n <= |s|
    ensures forall i :: 0 <= i < n ==> IsWordChar(s[i])
    ensures n < |s| ==> !IsWordChar(s[n])
  {
    if s == [] || !IsWordChar(s[0]) then 0 else 1 + WordLen(s[1..])
  }

  lemma WordLenOf(w: string, rest: string)
    requires forall i :: 0 <= i < |w| ==> IsWordChar(w[i])
    requires rest != [] ==> !IsWordChar(rest[0])
    ensures WordLen(w + rest) == |w|
  {
    if w != [] {
      assert (w + rest)[1..] == w[1..] + rest;
      WordLenOf(w[1..], rest);
    }
  }

  /** `''.join(ls)` */
  function Concat(ls: seq<string>): string {
    if ls == [] then [] else ls[0] + Concat(ls[1..])
  }

  lemma {:induction false} ConcatSnoc(ls: seq<string>, x: string)
    ensures Concat(ls + [x]) == Concat(ls) + x
  {
    if ls != [] {
      assert (ls + [x])[1..] == ls[1..] + [x];
      ConcatSnoc(ls[1..], x);
    }
  }

  // ---------------------------------------------------------------------------
  // Line iteration over a text file (`for line in f`): a line ends just after '\n'.

  function NewlineLineLen(s: string): (n: nat)
    requires s != []
    ensures 0 < n <= |s|
    ensures forall i :: 0 <= i < n - 1 ==> s[i] != '\n'
    ensures n < |s| ==> s[n - 1] == '\n'
  {
    if s[0] == '\n' || |s| == 1 then 1 else 1 + NewlineLineLen(s[1..])
  }

  /** The lines `for line in f` yields for a file whose content is `s`; each keeps its '\n'. */
  function FileLines(s: string): (ls: seq<string>)
    decreases |s|
  {
    if s == [] then [] else
      var n := NewlineLineLen(s);
      [s[..n]] + FileLines(s[n..])
  }

  /** Reading the lines back gives the file; every line but the last ends with '\n', and
      '\n' occurs in a line only at its end. */
  lemma FileLinesJoin(s: string)
    ensures Concat(FileLines(s)) == s
    ensures forall k :: 0 <= k < |FileLines(s)| ==>
      FileLines(s)[k] != [] && forall i :: 0 <= i < |FileLines(s)[k]| - 1 ==> FileLines(s)[k][i] != '\n'
    ensures forall k :: 0 <= k < |FileLines(s)| - 1 ==> FileLines(s)[k][|FileLines(s)[k]| - 1] == '\n'
  {
    FileLinesConcat(s);
    FileLinesEnds(s);
  }

  lemma {:induction false} FileLinesConcat(s: string)
    ensures Concat(FileLines(s)) == s
    decreases |s|
  {
    if s != [] {
      var n := NewlineLineLen(s);
      FileLinesConcat(s[n..]);
      assert s[..n] + s[n..] == s;
    }
  }

  lemma {:induction false} FileLinesEnds(s: string)
    ensures forall k :: 0 <= k < |FileLines(s)| ==>
      FileLines(s)[k] != [] && forall i :: 0 <= i < |FileLines(s)[k]| - 1 ==> FileLines(s)[k][i] != '\n'
    ensures forall k :: 0 <= k < |FileLines(s)| - 1 ==> FileLines(s)[k][|FileLines(s)[k]| - 1] == '\n'
    decreases |s|
  {
    if s != [] {
      var n := NewlineLineLen(s);
      var rest := FileLines(s[n..]);
      FileLinesEnds(s[n..]);
      var ls := FileLines(s);
      assert ls == [s[..n]] + rest;
      forall k | 0 <= k < |ls|
        ensures ls[k] != [] && forall i :: 0 <= i < |ls[k]| - 1 ==> ls[k][i] != '\n'
        ensures k < |ls| - 1 ==> ls[k][|ls[k]| - 1] == '\n'
      {
        if k > 0 { assert ls[k] == rest[k - 1]; }
        else if |ls| > 1 { assert n < |s|; }
      }
    }
  }

  // ---------------------------------------------------------------------------
  // `str.splitlines(True)` on a byte string: a line ends after '\n', after '\r',
  // or after the pair "\r\n".

  predicate IsLineBreak(c: char) { c == '\n' || c == '\r' }

  function SplitLineLen(s: string): (n: nat)
    requires s != []
    ensures 0 < n <= |s|
    ensures n < |s| ==> IsLineBreak(s[n - 1])
  {
    if s[0] == '\n' then 1
    else if s[0] == '\r' then (if |s| > 1 && s[1] == '\n' then 2 else 1)
    else if |s| == 1 then 1
    else 1 + SplitLineLen(s[1..])
  }

  /** A line is cut at its first line break, and takes the '\n' of a "\r\n" with it. */
  lemma {:induction false} SplitLineLenBreaks(s: string)
    requires s != []
    ensures NoInnerBreak(s[..SplitLineLen(s)])
    ensures SplitLineLen(s) < |s| && s[SplitLineLen(s) - 1] == '\r' ==> s[SplitLineLen(s)] != '\n'
    decreases |s|
  {
    if !IsLineBreak(s[0]) && |s| > 1 {
      var m := SplitLineLen(s[1..]);
      SplitLineLenBreaks(s[1..]);
      NoInnerBreakCons(s[0], s[1..][..m]);
      assert s[..1 + m] == [s[0]] + s[1..][..m];
    }
  }

  lemma NoInnerBreakCons(c: char, l: string)
    requires !IsLineBreak(c) && NoInnerBreak(l)
    ensures NoInnerBreak([c] + l)
  {
    var cl := [c] + l;
    forall i | 1 <= i < |cl| - 1
      ensures !IsLineBreak(cl[i]) || (i == |cl| - 2 && cl[i] == '\r' && cl[i + 1] == '\n')
    {
      assert cl[i] == l[i - 1] && cl[i + 1] == l[i];
    }
  }

  /** A line holds a line break only as its last character, or as the "\r\n" ending it. */
  predicate NoInnerBreak(l: string) {
    forall i :: 0 <= i < |l| - 1 ==>
      !IsLineBreak(l[i]) || (i == |l| - 2 && l[i] == '\r' && l[i + 1] == '\n')
  }

  /** Two neighbouring non-empty lines: a "\r\n" is never cut between them. */
  predicate CrLfKept(a: string, b: string) {
    a != [] && b != [] && (a[|a| - 1] == '\r' ==> b[0] != '\n')
  }

  function SplitLinesKeepEnds(s: string): (ls: seq<string>)
    decreases |s|
  {
    if s == [] then [] else
      var n := SplitLineLen(s);
      [s[..n]] + SplitLinesKeepEnds(s[n..])
  }

  /** Every line but the last one ends with a line break. */
  ghost predicate Terminated(ls: seq<string>) {
    forall k :: 0 <= k < |ls| - 1 ==> ls[k] != [] && IsLineBreak(ls[k][|ls[k]| - 1])
  }

  /** The lines join back to the text, none is empty, every line but the last ends with a
      line break, no line holds a break before its end, and no "\r\n" is cut in two. */
  lemma SplitLinesShape(s: string)
    ensures Concat(SplitLinesKeepEnds(s)) == s
    ensures Terminated(SplitLinesKeepEnds(s))
    ensures forall k :: 0 <= k < |SplitLinesKeepEnds(s)| ==> SplitLinesKeepEnds(s)[k] != []
    ensures forall k :: 0 <= k < |SplitLinesKeepEnds(s)| ==> NoInnerBreak(SplitLinesKeepEnds(s)[k])
    ensures forall k :: 0 <= k < |SplitLinesKeepEnds(s)| - 1 ==>
      CrLfKept(SplitLinesKeepEnds(s)[k], SplitLinesKeepEnds(s)[k + 1])
  {
    SplitLinesConcat(s);
    SplitLinesEnds(s);
    SplitLinesBreaks(s);
  }

  /** Each line is cut at its first line break, taking the '\n' of a "\r\n" with it. */
  lemma {:induction false} SplitLinesBreaks(s: string)
    ensures forall k :: 0 <= k < |SplitLinesKeepEnds(s)| ==> NoInnerBreak(SplitLinesKeepEnds(s)[k])
    ensures forall k :: 0 <= k < |SplitLinesKeepEnds(s)| - 1 ==>
      CrLfKept(SplitLinesKeepEnds(s)[k], SplitLinesKeepEnds(s)[k + 1])
    decreases |s|
  {
    if s != [] {
      var n := SplitLineLen(s);
      var rest := SplitLinesKeepEnds(s[n..]);
      SplitLineLenBreaks(s);
      SplitLinesBreaks(s[n..]);
      SplitLinesEnds(s[n..]);
      var ls := SplitLinesKeepEnds(s);
      assert ls == [s[..n]] + rest;
      forall k | 0 <= k < |ls|
        ensures NoInnerBreak(ls[k])
        ensures k < |ls| - 1 ==> CrLfKept(ls[k], ls[k + 1])
      {
        if k > 0 {
          assert ls[k] == rest[k - 1];
          if k < |ls| - 1 { assert ls[k + 1] == rest[k]; }
        } else if |ls| > 1 {
          var m := SplitLineLen(s[n..]);
          assert ls[1] == s[n..][..m];
          assert ls[1][0] == s[n];
        }
      }
    }
  }

  /** Joining the lines gives the text back. */
  lemma {:induction false} SplitLinesConcat(s: string)
    ensures Concat(SplitLinesKeepEnds(s)) == s
    decreases |s|
  {
    if s != [] {
      var n := SplitLineLen(s);
      SplitLinesConcat(s[n..]);
      assert s[..n] + s[n..] == s;
    }
  }

  /** No line is empty, and every line but the last ends with its line break. */
  lemma {:induction false} SplitLinesEnds(s: string)
    ensures Terminated(SplitLinesKeepEnds(s))
    ensures forall k :: 0 <= k < |SplitLinesKeepEnds(s)| ==> SplitLinesKeepEnds(s)[k] != []
    decreases |s|
  {
    if s != [] {
      var n := SplitLineLen(s);
      var rest := SplitLinesKeepEnds(s[n..]);
      SplitLinesEnds(s[n..]);
      var ls := SplitLinesKeepEnds(s);
      assert ls == [s[..n]] + rest;
      forall k | 0 <= k < |ls|
        ensures ls[k] != []
        ensures k < |ls| - 1 ==> IsLineBreak(ls[k][|ls[k]| - 1])
      {
        if k > 0 { assert ls[k] == rest[k - 1]; }
      }
    }
  }

  // ---------------------------------------------------------------------------
  // Substrings

  lemma HasPrefix(a: string, b: string, w: string)
    requires Has(a, w)
    ensures Has(a + b, w)
  {
    var i :| 0 <= i <= |a| && StartsWith(a[i..], w);
    assert (a + b)[i..][..|w|] == a[i..][..|w|];
    assert StartsWith((a + b)[i..], w);
  }

  lemma HasSuffix(a: string, b: string, w: string)
    requires Has(b, w)
    ensures Has(a + b, w)
  {
    var i :| 0 <= i <= |b| && StartsWith(b[i..], w);
    assert (a + b)[|a| + i..] == b[i..];
    assert StartsWith((a + b)[|a| + i..], w);
  }

  /** An occurrence of `w` in `a + b` lies inside `a`, inside `b`, or spans the last
      character of `a`; when that character does not occur in `w`, only the first
      two are possible. */
  lemma HasNotConcat(a: string, b: string, w: string)
    requires !Has(a, w) && !Has(b, w)
    requires a != [] ==> a[|a| - 1] !in w
    ensures !Has(a + b, w)
  {
    var s := a + b;
    forall i | 0 <= i <= |s| ensures !StartsWith(s[i..], w) {
      if i + |w| <= |a| {
        assert !StartsWith(a[i..], w);
        assert s[i..][..|w|] == a[i..][..|w|];
      } else if i >= |a| {
        assert s[i..] == b[i - |a|..];
        assert !StartsWith(b[i - |a|..], w);
      } else if |w| <= |s| - i {
        var k := |a| - 1 - i;
        assert s[i..][..|w|][k] == a[|a| - 1];
        assert w[k] in w;
      }
    }
  }

  /** Every line that `str.splitlines(True)` cuts out of `s` is a substring of `s`. */
  lemma {:induction false} SplitLinesHas(s: string, w: string, k: nat)
    requires k < |SplitLinesKeepEnds(s)|
    requires Has(SplitLinesKeepEnds(s)[k], w)
    ensures Has(s, w)
    decreases |s|
  {
    var n := SplitLineLen(s);
    assert s == s[..n] + s[n..];
    if k == 0 {
      HasPrefix(s[..n], s[n..], w);
    } else {
      assert SplitLinesKeepEnds(s)[k] == SplitLinesKeepEnds(s[n..])[k - 1];
      SplitLinesHas(s[n..], w, k - 1);
      HasSuffix(s[..n], s[n..], w);
    }
  }

  // ---------------------------------------------------------------------------
  // `s.split(c)` and `c.join(parts)` for a single character `c`

  function SplitOn(s: string, c: char): (parts: seq<string>)
    ensures |parts| >= 1
  {
    if s == [] then [[]]
    else if s[0] == c then [[]] + SplitOn(s[1..], c)
    else
      var r := SplitOn(s[1..], c);
      [[s[0]] + r[0]] + r[1..]
  }

  function JoinWith(parts: seq<string>, c: char): string
    requires |parts| >= 1
  {
    if |parts| == 1 then parts[0] else parts[0] + [c] + JoinWith(parts[1..], c)
  }

  /** Joining the parts of a split gives back the original, and no part holds the separator. */
  lemma {:induction false} SplitJoin(s: string, c: char)
    ensures JoinWith(SplitOn(s, c), c) == s
    ensures forall k :: 0 <= k < |SplitOn(s, c)| ==> c !in SplitOn(s, c)[k]
  {
    if s != [] {
      var r := SplitOn(s[1..], c);
      SplitJoin(s[1..], c);
      if s[0] == c {
        assert SplitOn(s, c)[1..] == r;
        assert s == [c] + s[1..];
        forall k | 0 <= k < |SplitOn(s, c)| ensures c !in SplitOn(s, c)[k] {
          if k > 0 { assert SplitOn(s, c)[k] == r[k - 1]; }
        }
      } else {
        var ps := SplitOn(s, c);
        assert ps == [[s[0]] + r[0]] + r[1..];
        if |r| == 1 {
          assert JoinWith(ps, c) == [s[0]] + r[0];
        } else {
          assert ps[1..] == r[1..];
          assert JoinWith(r, c) == r[0] + [c] + JoinWith(r[1..], c);
        }
        assert s == [s[0]] + s[1..];
        forall k | 0 <= k < |ps| ensures c !in ps[k] {
          if k > 0 { assert ps[k] == r[k]; }
        }
      }
    }
  }

  /** Splitting a join of separator-free parts gives the parts back. */
  lemma {:induction false} JoinSplit(parts: seq<string>, c: char)
    requires |parts| >= 1
    requires forall k :: 0 <= k < |parts| ==> c !in parts[k]
    ensures SplitOn(JoinWith(parts, c), c) == parts
    decreases |parts|, |parts[0]|
  {
    var p := parts[0];
    if p == [] {
      if |parts| > 1 {
        assert JoinWith(parts, c) == [c] + JoinWith(parts[1..], c);
        JoinSplit(parts[1..], c);
        assert [c] + JoinWith(parts[1..], c) != [];
        assert ([c] + JoinWith(parts[1..], c))[1..] == JoinWith(parts[1..], c);
        assert parts == [[]] + parts[1..];
      }
    } else {
      var parts' := [p[1..]] + parts[1..];
      assert parts'[1..] == parts[1..];
      forall k | 0 <= k < |parts'| ensures c !in parts'[k] {
        if k == 0 {
          assert forall x :: x in p[1..] ==> x in p;
        } else {
          assert parts'[k] == parts[k];
        }
      }
      JoinSplit(parts', c);
      var j := JoinWith(parts, c);
      if |parts| == 1 {
        assert j == p && JoinWith(parts', c) == p[1..];
      } else {
        assert j == p + [c] + JoinWith(parts[1..], c);
        assert JoinWith(parts', c) == p[1..] + [c] + JoinWith(parts[1..], c);
      }
      assert j[0] == p[0] && j[0] != c;
      assert j[1..] == JoinWith(parts', c);
      var r := SplitOn(j[1..], c);
      assert r == parts';
      assert [p[0]] + p[1..] == p;
      assert SplitOn(j, c) == [[p[0]] + r[0]] + r[1..];
    }
  }

  // ---------------------------------------------------------------------------
  // POSIX `os.path.join`

  /** `os.path.join(a, b)` for two POSIX path strings. */
  function PathJoin(a: string, b: string): string {
    if |b| > 0 && b[0] == '/' then b
    else if a == [] || a[|a| - 1] == '/' then a + b
    else a + "/" + b
  }

  /** `os.path.join(a, *parts)`: the parts joined on one at a time. */
  function PathJoinAll(a: string, parts: seq<string>): string
    decreases |parts|
  {
    if parts == [] then a else PathJoinAll(PathJoin(a, parts[0]), parts[1..])
  }

  /** The path string that a list of path components stands for: `os.path.join(*parts)`. */
  function OsPath(parts: seq<string>): string
    requires |parts| >= 1
  {
    PathJoinAll(parts[0], parts[1..])
  }

  /** A non-empty path component without '/'. */
  predicate IsComponent(x: string) {
    x != [] && '/' !in x
  }

  /** Joining onto a relative path only ever puts one '/' in between, decided by `a` alone. */
  lemma PathJoinRelative(a: string, b: string)
    requires b != [] && b[0] != '/'
    ensures PathJoin(a, b) == (if a == [] || a[|a| - 1] == '/' then a else a + "/") + b
  {
  }

  /** Joining components one at a time is joining them with '/' in one step. */
  lemma {:induction false} PathJoinAllComponents(a: string, parts: seq<string>)
    requires |parts| >= 1
    requires forall k :: 0 <= k < |parts| ==> IsComponent(parts[k])
    ensures PathJoinAll(a, parts) == PathJoin(a, JoinWith(parts, '/'))
    decreases |parts|
  {
    var x := parts[0];
    assert x[0] in x;
    if |parts| > 1 {
      var rest := parts[1..];
      forall k | 0 <= k < |rest| ensures IsComponent(rest[k]) {
        assert rest[k] == parts[k + 1];
      }
      PathJoinAllComponents(PathJoin(a, x), rest);
      var y := JoinWith(rest, '/');
      assert rest[0][0] in rest[0];
      assert y[0] == rest[0][0];
      PathJoinStep(a, x, y);
      assert JoinWith(parts, '/') == x + "/" + y;
    }
  }

  /** Joining a component and then a relative path is joining them with '/' in one step. */
  lemma PathJoinStep(a: string, x: string, y: string)
    requires IsComponent(x) && y != [] && y[0] != '/'
    ensures PathJoin(PathJoin(a, x), y) == PathJoin(a, x + "/" + y)
  {
    assert x[0] in x && x[|x| - 1] in x;
    var ax := PathJoin(a, x);
    PathJoinRelative(a, x);
    assert ax[|ax| - 1] == x[|x| - 1];
    PathJoinRelative(ax, y);
    PathJoinRelative(a, x + "/" + y);
  }

  /** Two relative paths joined onto the same directory give the same path only when
      they are the same. */
  lemma PathJoinCancel(a: string, b1: string, b2: string)
    requires b1 != [] && b1[0] != '/' && b2 != [] && b2[0] != '/'
    requires PathJoin(a, b1) == PathJoin(a, b2)
    ensures b1 == b2
  {
    PathJoinRelative(a, b1);
    PathJoinRelative(a, b2);
    var d := if a == [] || a[|a| - 1] == '/' then a else a + "/";
    assert b1 == PathJoin(a, b1)[|d|..];
    assert b2 == PathJoin(a, b2)[|d|..];
  }
}
