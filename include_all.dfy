/** The include-all branch of CreateExtraRJavaFiles (process_resources.py lines 121-134):
    the one R.java found under `r_dir` is copied once per extra package, with every
    match of `package [.\w]*;` replaced by `package <pkg>;`, to `r_dir/<pkg as path>/R.java`. */
module IncludeAll {
  import opened Text

  /** A character of the class `[.\w]`. */
  predicate IsPackageChar(c: char) {
    c == '.' || IsWordChar(c)
  }

  /** A string that `[.\w]*` matches in full: a package name such as `org.chromium.base`. */
  predicate IsPackageName(p: string) {
    forall i :: 0 <= i < |p| ==> IsPackageChar(p[i])
  }

  /** Length of the longest prefix of `s` made of `[.\w]` characters. */
  function RunLen(s: string): (n: nat)
    ensures n <= |s|
    ensures forall i :: 0 <= i < n ==> IsPackageChar(s[i])
    ensures n < |s| ==> !IsPackageChar(s[n])
  {
    if s == [] || !IsPackageChar(s[0]) then 0 else 1 + RunLen(s[1..])
  }

  /** The declaration that replaces every match. */
  function PackageDecl(p: string): string {
    "package " + p + ";"
  }

  /** Length of the match of `package [.\w]*;` at the start of `s`, if there is one. The
      greedy run cannot give back a character to `;`, which is not in `[.\w]`, so the
      pattern matches exactly when the longest run is followed by `;`. */
  function MatchLen(s: string): (r: Option<nat>)
    ensures r.Some? ==> 9 <= r.value <= |s| && StartsWith(s, "package ") && s[r.value - 1] == ';'
    ensures r.Some? ==> IsPackageName(s[8..r.value - 1])
  {
    if !StartsWith(s, "package ") then None
    else
      var n := RunLen(s[8..]);
      if 8 + n < |s| && s[8 + n] == ';' then Some(9 + n) else None
  }

  /** `re.sub(r'package [.\w]*;', 'package %s;' % pkg, s)`: matches are taken left to
      right, each replaced in full, the scan resuming after it; every other character is
      copied unchanged. */
  function Retarget(s: string, pkg: string): string
    decreases |s|
  {
    if s == [] then []
    else
      match MatchLen(s)
      case Some(n) => PackageDecl(pkg) + Retarget(s[n..], pkg)
      case None => [s[0]] + Retarget(s[1..], pkg)
  }

  // ---------------------------------------------------------------------------
  // Properties of the rewrite

  lemma RunLenOf(p: string, rest: string)
    requires IsPackageName(p)
    requires rest != [] && !IsPackageChar(rest[0])
    ensures RunLen(p + rest) == |p|
  {
    if p != [] {
      assert (p + rest)[1..] == p[1..] + rest;
      RunLenOf(p[1..], rest);
    }
  }

  /** A declaration written by the rewrite is itself a match, of its own length. */
  lemma MatchLenDecl(p: string, rest: string)
    requires IsPackageName(p)
    ensures MatchLen(PackageDecl(p) + rest) == Some(|PackageDecl(p)|)
  {
    var s := PackageDecl(p) + rest;
    assert s[..8] == "package ";
    assert s[8..] == p + ([';'] + rest);
    RunLenOf(p, [';'] + rest);
  }

  /** Whether there is a match at the start of `s` is decided by `s` up to the first
      character after position 8 that is not in `[.\w]`. */
  lemma RunLenAgree(a: string, b: string, j: nat)
    requires 1 <= j <= |a| && j <= |b| && a[..j] == b[..j] && !IsPackageChar(a[j - 1])
    ensures RunLen(a) == RunLen(b) < j
  {
    assert a[0] == b[0];
    if IsPackageChar(a[0]) {
      assert a[1..][..j - 1] == b[1..][..j - 1];
      RunLenAgree(a[1..], b[1..], j - 1);
    }
  }

  lemma MatchLenAgree(a: string, b: string, j: nat)
    requires 9 <= j <= |a| && j <= |b| && a[..j] == b[..j] && !IsPackageChar(a[j - 1])
    ensures MatchLen(a) == MatchLen(b)
  {
    assert a[..8] == b[..8];
    if StartsWith(a, "package ") {
      assert a[8..][..j - 8] == a[..j][8..];
      assert b[8..][..j - 8] == b[..j][8..];
      RunLenAgree(a[8..], b[8..], j - 8);
      var n := RunLen(a[8..]);
      assert 8 + n < j;
      assert a[8 + n] == a[..j][8 + n] == b[..j][8 + n] == b[8 + n];
    }
  }

  /** `s` and `r` agree up to and including a `package ` that starts at `m` in `s`. */
  predicate AgreeThrough(s: string, r: string, m: nat) {
    m + 8 <= |s| && m + 8 <= |r| && s[..m + 8] == r[..m + 8] && s[m + 7] == ' '
  }

  /** Putting the same character in front keeps two texts in agreement. */
  lemma AgreeCons(c: char, s: string, r: string, m: nat)
    requires AgreeThrough(s, r, m)
    ensures AgreeThrough([c] + s, [c] + r, m + 1)
  {
    assert ([c] + s)[..m + 9] == [c] + s[..m + 8];
    assert ([c] + r)[..m + 9] == [c] + r[..m + 8];
  }

  /** At a match the rewrite starts with the same `package ` as the original. */
  lemma AgreeAtMatch(s: string, p: string)
    requires s != [] && MatchLen(s).Some?
    ensures AgreeThrough(s, Retarget(s, p), 0)
  {
    var n := MatchLen(s).value;
    var r := Retarget(s, p);
    assert r == PackageDecl(p) + Retarget(s[n..], p);
    assert r[..8] == "package ";
  }

  /** The rewritten text is the original text, or agrees with it up to and including the
      `package ` of the original's first match. */
  lemma {:induction false} RetargetAgrees(s: string, p: string)
    ensures Retarget(s, p) == s || exists m: nat :: AgreeThrough(s, Retarget(s, p), m)
    decreases |s|
  {
    if s != [] {
      if MatchLen(s).Some? {
        AgreeAtMatch(s, p);
      } else {
        RetargetAgrees(s[1..], p);
        var t := Retarget(s[1..], p);
        assert Retarget(s, p) == [s[0]] + t;
        assert s == [s[0]] + s[1..];
        if t != s[1..] {
          var m: nat :| AgreeThrough(s[1..], t, m);
          AgreeCons(s[0], s[1..], t, m);
        }
      }
    }
  }

  /** Where the original has no match, its rewrite does not grow one. */
  lemma NoNewMatch(s: string, p: string)
    requires s != [] && MatchLen(s).None?
    ensures MatchLen([s[0]] + Retarget(s[1..], p)).None?
  {
    var t := Retarget(s[1..], p);
    RetargetAgrees(s[1..], p);
    assert s == [s[0]] + s[1..];
    if t != s[1..] {
      var m: nat :| AgreeThrough(s[1..], t, m);
      AgreeCons(s[0], s[1..], t, m);
      MatchLenAgree(s, [s[0]] + t, m + 9);
    }
  }

  /** Rewriting for `p` and then for `q` is rewriting for `q`: the declarations written
      for `p` are exactly the matches found again. */
  lemma {:induction false} RetargetTwice(s: string, p: string, q: string)
    requires IsPackageName(p)
    ensures Retarget(Retarget(s, p), q) == Retarget(s, q)
    decreases |s|
  {
    if s != [] {
      match MatchLen(s)
      case Some(n) =>
        var x := Retarget(s[n..], p);
        MatchLenDecl(p, x);
        assert (PackageDecl(p) + x)[|PackageDecl(p)|..] == x;
        RetargetTwice(s[n..], p, q);
      case None =>
        var y := [s[0]] + Retarget(s[1..], p);
        NoNewMatch(s, p);
        assert y[1..] == Retarget(s[1..], p);
        RetargetTwice(s[1..], p, q);
    }
  }

  /** Rewriting twice for the same package is rewriting once. */
  lemma RetargetIdempotent(s: string, p: string)
    requires IsPackageName(p)
    ensures Retarget(Retarget(s, p), p) == Retarget(s, p)
  {
    RetargetTwice(s, p, p);
  }

  /** A text without `package ` is copied unchanged. */
  lemma {:induction false} RetargetNoDecl(s: string, p: string)
    requires !Has(s, "package ")
    ensures Retarget(s, p) == s
    decreases |s|
  {
    if s != [] {
      assert StartsWith(s[0..], "package ") ==> Has(s, "package ");
      assert s[0..] == s;
      assert !Has(s[1..], "package ") by {
        forall i | 0 <= i <= |s[1..]| ensures !StartsWith(s[1..][i..], "package ") {
          assert s[1..][i..] == s[i + 1..];
        }
      }
      RetargetNoDecl(s[1..], p);
    }
  }

  /** A character other than `p` cannot start a match, so it is copied. */
  lemma RetargetSkip(s: string, p: string)
    requires s != [] && s[0] != 'p'
    ensures Retarget(s, p) == [s[0]] + Retarget(s[1..], p)
  {
    NotStartsWith(s, 0);
  }

  /** Text without the letter `p` is copied unchanged in front of what follows it. */
  lemma {:induction false} RetargetPrefix(pre: string, rest: string, p: string)
    requires 'p' !in pre
    ensures Retarget(pre + rest, p) == pre + Retarget(rest, p)
    decreases |pre|
  {
    if pre == [] {
      assert pre + rest == rest;
    } else {
      var s := pre + rest;
      assert s[0] == pre[0] && pre[0] in pre;
      RetargetSkip(s, p);
      assert s[1..] == pre[1..] + rest;
      RetargetPrefix(pre[1..], rest, p);
      assert pre == [pre[0]] + pre[1..];
    }
  }

  /** A declaration is replaced in full, and the scan resumes right after it. */
  lemma RetargetDecl(a: string, rest: string, p: string)
    requires IsPackageName(a)
    ensures Retarget(PackageDecl(a) + rest, p) == PackageDecl(p) + Retarget(rest, p)
  {
    MatchLenDecl(a, rest);
    assert (PackageDecl(a) + rest)[|PackageDecl(a)|..] == rest;
  }

  /** The substitution is not anchored at the start of a line: a declaration inside a
      `//` comment is rewritten too. */
  lemma RetargetUnanchored(a: string, p: string)
    requires IsPackageName(a)
    ensures Retarget("// " + PackageDecl(a), p) == "// " + PackageDecl(p)
  {
    RetargetPrefix("// ", PackageDecl(a), p);
    RetargetDecl(a, [], p);
    assert PackageDecl(a) + [] == PackageDecl(a);
  }

  lemma NotStartsWith(s: string, k: nat)
    requires k < 8 && k < |s| && s[k] != "package "[k]
    ensures !StartsWith(s, "package ")
  {
    if 8 <= |s| {
      assert s[..8][k] == s[k];
    }
  }

  // ---------------------------------------------------------------------------
  // Output paths

  /** `os.path.join(r_dir, *package.split('.'))`, as its path components. */
  function PackageDir(rDir: string, pkg: string): seq<string> {
    [rDir] + SplitOn(pkg, '.')
  }

  /** `os.path.join(package_r_java_dir, 'R.java')`. */
  function PackagePath(rDir: string, pkg: string): seq<string> {
    PackageDir(rDir, pkg) + ["R.java"]
  }

  /** A Java package name: dot-separated parts, each a non-empty run of `\w`. */
  predicate IsJavaPackage(p: string) {
    forall part :: part in SplitOn(p, '.') ==> IsWord(part)
  }

  /** The file name the path components stand for, as `os.path.join` builds it. */
  function PackageFile(rDir: string, pkg: string): string {
    OsPath(PackagePath(rDir, pkg))
  }

  lemma PackageFileIsJoin(rDir: string, pkg: string)
    requires IsJavaPackage(pkg)
    ensures PackageFile(rDir, pkg) == PathJoin(rDir, JoinWith(SplitOn(pkg, '.') + ["R.java"], '/'))
    ensures forall k :: 0 <= k < |SplitOn(pkg, '.') + ["R.java"]| ==> '/' !in (SplitOn(pkg, '.') + ["R.java"])[k]
  {
    var parts := SplitOn(pkg, '.') + ["R.java"];
    assert PackagePath(rDir, pkg)[1..] == parts;
    forall k | 0 <= k < |parts| ensures IsComponent(parts[k]) {
      if k < |parts| - 1 {
        assert parts[k] in SplitOn(pkg, '.');
        assert forall i :: 0 <= i < |parts[k]| ==> IsWordChar(parts[k][i]);
      }
    }
    PathJoinAllComponents(rDir, parts);
  }

  lemma FirstCharOfJoin(p: string)
    requires IsJavaPackage(p)
    ensures var j := JoinWith(SplitOn(p, '.') + ["R.java"], '/'); j != [] && j[0] != '/'
  {
    var parts := SplitOn(p, '.') + ["R.java"];
    var x := parts[0];
    assert x == SplitOn(p, '.')[0] && x in SplitOn(p, '.');
    assert x != [] && IsWordChar(x[0]);
    var j := JoinWith(parts, '/');
    assert j == x || j == x + ['/'] + JoinWith(parts[1..], '/');
    assert j[0] == x[0];
  }

  /** Distinct Java packages are written to distinct files, so no package's R.java
      overwrites another's. */
  lemma PackageFileInjective(rDir: string, p1: string, p2: string)
    requires IsJavaPackage(p1) && IsJavaPackage(p2)
    requires PackageFile(rDir, p1) == PackageFile(rDir, p2)
    ensures p1 == p2
  {
    var a, b := SplitOn(p1, '.') + ["R.java"], SplitOn(p2, '.') + ["R.java"];
    PackageFileIsJoin(rDir, p1);
    PackageFileIsJoin(rDir, p2);
    var ja, jb := JoinWith(a, '/'), JoinWith(b, '/');
    FirstCharOfJoin(p1);
    FirstCharOfJoin(p2);
    PathJoinCancel(rDir, ja, jb);
    JoinSplit(a, '/');
    JoinSplit(b, '/');
    assert SplitOn(p1, '.') == a[..|a| - 1] == b[..|b| - 1] == SplitOn(p2, '.');
    SplitJoin(p1, '.');
    SplitJoin(p2, '.');
  }

  /** `os.path.join` passes over an empty part: the packages `a.b` and `a..b` (not Java
      package names) have different components but the same R.java file. */
  lemma PackageFileCollision()
    ensures PackagePath("r", "a.b") != PackagePath("r", "a..b")
    ensures PackageFile("r", "a.b") == PackageFile("r", "a..b") == "r/a/b/R.java"
  {
    SplitExamples();
    assert PackagePath("r", "a.b") == ["r", "a", "b", "R.java"];
    assert PackagePath("r", "a..b") == ["r", "a", "", "b", "R.java"];
    assert PackagePath("r", "a..b")[2] == "";
    JoinExamples();
  }

  lemma SplitExamples()
    ensures SplitOn("a.b", '.') == ["a", "b"]
    ensures SplitOn("a..b", '.') == ["a", "", "b"]
  {
    var e: string := [];
    assert SplitOn(e, '.') == [[]];
    assert "b"[1..] == e && ['b'] + e == "b";
    assert SplitOn("b", '.') == ["b"];
    assert ".b"[1..] == "b";
    assert SplitOn(".b", '.') == [[]] + ["b"];
    assert "a.b"[1..] == ".b" && ['a'] + e == "a";
    assert SplitOn("a.b", '.') == [['a'] + e] + ["b"];
    assert "..b"[1..] == ".b";
    assert SplitOn("..b", '.') == [[]] + ["", "b"];
    assert "a..b"[1..] == "..b";
  }

  lemma JoinExamples()
    ensures OsPath(["r", "a", "b", "R.java"]) == "r/a/b/R.java"
    ensures OsPath(["r", "a", "", "b", "R.java"]) == "r/a/b/R.java"
  {
    assert PathJoin("r", "a") == "r/a";
    assert PathJoin("r/a", "b") == "r/a/b";
    assert PathJoin("r/a", "") == "r/a/";
    assert PathJoin("r/a/", "b") == "r/a/b";
    assert PathJoin("r/a/b", "R.java") == "r/a/b/R.java";
    assert PathJoinAll("r/a/b/R.java", []) == "r/a/b/R.java";
    assert ["b", "R.java"][1..] == ["R.java"] && ["R.java"][1..] == [];
    assert PathJoinAll("r/a/b", ["R.java"]) == "r/a/b/R.java";
    assert PathJoinAll("r/a", ["b", "R.java"]) == "r/a/b/R.java";
    assert ["", "b", "R.java"][1..] == ["b", "R.java"];
    assert PathJoinAll("r/a/", ["b", "R.java"]) == "r/a/b/R.java";
    assert PathJoinAll("r/a", ["", "b", "R.java"]) == "r/a/b/R.java";
    assert ["a", "b", "R.java"][1..] == ["b", "R.java"];
    assert ["a", "", "b", "R.java"][1..] == ["", "b", "R.java"];
    assert ["r", "a", "b", "R.java"][1..] == ["a", "b", "R.java"];
    assert ["r", "a", "", "b", "R.java"][1..] == ["a", "", "b", "R.java"];
  }

  /** The components between `r_dir` and `R.java` are the package's dot-separated parts:
      joined with '.' they give the package back, and none holds a '.'. */
  lemma PackagePathParts(rDir: string, pkg: string)
    ensures var path := PackagePath(rDir, pkg);
      path[0] == rDir && path[|path| - 1] == "R.java" &&
      JoinWith(path[1..|path| - 1], '.') == pkg &&
      forall k :: 1 <= k < |path| - 1 ==> '.' !in path[k]
  {
    var parts := SplitOn(pkg, '.');
    var path := PackagePath(rDir, pkg);
    assert path[1..|path| - 1] == parts;
    SplitJoin(pkg, '.');
    forall k | 1 <= k < |path| - 1 ensures '.' !in path[k] {
      assert path[k] == parts[k - 1];
    }
  }
}
