/** The two pure parts of the resource zipping (process_resources.py lines 271-298): the
    table of files ZipResources collects, where a file of a later resource directory
    overrides one with the same archive path from an earlier directory, and the names
    CombineZips gives the entries of the combined zip, each under its zip's index. */
module Zips {
  import opened Text

  // ---------------------------------------------------------------------------
  // ZipResources (lines 271-284)

  /** One step of `os.walk(d)`: a directory `root`, its path relative to `d` (as
      `os.path.relpath(root, d)` gives it), and the names of the files in it. */
  datatype Walked = Walked(root: string, relRoot: string, files: seq<string>)

  /** An entry of `files_to_zip`: archive path and file path. */
  type ZipEntry = (string, string)

  /** The entries of the files of one walked directory, in order. */
  function FileEntries(w: Walked, files: seq<string>): (r: seq<ZipEntry>)
    ensures |r| == |files|
    ensures forall k :: 0 <= k < |files| ==> r[k] == (PathJoin(w.relRoot, files[k]), PathJoin(w.root, files[k]))
  {
    if files == [] then []
    else
      var f := files[|files| - 1];
      FileEntries(w, files[..|files| - 1]) + [(PathJoin(w.relRoot, f), PathJoin(w.root, f))]
  }

  /** The entries of one resource directory, walk step by walk step. */
  function DirEntries(walk: seq<Walked>): seq<ZipEntry> {
    if walk == [] then []
    else DirEntries(walk[..|walk| - 1]) + FileEntries(walk[|walk| - 1], walk[|walk| - 1].files)
  }

  /** The entries of all resource directories, in the order given. */
  function Entries(walks: seq<seq<Walked>>): seq<ZipEntry> {
    if walks == [] then []
    else Entries(walks[..|walks| - 1]) + DirEntries(walks[|walks| - 1])
  }

  /** The dictionary after assigning every entry in order. */
  function Collect(es: seq<ZipEntry>): map<string, string> {
    if es == [] then map[]
    else
      var e := es[|es| - 1];
      Collect(es[..|es| - 1])[e.0 := e.1]
  }

  /** `files_to_zip` as ZipResources fills it, one directory, walk step and file at a time. */
  method CollectFilesToZip(walks: seq<seq<Walked>>) returns (filesToZip: map<string, string>)
    ensures filesToZip == Collect(Entries(walks))
  {
    filesToZip := map[];
    for i := 0 to |walks|
      invariant filesToZip == Collect(Entries(walks[..i]))
    {
      var walk := walks[i];
      ghost var done := Entries(walks[..i]);
      assert done + DirEntries(walk[..0]) == done;
      for j := 0 to |walk|
        invariant filesToZip == Collect(done + DirEntries(walk[..j]))
      {
        var w := walk[j];
        ghost var before := done + DirEntries(walk[..j]);
        assert before + FileEntries(w, w.files[..0]) == before;
        for k := 0 to |w.files|
          invariant filesToZip == Collect(before + FileEntries(w, w.files[..k]))
        {
          var f := w.files[k];
          var archivePath := PathJoin(w.relRoot, f);
          var path := PathJoin(w.root, f);
          FileStep(before, w, k);
          filesToZip := filesToZip[archivePath := path];
        }
        WalkStep(done, walk, j);
      }
      DirStep(walks, i);
    }
    assert walks[..|walks|] == walks;
  }

  lemma FileStep(before: seq<ZipEntry>, w: Walked, k: nat)
    requires k < |w.files|
    ensures Collect(before + FileEntries(w, w.files[..k + 1])) ==
      Collect(before + FileEntries(w, w.files[..k]))[PathJoin(w.relRoot, w.files[k]) := PathJoin(w.root, w.files[k])]
  {
    var xs := before + FileEntries(w, w.files[..k + 1]);
    assert w.files[..k + 1][..k] == w.files[..k];
    assert xs[..|xs| - 1] == before + FileEntries(w, w.files[..k]);
  }

  lemma WalkStep(done: seq<ZipEntry>, walk: seq<Walked>, j: nat)
    requires j < |walk|
    ensures done + DirEntries(walk[..j]) + FileEntries(walk[j], walk[j].files[..|walk[j].files|]) ==
      done + DirEntries(walk[..j + 1])
  {
    assert walk[j].files[..|walk[j].files|] == walk[j].files;
    assert walk[..j + 1][..j] == walk[..j];
  }

  lemma DirStep(walks: seq<seq<Walked>>, i: nat)
    requires i < |walks|
    ensures Entries(walks[..i]) + DirEntries(walks[i][..|walks[i]|]) == Entries(walks[..i + 1])
  {
    assert walks[i][..|walks[i]|] == walks[i];
    assert walks[..i + 1][..i] == walks[..i];
  }

  /** The value for an archive path is the file path of its last entry: later entries
      override earlier ones. */
  lemma {:induction false} CollectLastWins(es: seq<ZipEntry>, j: nat)
    requires j < |es|
    requires forall k :: j < k < |es| ==> es[k].0 != es[j].0
    ensures es[j].0 in Collect(es) && Collect(es)[es[j].0] == es[j].1
  {
    var init := es[..|es| - 1];
    if j < |init| {
      assert forall k :: j < k < |init| ==> init[k] == es[k];
      CollectLastWins(init, j);
    }
  }

  /** Collecting two runs of entries one after the other is merging their tables, the
      second one winning on every archive path both have. */
  lemma {:induction false} CollectAppend(xs: seq<ZipEntry>, ys: seq<ZipEntry>)
    ensures Collect(xs + ys) == Collect(xs) + Collect(ys)
    decreases |ys|
  {
    if ys == [] {
      assert xs + ys == xs;
    } else {
      var e := ys[|ys| - 1];
      var init := ys[..|ys| - 1];
      CollectAppend(xs, init);
      assert (xs + ys)[..|xs + ys| - 1] == xs + init;
      assert (xs + ys)[|xs + ys| - 1] == e;
      calc {
        Collect(xs + ys);
        Collect(xs + init)[e.0 := e.1];
        (Collect(xs) + Collect(init))[e.0 := e.1];
        Collect(xs) + Collect(init)[e.0 := e.1];
      }
    }
  }

  /** A later resource directory overrides every file of the earlier ones that has the
      same archive path, and keeps the others (the comment at lines 272-274). */
  lemma LaterDirOverrides(walks: seq<seq<Walked>>, d: seq<Walked>)
    ensures Collect(Entries(walks + [d])) == Collect(Entries(walks)) + Collect(DirEntries(d))
  {
    assert (walks + [d])[..|walks|] == walks;
    CollectAppend(Entries(walks), DirEntries(d));
  }

  // ---------------------------------------------------------------------------
  // CombineZips (lines 287-298)

  function DigitChar(d: nat): char
    requires d < 10
  {
    "0123456789"[d]
  }

  /** `'%d' % n` for a natural number. */
  function Decimal(n: nat): (s: string)
    ensures |s| > 0
    ensures forall k :: 0 <= k < |s| ==> '0' <= s[k] <= '9'
  {
    if n < 10 then [DigitChar(n)] else Decimal(n / 10) + [DigitChar(n % 10)]
  }

  /** The number a string of digits denotes. */
  function DecimalValue(s: string): nat
    requires forall k :: 0 <= k < |s| ==> '0' <= s[k] <= '9'
  {
    if s == [] then 0
    else 10 * DecimalValue(s[..|s| - 1]) + ((s[|s| - 1] as int) - ('0' as int))
  }

  /** Reading a printed number gives it back. */
  lemma {:induction false} DecimalRoundTrip(n: nat)
    ensures DecimalValue(Decimal(n)) == n
  {
    if n >= 10 {
      DecimalRoundTrip(n / 10);
      var s := Decimal(n);
      assert s[..|s| - 1] == Decimal(n / 10);
    }
  }

  /** The name of entry `name` of the `i`-th zip inside the combined zip. */
  function CombinedName(i: nat, name: string): string {
    Decimal(i) + "/" + name
  }

  /** The first '/' of a combined name ends the number. */
  lemma SlashAfterNumber(i: nat, name: string)
    ensures CombinedName(i, name)[|Decimal(i)|] == '/'
    ensures forall k :: 0 <= k < |Decimal(i)| ==> CombinedName(i, name)[k] != '/'
  {
  }

  /** Entries of different zips, or different entries of one zip, never share a name. */
  lemma CombinedNameInjective(i: nat, a: string, j: nat, b: string)
    requires CombinedName(i, a) == CombinedName(j, b)
    ensures i == j && a == b
  {
    var s := CombinedName(i, a);
    var di, dj := Decimal(i), Decimal(j);
    SlashAfterNumber(i, a);
    SlashAfterNumber(j, b);
    assert |di| == |dj|;
    assert di == s[..|di|] == dj;
    DecimalRoundTrip(i);
    DecimalRoundTrip(j);
    assert a == s[|di| + 1..] == b;
  }

  /** The names written to the combined zip, zip by zip, in order. */
  function CombinedNames(zipNames: seq<seq<string>>): seq<string> {
    if zipNames == [] then []
    else
      var i := |zipNames| - 1;
      CombinedNames(zipNames[..i]) + seq(|zipNames[i]|, k requires 0 <= k < |zipNames[i]| => CombinedName(i, zipNames[i][k]))
  }

  /** The loop of CombineZips over its input zips and their name lists. */
  method CombineZipNames(zipNames: seq<seq<string>>) returns (names: seq<string>)
    ensures names == CombinedNames(zipNames)
  {
    names := [];
    for i := 0 to |zipNames|
      invariant names == CombinedNames(zipNames[..i])
    {
      assert zipNames[..i + 1][..i] == zipNames[..i];
      ghost var before := names;
      for k := 0 to |zipNames[i]|
        invariant names == before + seq(k, m requires 0 <= m < k => CombinedName(i, zipNames[i][m]))
      {
        names := names + [CombinedName(i, zipNames[i][k])];
      }
    }
    assert zipNames[..|zipNames|] == zipNames;
  }

  /** Every combined name is some entry's name under its own zip's index. */
  lemma {:induction false} CombinedNamesFrom(zipNames: seq<seq<string>>, p: nat)
    requires p < |CombinedNames(zipNames)|
    ensures exists i, k :: 0 <= i < |zipNames| && 0 <= k < |zipNames[i]| && CombinedNames(zipNames)[p] == CombinedName(i, zipNames[i][k])
  {
    var i := |zipNames| - 1;
    var init := zipNames[..i];
    if p < |CombinedNames(init)| {
      CombinedNamesFrom(init, p);
      var i', k :| 0 <= i' < |init| && 0 <= k < |init[i']| && CombinedNames(init)[p] == CombinedName(i', init[i'][k]);
      assert init[i'] == zipNames[i'];
    } else {
      var k := p - |CombinedNames(init)|;
      assert CombinedNames(zipNames)[p] == CombinedName(i, zipNames[i][k]);
    }
  }

  /** When no input zip repeats a name, the combined zip repeats none: each input zip
      keeps its own top-level directory. */
  lemma {:induction false} CombinedNamesDistinct(zipNames: seq<seq<string>>)
    requires forall i, k, l :: 0 <= i < |zipNames| && 0 <= k < l < |zipNames[i]| ==> zipNames[i][k] != zipNames[i][l]
    ensures forall p, q :: 0 <= p < q < |CombinedNames(zipNames)| ==> CombinedNames(zipNames)[p] != CombinedNames(zipNames)[q]
  {
    if zipNames != [] {
      var i := |zipNames| - 1;
      var init := zipNames[..i];
      assert forall i', k :: 0 <= i' < |init| && 0 <= k < |init[i']| ==> init[i'][k] == zipNames[i'][k];
      CombinedNamesDistinct(init);
      var front := CombinedNames(init);
      var all := CombinedNames(zipNames);
      forall p, q | 0 <= p < q < |all| ensures all[p] != all[q] {
        if q >= |front| {
          var l := q - |front|;
          if p >= |front| {
            var k := p - |front|;
            if all[p] == all[q] { CombinedNameInjective(i, zipNames[i][k], i, zipNames[i][l]); }
          } else {
            CombinedNamesFrom(init, p);
            var i', k :| 0 <= i' < |init| && 0 <= k < |init[i']| && front[p] == CombinedName(i', init[i'][k]);
            if all[p] == all[q] { CombinedNameInjective(i', init[i'][k], i, zipNames[i][l]); }
          }
        }
      }
    }
  }
}
