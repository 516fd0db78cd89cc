/** CreateExtraRJavaFiles (process_resources.py lines 119-157): writes one R.java per extra
    package, either by copying the one R.java under `r_dir` with its package declaration
    rewritten (include-all), or by rendering the package's own R.txt resolved against the
    base table `r_dir/R.txt`.

    The file system is seen through parameters: the contents of the R.java files found
    under `r_dir`, the base R.txt if it exists, and each extra R.txt if it exists. What the
    step does to the file system is returned as the sequence of its effects, in order,
    together with the error it raised, if any; effects made before an error stay. */
module ExtraRJava {
  import opened Text
  import opened RTxt
  import opened Resolve
  import opened RJava
  import opened IncludeAll

  /** One change to the file system: a directory made (with its parents) or a file
      written, replacing whatever was there. */
  datatype Effect = MakeDir(dir: seq<string>) | WriteFile(path: seq<string>, text: string)

  /** The directory an effect makes or writes into. */
  function DirOf(e: Effect): seq<string> {
    match e
    case MakeDir(d) => d
    case WriteFile(p, _) => if p == [] then [] else p[..|p| - 1]
  }

  /** The effects made, in order, and the exception that ended the step, if one did. */
  datatype Outcome = Outcome(effects: seq<Effect>, error: Option<Error>)

  /** An extra package and the contents of its R.txt, `None` when that file does not exist. */
  type Job = (string, Option<string>)

  // ---------------------------------------------------------------------------
  // The include-all branch (lines 120-134)

  /** The effects of one package: its directory, then the rewritten copy. */
  function CopyFor(rDir: string, pkg: string, contents: string): seq<Effect> {
    [MakeDir(PackageDir(rDir, pkg)), WriteFile(PackagePath(rDir, pkg), Retarget(contents, pkg))]
  }

  function CopyAll(rDir: string, packages: seq<string>, contents: string): (r: seq<Effect>)
    ensures |r| == 2 * |packages|
  {
    if packages == [] then []
    else CopyAll(rDir, packages[..|packages| - 1], contents) + CopyFor(rDir, packages[|packages| - 1], contents)
  }

  /** Nothing happens unless exactly one R.java is found. */
  function IncludeAllEffects(rDir: string, packages: seq<string>, javaFiles: seq<string>): seq<Effect> {
    if |javaFiles| != 1 then [] else CopyAll(rDir, packages, javaFiles[0])
  }

  // ---------------------------------------------------------------------------
  // The R.txt branch (lines 136-157)

  /** Whether a job gets through: its R.txt is missing (and skipped), or resolves. */
  predicate Resolves(job: Job, tbl: SymbolTable) {
    job.1.None? || ResourcesOf(FileLines(job.1.value), tbl).Ok?
  }

  /** One extra package: skipped when its R.txt is missing; otherwise its directory is
      made first (line 153), and the file written only if every own line resolves. */
  function JobOutcome(rDir: string, job: Job, tbl: SymbolTable, shared: bool): Outcome {
    match job.1
    case None => Outcome([], None)
    case Some(text) =>
      var dir := PackageDir(rDir, job.0);
      match ResourcesOf(FileLines(text), tbl)
      case Err(e) => Outcome([MakeDir(dir)], Some(e))
      case Ok(res) => Outcome([MakeDir(dir), WriteFile(PackagePath(rDir, job.0), RenderText(job.0, res, shared))], None)
  }

  /** The jobs run in order until one raises. */
  function JobsOutcome(rDir: string, jobs: seq<Job>, tbl: SymbolTable, shared: bool): Outcome {
    if jobs == [] then Outcome([], None)
    else
      var o := JobsOutcome(rDir, jobs[..|jobs| - 1], tbl, shared);
      if o.error.Some? then o
      else
        var s := JobOutcome(rDir, jobs[|jobs| - 1], tbl, shared);
        Outcome(o.effects + s.effects, s.error)
  }

  /** `zip(extra_packages, extra_r_text_files)`, with each file's contents. */
  function Zip(packages: seq<string>, ownTexts: seq<Option<string>>): (r: seq<Job>)
    requires |packages| == |ownTexts|
    ensures |r| == |packages|
  {
    seq(|packages|, i requires 0 <= i < |packages| => (packages[i], ownTexts[i]))
  }

  /** The whole step. The count check comes before the base R.txt is looked at; a
      missing base R.txt ends the step without output. */
  function ExtraRJava(rDir: string, packages: seq<string>, ownTexts: seq<Option<string>>, shared: bool,
                      includeAll: bool, javaFiles: seq<string>, baseText: Option<string>): Outcome
  {
    if includeAll then Outcome(IncludeAllEffects(rDir, packages, javaFiles), None)
    else if |packages| != |ownTexts| then Outcome([], Some(CountMismatch))
    else
      match baseText
      case None => Outcome([], None)
      case Some(b) =>
        match TableOf(FileLines(b))
        case Err(e) => Outcome([], Some(e))
        case Ok(tbl) => JobsOutcome(rDir, Zip(packages, ownTexts), tbl, shared)
  }

  /** The step, statement by statement. */
  method CreateExtraRJavaFiles(rDir: string, packages: seq<string>, ownTexts: seq<Option<string>>,
                               shared: bool, includeAll: bool, javaFiles: seq<string>,
                               baseText: Option<string>)
    returns (out: Outcome)
    ensures out == ExtraRJava(rDir, packages, ownTexts, shared, includeAll, javaFiles, baseText)
  {
    if includeAll {
      if |javaFiles| != 1 {
        return Outcome([], None);
      }
      var effects := CopyToPackages(rDir, packages, javaFiles[0]);
      return Outcome(effects, None);
    }
    if |packages| != |ownTexts| {
      return Outcome([], Some(CountMismatch));
    }
    if baseText.None? {
      return Outcome([], None);
    }
    var table := ParseSymbolTable(baseText.value);
    if table.Err? {
      return Outcome([], Some(table.error));
    }
    out := WritePackages(rDir, packages, ownTexts, table.value, shared);
  }

  /** Lines 126-134: for each package, its directory is made and the rewritten copy written. */
  method CopyToPackages(rDir: string, packages: seq<string>, contents: string) returns (effects: seq<Effect>)
    ensures effects == CopyAll(rDir, packages, contents)
  {
    effects := [];
    for i := 0 to |packages|
      invariant effects == CopyAll(rDir, packages[..i], contents)
    {
      var pkg := packages[i];
      var dir := PackageDir(rDir, pkg);
      effects := effects + [MakeDir(dir)];
      effects := effects + [WriteFile(dir + ["R.java"], Retarget(contents, pkg))];
      assert packages[..i + 1][..i] == packages[..i];
    }
    assert packages[..|packages|] == packages;
  }

  /** Lines 146-157: the extra packages in turn, until one raises. */
  method WritePackages(rDir: string, packages: seq<string>, ownTexts: seq<Option<string>>,
                       tbl: SymbolTable, shared: bool) returns (out: Outcome)
    requires |packages| == |ownTexts|
    ensures out == JobsOutcome(rDir, Zip(packages, ownTexts), tbl, shared)
  {
    ghost var jobs := Zip(packages, ownTexts);
    var effects: seq<Effect> := [];
    for i := 0 to |packages|
      invariant JobsOutcome(rDir, jobs[..i], tbl, shared) == Outcome(effects, None)
    {
      JobsStep(rDir, jobs, tbl, shared, i);
      assert jobs[i] == (packages[i], ownTexts[i]);
      var o := WritePackage(rDir, packages[i], ownTexts[i], tbl, shared);
      effects := effects + o.effects;
      if o.error.Some? {
        JobsErrorSticks(rDir, jobs, tbl, shared, i + 1);
        return Outcome(effects, o.error);
      }
    }
    assert jobs[..|packages|] == jobs;
    out := Outcome(effects, None);
  }

  /** Lines 147-157 for one package: skipped when its R.txt does not exist; otherwise its
      directory is made, its R.txt resolved and, if that succeeds, its R.java written. */
  method WritePackage(rDir: string, pkg: string, ownText: Option<string>, tbl: SymbolTable, shared: bool)
    returns (o: Outcome)
    ensures o == JobOutcome(rDir, (pkg, ownText), tbl, shared)
  {
    if ownText.None? {
      return Outcome([], None);
    }
    var dir := PackageDir(rDir, pkg);
    var effects := [MakeDir(dir)];
    var res := ResolvePackage(ownText.value, tbl);
    if res.Err? {
      return Outcome(effects, Some(res.error));
    }
    effects := effects + [WriteFile(dir + ["R.java"], RenderText(pkg, res.value, shared))];
    o := Outcome(effects, None);
  }

  /** One more job after jobs that all got through. */
  lemma JobsStep(rDir: string, jobs: seq<Job>, tbl: SymbolTable, shared: bool, i: nat)
    requires i < |jobs| && JobsOutcome(rDir, jobs[..i], tbl, shared).error.None?
    ensures var o := JobsOutcome(rDir, jobs[..i], tbl, shared);
      var s := JobOutcome(rDir, jobs[i], tbl, shared);
      JobsOutcome(rDir, jobs[..i + 1], tbl, shared) == Outcome(o.effects + s.effects, s.error)
  {
    assert jobs[..i + 1][..i] == jobs[..i];
    assert jobs[..i + 1][i] == jobs[i];
  }

  // ---------------------------------------------------------------------------
  // Properties of the R.txt branch

  /** Once a job has raised, the later ones do nothing: the step stops there, and what
      it wrote before stays. */
  lemma {:induction false} JobsErrorSticks(rDir: string, jobs: seq<Job>, tbl: SymbolTable, shared: bool, k: nat)
    requires k <= |jobs| && JobsOutcome(rDir, jobs[..k], tbl, shared).error.Some?
    ensures JobsOutcome(rDir, jobs, tbl, shared) == JobsOutcome(rDir, jobs[..k], tbl, shared)
    decreases |jobs| - k
  {
    if k < |jobs| {
      var init := jobs[..|jobs| - 1];
      assert init[..k] == jobs[..k];
      JobsErrorSticks(rDir, init, tbl, shared, k);
    } else {
      assert jobs[..k] == jobs;
    }
  }

  /** Nothing is rolled back: the effects of the first `k` jobs begin the effects of all. */
  lemma {:induction false} JobsNoRollback(rDir: string, jobs: seq<Job>, tbl: SymbolTable, shared: bool, k: nat)
    requires k <= |jobs|
    ensures JobsOutcome(rDir, jobs[..k], tbl, shared).effects <= JobsOutcome(rDir, jobs, tbl, shared).effects
    decreases |jobs| - k
  {
    if k < |jobs| {
      var init := jobs[..|jobs| - 1];
      assert init[..k] == jobs[..k];
      JobsNoRollback(rDir, init, tbl, shared, k);
    } else {
      assert jobs[..k] == jobs;
    }
  }

  /** A package whose R.txt does not exist is skipped: removing it changes nothing. */
  lemma {:induction false} MissingSkipped(rDir: string, a: seq<Job>, pkg: string, b: seq<Job>, tbl: SymbolTable, shared: bool)
    ensures JobsOutcome(rDir, a + [(pkg, None)] + b, tbl, shared) == JobsOutcome(rDir, a + b, tbl, shared)
    decreases |b|
  {
    var with := a + [(pkg, None)] + b;
    if b == [] {
      assert with[..|with| - 1] == a;
      assert a + b == a;
    } else {
      var b' := b[..|b| - 1];
      MissingSkipped(rDir, a, pkg, b', tbl, shared);
      assert with[..|with| - 1] == a + [(pkg, None)] + b';
      assert (a + b)[..|a + b| - 1] == a + b';
      assert with[|with| - 1] == (a + b)[|a + b| - 1];
    }
  }

  /** The step ends without an error exactly when every existing R.txt resolves. */
  lemma {:induction false} JobsOk(rDir: string, jobs: seq<Job>, tbl: SymbolTable, shared: bool)
    ensures JobsOutcome(rDir, jobs, tbl, shared).error.None? <==> forall i :: 0 <= i < |jobs| ==> Resolves(jobs[i], tbl)
  {
    if jobs != [] {
      var init := jobs[..|jobs| - 1];
      JobsOk(rDir, init, tbl, shared);
      assert forall i :: 0 <= i < |init| ==> init[i] == jobs[i];
    }
  }

  /** When the job at `k` is the first that fails, the step raises its error after making
      its directory, with the effects of the jobs before it. */
  lemma JobsFirstError(rDir: string, jobs: seq<Job>, tbl: SymbolTable, shared: bool, k: nat)
    requires k < |jobs| && !Resolves(jobs[k], tbl)
    requires forall i :: 0 <= i < k ==> Resolves(jobs[i], tbl)
    ensures JobsOutcome(rDir, jobs, tbl, shared) ==
      Outcome(JobsOutcome(rDir, jobs[..k], tbl, shared).effects + [MakeDir(PackageDir(rDir, jobs[k].0))],
              Some(ResourcesOf(FileLines(jobs[k].1.value), tbl).error))
  {
    var pre := jobs[..k];
    JobsOk(rDir, pre, tbl, shared);
    assert forall i :: 0 <= i < k ==> pre[i] == jobs[i];
    assert jobs[..k + 1][..k] == pre;
    JobsErrorSticks(rDir, jobs, tbl, shared, k + 1);
  }

  /** When no job fails, every package with an R.txt gets its directory and its rendered
      file; the rendering is of that package's own resolved R.txt. */
  lemma {:induction false} JobsWrite(rDir: string, jobs: seq<Job>, tbl: SymbolTable, shared: bool, i: nat)
    requires i < |jobs| && jobs[i].1.Some?
    requires JobsOutcome(rDir, jobs, tbl, shared).error.None?
    ensures ResourcesOf(FileLines(jobs[i].1.value), tbl).Ok?
    ensures MakeDir(PackageDir(rDir, jobs[i].0)) in JobsOutcome(rDir, jobs, tbl, shared).effects
    ensures WriteFile(PackagePath(rDir, jobs[i].0),
                      RenderText(jobs[i].0, ResourcesOf(FileLines(jobs[i].1.value), tbl).value, shared))
            in JobsOutcome(rDir, jobs, tbl, shared).effects
  {
    var init := jobs[..|jobs| - 1];
    if i < |init| {
      assert init[i] == jobs[i];
      JobsWrite(rDir, init, tbl, shared, i);
    }
  }

  /** A job makes and writes only under its own package's directory. */
  lemma JobDirs(rDir: string, job: Job, tbl: SymbolTable, shared: bool, e: Effect)
    requires e in JobOutcome(rDir, job, tbl, shared).effects
    ensures job.1.Some? && DirOf(e) == PackageDir(rDir, job.0)
  {
    var p := PackagePath(rDir, job.0);
    assert p[..|p| - 1] == PackageDir(rDir, job.0);
  }

  /** The jobs write only into the directories of their own packages. */
  lemma {:induction false} JobsWriteOnlyPackages(rDir: string, jobs: seq<Job>, tbl: SymbolTable, shared: bool, e: Effect)
    requires e in JobsOutcome(rDir, jobs, tbl, shared).effects
    ensures exists i :: 0 <= i < |jobs| && jobs[i].1.Some? && DirOf(e) == PackageDir(rDir, jobs[i].0)
  {
    var init := jobs[..|jobs| - 1];
    var o := JobsOutcome(rDir, init, tbl, shared);
    if e in o.effects {
      JobsWriteOnlyPackages(rDir, init, tbl, shared, e);
      var i :| 0 <= i < |init| && init[i].1.Some? && DirOf(e) == PackageDir(rDir, init[i].0);
      assert init[i] == jobs[i];
    } else {
      var k := |jobs| - 1;
      JobDirs(rDir, jobs[k], tbl, shared, e);
    }
  }

  // ---------------------------------------------------------------------------
  // Properties of the include-all branch

  /** Every extra package gets its directory and the found R.java with its declarations
      rewritten to that package. */
  lemma {:induction false} CopyAllWrites(rDir: string, packages: seq<string>, contents: string, i: nat)
    requires i < |packages|
    ensures MakeDir(PackageDir(rDir, packages[i])) in CopyAll(rDir, packages, contents)
    ensures WriteFile(PackagePath(rDir, packages[i]), Retarget(contents, packages[i])) in CopyAll(rDir, packages, contents)
  {
    var init := packages[..|packages| - 1];
    if i < |init| {
      assert init[i] == packages[i];
      CopyAllWrites(rDir, init, contents, i);
    }
  }

  /** What a package's copy consists of. */
  predicate CopiedFor(e: Effect, rDir: string, pkg: string, contents: string) {
    e == MakeDir(PackageDir(rDir, pkg)) || e == WriteFile(PackagePath(rDir, pkg), Retarget(contents, pkg))
  }

  /** Nothing else is made or written. */
  lemma {:induction false} CopyAllOnly(rDir: string, packages: seq<string>, contents: string, e: Effect)
    requires e in CopyAll(rDir, packages, contents)
    ensures exists i :: 0 <= i < |packages| && CopiedFor(e, rDir, packages[i], contents)
  {
    var init := packages[..|packages| - 1];
    if e in CopyAll(rDir, init, contents) {
      CopyAllOnly(rDir, init, contents, e);
      var i :| 0 <= i < |init| && CopiedFor(e, rDir, init[i], contents);
      assert init[i] == packages[i];
    } else {
      assert CopiedFor(e, rDir, packages[|packages| - 1], contents);
    }
  }

  // ---------------------------------------------------------------------------
  // What a rendered file holds

  /** The resolved entries class by class, classes in the order their type first occurs:
      the order in which the generated file lists them. */
  function Layout(es: seq<Resolved>): seq<Resolved> {
    Flatten(FirstSeen(es), Group(es))
  }

  /** Entries resolved from a table read from an R.txt can be rendered and read back: class
      and field names are words, values are single lines. */
  lemma ResolvedPrintable(es: seq<Resolved>)
    requires forall j :: 0 <= j < |es| ==> TidyEntry(es[j])
    ensures Printable(FirstSeen(es), Group(es))
  {
    var order := FirstSeen(es);
    FirstSeenEnumerates(es);
    GroupIsSelect(es);
    forall i | 0 <= i < |order| ensures IsWord(order[i]) && NamesOk(FieldsOf(Group(es), order[i])) {
      var t := order[i];
      assert t in TypesOf(es);
      var e :| e in es && e.resType == t;
      var fs := Select(es, t);
      forall j | 0 <= j < |fs| ensures IsWord(fs[j].name) && '\n' !in fs[j].value {
        SelectFrom(es, t, j);
      }
    }
  }

  /** The R.java written for a package declares exactly that package's resolved own
      entries, each once per own line, grouped by type; shared, it has one loader that
      patches each of them. */
  lemma RenderedReadsBack(pkg: string, text: string, tbl: SymbolTable, shared: bool)
    requires Tidy(tbl) && '\n' !in pkg && ResolveAll(FileLines(text), tbl).Ok?
    ensures var es := ResolveAll(FileLines(text), tbl).value;
      var res := ResourcesOf(FileLines(text), tbl).value;
      ReadFile(SplitOn(RenderText(pkg, res, shared), '\n')) ==
        Reading(Decls(Layout(es), !shared), if shared then 1 else 0, if shared then Targets(Layout(es)) else []) &&
      multiset(Layout(es)) == multiset(es)
  {
    var es := ResolveAll(FileLines(text), tbl).value;
    ResolveAllTidy(FileLines(text), tbl);
    ResolvedPrintable(es);
    RenderTextRead(pkg, Resources(FirstSeen(es), Group(es)), shared);
    FirstSeenEnumerates(es);
    FlattenIsPermutation(es, FirstSeen(es));
  }

  /** The whole R.txt branch, when it completes: every extra package whose R.txt exists
      gets an R.java under its own path, and that file reads back as the package's own
      entries with the java types and values of the base R.txt. */
  lemma ExtraRJavaContents(rDir: string, packages: seq<string>, ownTexts: seq<Option<string>>, shared: bool,
                           javaFiles: seq<string>, baseText: Option<string>, i: nat)
    requires |packages| == |ownTexts| && baseText.Some? && TableOf(FileLines(baseText.value)).Ok?
    requires i < |packages| && ownTexts[i].Some? && '\n' !in packages[i]
    requires ExtraRJava(rDir, packages, ownTexts, shared, false, javaFiles, baseText).error.None?
    ensures var tbl := TableOf(FileLines(baseText.value)).value;
      var lines := FileLines(ownTexts[i].value);
      ResolveAll(lines, tbl).Ok? &&
      var es := ResolveAll(lines, tbl).value;
      var text := RenderText(packages[i], Resources(FirstSeen(es), Group(es)), shared);
      WriteFile(PackagePath(rDir, packages[i]), text) in ExtraRJava(rDir, packages, ownTexts, shared, false, javaFiles, baseText).effects &&
      ReadFile(SplitOn(text, '\n')) ==
        Reading(Decls(Layout(es), !shared), if shared then 1 else 0, if shared then Targets(Layout(es)) else []) &&
      multiset(Layout(es)) == multiset(es)
  {
    var tbl := TableOf(FileLines(baseText.value)).value;
    var jobs := Zip(packages, ownTexts);
    assert jobs[i] == (packages[i], ownTexts[i]);
    JobsWrite(rDir, jobs, tbl, shared, i);
    TableOfTidy(FileLines(baseText.value));
    RenderedReadsBack(packages[i], ownTexts[i].value, tbl, shared);
  }
}
