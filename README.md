# Extra-package R.java generation (process_resources.py)

A Dafny model of the step of Chromium's `android/gyp/process_resources.py` that gives
every extra Android package its own `R.java`, together with the small pure helpers of
the same script that judge `aapt crunch` output and name the files of resource zips.

An Android build assigns resource ids to a package and records them in `R.txt`, one line
per resource: `int drawable icon 0x7f020000` or `int[] styleable View { 0x7f010000 }`.
Libraries that share the application's resources need an `R.java` of their own.
`CreateExtraRJavaFiles` produces them in one of two ways:

- **include-all**: the one `R.java` found under the R directory is copied to each extra
  package, with every `package ...;` declaration rewritten to that package;
- **per package**: the base `R.txt` is read into a table from (type, name) to (java type,
  value). Then each extra package's own `R.txt` is resolved against that table, and the
  result is rendered through a jinja template into `R.java`. With `shared_resources` the
  fields are not `final`, and the class gets an `onResourcesLoaded(int packageId)`
  method. That method moves every id into the run-time package by rewriting its top
  byte: `(v & 0x00ffffff) | (packageId << 24)`.

The model is split into modules that follow the script:

- `Text`: Python 2 line iteration, `str.splitlines(True)`, `str.split('.')`, substrings, and
  POSIX `os.path.join`.
- `RTxt`: the base line grammar `(int(?:\[\])?) (\w+) (\w+) (.+)$`, the own-line grammar
  `int(?:\[\])? (\w+) (\w+) `, and the symbol table.
- `Resolve`: resolution of an own R.txt and grouping by resource type.
- `Patch`: the 32-bit id arithmetic of the generated loader, including the in-place loop
  over an `int[]`.
- `RJava`: the rendered file as its list of lines. It comes with a reader that recognises
  class headers, field declarations and patch statements; reading a rendered file back
  gives exactly the resolved fields.
- `Loader`: what running the generated `onResourcesLoaded` does to the fields of `R`.
- `IncludeAll`: the `re.sub` rewrite and the output path.
- `ExtraRJava`: the whole step, as the file-system effects it makes, in order.
- `Crunch`: `FilterCrunchStderr` and `DidCrunchFail`.
- `Zips`: the override table of `ZipResources` and the entry names of `CombineZips`.

The file system is seen through parameters:

- the `R.java` files found, as their contents;
- the base `R.txt`, `None` when it does not exist;
- each own `R.txt`, `None` when it does not exist;
- for `ZipResources`, the steps of `os.walk`.

The step returns its effects (a directory made, or a file written) and the exception it
raised, if any. Python 2 `str` is a sequence of characters, `\w` is `[A-Za-z0-9_]`, and
Java `int` arithmetic is `bv32`.

Some behaviours of the code are easy to misread; the model follows the code as written:

- A key that occurs twice in the base `R.txt` is not an error: the later line overwrites
  the earlier one (`RTxt.BuildLastWins`).
- An own line that occurs twice gives two declarations of the same field.
- An own line is matched only up to the space after its name; its java type and value
  are ignored (`Resolve.OwnTypeAndValueIgnored`).
- When one package fails, nothing is rolled back. The files of earlier packages stay, and
  the failing package's directory has already been made (`ExtraRJava.JobsFirstError`).
- A file already at an output path is overwritten.
- The count check comes before the base `R.txt` is looked at. A missing base `R.txt` ends
  the step silently, even when an own `R.txt` exists.
- Packages whose names are not Java package names can share an output file: `os.path.join`
  passes over the empty part of `a..b`, so its R.java replaces the one of `a.b`
  (`IncludeAll.PackageFileCollision`).
- The package rewrite is not anchored to the start of a line. It replaces every match,
  including one in a comment (`IncludeAll.RetargetUnanchored`).
- The loader patches a field that occurs twice twice. That is the same as patching it
  once (`Patch.PatchIdLastWins`).

## Model

| member | source | states |
|---|---|---|
| Text.FileLinesJoin | android/gyp/process_resources.py:143-144 | the lines a file iterates into join back to the file, none is empty, every line but the last ends with '\n', and '\n' occurs in a line only as its last character |
| Text.SplitLinesShape | android/gyp/process_resources.py:252 | the lines of `splitlines(True)` join back to the text, none is empty, every line but the last ends with its line break, no line holds a break before that ending (a closing "\r\n" counts as one), and no "\r\n" is cut between two lines |
| Text.SplitLinesHas | android/gyp/process_resources.py:252 | a string found in one of the lines is found in the text |
| Text.SplitJoin | android/gyp/process_resources.py:129 | joining the parts of `package.split('.')` with '.' gives the package back, and no part holds a '.' |
| Text.JoinSplit | android/gyp/process_resources.py:213-216 | text written as lines joined with '\n' splits at '\n' back into exactly those lines when no line holds a '\n' |
| RTxt.ParseSymbolTable | android/gyp/process_resources.py:139-149 | reading the base R.txt line by line into a fresh table gives the table specified for its lines, or the error of its first malformed line |
| RTxt.ParseBaseLineOf | android/gyp/process_resources.py:145 | the line of a well-formed symbol, with or without a final '\n', is accepted and yields that symbol with its value verbatim |
| RTxt.ParseBaseLineShape | android/gyp/process_resources.py:145 | every accepted base line is such a line, for a well-formed symbol: words for type and name, a one-line value |
| RTxt.ParseValueOf | android/gyp/process_resources.py:145 | `(.+)$` takes a one-line value verbatim, with `$` matching before one final '\n' |
| RTxt.ParseValueShape | android/gyp/process_resources.py:145 | an accepted value is non-empty, holds no '\n', and is the rest of the line minus at most one final '\n' |
| RTxt.ParseOwnLineOf | android/gyp/process_resources.py:166 | a line starting with a java type, a type, a name and a space is accepted for that key, whatever follows |
| RTxt.ParseOwnLineShape | android/gyp/process_resources.py:166 | every accepted own line starts that way |
| RTxt.BaseLineIsOwnLine | android/gyp/process_resources.py:166 | every accepted base line is accepted as an own line for the same key |
| RTxt.TableOfErrorSticks | android/gyp/process_resources.py:146-147 | once a line is rejected, the lines after it change nothing |
| RTxt.TableOfFirstError | android/gyp/process_resources.py:146-147 | reading fails with the first rejected line |
| RTxt.TableOfAllParsed | android/gyp/process_resources.py:143-149 | when every line is accepted, reading succeeds with the table built from the symbols |
| RTxt.BuildKeys | android/gyp/process_resources.py:149 | the table's keys are exactly the keys of the lines read |
| RTxt.BuildLastWins | android/gyp/process_resources.py:149 | a key maps to the java type and value of the last line that has it |
| RTxt.TableOfTidy | android/gyp/process_resources.py:145-149 | every entry of a table read successfully has word type and name and a one-line value |
| Resolve.ResolvePackage | android/gyp/process_resources.py:163-173 | reading an own R.txt and grouping it gives the resources specified for its lines |
| Resolve.ResolveStep | android/gyp/process_resources.py:165-173 | one more resolved line appends its field to its type's list, and adds the type to the class order only when it is new |
| Resolve.ResolveStepFails | android/gyp/process_resources.py:166-170 | a line that does not match, or whose key is not in the base table, ends resolution with that error |
| Resolve.OwnTypeAndValueIgnored | android/gyp/process_resources.py:166-170 | an own line resolves to the base table's java type and value for its key whatever its own java type and trailing text, or fails naming that key |
| Resolve.ResolveAllOk | android/gyp/process_resources.py:164-173 | resolution succeeds exactly when every line resolves, and then gives one entry per line in line order |
| Resolve.ResolveAllErrorSticks | android/gyp/process_resources.py:164-170 | once a line has failed, later lines change nothing |
| Resolve.ResolveAllFirstError | android/gyp/process_resources.py:166-170 | resolution fails with the error of the first line that does not resolve |
| Resolve.ResolveAllTidy | android/gyp/process_resources.py:170 | every entry resolved against a table read from an R.txt has word type and name and a one-line value |
| Resolve.GroupIsSelect | android/gyp/process_resources.py:171-173 | the dictionary has a list exactly for the types that occur, holding that type's fields in line order with duplicates kept |
| Resolve.FirstSeenEnumerates | android/gyp/process_resources.py:171-172 | the class order names every type that occurs, each once |
| Resolve.SelectFrom | android/gyp/process_resources.py:173 | every field in a type's list comes from a resolved line of that type |
| Resolve.FlattenIsPermutation | android/gyp/process_resources.py:180-188 | listing the dictionary class by class in any order that names each type once gives back exactly the resolved lines, as a multiset |
| Patch.PatchId | android/gyp/process_resources.py:202-204 | the rewritten id keeps the low 24 bits and has the package id's low byte as its top byte |
| Patch.PatchIdTopByte | android/gyp/process_resources.py:202-204 | for a package id below 256, the top byte is that id |
| Patch.PatchIdLastWins | android/gyp/process_resources.py:202-204 | rewriting for one package and then another is rewriting for the second |
| Patch.PatchIdIdempotent | android/gyp/process_resources.py:202-204 | rewriting twice for the same package is rewriting once |
| Patch.PatchAll | android/gyp/process_resources.py:196-200 | every element of an `int[]` is rewritten, and the length is kept |
| Patch.PatchAllLastWins | android/gyp/process_resources.py:196-200 | on arrays too, only the last package id counts |
| Patch.PatchArray | android/gyp/process_resources.py:196-200 | the loop leaves the array holding each original element rewritten |
| Patch.PatchValue | android/gyp/process_resources.py:195-205 | a scalar field gets the assignment and an array field the element loop, with the kind of field kept |
| Patch.PatchValueLastWins | android/gyp/process_resources.py:195-205 | patching a field twice is patching it with the last id |
| Patch.PatchExamples | android/gyp/process_resources.py:195-205 | 0x00010203 patched for 0x7f is 0x7f010203, and {1, 0x00ffffff} becomes {0x7f000001, 0x7fffffff} |
| Loader.Step | android/gyp/process_resources.py:202-204 | one statement patches the field it names and leaves every other field as it was |
| Loader.RunPatchesOnce | android/gyp/process_resources.py:193-207 | running the statements patches each named field once, however often it is named, and leaves the others |
| Loader.LoadPatchesDeclaredFields | android/gyp/process_resources.py:191-209 | a shared-resources R.java has one loader, and running it moves exactly the fields the file declares into the package |
| Loader.SameKeys | android/gyp/process_resources.py:180-207 | the patch statements name exactly the declared fields |
| RJava.ClassLineOf | android/gyp/process_resources.py:181 | a class header is read as the opening of that resource type's class |
| RJava.FieldLineOf | android/gyp/process_resources.py:183-187 | a field line is read as the declaration of that field, `final` exactly when the resources are not shared |
| RJava.LoopLineOf | android/gyp/process_resources.py:196 | the loop header of an `int[]` field is read as a patch of that field |
| RJava.AssignLineOf | android/gyp/process_resources.py:202 | the assignment of an `int` field is read as a patch of that field |
| RJava.HeaderScan | android/gyp/process_resources.py:175-179 | the banner, package line and outer class line declare nothing |
| RJava.FieldLinesScan | android/gyp/process_resources.py:182-188 | a class's field lines are read as its fields' declarations, in list order |
| RJava.ClassBlockScan | android/gyp/process_resources.py:181-189 | a nested class reads as its header, its declarations and a closing line |
| RJava.ClassBlocksRead | android/gyp/process_resources.py:180-190 | the nested classes declare every field of every class, in class order, each in its own class |
| RJava.PatchLinesScan | android/gyp/process_resources.py:195-205 | a patch statement is read as one patch of its field, looping exactly for `int[]` fields; its continuation lines are read as nothing |
| RJava.PatchBlocksRead | android/gyp/process_resources.py:193-207 | the loader body patches every field, in the order the classes declare them |
| RJava.LoadMethodRead | android/gyp/process_resources.py:191-209 | the loader reads as one `onResourcesLoaded` holding those patches |
| RJava.RenderRead | android/gyp/process_resources.py:175-211 | the rendered file declares every field in class order, `final` exactly when not shared; it has one loader, patching every field, exactly when shared |
| RJava.RenderNoBreak | android/gyp/process_resources.py:175-211 | no rendered line holds a '\n' when the package name holds none |
| RJava.RenderTextRead | android/gyp/process_resources.py:175-216 | the text written splits at '\n' into exactly the rendered lines, so a reader of the file sees what RenderRead describes |
| IncludeAll.MatchLen | android/gyp/process_resources.py:132 | a match is `package `, a run of `[.\w]` and `;`, and the greedy run never gives back a character |
| IncludeAll.MatchLenDecl | android/gyp/process_resources.py:132 | a declaration written by the rewrite is itself a match of its whole length |
| IncludeAll.RetargetAgrees | android/gyp/process_resources.py:132-133 | the rewrite is the text, or agrees with it through the `package ` of its first match |
| IncludeAll.NoNewMatch | android/gyp/process_resources.py:132-133 | where the original has no match, the rewritten text does not start one |
| IncludeAll.RetargetTwice | android/gyp/process_resources.py:132-133 | rewriting for one package and then another is rewriting for the second |
| IncludeAll.RetargetIdempotent | android/gyp/process_resources.py:132-133 | rewriting twice for the same package is rewriting once |
| IncludeAll.RetargetNoDecl | android/gyp/process_resources.py:132-133 | a text without `package ` is copied unchanged |
| IncludeAll.RetargetPrefix | android/gyp/process_resources.py:132-133 | text without the letter `p` is copied unchanged, and the scan goes on after it |
| IncludeAll.RetargetDecl | android/gyp/process_resources.py:132-133 | a declaration is replaced in full, and the scan resumes right after it |
| IncludeAll.RetargetUnanchored | android/gyp/process_resources.py:132-133 | a declaration after `// ` is rewritten too: the pattern is not anchored |
| IncludeAll.PackageFileInjective | android/gyp/process_resources.py:129-131 | two Java package names (dot-separated `\w+` parts) whose `os.path.join` file names are equal are the same package, so no package's R.java overwrites another's |
| IncludeAll.PackageFileCollision | android/gyp/process_resources.py:129-131 | for names that are not Java package names this fails: `a.b` and `a..b` have different components but both are written to `r/a/b/R.java` |
| IncludeAll.PackagePathParts | android/gyp/process_resources.py:129-131 | the path is the R directory, the package's dot-separated parts, then `R.java` |
| ExtraRJava.CreateExtraRJavaFiles | android/gyp/process_resources.py:119-158 | the step makes the effects, and raises the error, that the whole-step function gives for the same inputs |
| ExtraRJava.CopyToPackages | android/gyp/process_resources.py:128-134 | each package in turn gets its directory and then its rewritten copy |
| ExtraRJava.WritePackages | android/gyp/process_resources.py:151-158 | the packages are processed in turn until one raises |
| ExtraRJava.WritePackage | android/gyp/process_resources.py:152-158 | a package without an R.txt is skipped; otherwise its directory is made, and its R.java is written only if its own R.txt resolves |
| ExtraRJava.JobsErrorSticks | android/gyp/process_resources.py:151-158 | after a package raises, later packages do nothing |
| ExtraRJava.JobsNoRollback | android/gyp/process_resources.py:151-158 | the effects of the first packages begin the effects of all: nothing is undone |
| ExtraRJava.MissingSkipped | android/gyp/process_resources.py:151-152 | removing a package whose R.txt does not exist changes nothing |
| ExtraRJava.JobsOk | android/gyp/process_resources.py:151-158 | the step ends without an error exactly when every existing own R.txt resolves |
| ExtraRJava.JobsFirstError | android/gyp/process_resources.py:151-158 | at the first package that fails, the step raises its error after the earlier packages' effects and that package's directory |
| ExtraRJava.JobsWrite | android/gyp/process_resources.py:151-158 | without an error, every package with an R.txt gets its directory and the file rendered from its own resolved R.txt |
| ExtraRJava.JobsWriteOnlyPackages | android/gyp/process_resources.py:151-158 | every directory made and every file written is in the directory of a package that has an R.txt |
| ExtraRJava.CopyAllWrites | android/gyp/process_resources.py:128-134 | every package gets its directory and the found R.java rewritten to that package |
| ExtraRJava.CopyAllOnly | android/gyp/process_resources.py:128-134 | nothing else is made or written |
| ExtraRJava.RenderedReadsBack | android/gyp/process_resources.py:161-216 | a package's R.java reads back as exactly its resolved own lines, class by class, and patches each of them when shared |
| ExtraRJava.ExtraRJavaContents | android/gyp/process_resources.py:139-216 | when the step completes, each package with an R.txt has an R.java written at its path that reads back as its own lines resolved against the base table |
| Crunch.Kept | android/gyp/process_resources.py:252-258 | every kept line is a line of the input without the warning |
| Crunch.FilterCrunchStderr | android/gyp/process_resources.py:249-259 | the loop returns the lines without the warning, joined in order |
| Crunch.DidCrunchFail | android/gyp/process_resources.py:262-268 | the crunch did not fail exactly when the return code is 0 and stderr is empty |
| Crunch.KeptOthers | android/gyp/process_resources.py:255-258 | every line without the warning is kept |
| Crunch.KeptAll | android/gyp/process_resources.py:255-258 | when no line holds the warning, every line is kept |
| Crunch.KeptNone | android/gyp/process_resources.py:255-258 | when every line holds the warning, none is kept |
| Crunch.FilteredHasNoWarning | android/gyp/process_resources.py:249-259 | the filtered text holds the warning nowhere, not even across two kept lines |
| Crunch.FilterUnchanged | android/gyp/process_resources.py:249-259 | text without the warning passes through unchanged |
| Crunch.FilterIdempotent | android/gyp/process_resources.py:249-259 | filtering twice is filtering once |
| Crunch.CrunchFailsOnOtherOutput | android/gyp/process_resources.py:249-268 | judged on filtered stderr, a crunch fails exactly when it exits non-zero or some stderr line is not the warning |
| Zips.FileEntries | android/gyp/process_resources.py:278-281 | each file of a walked directory gives its archive path, relative to the resource directory, and its path |
| Zips.CollectFilesToZip | android/gyp/process_resources.py:275-281 | the nested loops fill the table that the entries, taken in order, specify |
| Zips.CollectLastWins | android/gyp/process_resources.py:281 | an archive path maps to the path of its last entry |
| Zips.CollectAppend | android/gyp/process_resources.py:276-281 | collecting two runs of entries is merging their tables, the second winning |
| Zips.LaterDirOverrides | android/gyp/process_resources.py:271-281 | a later resource directory overrides every file of the earlier ones with the same archive path and keeps the others |
| Zips.Decimal | android/gyp/process_resources.py:297 | `%d` of a number is a non-empty string of digits |
| Zips.DecimalRoundTrip | android/gyp/process_resources.py:297 | reading the digits back gives the number |
| Zips.CombinedNameInjective | android/gyp/process_resources.py:297 | `%d/%s` never gives two different (index, name) pairs the same name |
| Zips.CombineZipNames | android/gyp/process_resources.py:294-298 | the loop names the entries of each zip, in order, under the zip's index |
| Zips.CombinedNamesFrom | android/gyp/process_resources.py:294-298 | every combined name is an entry's name under its own zip's index |
| Zips.CombinedNamesDistinct | android/gyp/process_resources.py:294-298 | when no input zip repeats a name, the combined zip repeats none |

## Left out

- File reading, directory creation and file writing are not performed. The step returns
  the directories it makes and the files it writes, in order. An I/O failure inside
  `MakeDirectory`, `open` or `write` is not modelled.
- `build_utils.FindInDirectory` is not part of this model. Its result is a parameter: the
  contents of the `R.java` files it finds.
- `os.path.exists` is not modelled: a file that does not exist is a `None` parameter.
- The UTF-8 decoding and encoding of `codecs.open` are not modelled: both texts are
  sequences of characters.
- ExtraRJava.JobOutcome and IncludeAll.Retarget: Python 2's implicit ASCII decoding of
  byte strings is not modelled. `template.render` decodes the values read from the base
  R.txt, and `u'package %s;' % package` decodes the package name; a non-ASCII byte in
  either raises `UnicodeDecodeError` (after the package directory is made), where the
  model writes the file.
- ExtraRJava.Effect: names directories and files by their path components, as
  `os.path.join` receives them. `IncludeAll.PackageFile` gives the joined name, and the
  effects on two packages with the same joined name land on one file, the later write
  replacing the earlier.
- Resolve.ResourcesOf: the class order is the order in which types are first met. CPython 2
  iterates a dict in hash order, which is not modelled. Every property of the rendered
  file (`RJava.RenderRead`, `Resolve.FlattenIsPermutation`) is proved for any order that
  names each type once.
- The jinja engine is not modelled. The template is expanded by hand, under the
  `trim_blocks`/`lstrip_blocks` rules, into the list of its output lines.
- IncludeAll.Retarget: inserts the package name verbatim. `re.sub` would interpret
  backslash escapes in the replacement, and a Java package name holds none.
- `CrunchDirectory` (lines 219-246) is not modelled. It runs `aapt` and compares file
  sizes on disk; the two pure helpers it passes to `CheckOutput` are modelled.
- ZipResources is modelled up to `files_to_zip`. The `os.walk` results are parameters, and
  `os.path.relpath` is applied by the caller. Writing the zip and the order of
  `iteritems` are not modelled.
- CombineZips is modelled up to the entry names. Reading and writing zip entries is not
  modelled; with a name repeated inside one input zip, `inzip.read(name)` reads one of
  the copies.
- Option parsing, the `aapt package` runs and the rest of `main` are outside this model.
