/** The R.java that CreateExtraRJavaFile renders from its jinja template
    (process_resources.py lines 175-214), as the list of its lines: the template is
    rendered with `trim_blocks` and `lstrip_blocks`, so every line holding only a block
    tag disappears, and the final newline of the template is dropped. The file's text
    is its lines joined with '\n'.

    Beside the renderer sits a reader that recognises the lines a Java reader of the
    generated class cares about (class headers, field declarations, the
    `onResourcesLoaded` header and its patch statements); reading a rendered file back
    gives every field, with its modifiers, and every patch target. */
module RJava {
  import opened Text
  import opened RTxt
  import opened Resolve

  // ---------------------------------------------------------------------------
  // The fixed text of the template

  const Banner := "/* AUTO-GENERATED FILE.  DO NOT MODIFY. */"
  const Margin := "    "
  const Indent := Margin + Margin
  const PublicStatic := "public static "
  const ClassPrefix := Margin + PublicStatic + "final class "
  const FieldPrefix := Indent + PublicStatic
  const CloseBrace := Margin + "}"
  const LoadHeader := Margin + PublicStatic + "void " + "onResourcesLoaded(int packageId) {"
  const LoopPrefix := Indent + "for(int i = 0; i < "
  const LoopSuffix := ".length; ++i) {"
  const AssignSuffix := " ="
  /** The indent of the continuation lines of the patch statements: twelve spaces. */
  const Deep := Indent + Margin
  const Mask := " & 0x00ffffff)"
  const Shift := "| (packageId << 24);"

  // ---------------------------------------------------------------------------
  // Rendering

  function Header(pkg: string): seq<string> {
    [Banner, "", "package " + pkg + ";", "", "public final class R {"]
  }

  function ClassLine(t: string): string {
    ClassPrefix + (t + " {")
  }

  /** `public static [final] <java type> <name> = <value>;` (lines 183-187); `final` is
      left out exactly when the resources are shared. */
  function FieldLine(f: Field, shared: bool): string {
    FieldPrefix + ((if shared then "" else "final ") +
      (Token(f.javaType) + " " + (f.name + " " + ("= " + f.value + ";"))))
  }

  function FieldLines(fs: seq<Field>, shared: bool): (ls: seq<string>)
    ensures |ls| == |fs|
  {
    if fs == [] then [] else [FieldLine(fs[0], shared)] + FieldLines(fs[1..], shared)
  }

  /** One nested class (lines 180-190). */
  function ClassBlock(t: string, fs: seq<Field>, shared: bool): seq<string> {
    [ClassLine(t)] + FieldLines(fs, shared) + [CloseBrace]
  }

  function ClassBlocks(order: seq<string>, groups: map<string, seq<Field>>, shared: bool): seq<string> {
    if order == [] then []
    else ClassBlock(order[0], FieldsOf(groups, order[0]), shared) + ClassBlocks(order[1..], groups, shared)
  }

  function Qualified(t: string, n: string): string {
    t + "." + n
  }

  /** The statement that moves one field into package `packageId`: a loop over the
      elements of an `int[]` (lines 196-200), an assignment for an `int` (lines 202-204). */
  function PatchLines(t: string, f: Field): seq<string> {
    var q := Qualified(t, f.name);
    if f.javaType == IntArray then
      [ LoopPrefix + (q + LoopSuffix),
        Deep + (q + "[i] ="),
        Deep + (Indent + ("(" + q + ("[i]" + Mask))),
        Deep + (Indent + Shift),
        Indent + "}" ]
    else
      [ Indent + (q + AssignSuffix),
        Deep + (Margin + ("(" + q + Mask)),
        Deep + (Margin + Shift) ]
  }

  function PatchBlock(t: string, fs: seq<Field>): seq<string> {
    if fs == [] then [] else PatchLines(t, fs[0]) + PatchBlock(t, fs[1..])
  }

  function PatchBlocks(order: seq<string>, groups: map<string, seq<Field>>): seq<string> {
    if order == [] then []
    else PatchBlock(order[0], FieldsOf(groups, order[0])) + PatchBlocks(order[1..], groups)
  }

  /** `onResourcesLoaded(int packageId)` (lines 191-209). */
  function LoadMethod(order: seq<string>, groups: map<string, seq<Field>>): seq<string> {
    [LoadHeader] + PatchBlocks(order, groups) + [CloseBrace]
  }

  /** The rendered file, line by line: the classes in the order `res.order` enumerates the
      dictionary's keys, then the loader when the resources are shared. */
  function Render(pkg: string, res: Resources, shared: bool): seq<string> {
    Header(pkg) + ClassBlocks(res.order, res.groups, shared) +
    (if shared then LoadMethod(res.order, res.groups) else []) + ["}"]
  }

  /** What `template.render(...)` returns and line 216 writes. */
  function RenderText(pkg: string, res: Resources, shared: bool): string {
    JoinWith(Render(pkg, res, shared), '\n')
  }

  // ---------------------------------------------------------------------------
  // Reading lines back

  datatype Line =
    | ClassOpen(resType: string)
    | FieldDecl(isFinal: bool, javaType: JavaType, name: string, value: string)
    | LoadOpen
    | ArrayLoop(resType: string, name: string)
    | ScalarAssign(resType: string, name: string)
    | Other

  function ParseClassLine(line: string): Option<string> {
    if !StartsWith(line, ClassPrefix) then None
    else
      var rest := line[|ClassPrefix|..];
      var n := WordLen(rest);
      if n > 0 && rest[n..] == " {" then Some(rest[..n]) else None
  }

  function ParseFieldLine(line: string): Option<(bool, JavaType, string, string)> {
    if !StartsWith(line, FieldPrefix) then None
    else
      var r0 := line[|FieldPrefix|..];
      var fin := StartsWith(r0, "final ");
      var r1 := if fin then r0[6..] else r0;
      match ParseJavaType(r1)
      case None => None
      case Some((jt, r2)) =>
        match ParseWord(r2)
        case None => None
        case Some((n, r3)) =>
          if |r3| >= 3 && r3[..2] == "= " && r3[|r3| - 1] == ';' then Some((fin, jt, n, r3[2..|r3| - 1]))
          else None
  }

  /** `<type>.<name>` at the start of `s`, and what follows it. */
  function ParseQualified(s: string): Option<(string, string, string)> {
    var n1 := WordLen(s);
    if n1 == 0 || n1 == |s| || s[n1] != '.' then None
    else
      var r := s[n1 + 1..];
      var n2 := WordLen(r);
      if n2 == 0 then None else Some((s[..n1], r[..n2], r[n2..]))
  }

  function ParseLoopLine(line: string): Option<(string, string)> {
    if !StartsWith(line, LoopPrefix) then None
    else
      match ParseQualified(line[|LoopPrefix|..])
      case None => None
      case Some((t, n, tail)) => if tail == LoopSuffix then Some((t, n)) else None
  }

  function ParseAssignLine(line: string): Option<(string, string)> {
    if !StartsWith(line, Indent) then None
    else
      match ParseQualified(line[|Indent|..])
      case None => None
      case Some((t, n, tail)) => if tail == AssignSuffix then Some((t, n)) else None
  }

  function Classify(line: string): Line {
    if ParseClassLine(line).Some? then ClassOpen(ParseClassLine(line).value)
    else if ParseFieldLine(line).Some? then
      var (fin, jt, n, v) := ParseFieldLine(line).value;
      FieldDecl(fin, jt, n, v)
    else if line == LoadHeader then LoadOpen
    else if ParseLoopLine(line).Some? then ArrayLoop(ParseLoopLine(line).value.0, ParseLoopLine(line).value.1)
    else if ParseAssignLine(line).Some? then ScalarAssign(ParseAssignLine(line).value.0, ParseAssignLine(line).value.1)
    else Other
  }

  // ---------------------------------------------------------------------------
  // Each kind of rendered line is recognised as what it is

  lemma NotPrefix(s: string, p: string, k: nat)
    requires k < |p| && (k >= |s| || s[k] != p[k])
    ensures !StartsWith(s, p)
  {
    if |p| <= |s| {
      assert s[..|p|][k] == s[k];
    }
  }

  /** A line whose first character is not a space is none of the recognised lines. */
  lemma UnindentedIsOther(line: string)
    requires line == [] || line[0] != ' '
    ensures Classify(line) == Other
  {
    NotPrefix(line, ClassPrefix, 0);
    NotPrefix(line, FieldPrefix, 0);
    NotPrefix(line, LoopPrefix, 0);
    NotPrefix(line, Indent, 0);
  }

  /** A line indented by more than eight spaces is none of the recognised lines. */
  lemma DeepIndentIsOther(line: string)
    requires |line| > 8 && forall i :: 0 <= i <= 8 ==> line[i] == ' '
    ensures Classify(line) == Other
  {
    NotPrefix(line, ClassPrefix, 4);
    NotPrefix(line, FieldPrefix, 8);
    NotPrefix(line, LoopPrefix, 8);
    assert line != LoadHeader by { assert LoadHeader[4] == 'p'; }
    assert StartsWith(line, Indent) ==> WordLen(line[|Indent|..]) == 0 by {
      assert line[|Indent|..][0] == ' ';
    }
  }

  lemma DeepIsOther(rest: string)
    ensures Classify(Deep + rest) == Other
  {
    var line := Deep + rest;
    assert forall i :: 0 <= i < |Deep| ==> Deep[i] == ' ';
    assert forall i :: 0 <= i <= 8 ==> line[i] == Deep[i];
    DeepIndentIsOther(line);
  }

  lemma ClassLineOf(t: string)
    requires IsWord(t)
    ensures Classify(ClassLine(t)) == ClassOpen(t)
  {
    var rest := t + " {";
    assert ClassLine(t)[|ClassPrefix|..] == rest;
    WordLenOf(t, " {");
    assert rest[|t|..] == " {";
    assert rest[..|t|] == t;
  }

  lemma FieldLineOf(f: Field, shared: bool)
    requires IsWord(f.name)
    ensures Classify(FieldLine(f, shared)) == FieldDecl(!shared, f.javaType, f.name, f.value)
  {
    NotPrefix(FieldLine(f, shared), ClassPrefix, 4);
    ParseFieldLineOf(f, shared);
  }

  lemma ParseFieldLineOf(f: Field, shared: bool)
    requires IsWord(f.name)
    ensures ParseFieldLine(FieldLine(f, shared)) == Some((!shared, f.javaType, f.name, f.value))
  {
    var line := FieldLine(f, shared);
    var r3 := "= " + f.value + ";";
    var r1 := Token(f.javaType) + " " + (f.name + " " + r3);
    var r0 := (if shared then "" else "final ") + r1;
    assert line == FieldPrefix + r0;
    assert StartsWith(line, FieldPrefix) && line[|FieldPrefix|..] == r0;
    if shared {
      assert r0 == r1 && r0[0] == 'i';
      NotPrefix(r0, "final ", 0);
    } else {
      assert r0[..6] == "final " && r0[6..] == r1;
    }
    FieldRestOf(f, r3);
  }

  lemma FieldRestOf(f: Field, r3: string)
    requires IsWord(f.name) && r3 == "= " + f.value + ";"
    ensures ParseJavaType(Token(f.javaType) + " " + (f.name + " " + r3)) == Some((f.javaType, f.name + " " + r3))
    ensures ParseWord(f.name + " " + r3) == Some((f.name, r3))
    ensures |r3| >= 3 && r3[..2] == "= " && r3[|r3| - 1] == ';' && r3[2..|r3| - 1] == f.value
  {
    ParseJavaTypeOf(f.javaType, f.name + " " + r3);
    ParseWordOf(f.name, r3);
  }

  lemma ParseQualifiedOf(t: string, n: string, tail: string)
    requires IsWord(t) && IsWord(n)
    requires tail != [] ==> !IsWordChar(tail[0])
    ensures ParseQualified(Qualified(t, n) + tail) == Some((t, n, tail))
  {
    var s := Qualified(t, n) + tail;
    assert s == t + ("." + n + tail);
    WordLenOf(t, "." + n + tail);
    assert s[|t|] == '.';
    var r := s[|t| + 1..];
    assert r == n + tail;
    WordLenOf(n, tail);
    assert s[..|t|] == t && r[..|n|] == n && r[|n|..] == tail;
  }

  /** `<word>.` never begins like `w` when `w` holds a word followed by a character
      other than '.': this keeps the patch statements apart from field declarations. */
  lemma QualifiedNotPrefix(pre: string, t: string, rest: string, p: string, m: nat)
    requires IsWord(t) && rest != [] && rest[0] == '.'
    requires |pre| + m < |p| && p[..|pre|] == pre
    requires forall i :: |pre| <= i < |pre| + m ==> IsWordChar(p[i])
    requires !IsWordChar(p[|pre| + m]) && p[|pre| + m] != '.'
    ensures !StartsWith(pre + t + rest, p)
  {
    var s := pre + t + rest;
    if |t| < m {
      assert s[|pre| + |t|] == '.';
      NotPrefix(s, p, |pre| + |t|);
    } else if |t| == m {
      assert s[|pre| + m] == '.';
      NotPrefix(s, p, |pre| + m);
    } else {
      assert s[|pre| + m] == t[m];
      NotPrefix(s, p, |pre| + m);
    }
  }

  lemma LoopLineOf(t: string, n: string)
    requires IsWord(t) && IsWord(n)
    ensures Classify(LoopPrefix + (Qualified(t, n) + LoopSuffix)) == ArrayLoop(t, n)
  {
    var line := LoopPrefix + (Qualified(t, n) + LoopSuffix);
    NotPrefix(line, ClassPrefix, 4);
    NotPrefix(line, FieldPrefix, 8);
    assert line != LoadHeader by { assert LoadHeader[4] == 'p'; }
    assert line[|LoopPrefix|..] == Qualified(t, n) + LoopSuffix;
    ParseQualifiedOf(t, n, LoopSuffix);
  }

  /** A scalar patch statement starts like none of the lines tried before it. */
  lemma AssignNotEarlier(t: string, n: string)
    requires IsWord(t) && IsWord(n)
    ensures ParseClassLine(Indent + (Qualified(t, n) + AssignSuffix)).None?
    ensures ParseFieldLine(Indent + (Qualified(t, n) + AssignSuffix)).None?
    ensures Indent + (Qualified(t, n) + AssignSuffix) != LoadHeader
    ensures ParseLoopLine(Indent + (Qualified(t, n) + AssignSuffix)).None?
  {
    var line := Indent + (Qualified(t, n) + AssignSuffix);
    var rest := "." + n + AssignSuffix;
    assert line == Indent + t + rest;
    NotPrefix(line, ClassPrefix, 4);
    QualifiedNotPrefix(Indent, t, rest, FieldPrefix, 6);
    assert line != LoadHeader by { assert LoadHeader[4] == 'p'; }
    QualifiedNotPrefix(Indent, t, rest, LoopPrefix, 3);
  }

  lemma ParseAssignOf(t: string, n: string)
    requires IsWord(t) && IsWord(n)
    ensures ParseAssignLine(Indent + (Qualified(t, n) + AssignSuffix)) == Some((t, n))
  {
    var line := Indent + (Qualified(t, n) + AssignSuffix);
    assert line[|Indent|..] == Qualified(t, n) + AssignSuffix;
    ParseQualifiedOf(t, n, AssignSuffix);
  }

  lemma AssignLineOf(t: string, n: string)
    requires IsWord(t) && IsWord(n)
    ensures Classify(Indent + (Qualified(t, n) + AssignSuffix)) == ScalarAssign(t, n)
  {
    AssignNotEarlier(t, n);
    ParseAssignOf(t, n);
  }

  lemma CloseBraceIsOther()
    ensures Classify(CloseBrace) == Other
    ensures Classify(Indent + "}") == Other
  {
    NotPrefix(CloseBrace, ClassPrefix, 4);
    NotPrefix(CloseBrace, FieldPrefix, 4);
    NotPrefix(CloseBrace, LoopPrefix, 4);
    NotPrefix(CloseBrace, Indent, 4);
    var c := Indent + "}";
    NotPrefix(c, ClassPrefix, 4);
    NotPrefix(c, FieldPrefix, 8);
    NotPrefix(c, LoopPrefix, 8);
    assert c[|Indent|..] == "}";
  }

  lemma LoadHeaderIsLoadOpen()
    ensures Classify(LoadHeader) == LoadOpen
  {
    assert LoadHeader[18] == 'v' && LoadHeader[4] == 'p';
    NotPrefix(LoadHeader, ClassPrefix, 18);
    NotPrefix(LoadHeader, FieldPrefix, 4);
  }

  // ---------------------------------------------------------------------------
  // Reading a whole file

  /** A field declaration as read back: the class it sits in, its name, its java type,
      its initial value and whether it is `final`. */
  datatype Decl = Decl(resType: string, name: string, javaType: JavaType, value: string, isFinal: bool)

  /** The field a patch statement rewrites, and whether it loops over an array. */
  datatype Target = Target(resType: string, name: string, isArray: bool)

  /** What a reader finds in a file: field declarations, `onResourcesLoaded` headers and
      patch statements, each in file order. */
  datatype Reading = Reading(decls: seq<Decl>, loaders: nat, targets: seq<Target>)

  const Nothing := Reading([], 0, [])

  function Plus(a: Reading, b: Reading): Reading {
    Reading(a.decls + b.decls, a.loaders + b.loaders, a.targets + b.targets)
  }

  lemma PlusNothing(r: Reading)
    ensures Plus(Nothing, r) == r && Plus(r, Nothing) == r
  {
    assert [] + r.decls == r.decls && r.decls + [] == r.decls;
    assert [] + r.targets == r.targets && r.targets + [] == r.targets;
  }

  lemma PlusAssoc(a: Reading, b: Reading, c: Reading)
    ensures Plus(a, Plus(b, c)) == Plus(Plus(a, b), c)
  {
    assert a.decls + (b.decls + c.decls) == (a.decls + b.decls) + c.decls;
    assert a.targets + (b.targets + c.targets) == (a.targets + b.targets) + c.targets;
  }

  /** What one line contributes when it sits inside class `cur`. */
  function ReadLine(cur: string, l: Line): Reading {
    match l
    case FieldDecl(fin, jt, n, v) => Reading([Decl(cur, n, jt, v, fin)], 0, [])
    case LoadOpen => Reading([], 1, [])
    case ArrayLoop(t, n) => Reading([], 0, [Target(t, n, true)])
    case ScalarAssign(t, n) => Reading([], 0, [Target(t, n, false)])
    case _ => Nothing
  }

  function NextClass(cur: string, l: Line): string {
    if l.ClassOpen? then l.resType else cur
  }

  /** Reads classified lines, starting inside class `cur`. */
  function ReadLines(cur: string, ls: seq<Line>): Reading
    decreases |ls|
  {
    if ls == [] then Nothing
    else Plus(ReadLine(cur, ls[0]), ReadLines(NextClass(cur, ls[0]), ls[1..]))
  }

  /** The class the reader is in after `ls`. */
  function ClassAfter(cur: string, ls: seq<Line>): string
    decreases |ls|
  {
    if ls == [] then cur else ClassAfter(NextClass(cur, ls[0]), ls[1..])
  }

  function Scan(lines: seq<string>): (ls: seq<Line>)
    ensures |ls| == |lines|
  {
    seq(|lines|, i requires 0 <= i < |lines| => Classify(lines[i]))
  }

  /** Everything a reader finds in a file given as its lines. */
  function ReadFile(lines: seq<string>): Reading {
    ReadLines("", Scan(lines))
  }

  lemma ScanAppend(a: seq<string>, b: seq<string>)
    ensures Scan(a + b) == Scan(a) + Scan(b)
  {
  }

  lemma {:induction false} ReadLinesAppend(cur: string, a: seq<Line>, b: seq<Line>)
    ensures ReadLines(cur, a + b) == Plus(ReadLines(cur, a), ReadLines(ClassAfter(cur, a), b))
    ensures ClassAfter(cur, a + b) == ClassAfter(ClassAfter(cur, a), b)
    decreases |a|
  {
    if a == [] {
      assert a + b == b;
      PlusNothing(ReadLines(cur, b));
    } else {
      assert (a + b)[0] == a[0] && (a + b)[1..] == a[1..] + b;
      var next := NextClass(cur, a[0]);
      ReadLinesAppend(next, a[1..], b);
      PlusAssoc(ReadLine(cur, a[0]), ReadLines(next, a[1..]), ReadLines(ClassAfter(next, a[1..]), b));
    }
  }

  /** Lines the reader ignores contribute nothing and leave the class unchanged. */
  lemma {:induction false} ReadOthers(cur: string, ls: seq<Line>)
    requires forall k :: 0 <= k < |ls| ==> ls[k] == Other
    ensures ReadLines(cur, ls) == Nothing && ClassAfter(cur, ls) == cur
    decreases |ls|
  {
    if ls != [] {
      assert forall k :: 0 <= k < |ls[1..]| ==> ls[1..][k] == ls[k + 1];
      ReadOthers(cur, ls[1..]);
      assert ls[0] == Other;
      assert ReadLine(cur, ls[0]) == Nothing;
      assert NextClass(cur, ls[0]) == cur;
      assert ReadLines(cur, ls) == Plus(Nothing, ReadLines(cur, ls[1..]));
      PlusNothing(Nothing);
    }
  }

  function DeclOf(e: Resolved, isFinal: bool): Decl {
    Decl(e.resType, e.field.name, e.field.javaType, e.field.value, isFinal)
  }

  function Decls(es: seq<Resolved>, isFinal: bool): (ds: seq<Decl>)
    ensures |ds| == |es|
  {
    seq(|es|, i requires 0 <= i < |es| => DeclOf(es[i], isFinal))
  }

  function TargetOf(e: Resolved): Target {
    Target(e.resType, e.field.name, e.field.javaType == IntArray)
  }

  function Targets(es: seq<Resolved>): (ts: seq<Target>)
    ensures |ts| == |es|
  {
    seq(|es|, i requires 0 <= i < |es| => TargetOf(es[i]))
  }

  lemma DeclsAppend(a: seq<Resolved>, b: seq<Resolved>, isFinal: bool)
    ensures Decls(a + b, isFinal) == Decls(a, isFinal) + Decls(b, isFinal)
    ensures Targets(a + b) == Targets(a) + Targets(b)
  {
  }

  /** Every field is named by a word and its value is on one line. */
  predicate NamesOk(fs: seq<Field>) {
    forall j :: 0 <= j < |fs| ==> IsWord(fs[j].name) && '\n' !in fs[j].value
  }

  /** Every class listed is named by a word and so is each of its fields, and no value
      spans lines, as the R.txt grammar guarantees. */
  predicate Printable(order: seq<string>, groups: map<string, seq<Field>>) {
    forall i :: 0 <= i < |order| ==> IsWord(order[i]) && NamesOk(FieldsOf(groups, order[i]))
  }

  lemma PrintableTail(order: seq<string>, groups: map<string, seq<Field>>)
    requires order != [] && Printable(order, groups)
    ensures IsWord(order[0]) && NamesOk(FieldsOf(groups, order[0])) && Printable(order[1..], groups)
  {
    assert forall i :: 0 <= i < |order[1..]| ==> order[1..][i] == order[i + 1];
  }

  // ---------------------------------------------------------------------------
  // Reading each part of a rendered file

  lemma HeaderScan(pkg: string)
    ensures forall k :: 0 <= k < |Header(pkg)| ==> Scan(Header(pkg))[k] == Other
  {
    var h := Header(pkg);
    forall k | 0 <= k < |h| ensures Classify(h[k]) == Other {
      UnindentedIsOther(h[k]);
    }
  }

  lemma ReadSkipFront(cur: string, a: seq<Line>, b: seq<Line>)
    requires forall k :: 0 <= k < |a| ==> a[k] == Other
    ensures ReadLines(cur, a + b) == ReadLines(cur, b)
  {
    ReadLinesAppend(cur, a, b);
    ReadOthers(cur, a);
    PlusNothing(ReadLines(cur, b));
  }

  lemma ReadSkipBack(cur: string, a: seq<Line>, b: seq<Line>)
    requires forall k :: 0 <= k < |b| ==> b[k] == Other
    ensures ReadLines(cur, a + b) == ReadLines(cur, a)
  {
    ReadLinesAppend(cur, a, b);
    ReadOthers(ClassAfter(cur, a), b);
    PlusNothing(ReadLines(cur, a));
  }

  /** A block opened by line `x` and closed by a brace the reader ignores. */
  lemma Bracketed(cur: string, x: Line, body: seq<Line>)
    ensures ReadLines(cur, [x] + body + [Other]) == Plus(ReadLine(cur, x), ReadLines(NextClass(cur, x), body))
  {
    var ls := [x] + body + [Other];
    assert ls[0] == x && ls[1..] == body + [Other];
    ReadSkipBack(NextClass(cur, x), body, [Other]);
  }

  function FieldDecls(fs: seq<Field>, isFinal: bool): (ls: seq<Line>)
    ensures |ls| == |fs|
  {
    seq(|fs|, j requires 0 <= j < |fs| => FieldDecl(isFinal, fs[j].javaType, fs[j].name, fs[j].value))
  }

  lemma {:induction false} FieldLinesScan(fs: seq<Field>, shared: bool)
    requires NamesOk(fs)
    ensures Scan(FieldLines(fs, shared)) == FieldDecls(fs, !shared)
  {
    if fs != [] {
      assert NamesOk(fs[1..]) by {
        forall j | 0 <= j < |fs[1..]| ensures IsWord(fs[1..][j].name) && '\n' !in fs[1..][j].value {
          assert fs[1..][j] == fs[j + 1];
        }
      }
      FieldLinesScan(fs[1..], shared);
      FieldLineOf(fs[0], shared);
      ScanCons(FieldLine(fs[0], shared), FieldLines(fs[1..], shared));
      assert FieldDecls(fs, !shared) == [FieldDecls(fs, !shared)[0]] + FieldDecls(fs[1..], !shared);
    }
  }

  lemma {:induction false} FieldDeclsRead(cur: string, fs: seq<Field>, isFinal: bool)
    ensures ReadLines(cur, FieldDecls(fs, isFinal)) == Reading(Decls(Tagged(cur, fs), isFinal), 0, [])
    ensures ClassAfter(cur, FieldDecls(fs, isFinal)) == cur
  {
    if fs != [] {
      var ls := FieldDecls(fs, isFinal);
      var rest := Tagged(cur, fs[1..]);
      assert ls[1..] == FieldDecls(fs[1..], isFinal);
      FieldDeclsRead(cur, fs[1..], isFinal);
      assert Tagged(cur, fs) == [Resolved(cur, fs[0])] + rest;
      DeclsAppend([Resolved(cur, fs[0])], rest, isFinal);
      assert ReadLine(cur, ls[0]) == Reading(Decls([Resolved(cur, fs[0])], isFinal), 0, []);
      assert NextClass(cur, ls[0]) == cur;
    }
  }

  lemma ClassBlockScan(t: string, fs: seq<Field>, shared: bool)
    requires IsWord(t) && NamesOk(fs)
    ensures Scan(ClassBlock(t, fs, shared)) == [ClassOpen(t)] + FieldDecls(fs, !shared) + [Other]
  {
    var body := FieldLines(fs, shared);
    assert ClassBlock(t, fs, shared) == [ClassLine(t)] + (body + [CloseBrace]);
    ScanCons(ClassLine(t), body + [CloseBrace]);
    ScanAppend(body, [CloseBrace]);
    ScanOne(CloseBrace);
    ClassLineOf(t);
    CloseBraceIsOther();
    FieldLinesScan(fs, shared);
  }

  lemma ClassBlockRead(cur: string, t: string, fs: seq<Field>, isFinal: bool)
    ensures ReadLines(cur, [ClassOpen(t)] + FieldDecls(fs, isFinal) + [Other]) ==
            Reading(Decls(Tagged(t, fs), isFinal), 0, [])
  {
    Bracketed(cur, ClassOpen(t), FieldDecls(fs, isFinal));
    FieldDeclsRead(t, fs, isFinal);
    PlusNothing(ReadLines(t, FieldDecls(fs, isFinal)));
  }

  lemma {:induction false} ClassBlocksRead(cur: string, order: seq<string>, groups: map<string, seq<Field>>, shared: bool)
    requires Printable(order, groups)
    ensures ReadLines(cur, Scan(ClassBlocks(order, groups, shared))) ==
            Reading(Decls(Flatten(order, groups), !shared), 0, [])
    decreases |order|
  {
    if order != [] {
      var t := order[0];
      var block := ClassBlock(t, FieldsOf(groups, t), shared);
      var rest := ClassBlocks(order[1..], groups, shared);
      PrintableTail(order, groups);
      ScanAppend(block, rest);
      ReadLinesAppend(cur, Scan(block), Scan(rest));
      ClassBlockScan(t, FieldsOf(groups, t), shared);
      ClassBlockRead(cur, t, FieldsOf(groups, t), !shared);
      ClassBlocksRead(ClassAfter(cur, Scan(block)), order[1..], groups, shared);
      DeclsAppend(Tagged(t, FieldsOf(groups, t)), Flatten(order[1..], groups), !shared);
    }
  }

  lemma ScanOne(a: string)
    ensures Scan([a]) == [Classify(a)]
  {
  }

  lemma ScanCons(a: string, rest: seq<string>)
    ensures Scan([a] + rest) == [Classify(a)] + Scan(rest)
  {
    ScanOne(a);
    ScanAppend([a], rest);
  }

  lemma ScanThree(a: string, b: string, c: string)
    ensures Scan([a, b, c]) == [Classify(a), Classify(b), Classify(c)]
  {
    ScanOne(c);
    ScanCons(b, [c]);
    ScanCons(a, [b, c]);
    assert [a, b, c] == [a] + [b, c];
    assert [b, c] == [b] + [c];
  }

  lemma ScanFive(a: string, b: string, c: string, d: string, e: string)
    ensures Scan([a, b, c, d, e]) == [Classify(a), Classify(b), Classify(c), Classify(d), Classify(e)]
  {
    ScanThree(c, d, e);
    ScanCons(b, [c, d, e]);
    ScanCons(a, [b, c, d, e]);
    assert [a, b, c, d, e] == [a] + [b, c, d, e];
    assert [b, c, d, e] == [b] + [c, d, e];
  }

  lemma PatchLinesScan(t: string, f: Field)
    requires IsWord(t) && IsWord(f.name)
    ensures Scan(PatchLines(t, f)) ==
      [if f.javaType == IntArray then ArrayLoop(t, f.name) else ScalarAssign(t, f.name)] +
      Scan(PatchLines(t, f))[1..]
    ensures forall k :: 1 <= k < |PatchLines(t, f)| ==> Scan(PatchLines(t, f))[k] == Other
  {
    var q := Qualified(t, f.name);
    if f.javaType == IntArray {
      var l0, l1, l2, l3, l4 := LoopPrefix + (q + LoopSuffix), Deep + (q + "[i] ="),
        Deep + (Indent + ("(" + q + ("[i]" + Mask))), Deep + (Indent + Shift), Indent + "}";
      assert PatchLines(t, f) == [l0, l1, l2, l3, l4];
      ScanFive(l0, l1, l2, l3, l4);
      LoopLineOf(t, f.name);
      DeepIsOther(q + "[i] =");
      DeepIsOther(Indent + ("(" + q + ("[i]" + Mask)));
      DeepIsOther(Indent + Shift);
      CloseBraceIsOther();
    } else {
      var l0, l1, l2 := Indent + (q + AssignSuffix), Deep + (Margin + ("(" + q + Mask)), Deep + (Margin + Shift);
      assert PatchLines(t, f) == [l0, l1, l2];
      ScanThree(l0, l1, l2);
      AssignLineOf(t, f.name);
      DeepIsOther(Margin + ("(" + q + Mask));
      DeepIsOther(Margin + Shift);
    }
  }

  lemma PatchLinesRead(cur: string, t: string, f: Field)
    requires IsWord(t) && IsWord(f.name)
    ensures ReadLines(cur, Scan(PatchLines(t, f))) == Reading([], 0, [TargetOf(Resolved(t, f))])
    ensures ClassAfter(cur, Scan(PatchLines(t, f))) == cur
  {
    var ls := Scan(PatchLines(t, f));
    PatchLinesScan(t, f);
    ReadOthers(cur, ls[1..]);
  }

  lemma {:induction false} PatchBlockRead(cur: string, t: string, fs: seq<Field>)
    requires IsWord(t) && NamesOk(fs)
    ensures ReadLines(cur, Scan(PatchBlock(t, fs))) == Reading([], 0, Targets(Tagged(t, fs)))
    ensures ClassAfter(cur, Scan(PatchBlock(t, fs))) == cur
  {
    if fs == [] {
      assert Scan(PatchBlock(t, fs)) == [];
    } else {
      var head := PatchLines(t, fs[0]);
      var rest := PatchBlock(t, fs[1..]);
      assert NamesOk(fs[1..]) by {
        forall j | 0 <= j < |fs[1..]| ensures IsWord(fs[1..][j].name) && '\n' !in fs[1..][j].value {
          assert fs[1..][j] == fs[j + 1];
        }
      }
      ScanAppend(head, rest);
      ReadLinesAppend(cur, Scan(head), Scan(rest));
      PatchLinesRead(cur, t, fs[0]);
      PatchBlockRead(cur, t, fs[1..]);
      assert Tagged(t, fs) == [Resolved(t, fs[0])] + Tagged(t, fs[1..]);
      DeclsAppend([Resolved(t, fs[0])], Tagged(t, fs[1..]), true);
      assert Reading([], 0, [TargetOf(Resolved(t, fs[0]))]).decls + [] == [];
    }
  }

  lemma {:induction false} PatchBlocksRead(cur: string, order: seq<string>, groups: map<string, seq<Field>>)
    requires Printable(order, groups)
    ensures ReadLines(cur, Scan(PatchBlocks(order, groups))) == Reading([], 0, Targets(Flatten(order, groups)))
    ensures ClassAfter(cur, Scan(PatchBlocks(order, groups))) == cur
    decreases |order|
  {
    if order == [] {
      assert Scan(PatchBlocks(order, groups)) == [];
    } else {
      var t := order[0];
      var block := PatchBlock(t, FieldsOf(groups, t));
      var rest := PatchBlocks(order[1..], groups);
      PrintableTail(order, groups);
      ScanAppend(block, rest);
      ReadLinesAppend(cur, Scan(block), Scan(rest));
      PatchBlockRead(cur, t, FieldsOf(groups, t));
      PatchBlocksRead(cur, order[1..], groups);
      DeclsAppend(Tagged(t, FieldsOf(groups, t)), Flatten(order[1..], groups), true);
    }
  }

  lemma LoadMethodScan(order: seq<string>, groups: map<string, seq<Field>>)
    ensures Scan(LoadMethod(order, groups)) == [LoadOpen] + Scan(PatchBlocks(order, groups)) + [Other]
  {
    var body := PatchBlocks(order, groups);
    assert LoadMethod(order, groups) == [LoadHeader] + (body + [CloseBrace]);
    ScanCons(LoadHeader, body + [CloseBrace]);
    ScanAppend(body, [CloseBrace]);
    ScanOne(CloseBrace);
    LoadHeaderIsLoadOpen();
    CloseBraceIsOther();
  }

  lemma LoadMethodRead(cur: string, order: seq<string>, groups: map<string, seq<Field>>)
    requires Printable(order, groups)
    ensures ReadLines(cur, Scan(LoadMethod(order, groups))) == Reading([], 1, Targets(Flatten(order, groups)))
  {
    var body := Scan(PatchBlocks(order, groups));
    LoadMethodScan(order, groups);
    Bracketed(cur, LoadOpen, body);
    PatchBlocksRead(cur, order, groups);
  }

  lemma RenderScan(pkg: string, res: Resources, shared: bool)
    ensures Scan(Render(pkg, res, shared)) ==
      Scan(Header(pkg)) + (Scan(ClassBlocks(res.order, res.groups, shared)) +
      (Scan(if shared then LoadMethod(res.order, res.groups) else []) + [Other]))
  {
    var h := Header(pkg);
    var c := ClassBlocks(res.order, res.groups, shared);
    var l := if shared then LoadMethod(res.order, res.groups) else [];
    assert Render(pkg, res, shared) == h + (c + (l + ["}"]));
    ScanAppend(h, c + (l + ["}"]));
    ScanAppend(c, l + ["}"]);
    ScanAppend(l, ["}"]);
    UnindentedIsOther("}");
  }

  /** Reading a rendered R.java back gives every field of every class, in class order and
      within a class in list order, each `final` exactly when the resources are not
      shared; there is one `onResourcesLoaded` exactly when they are shared, and then it
      holds one patch statement per field, in the same order, looping exactly over the
      `int[]` fields. */
  lemma RenderRead(pkg: string, res: Resources, shared: bool)
    requires Printable(res.order, res.groups)
    ensures ReadFile(Render(pkg, res, shared)) ==
      Reading(Decls(Flatten(res.order, res.groups), !shared),
              if shared then 1 else 0,
              if shared then Targets(Flatten(res.order, res.groups)) else [])
  {
    var c := Scan(ClassBlocks(res.order, res.groups, shared));
    var l := Scan(if shared then LoadMethod(res.order, res.groups) else []);
    RenderScan(pkg, res, shared);
    HeaderScan(pkg);
    ReadSkipFront("", Scan(Header(pkg)), c + (l + [Other]));
    ReadLinesAppend("", c, l + [Other]);
    ClassBlocksRead("", res.order, res.groups, shared);
    var cur := ClassAfter("", c);
    ReadSkipBack(cur, l, [Other]);
    if shared {
      LoadMethodRead(cur, res.order, res.groups);
    } else {
      assert l == [];
    }
    PlusNothing(ReadLines("", c));
  }

  // ---------------------------------------------------------------------------
  // From lines to text and back

  predicate NoBreak(ls: seq<string>) {
    forall k :: 0 <= k < |ls| ==> '\n' !in ls[k]
  }

  lemma NoBreakAppend(a: seq<string>, b: seq<string>)
    requires NoBreak(a) && NoBreak(b)
    ensures NoBreak(a + b)
  {
    forall k | 0 <= k < |a + b| ensures '\n' !in (a + b)[k] {
      if k >= |a| { assert (a + b)[k] == b[k - |a|]; }
    }
  }

  lemma WordNoBreak(w: string)
    requires IsWord(w)
    ensures '\n' !in w
  {
  }

  /** None of the fixed pieces of the template holds a line break. */
  lemma PiecesNoBreak()
    ensures '\n' !in Banner && '\n' !in Margin && '\n' !in Indent && '\n' !in Deep
    ensures '\n' !in ClassPrefix && '\n' !in FieldPrefix
    ensures '\n' !in CloseBrace && '\n' !in LoadHeader && '\n' !in LoopPrefix
    ensures '\n' !in LoopSuffix && '\n' !in AssignSuffix && '\n' !in Mask && '\n' !in Shift
  {
    BannerNoBreak();
    PrefixesNoBreak();
    LoadHeaderNoBreak();
    SuffixesNoBreak();
  }

  lemma BannerNoBreak()
    ensures '\n' !in Banner
  {
  }

  lemma PrefixesNoBreak()
    ensures '\n' !in Margin && '\n' !in Indent && '\n' !in Deep
    ensures '\n' !in ClassPrefix && '\n' !in FieldPrefix && '\n' !in LoopPrefix
  {
  }

  lemma LoadHeaderNoBreak()
    ensures '\n' !in LoadHeader
  {
  }

  lemma SuffixesNoBreak()
    ensures '\n' !in CloseBrace && '\n' !in LoopSuffix && '\n' !in AssignSuffix
    ensures '\n' !in Mask && '\n' !in Shift
  {
  }

  lemma PatchLinesNoBreak(t: string, f: Field)
    requires IsWord(t) && IsWord(f.name)
    ensures NoBreak(PatchLines(t, f))
  {
    WordNoBreak(t);
    WordNoBreak(f.name);
    PiecesNoBreak();
    var q := Qualified(t, f.name);
    assert '\n' !in q;
  }

  lemma HeaderNoBreak(pkg: string)
    requires '\n' !in pkg
    ensures NoBreak(Header(pkg))
  {
    PiecesNoBreak();
  }

  lemma {:induction false} FieldLinesNoBreak(fs: seq<Field>, shared: bool)
    requires NamesOk(fs)
    ensures NoBreak(FieldLines(fs, shared))
  {
    if fs != [] {
      assert NamesOk(fs[1..]) by {
        forall j | 0 <= j < |fs[1..]| ensures IsWord(fs[1..][j].name) && '\n' !in fs[1..][j].value {
          assert fs[1..][j] == fs[j + 1];
        }
      }
      FieldLinesNoBreak(fs[1..], shared);
      WordNoBreak(fs[0].name);
      NoBreakAppend([FieldLine(fs[0], shared)], FieldLines(fs[1..], shared));
    }
  }

  lemma {:induction false} ClassBlocksNoBreak(order: seq<string>, groups: map<string, seq<Field>>, shared: bool)
    requires Printable(order, groups)
    ensures NoBreak(ClassBlocks(order, groups, shared))
    decreases |order|
  {
    if order != [] {
      var t := order[0];
      PrintableTail(order, groups);
      WordNoBreak(t);
      FieldLinesNoBreak(FieldsOf(groups, t), shared);
      NoBreakAppend([ClassLine(t)], FieldLines(FieldsOf(groups, t), shared));
      NoBreakAppend([ClassLine(t)] + FieldLines(FieldsOf(groups, t), shared), [CloseBrace]);
      ClassBlocksNoBreak(order[1..], groups, shared);
      NoBreakAppend(ClassBlock(t, FieldsOf(groups, t), shared), ClassBlocks(order[1..], groups, shared));
    }
  }

  lemma {:induction false} PatchBlockNoBreak(t: string, fs: seq<Field>)
    requires IsWord(t) && NamesOk(fs)
    ensures NoBreak(PatchBlock(t, fs))
  {
    if fs != [] {
      assert NamesOk(fs[1..]) by {
        forall j | 0 <= j < |fs[1..]| ensures IsWord(fs[1..][j].name) && '\n' !in fs[1..][j].value {
          assert fs[1..][j] == fs[j + 1];
        }
      }
      PatchLinesNoBreak(t, fs[0]);
      PatchBlockNoBreak(t, fs[1..]);
      NoBreakAppend(PatchLines(t, fs[0]), PatchBlock(t, fs[1..]));
    }
  }

  lemma {:induction false} PatchBlocksNoBreak(order: seq<string>, groups: map<string, seq<Field>>)
    requires Printable(order, groups)
    ensures NoBreak(PatchBlocks(order, groups))
    decreases |order|
  {
    if order != [] {
      PrintableTail(order, groups);
      PatchBlockNoBreak(order[0], FieldsOf(groups, order[0]));
      PatchBlocksNoBreak(order[1..], groups);
      NoBreakAppend(PatchBlock(order[0], FieldsOf(groups, order[0])), PatchBlocks(order[1..], groups));
    }
  }

  lemma LoadMethodNoBreak(order: seq<string>, groups: map<string, seq<Field>>)
    requires Printable(order, groups)
    ensures NoBreak(LoadMethod(order, groups))
  {
    PiecesNoBreak();
    PatchBlocksNoBreak(order, groups);
    NoBreakAppend([LoadHeader], PatchBlocks(order, groups));
    NoBreakAppend([LoadHeader] + PatchBlocks(order, groups), [CloseBrace]);
  }

  lemma RenderNoBreak(pkg: string, res: Resources, shared: bool)
    requires Printable(res.order, res.groups) && '\n' !in pkg
    ensures NoBreak(Render(pkg, res, shared))
  {
    var h := Header(pkg);
    var c := ClassBlocks(res.order, res.groups, shared);
    var l := if shared then LoadMethod(res.order, res.groups) else [];
    ClassBlocksNoBreak(res.order, res.groups, shared);
    if shared {
      LoadMethodNoBreak(res.order, res.groups);
    }
    HeaderNoBreak(pkg);
    NoBreakAppend(l, ["}"]);
    NoBreakAppend(c, l + ["}"]);
    NoBreakAppend(h, c + (l + ["}"]));
    assert Render(pkg, res, shared) == h + (c + (l + ["}"]));
  }

  /** The text written for a package splits at '\n' into exactly the rendered lines, so a
      reader of the file sees what RenderRead describes. */
  lemma RenderTextRead(pkg: string, res: Resources, shared: bool)
    requires Printable(res.order, res.groups) && '\n' !in pkg
    ensures SplitOn(RenderText(pkg, res, shared), '\n') == Render(pkg, res, shared)
    ensures ReadFile(SplitOn(RenderText(pkg, res, shared), '\n')) ==
      Reading(Decls(Flatten(res.order, res.groups), !shared),
              if shared then 1 else 0,
              if shared then Targets(Flatten(res.order, res.groups)) else [])
  {
    RenderNoBreak(pkg, res, shared);
    JoinSplit(Render(pkg, res, shared), '\n');
    RenderRead(pkg, res, shared);
  }
}
