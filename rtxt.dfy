/** The R.txt symbol-table format written by `aapt --output-text-symbols` and its two
    readers in process_resources.py: the base-table reader of CreateExtraRJavaFiles,
    which keeps every line's java type and value, and the per-package reader of
    CreateExtraRJavaFile, which keeps only the resource type and name. */
module RTxt {
  import opened Text

  /** The java type of a resource id field: `int` or `int[]`. */
  datatype JavaType = Int | IntArray

  function Token(t: JavaType): string {
    match t
    case Int => "int"
    case IntArray => "int[]"
  }

  /** One accepted base line: `<java type> <resource type> <name> <value>`. */
  datatype Symbol = Symbol(javaType: JavaType, resType: string, name: string, value: string)

  /** What the base table keeps for a `(resource type, name)` key. */
  datatype Entry = Entry(javaType: JavaType, value: string)

  type Key = (string, string)

  type SymbolTable = map<Key, Entry>

  /** The three ways the extra-package step raises. */
  datatype Error =
    | CountMismatch                                // 'Need one R.txt file per extra package'
    | MalformedLine(line: string)                  // 'Unexpected line in R.txt: ...'
    | UnresolvedSymbol(resType: string, name: string)  // KeyError on the base table

  datatype Result<T> = Ok(value: T) | Err(error: Error)

  function KeyOf(s: Symbol): Key { (s.resType, s.name) }

  function EntryOf(s: Symbol): Entry { Entry(s.javaType, s.value) }

  // ---------------------------------------------------------------------------
  // The line grammar, as a scanner

  /** `int(?:\[\])? ` at the start of `s`: the greedy `[]` is tried first. */
  function ParseJavaType(s: string): Option<(JavaType, string)> {
    if StartsWith(s, "int[] ") then Some((IntArray, s[6..]))
    else if StartsWith(s, "int ") then Some((Int, s[4..]))
    else None
  }

  /** `(\w+) ` at the start of `s`: the word and what follows its space. */
  function ParseWord(s: string): Option<(string, string)> {
    var n := WordLen(s);
    if 0 < n < |s| && s[n] == ' ' then Some((s[..n], s[n + 1..])) else None
  }

  /** `(.+)$`: `$` also matches just before one final '\n', and `.` never matches '\n'. */
  function ParseValue(s: string): Option<string> {
    var v := if s != [] && s[|s| - 1] == '\n' then s[..|s| - 1] else s;
    if v != [] && '\n' !in v then Some(v) else None
  }

  /** The part both readers share: `int(?:\[\])? (\w+) (\w+) ` at the start of a line,
      giving the java type, the resource type, the name and the rest of the line. */
  function ParseFields(line: string): Option<(JavaType, string, string, string)> {
    match ParseJavaType(line)
    case None => None
    case Some((jt, r1)) =>
      match ParseWord(r1)
      case None => None
      case Some((t, r2)) =>
        match ParseWord(r2)
        case None => None
        case Some((n, r3)) => Some((jt, t, n, r3))
  }

  /** `re.match(r'(int(?:\[\])?) (\w+) (\w+) (.+)$', line)` on a base R.txt line. */
  function ParseBaseLine(line: string): Option<Symbol> {
    match ParseFields(line)
    case None => None
    case Some((jt, t, n, rest)) =>
      match ParseValue(rest)
      case None => None
      case Some(v) => Some(Symbol(jt, t, n, v))
  }

  /** `re.match(r'int(?:\[\])? (\w+) (\w+) ', line)` on a package's own R.txt line: a
      prefix match whose java type and trailing text are ignored. */
  function ParseOwnLine(line: string): Option<Key> {
    match ParseFields(line)
    case None => None
    case Some((_, t, n, _)) => Some((t, n))
  }

  /** The symbols a base R.txt line can carry. */
  predicate WellFormed(s: Symbol) {
    IsWord(s.resType) && IsWord(s.name) && s.value != [] && '\n' !in s.value
  }

  function SymbolLine(s: Symbol): string {
    Token(s.javaType) + " " + s.resType + " " + s.name + " " + s.value
  }

  // ---------------------------------------------------------------------------
  // The grammar, both directions

  lemma ParseWordOf(w: string, rest: string)
    requires IsWord(w)
    ensures ParseWord(w + " " + rest) == Some((w, rest))
  {
    var s := w + " " + rest;
    assert s == w + (" " + rest);
    WordLenOf(w, " " + rest);
    assert s[..|w|] == w && s[|w| + 1..] == rest;
  }

  lemma ParseWordShape(s: string)
    requires ParseWord(s).Some?
    ensures IsWord(ParseWord(s).value.0)
    ensures s == ParseWord(s).value.0 + " " + ParseWord(s).value.1
  {
    var n := WordLen(s);
    assert s == s[..n] + " " + s[n + 1..];
  }

  lemma ParseJavaTypeOf(jt: JavaType, rest: string)
    ensures ParseJavaType(Token(jt) + " " + rest) == Some((jt, rest))
  {
    var s := Token(jt) + " " + rest;
    if jt == Int {
      assert s[..4] == "int ";
      assert s[3] == ' ';
      assert !StartsWith(s, "int[] ");
    } else {
      assert s[..6] == "int[] ";
    }
  }

  lemma ParseJavaTypeShape(s: string)
    requires ParseJavaType(s).Some?
    ensures s == Token(ParseJavaType(s).value.0) + " " + ParseJavaType(s).value.1
  {
    if StartsWith(s, "int[] ") {
      assert s == s[..6] + s[6..];
    } else {
      assert s == s[..4] + s[4..];
    }
  }

  lemma ParseFieldsOf(jt: JavaType, t: string, n: string, rest: string)
    requires IsWord(t) && IsWord(n)
    ensures ParseFields(Token(jt) + " " + t + " " + n + " " + rest) == Some((jt, t, n, rest))
  {
    var r2 := n + " " + rest;
    var r1 := t + " " + r2;
    assert Token(jt) + " " + t + " " + n + " " + rest == Token(jt) + " " + r1;
    ParseJavaTypeOf(jt, r1);
    ParseWordOf(t, r2);
    ParseWordOf(n, rest);
  }

  lemma ParseFieldsShape(line: string)
    requires ParseFields(line).Some?
    ensures IsWord(ParseFields(line).value.1) && IsWord(ParseFields(line).value.2)
    ensures line == Token(ParseFields(line).value.0) + " " + ParseFields(line).value.1 + " " +
                    ParseFields(line).value.2 + " " + ParseFields(line).value.3
  {
    var jt := ParseJavaType(line).value.0;
    var r1 := ParseJavaType(line).value.1;
    ParseJavaTypeShape(line);
    var t := ParseWord(r1).value.0;
    var r2 := ParseWord(r1).value.1;
    ParseWordShape(r1);
    var n := ParseWord(r2).value.0;
    var r3 := ParseWord(r2).value.1;
    ParseWordShape(r2);
    assert ParseFields(line).value == (jt, t, n, r3);
    Regroup(Token(jt), t, n, r3);
  }

  lemma Regroup(a: string, b: string, c: string, d: string)
    ensures a + " " + (b + " " + (c + " " + d)) == a + " " + b + " " + c + " " + d
  {
  }

  /** A one-line value, with or without one final '\n', is taken verbatim. */
  lemma ParseValueOf(v: string, newline: bool)
    requires v != [] && '\n' !in v
    ensures ParseValue(v + (if newline then "\n" else "")) == Some(v)
  {
    var tail := v + (if newline then "\n" else "");
    if newline {
      assert tail[..|tail| - 1] == v;
    } else {
      assert tail == v;
      assert tail[|tail| - 1] in v;
    }
  }

  lemma ParseValueShape(rest: string)
    requires ParseValue(rest).Some?
    ensures ParseValue(rest).value != [] && '\n' !in ParseValue(rest).value
    ensures rest == ParseValue(rest).value || rest == ParseValue(rest).value + "\n"
  {
    if rest != [] && rest[|rest| - 1] == '\n' {
      assert rest == rest[..|rest| - 1] + "\n";
    }
  }

  /** A well-formed symbol's line, with or without one final '\n', is accepted and
      yields that symbol with its value verbatim. */
  lemma ParseBaseLineOf(s: Symbol, newline: bool)
    requires WellFormed(s)
    ensures ParseBaseLine(SymbolLine(s) + (if newline then "\n" else "")) == Some(s)
  {
    var nl := if newline then "\n" else "";
    var tail := s.value + nl;
    var head := Token(s.javaType) + " " + s.resType + " " + s.name + " ";
    assert SymbolLine(s) + nl == head + tail;
    ParseFieldsOf(s.javaType, s.resType, s.name, tail);
    ParseValueOf(s.value, newline);
  }

  /** An accepted base line is its symbol's line, with or without one final '\n', and
      the symbol is well formed. */
  lemma ParseBaseLineShape(line: string)
    requires ParseBaseLine(line).Some?
    ensures WellFormed(ParseBaseLine(line).value)
    ensures line == SymbolLine(ParseBaseLine(line).value) ||
            line == SymbolLine(ParseBaseLine(line).value) + "\n"
  {
    ParseFieldsShape(line);
    var f := ParseFields(line).value;
    var head := Token(f.0) + " " + f.1 + " " + f.2 + " ";
    assert line == head + f.3;
    ParseValueShape(f.3);
    var v := ParseValue(f.3).value;
    assert ParseBaseLine(line).value == Symbol(f.0, f.1, f.2, v);
    assert SymbolLine(Symbol(f.0, f.1, f.2, v)) == head + v;
    if f.3 != v {
      assert line == head + (v + "\n") == (head + v) + "\n";
    }
  }

  /** A line that starts with `int ` or `int[] `, a resource type, a name and a space is
      accepted as an own line for that key, whatever follows. */
  lemma ParseOwnLineOf(jt: JavaType, t: string, n: string, rest: string)
    requires IsWord(t) && IsWord(n)
    ensures ParseOwnLine(Token(jt) + " " + t + " " + n + " " + rest) == Some((t, n))
  {
    ParseFieldsOf(jt, t, n, rest);
  }

  /** An accepted own line is such a line: its java type and remainder are not looked at. */
  lemma ParseOwnLineShape(line: string)
    requires ParseOwnLine(line).Some?
    ensures IsWord(ParseOwnLine(line).value.0) && IsWord(ParseOwnLine(line).value.1)
    ensures exists jt: JavaType, rest: string ::
      line == Token(jt) + " " + ParseOwnLine(line).value.0 + " " + ParseOwnLine(line).value.1 + " " + rest
  {
    ParseFieldsShape(line);
  }

  /** Every accepted base line is also an accepted own line for the same key: a package's
      own R.txt is written by the same tool in the same format. */
  lemma BaseLineIsOwnLine(line: string)
    requires ParseBaseLine(line).Some?
    ensures ParseOwnLine(line) == Some(KeyOf(ParseBaseLine(line).value))
  {
  }

  // ---------------------------------------------------------------------------
  // The base table

  /** The dictionary `all_resources` after reading `lines`, or the error the read raises:
      the first line that does not match aborts, and a repeated key overwrites. */
  function TableOf(lines: seq<string>): Result<SymbolTable> {
    if lines == [] then Ok(map[])
    else
      match TableOf(lines[..|lines| - 1])
      case Err(e) => Err(e)
      case Ok(tbl) =>
        match ParseBaseLine(lines[|lines| - 1])
        case None => Err(MalformedLine(lines[|lines| - 1]))
        case Some(s) => Ok(tbl[KeyOf(s) := EntryOf(s)])
  }

  /** Reads the base R.txt line by line into a fresh table (lines 139-149). */
  method ParseSymbolTable(text: string) returns (r: Result<SymbolTable>)
    ensures r == TableOf(FileLines(text))
  {
    var lines := FileLines(text);
    var table: SymbolTable := map[];
    var i := 0;
    while i < |lines|
      invariant 0 <= i <= |lines|
      invariant TableOf(lines[..i]) == Ok(table)
    {
      var line := lines[i];
      assert lines[..i + 1][..i] == lines[..i];
      match ParseBaseLine(line)
      case None =>
        TableOfErrorSticks(lines, i + 1);
        return Err(MalformedLine(line));
      case Some(s) =>
        table := table[KeyOf(s) := EntryOf(s)];
      i := i + 1;
    }
    assert lines[..i] == lines;
    r := Ok(table);
  }

  /** Once reading has failed, later lines change nothing. */
  lemma {:induction false} TableOfErrorSticks(lines: seq<string>, k: nat)
    requires k <= |lines| && TableOf(lines[..k]).Err?
    ensures TableOf(lines) == TableOf(lines[..k])
    decreases |lines| - k
  {
    if k < |lines| {
      var init := lines[..|lines| - 1];
      assert init[..k] == lines[..k];
      TableOfErrorSticks(init, k);
    } else {
      assert lines[..k] == lines;
    }
  }

  /** Reading fails exactly at the first line that is not accepted. */
  lemma {:induction false} TableOfFirstError(lines: seq<string>, k: nat)
    requires k < |lines| && ParseBaseLine(lines[k]).None?
    requires forall j :: 0 <= j < k ==> ParseBaseLine(lines[j]).Some?
    ensures TableOf(lines) == Err(MalformedLine(lines[k]))
  {
    var pre := lines[..k];
    forall j | 0 <= j < |pre| ensures ParseBaseLine(pre[j]).Some? { assert pre[j] == lines[j]; }
    TableOfAllParsed(pre);
    assert lines[..k + 1][..k] == pre;
    TableOfErrorSticks(lines, k + 1);
  }

  predicate AllParsed(lines: seq<string>) {
    forall j :: 0 <= j < |lines| ==> ParseBaseLine(lines[j]).Some?
  }

  /** The symbols of lines that are all accepted. */
  function Symbols(lines: seq<string>): (syms: seq<Symbol>)
    requires AllParsed(lines)
    ensures |syms| == |lines|
  {
    seq(|lines|, j requires 0 <= j < |lines| => ParseBaseLine(lines[j]).value)
  }

  /** The table the loop builds from a list of symbols, later ones overwriting. */
  function Build(syms: seq<Symbol>): SymbolTable {
    if syms == [] then map[]
    else Build(syms[..|syms| - 1])[KeyOf(syms[|syms| - 1]) := EntryOf(syms[|syms| - 1])]
  }

  /** When every line is accepted, reading succeeds with the table built from the symbols. */
  lemma {:induction false} TableOfAllParsed(lines: seq<string>)
    requires AllParsed(lines)
    ensures TableOf(lines) == Ok(Build(Symbols(lines)))
  {
    if lines != [] {
      var init := lines[..|lines| - 1];
      assert AllParsed(init) by {
        forall j | 0 <= j < |init| ensures ParseBaseLine(init[j]).Some? { assert init[j] == lines[j]; }
      }
      TableOfAllParsed(init);
      assert Symbols(lines)[..|lines| - 1] == Symbols(init);
    }
  }

  /** The keys of the table are exactly the keys of the symbols read. */
  lemma {:induction false} BuildKeys(syms: seq<Symbol>, key: Key)
    ensures key in Build(syms) <==> exists j :: 0 <= j < |syms| && KeyOf(syms[j]) == key
  {
    if syms != [] {
      var init := syms[..|syms| - 1];
      BuildKeys(init, key);
      if exists j :: 0 <= j < |init| && KeyOf(init[j]) == key {
        var j :| 0 <= j < |init| && KeyOf(init[j]) == key;
        assert syms[j] == init[j];
      }
      if exists j :: 0 <= j < |syms| && KeyOf(syms[j]) == key {
        var j :| 0 <= j < |syms| && KeyOf(syms[j]) == key;
        if j < |init| { assert init[j] == syms[j]; }
      }
    }
  }

  /** A key holds the entry of the LAST symbol that carries it (line 149 overwrites). */
  lemma {:induction false} BuildLastWins(syms: seq<Symbol>, j: nat)
    requires j < |syms|
    requires forall l :: j < l < |syms| ==> KeyOf(syms[l]) != KeyOf(syms[j])
    ensures KeyOf(syms[j]) in Build(syms)
    ensures Build(syms)[KeyOf(syms[j])] == EntryOf(syms[j])
  {
    if j < |syms| - 1 {
      var init := syms[..|syms| - 1];
      assert init[j] == syms[j];
      forall l | j < l < |init| ensures KeyOf(init[l]) != KeyOf(init[j]) { assert init[l] == syms[l]; }
      BuildLastWins(init, j);
    }
  }

  /** Every key of the table is a pair of words and every value is non-empty and on one
      line: what the base grammar lets through. */
  predicate Tidy(tbl: SymbolTable) {
    forall k :: k in tbl ==> IsWord(k.0) && IsWord(k.1) && tbl[k].value != [] && '\n' !in tbl[k].value
  }

  lemma {:induction false} TableOfTidy(lines: seq<string>)
    requires TableOf(lines).Ok?
    ensures Tidy(TableOf(lines).value)
  {
    if lines != [] {
      var init := lines[..|lines| - 1];
      TableOfTidy(init);
      ParseBaseLineShape(lines[|lines| - 1]);
    }
  }
}
