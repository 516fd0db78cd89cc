/** CreateExtraRJavaFile's first half: every line of a package's own R.txt names a
    `(resource type, name)` pair that is looked up in the base table, and the resolved
    fields are appended, in file order, to a list per resource type. */
module Resolve {
  import opened Text
  import opened RTxt

  /** One field of the generated class: `(name, java_type, value)`. */
  datatype Field = Field(name: string, javaType: JavaType, value: string)

  /** A resolved own-list line: the field and the resource type it belongs to. */
  datatype Resolved = Resolved(resType: string, field: Field)

  /** The dictionary `resources` (resource type to its list of fields), together with an
      enumeration of its keys: the order in which the generated classes appear. */
  datatype Resources = Resources(order: seq<string>, groups: map<string, seq<Field>>)

  /** One own-list line: the key must match (line 166) and be in the base table (line 170);
      the java type and value always come from the base table. */
  function ResolveLine(line: string, tbl: SymbolTable): Result<Resolved> {
    match ParseOwnLine(line)
    case None => Err(MalformedLine(line))
    case Some((t, n)) =>
      if (t, n) in tbl then Ok(Resolved(t, Field(n, tbl[(t, n)].javaType, tbl[(t, n)].value)))
      else Err(UnresolvedSymbol(t, n))
  }

  /** Each own line's resolution, in line order. */
  function Results(lines: seq<string>, tbl: SymbolTable): (rs: seq<Result<Resolved>>)
    ensures |rs| == |lines|
  {
    seq(|lines|, j requires 0 <= j < |lines| => ResolveLine(lines[j], tbl))
  }

  /** The entries of a run of results, or the first error among them. */
  function Gather(rs: seq<Result<Resolved>>): Result<seq<Resolved>> {
    if rs == [] then Ok([])
    else
      match Gather(rs[..|rs| - 1])
      case Err(e) => Err(e)
      case Ok(es) =>
        match rs[|rs| - 1]
        case Err(e) => Err(e)
        case Ok(r) => Ok(es + [r])
  }

  /** All lines resolved in order, or the error of the first line that fails. */
  function ResolveAll(lines: seq<string>, tbl: SymbolTable): Result<seq<Resolved>> {
    Gather(Results(lines, tbl))
  }

  /** The fields listed under `t`, or none. */
  function FieldsOf(groups: map<string, seq<Field>>, t: string): seq<Field> {
    if t in groups then groups[t] else []
  }

  /** The dictionary after appending every resolved line to its type's list (lines 171-173). */
  function Group(es: seq<Resolved>): map<string, seq<Field>> {
    if es == [] then map[]
    else
      var g := Group(es[..|es| - 1]);
      var e := es[|es| - 1];
      g[e.resType := FieldsOf(g, e.resType) + [e.field]]
  }

  /** The resource types in the order they are first met. */
  function FirstSeen(es: seq<Resolved>): seq<string> {
    if es == [] then []
    else
      var o := FirstSeen(es[..|es| - 1]);
      var t := es[|es| - 1].resType;
      if t in o then o else o + [t]
  }

  function ResourcesOf(lines: seq<string>, tbl: SymbolTable): Result<Resources> {
    match ResolveAll(lines, tbl)
    case Err(e) => Err(e)
    case Ok(es) => Ok(Resources(FirstSeen(es), Group(es)))
  }

  /** Reads a package's own R.txt and groups its resolved fields (lines 163-173). */
  method ResolvePackage(text: string, tbl: SymbolTable) returns (r: Result<Resources>)
    ensures r == ResourcesOf(FileLines(text), tbl)
  {
    var lines := FileLines(text);
    var groups: map<string, seq<Field>> := map[];
    var order: seq<string> := [];
    ghost var es: seq<Resolved> := [];
    var i := 0;
    while i < |lines|
      invariant 0 <= i <= |lines|
      invariant ResolveAll(lines[..i], tbl) == Ok(es)
      invariant groups == Group(es) && order == FirstSeen(es)
      invariant forall t :: t in groups <==> t in order
    {
      match ResolveLine(lines[i], tbl)
      case Err(e) =>
        ResolveStepFails(lines, tbl, i, es);
        return Err(e);
      case Ok(res) =>
        var t := res.resType;
        ResolveStep(lines, tbl, i, es, res);
        ghost var g0 := groups;
        if t !in groups {
          groups := groups[t := []];
          order := order + [t];
          UpdateTwice(g0, t, [], [res.field]);
        }
        groups := groups[t := groups[t] + [res.field]];
        es := es + [res];
        assert ResolveAll(lines[..i + 1], tbl) == Ok(es);
        assert groups == Group(es);
        assert order == FirstSeen(es);
      i := i + 1;
    }
    assert lines[..i] == lines;
    r := Ok(Resources(order, groups));
  }

  lemma ResultsPrefix(lines: seq<string>, tbl: SymbolTable, k: nat)
    requires k <= |lines|
    ensures Results(lines[..k], tbl) == Results(lines, tbl)[..k]
  {
  }

  /** One more resolved line extends the entries, the dictionary and the class order. */
  lemma ResolveStep(lines: seq<string>, tbl: SymbolTable, i: nat, es: seq<Resolved>, res: Resolved)
    requires i < |lines| && ResolveAll(lines[..i], tbl) == Ok(es) && ResolveLine(lines[i], tbl) == Ok(res)
    ensures ResolveAll(lines[..i + 1], tbl) == Ok(es + [res])
    ensures Group(es + [res]) == Group(es)[res.resType := FieldsOf(Group(es), res.resType) + [res.field]]
    ensures FirstSeen(es + [res]) == if res.resType in FirstSeen(es) then FirstSeen(es) else FirstSeen(es) + [res.resType]
  {
    var rs := Results(lines[..i + 1], tbl);
    ResultsPrefix(lines, tbl, i);
    ResultsPrefix(lines, tbl, i + 1);
    assert rs[..|rs| - 1] == Results(lines[..i], tbl);
    assert rs[|rs| - 1] == Ok(res);
    EntriesSnoc(es, res);
  }

  lemma EntriesSnoc(es: seq<Resolved>, res: Resolved)
    ensures Group(es + [res]) == Group(es)[res.resType := FieldsOf(Group(es), res.resType) + [res.field]]
    ensures FirstSeen(es + [res]) == if res.resType in FirstSeen(es) then FirstSeen(es) else FirstSeen(es) + [res.resType]
  {
    var xs := es + [res];
    assert xs[..|xs| - 1] == es && xs[|xs| - 1] == res;
  }

  /** A line that does not resolve ends the whole resolution with its error. */
  lemma ResolveStepFails(lines: seq<string>, tbl: SymbolTable, i: nat, es: seq<Resolved>)
    requires i < |lines| && ResolveAll(lines[..i], tbl) == Ok(es) && ResolveLine(lines[i], tbl).Err?
    ensures ResolveAll(lines, tbl) == Err(ResolveLine(lines[i], tbl).error)
  {
    var rs := Results(lines[..i + 1], tbl);
    ResultsPrefix(lines, tbl, i);
    ResultsPrefix(lines, tbl, i + 1);
    assert rs[..|rs| - 1] == Results(lines[..i], tbl);
    assert rs[|rs| - 1] == ResolveLine(lines[i], tbl);
    ResolveAllErrorSticks(lines, tbl, i + 1);
  }

  lemma UpdateTwice(m: map<string, seq<Field>>, k: string, a: seq<Field>, b: seq<Field>)
    ensures m[k := a][k := a + b] == m[k := a + b]
  {
  }

  // ---------------------------------------------------------------------------
  // Resolution

  /** An own line's java type and trailing text are ignored: whatever they are, the line
      resolves to the base table's entry for its key, or fails with that key. */
  lemma OwnTypeAndValueIgnored(tbl: SymbolTable, t: string, n: string, jt: JavaType, rest: string)
    requires IsWord(t) && IsWord(n)
    ensures ResolveLine(Token(jt) + " " + t + " " + n + " " + rest, tbl) ==
      if (t, n) in tbl then Ok(Resolved(t, Field(n, tbl[(t, n)].javaType, tbl[(t, n)].value)))
      else Err(UnresolvedSymbol(t, n))
  {
    ParseOwnLineOf(jt, t, n, rest);
  }

  lemma ResolveAllErrorSticks(lines: seq<string>, tbl: SymbolTable, k: nat)
    requires k <= |lines| && ResolveAll(lines[..k], tbl).Err?
    ensures ResolveAll(lines, tbl) == ResolveAll(lines[..k], tbl)
  {
    ResultsPrefix(lines, tbl, k);
    GatherErrorSticks(Results(lines, tbl), k);
  }

  /** Once a run has failed, later results change nothing. */
  lemma {:induction false} GatherErrorSticks(rs: seq<Result<Resolved>>, k: nat)
    requires k <= |rs| && Gather(rs[..k]).Err?
    ensures Gather(rs) == Gather(rs[..k])
    decreases |rs| - k
  {
    if k < |rs| {
      var init := rs[..|rs| - 1];
      assert init[..k] == rs[..k];
      GatherErrorSticks(init, k);
    } else {
      assert rs[..k] == rs;
    }
  }

  /** Resolution succeeds exactly when every line resolves, and then yields one entry per
      line, in line order. */
  lemma ResolveAllOk(lines: seq<string>, tbl: SymbolTable)
    ensures ResolveAll(lines, tbl).Ok? <==> forall j :: 0 <= j < |lines| ==> ResolveLine(lines[j], tbl).Ok?
    ensures ResolveAll(lines, tbl).Ok? ==>
      |ResolveAll(lines, tbl).value| == |lines| &&
      forall j :: 0 <= j < |lines| ==> ResolveLine(lines[j], tbl) == Ok(ResolveAll(lines, tbl).value[j])
  {
    var rs := Results(lines, tbl);
    GatherOk(rs);
    assert forall j :: 0 <= j < |lines| ==> rs[j] == ResolveLine(lines[j], tbl);
  }

  lemma {:induction false} GatherOk(rs: seq<Result<Resolved>>)
    ensures Gather(rs).Ok? <==> forall j :: 0 <= j < |rs| ==> rs[j].Ok?
    ensures Gather(rs).Ok? ==> |Gather(rs).value| == |rs| && forall j :: 0 <= j < |rs| ==> rs[j] == Ok(Gather(rs).value[j])
  {
    if rs != [] {
      var init := rs[..|rs| - 1];
      GatherOk(init);
      assert forall j :: 0 <= j < |init| ==> init[j] == rs[j];
    }
  }

  /** An entry as the grammar produces it: type and name are words, the value one line. */
  predicate TidyEntry(e: Resolved) {
    IsWord(e.resType) && IsWord(e.field.name) && '\n' !in e.field.value
  }

  lemma ResolveLineTidy(line: string, tbl: SymbolTable)
    requires Tidy(tbl) && ResolveLine(line, tbl).Ok?
    ensures TidyEntry(ResolveLine(line, tbl).value)
  {
    ParseOwnLineShape(line);
  }

  /** Every entry resolved against a tidy table is tidy. */
  lemma ResolveAllTidy(lines: seq<string>, tbl: SymbolTable)
    requires Tidy(tbl) && ResolveAll(lines, tbl).Ok?
    ensures forall j :: 0 <= j < |ResolveAll(lines, tbl).value| ==> TidyEntry(ResolveAll(lines, tbl).value[j])
  {
    ResolveAllOk(lines, tbl);
    forall j | 0 <= j < |lines| ensures TidyEntry(ResolveAll(lines, tbl).value[j]) {
      ResolveLineTidy(lines[j], tbl);
    }
  }

  /** When resolution fails, it fails with the error of the first line that does not resolve. */
  lemma ResolveAllFirstError(lines: seq<string>, tbl: SymbolTable, k: nat)
    requires k < |lines| && ResolveLine(lines[k], tbl).Err?
    requires forall j :: 0 <= j < k ==> ResolveLine(lines[j], tbl).Ok?
    ensures ResolveAll(lines, tbl) == Err(ResolveLine(lines[k], tbl).error)
  {
    var pre := lines[..k];
    forall j | 0 <= j < |pre| ensures ResolveLine(pre[j], tbl).Ok? { assert pre[j] == lines[j]; }
    ResolveAllOk(pre, tbl);
    ResolveStepFails(lines, tbl, k, ResolveAll(pre, tbl).value);
  }

  // ---------------------------------------------------------------------------
  // Grouping

  /** The fields of type `t`, in order: the reference meaning of one list of the dictionary. */
  function Select(es: seq<Resolved>, t: string): seq<Field> {
    if es == [] then []
    else Select(es[..|es| - 1], t) + (if es[|es| - 1].resType == t then [es[|es| - 1].field] else [])
  }

  /** Every field of type `t` comes from an entry of that type. */
  lemma {:induction false} SelectFrom(es: seq<Resolved>, t: string, i: nat)
    requires i < |Select(es, t)|
    ensures exists j :: 0 <= j < |es| && es[j] == Resolved(t, Select(es, t)[i])
  {
    var init := es[..|es| - 1];
    var e := es[|es| - 1];
    if i < |Select(init, t)| {
      SelectFrom(init, t, i);
      var j :| 0 <= j < |init| && init[j] == Resolved(t, Select(init, t)[i]);
      assert es[j] == init[j];
    } else {
      assert es[|es| - 1] == Resolved(t, Select(es, t)[i]);
    }
  }

  function TypesOf(es: seq<Resolved>): set<string> {
    set e | e in es :: e.resType
  }

  /** The dictionary has a list exactly for the types that occur, and each list holds the
      fields of that type in line order, duplicates kept. */
  lemma {:induction false} GroupIsSelect(es: seq<Resolved>)
    ensures Group(es).Keys == TypesOf(es)
    ensures forall t :: FieldsOf(Group(es), t) == Select(es, t)
  {
    if es != [] {
      var init := es[..|es| - 1];
      var e := es[|es| - 1];
      GroupIsSelect(init);
      assert es == init + [e];
      assert TypesOf(es) == TypesOf(init) + {e.resType};
    }
  }

  /** The class order lists every type once. */
  lemma {:induction false} FirstSeenEnumerates(es: seq<Resolved>)
    ensures Distinct(FirstSeen(es))
    ensures forall t :: t in FirstSeen(es) <==> t in TypesOf(es)
  {
    if es != [] {
      var init := es[..|es| - 1];
      FirstSeenEnumerates(init);
      assert es == init + [es[|es| - 1]];
      assert TypesOf(es) == TypesOf(init) + {es[|es| - 1].resType};
    }
  }

  predicate Distinct(xs: seq<string>) {
    forall i, j :: 0 <= i < j < |xs| ==> xs[i] != xs[j]
  }

  /** The fields of `t` as resolved entries. */
  function Tagged(t: string, fs: seq<Field>): (r: seq<Resolved>)
    ensures |r| == |fs|
  {
    if fs == [] then [] else [Resolved(t, fs[0])] + Tagged(t, fs[1..])
  }

  /** The entries class by class in the given order, as the generated file lists them. */
  function Flatten(order: seq<string>, groups: map<string, seq<Field>>): seq<Resolved> {
    if order == [] then [] else Tagged(order[0], FieldsOf(groups, order[0])) + Flatten(order[1..], groups)
  }

  lemma {:induction false} TaggedSnoc(t: string, fs: seq<Field>, f: Field)
    ensures Tagged(t, fs + [f]) == Tagged(t, fs) + [Resolved(t, f)]
  {
    if fs != [] {
      assert (fs + [f])[1..] == fs[1..] + [f];
      TaggedSnoc(t, fs[1..], f);
    }
  }

  lemma {:induction false} FlattenUpdate(order: seq<string>, g: map<string, seq<Field>>, t: string, f: Field)
    requires Distinct(order) && t in order
    ensures multiset(Flatten(order, g[t := FieldsOf(g, t) + [f]])) ==
            multiset(Flatten(order, g)) + multiset{Resolved(t, f)}
  {
    if order[0] == t {
      FlattenUpdateHead(order, g, t, f);
    } else {
      var g' := g[t := FieldsOf(g, t) + [f]];
      var rest := order[1..];
      DistinctTail(order);
      InTail(order, t);
      FlattenUpdate(rest, g, t, f);
      var head := Tagged(order[0], FieldsOf(g, order[0]));
      assert Flatten(order, g') == head + Flatten(rest, g');
      assert Flatten(order, g) == head + Flatten(rest, g);
      assert multiset(Flatten(order, g')) == multiset(head) + multiset(Flatten(rest, g'));
    }
  }

  lemma InTail(order: seq<string>, t: string)
    requires t in order && order[0] != t
    ensures t in order[1..]
  {
    var j :| 0 <= j < |order| && order[j] == t;
    assert order[1..][j - 1] == t;
  }

  lemma DistinctTail(order: seq<string>)
    requires Distinct(order) && order != []
    ensures Distinct(order[1..]) && order[0] !in order[1..]
  {
    var rest := order[1..];
    forall i, j | 0 <= i < j < |rest| ensures rest[i] != rest[j] { assert rest[i] == order[i + 1]; }
    forall j | 0 <= j < |rest| ensures rest[j] != order[0] { assert rest[j] == order[j + 1]; }
  }

  lemma FlattenUpdateHead(order: seq<string>, g: map<string, seq<Field>>, t: string, f: Field)
    requires Distinct(order) && order != [] && order[0] == t
    ensures multiset(Flatten(order, g[t := FieldsOf(g, t) + [f]])) ==
            multiset(Flatten(order, g)) + multiset{Resolved(t, f)}
  {
    var g' := g[t := FieldsOf(g, t) + [f]];
    var rest := order[1..];
    DistinctTail(order);
    TaggedSnoc(t, FieldsOf(g, t), f);
    FlattenSame(rest, g, g', t);
    calc {
      multiset(Flatten(order, g'));
      multiset(Tagged(t, FieldsOf(g, t)) + [Resolved(t, f)] + Flatten(rest, g));
      multiset(Tagged(t, FieldsOf(g, t))) + multiset{Resolved(t, f)} + multiset(Flatten(rest, g));
      multiset(Flatten(order, g)) + multiset{Resolved(t, f)};
    }
  }

  lemma {:induction false} FlattenSame(order: seq<string>, g: map<string, seq<Field>>, g': map<string, seq<Field>>, t: string)
    requires t !in order
    requires forall u :: u != t ==> FieldsOf(g, u) == FieldsOf(g', u)
    ensures Flatten(order, g) == Flatten(order, g')
  {
    if order != [] {
      FlattenSame(order[1..], g, g', t);
    }
  }

  /** Listing the dictionary class by class, in ANY order that names each of its types once,
      gives back exactly the resolved lines: one field per own-list line, none lost and none
      merged. */
  lemma {:induction false} FlattenIsPermutation(es: seq<Resolved>, order: seq<string>)
    requires Distinct(order)
    requires forall t :: t in TypesOf(es) ==> t in order
    ensures multiset(Flatten(order, Group(es))) == multiset(es)
  {
    if es == [] {
      FlattenEmpty(order);
    } else {
      var init := es[..|es| - 1];
      var e := es[|es| - 1];
      assert es == init + [e];
      assert TypesOf(es) == TypesOf(init) + {e.resType};
      FlattenIsPermutation(init, order);
      FlattenUpdate(order, Group(init), e.resType, e.field);
    }
  }

  lemma {:induction false} FlattenEmpty(order: seq<string>)
    ensures Flatten(order, map[]) == []
  {
    if order != [] { FlattenEmpty(order[1..]); }
  }
}
