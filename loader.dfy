/** What the generated `onResourcesLoaded(int packageId)` does when it runs
    (process_resources.py lines 191-209): each of its statements rewrites one field of
    the nested classes of R with the id patch. A field listed twice in a package's own
    R.txt is declared twice and patched twice; since the patch is idempotent the net
    effect is one patch per field. */
module Loader {
  import opened RTxt
  import opened Resolve
  import opened Patch
  import opened RJava

  /** The static fields of class R at run time, by (resource type, name). */
  type Fields = map<Key, IdValue>

  function TargetKey(x: Target): Key {
    (x.resType, x.name)
  }

  /** One patch statement: the field it names gets its ids moved into `packageId`. */
  function Step(fields: Fields, x: Target, packageId: bv32): (r: Fields)
    ensures r.Keys == fields.Keys
    ensures forall k :: k in fields && k != TargetKey(x) ==> r[k] == fields[k]
    ensures TargetKey(x) in fields ==> r[TargetKey(x)] == PatchValue(fields[TargetKey(x)], packageId)
  {
    var k := TargetKey(x);
    if k in fields then fields[k := PatchValue(fields[k], packageId)] else fields
  }

  /** The statements run in order. */
  function Run(fields: Fields, ts: seq<Target>, packageId: bv32): (r: Fields)
    ensures r.Keys == fields.Keys
  {
    if ts == [] then fields
    else Step(Run(fields, ts[..|ts| - 1], packageId), ts[|ts| - 1], packageId)
  }

  function TargetKeys(ts: seq<Target>): set<Key> {
    set i | 0 <= i < |ts| :: TargetKey(ts[i])
  }

  /** Running the statements patches every field they name exactly once, however often
      it is named, and leaves every other field as it was. */
  lemma {:induction false} RunPatchesOnce(fields: Fields, ts: seq<Target>, packageId: bv32)
    ensures forall k :: k in fields ==>
      Run(fields, ts, packageId)[k] == if k in TargetKeys(ts) then PatchValue(fields[k], packageId) else fields[k]
  {
    if ts != [] {
      var init := ts[..|ts| - 1];
      var x := ts[|ts| - 1];
      RunPatchesOnce(fields, init, packageId);
      assert TargetKeys(ts) == TargetKeys(init) + {TargetKey(x)} by {
        assert forall i :: 0 <= i < |init| ==> init[i] == ts[i];
      }
      var k := TargetKey(x);
      if k in fields && k in TargetKeys(init) {
        PatchValueLastWins(fields[k], packageId, packageId);
      }
    }
  }

  function DeclKeys(ds: seq<Decl>): set<Key> {
    set i | 0 <= i < |ds| :: (ds[i].resType, ds[i].name)
  }

  /** Loading a shared-resources R.java into package `packageId` moves exactly the fields
      the file declares into that package: each is patched once, and nothing else changes. */
  lemma LoadPatchesDeclaredFields(pkg: string, res: Resources, fields: Fields, packageId: bv32)
    requires Printable(res.order, res.groups)
    ensures ReadFile(Render(pkg, res, true)).loaders == 1
    ensures forall k :: k in fields ==>
      Run(fields, ReadFile(Render(pkg, res, true)).targets, packageId)[k] ==
        if k in DeclKeys(ReadFile(Render(pkg, res, true)).decls) then PatchValue(fields[k], packageId) else fields[k]
  {
    RenderRead(pkg, res, true);
    RunDeclared(fields, Flatten(res.order, res.groups), packageId);
  }

  lemma RunDeclared(fields: Fields, es: seq<Resolved>, packageId: bv32)
    ensures forall k :: k in fields ==>
      Run(fields, Targets(es), packageId)[k] ==
        if k in DeclKeys(Decls(es, false)) then PatchValue(fields[k], packageId) else fields[k]
  {
    RunPatchesOnce(fields, Targets(es), packageId);
    SameKeys(es, false);
  }

  /** The patch statements name exactly the declared fields. */
  lemma SameKeys(es: seq<Resolved>, isFinal: bool)
    ensures TargetKeys(Targets(es)) == DeclKeys(Decls(es, isFinal))
  {
    var ts, ds := Targets(es), Decls(es, isFinal);
    forall k | k in TargetKeys(ts) ensures k in DeclKeys(ds) {
      var i :| 0 <= i < |es| && TargetKey(ts[i]) == k;
      assert (ds[i].resType, ds[i].name) == k;
    }
    forall k | k in DeclKeys(ds) ensures k in TargetKeys(ts) {
      var i :| 0 <= i < |es| && (ds[i].resType, ds[i].name) == k;
      assert TargetKey(ts[i]) == k;
    }
  }
}
