/** The id rewrite that the generated `onResourcesLoaded(int packageId)` performs on every
    field of a shared-resources R.java: `(v & 0x00ffffff) | (packageId << 24)`, in Java's
    32-bit int arithmetic. Bitwise operators and `<<` act on the two's-complement bits, so
    a Java int is modelled by its 32 bits. */
module Patch {

  /** The rewritten id: the package byte replaced, the type and entry bytes kept. */
  function PatchId(v: bv32, packageId: bv32): (r: bv32)
    ensures r & 0x00ff_ffff == v & 0x00ff_ffff
    ensures r >> 24 == packageId & 0xff
  {
    var low, high := v & 0x00ff_ffff, packageId << 24;
    assert low & 0xff00_0000 == 0 && high & 0x00ff_ffff == 0;
    low | high
  }

  /** For a package id that fits in a byte, the top byte of the result is that id. */
  lemma PatchIdTopByte(v: bv32, packageId: bv32)
    requires packageId < 256
    ensures PatchId(v, packageId) >> 24 == packageId
    ensures PatchId(v, packageId) == (packageId << 24) | (v & 0x00ff_ffff)
  {
  }

  /** Only the last rewrite counts; in particular rewriting twice with the same id is
      rewriting once, which is what a field listed twice gets. */
  lemma PatchIdLastWins(v: bv32, p: bv32, q: bv32)
    ensures PatchId(PatchId(v, p), q) == PatchId(v, q)
  {
  }

  lemma PatchIdIdempotent(v: bv32, p: bv32)
    ensures PatchId(PatchId(v, p), p) == PatchId(v, p)
  {
    PatchIdLastWins(v, p, p);
  }

  /** The rewrite applied to every element of an `int[]` field. */
  function PatchAll(vs: seq<bv32>, packageId: bv32): (r: seq<bv32>)
    ensures |r| == |vs|
    ensures forall i :: 0 <= i < |vs| ==> r[i] == PatchId(vs[i], packageId)
  {
    if vs == [] then [] else [PatchId(vs[0], packageId)] + PatchAll(vs[1..], packageId)
  }

  lemma {:induction false} PatchAllLastWins(vs: seq<bv32>, p: bv32, q: bv32)
    ensures PatchAll(PatchAll(vs, p), q) == PatchAll(vs, q)
  {
    if vs != [] {
      PatchIdLastWins(vs[0], p, q);
      PatchAllLastWins(vs[1..], p, q);
    }
  }

  /** The generated loop over an `int[]` field (process_resources.py lines 196-200):
      `for (int i = 0; i < a.length; ++i) a[i] = (a[i] & 0x00ffffff) | (packageId << 24);` */
  method PatchArray(a: array<bv32>, packageId: bv32)
    modifies a
    ensures a[..] == PatchAll(old(a[..]), packageId)
  {
    ghost var orig := a[..];
    for i := 0 to a.Length
      invariant forall j :: 0 <= j < i ==> a[j] == PatchId(orig[j], packageId)
      invariant forall j :: i <= j < a.Length ==> a[j] == orig[j]
    {
      a[i] := PatchId(a[i], packageId);
    }
  }

  /** A field's value at run time: an `int` or the contents of an `int[]`. */
  datatype IdValue = Scalar(id: bv32) | Array(ids: seq<bv32>)

  /** One generated statement of `onResourcesLoaded` applied to a field's value: the
      scalar assignment (lines 202-204) or the element loop (lines 196-200). */
  function PatchValue(x: IdValue, packageId: bv32): (r: IdValue)
    ensures r.Scalar? <==> x.Scalar?
    ensures r.Scalar? ==> r.id == PatchId(x.id, packageId)
    ensures r.Array? ==> |r.ids| == |x.ids|
    ensures r.Array? ==> forall i :: 0 <= i < |x.ids| ==> r.ids[i] == PatchId(x.ids[i], packageId)
  {
    match x
    case Scalar(v) => Scalar(PatchId(v, packageId))
    case Array(vs) => Array(PatchAll(vs, packageId))
  }

  lemma PatchValueLastWins(x: IdValue, p: bv32, q: bv32)
    ensures PatchValue(PatchValue(x, p), q) == PatchValue(x, q)
  {
    match x
    case Scalar(v) => PatchIdLastWins(v, p, q);
    case Array(vs) => PatchAllLastWins(vs, p, q);
  }

  /** The worked examples: an `int` field 0x00010203 loaded into package 0x7f becomes
      0x7f010203, and an `int[]` field {1, 0x00ffffff} becomes {0x7f000001, 0x7fffffff}. */
  lemma PatchExamples()
    ensures PatchValue(Scalar(0x0001_0203), 0x7f) == Scalar(0x7f01_0203)
    ensures PatchValue(Array([1, 0x00ff_ffff]), 0x7f) == Array([0x7f00_0001, 0x7fff_ffff])
  {
    assert [1 as bv32, 0x00ff_ffff][1..] == [0x00ff_ffff];
  }
}
