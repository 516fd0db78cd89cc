/** The two helpers that judge the output of `aapt crunch` (process_resources.py lines
    249-268): a filter that drops the known harmless libpng warning from stderr, and the
    failure test applied to the return code and what is left of stderr. */
module Crunch {
  import opened Text

  /** The warning libpng prints for an edited sRGB profile; it is not an error. */
  const KnownWarning := "libpng " + "warning: " + "iCCP: " + "Not " + "recognizing " + "known " + "sRGB " +
    "profile " + "that has " + "been " + "edited"

  /** The lines of `ls` that do not hold the warning, in order. */
  function Kept(ls: seq<string>): (r: seq<string>)
    ensures |r| <= |ls|
    ensures forall k :: 0 <= k < |r| ==> r[k] in ls && !Has(r[k], KnownWarning)
  {
    if ls == [] then []
    else
      var last := ls[|ls| - 1];
      Kept(ls[..|ls| - 1]) + if Has(last, KnownWarning) then [] else [last]
  }

  /** What FilterCrunchStderr returns for `stderr`. */
  function Filtered(stderr: string): string {
    Concat(Kept(SplitLinesKeepEnds(stderr)))
  }

  /** FilterCrunchStderr (lines 249-259): `stderr.splitlines(True)` walked in order, each
      line without the warning appended to `filtered_lines`, which is then joined. */
  method FilterCrunchStderr(stderr: string) returns (r: string)
    ensures r == Filtered(stderr)
  {
    var lines := SplitLinesKeepEnds(stderr);
    var filteredLines: seq<string> := [];
    for i := 0 to |lines|
      invariant filteredLines == Kept(lines[..i])
    {
      var line := lines[i];
      assert lines[..i + 1][..i] == lines[..i];
      if Has(line, KnownWarning) {
        continue;
      }
      filteredLines := filteredLines + [line];
    }
    assert lines[..|lines|] == lines;
    r := Concat(filteredLines);
  }

  /** DidCrunchFail (lines 262-268): `returncode != 0 or stderr`, taken as a truth value;
      aapt's return code is not trusted, so any stderr output is a failure. */
  function DidCrunchFail(returncode: int, stderr: string): (r: bool)
    ensures !r <==> returncode == 0 && |stderr| == 0
  {
    returncode != 0 || stderr != []
  }

  // ---------------------------------------------------------------------------
  // Properties of the filter

  /** Exactly the lines holding the warning are dropped: every line without it is kept. */
  lemma {:induction false} KeptOthers(ls: seq<string>, k: nat)
    requires k < |ls| && !Has(ls[k], KnownWarning)
    ensures ls[k] in Kept(ls)
  {
    var init := ls[..|ls| - 1];
    if k < |init| {
      assert init[k] == ls[k];
      KeptOthers(init, k);
    }
  }

  /** When no line holds the warning, every line is kept. */
  lemma {:induction false} KeptAll(ls: seq<string>)
    requires forall k :: 0 <= k < |ls| ==> !Has(ls[k], KnownWarning)
    ensures Kept(ls) == ls
  {
    if ls != [] {
      var init := ls[..|ls| - 1];
      KeptAll(init);
      assert init + [ls[|ls| - 1]] == ls;
    }
  }

  /** A line break is not part of the warning, so the warning never spans two lines. */
  lemma BreakNotInWarning(c: char)
    requires IsLineBreak(c)
    ensures c !in KnownWarning
  {
    NewlineNotInWarning();
    ReturnNotInWarning();
  }

  lemma NewlineNotInWarning()
    ensures '\n' !in KnownWarning
  {
  }

  lemma ReturnNotInWarning()
    ensures '\r' !in KnownWarning
  {
  }

  /** Only the last line of a split may lack its line break, and it stays last. */
  lemma {:induction false} KeptTerminated(ls: seq<string>)
    requires Terminated(ls)
    ensures Terminated(Kept(ls))
  {
    if ls != [] {
      var init := ls[..|ls| - 1];
      assert Terminated(init) by {
        forall k | 0 <= k < |init| - 1 ensures init[k] != [] && IsLineBreak(init[k][|init[k]| - 1]) {
          assert init[k] == ls[k];
        }
      }
      KeptTerminated(init);
      var r := Kept(init);
      if r != [] {
        var x := r[|r| - 1];
        assert x in init;
        var j :| 0 <= j < |init| && init[j] == x;
        assert ls[j] == x;
      }
    }
  }

  /** Joining terminated lines none of which holds the warning does not create it. */
  lemma {:induction false} ConcatNoWarning(ls: seq<string>)
    requires Terminated(ls)
    requires forall k :: 0 <= k < |ls| ==> !Has(ls[k], KnownWarning)
    ensures !Has(Concat(ls), KnownWarning)
  {
    if ls == [] {
      assert !StartsWith(Concat(ls)[0..], KnownWarning);
    } else if |ls| == 1 {
      assert Concat(ls) == ls[0] + Concat([]);
      assert Concat(ls) == ls[0];
    } else {
      var rest := ls[1..];
      assert Terminated(rest) by {
        forall k | 0 <= k < |rest| - 1 ensures rest[k] != [] && IsLineBreak(rest[k][|rest[k]| - 1]) {
          assert rest[k] == ls[k + 1];
        }
      }
      assert forall k :: 0 <= k < |rest| ==> rest[k] == ls[k + 1];
      ConcatNoWarning(rest);
      BreakNotInWarning(ls[0][|ls[0]| - 1]);
      HasNotConcat(ls[0], Concat(rest), KnownWarning);
    }
  }

  /** The filtered text does not hold the warning anywhere. */
  lemma FilteredHasNoWarning(stderr: string)
    ensures !Has(Filtered(stderr), KnownWarning)
  {
    var ls := SplitLinesKeepEnds(stderr);
    SplitLinesShape(stderr);
    KeptTerminated(ls);
    ConcatNoWarning(Kept(ls));
  }

  /** Text without the warning passes through unchanged. */
  lemma FilterUnchanged(stderr: string)
    requires !Has(stderr, KnownWarning)
    ensures Filtered(stderr) == stderr
  {
    var ls := SplitLinesKeepEnds(stderr);
    forall k | 0 <= k < |ls| ensures !Has(ls[k], KnownWarning) {
      if Has(ls[k], KnownWarning) {
        SplitLinesHas(stderr, KnownWarning, k);
      }
    }
    KeptAll(ls);
    SplitLinesShape(stderr);
  }

  /** Filtering twice is filtering once. */
  lemma FilterIdempotent(stderr: string)
    ensures Filtered(Filtered(stderr)) == Filtered(stderr)
  {
    FilteredHasNoWarning(stderr);
    FilterUnchanged(Filtered(stderr));
  }

  /** A crunch run is judged failed on its filtered stderr exactly when it exits non-zero
      or some line of its stderr is not the known warning. */
  lemma CrunchFailsOnOtherOutput(returncode: int, stderr: string)
    ensures DidCrunchFail(returncode, Filtered(stderr)) <==>
      returncode != 0 || exists k :: 0 <= k < |SplitLinesKeepEnds(stderr)| && !Has(SplitLinesKeepEnds(stderr)[k], KnownWarning)
  {
    var ls := SplitLinesKeepEnds(stderr);
    SplitLinesShape(stderr);
    if exists k :: 0 <= k < |ls| && !Has(ls[k], KnownWarning) {
      var k :| 0 <= k < |ls| && !Has(ls[k], KnownWarning);
      KeptOthers(ls, k);
      ConcatHolds(Kept(ls), ls[k]);
    } else {
      KeptNone(ls);
    }
  }

  /** A non-empty line kept makes the joined text non-empty. */
  lemma {:induction false} ConcatHolds(ls: seq<string>, x: string)
    requires x in ls && x != []
    ensures Concat(ls) != []
  {
    if ls[0] == [] {
      ConcatHolds(ls[1..], x);
    }
  }

  /** When every line holds the warning, none is kept. */
  lemma {:induction false} KeptNone(ls: seq<string>)
    requires forall k :: 0 <= k < |ls| ==> Has(ls[k], KnownWarning)
    ensures Kept(ls) == []
  {
    if ls != [] {
      var init := ls[..|ls| - 1];
      assert forall k :: 0 <= k < |init| ==> init[k] == ls[k];
      KeptNone(init);
    }
  }
}
