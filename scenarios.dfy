/** The scenarios of the repository's unit tests (test-qs.cpp), stated
    against the model: the two history tests and the solver's concrete
    cases. The solver test targets a later six-argument signature with an
    "all reals" flag; only the two outputs are compared here. */
module Scenarios {

  import opened Wrappers
  import opened CommandHistory
  import opened QuadricSolver

  /** A freshly constructed, fully allocated ring recalls nothing at any
      offset. */
  method FreshRingRecallsNothing(n: nat) returns (r: Option<string>)
    ensures r == None
  {
    var h := new History({});
    r := h.Get(n);
  }

  /** Putting a non-empty line and then asking for offset 1 returns it. */
  method PutThenGet(line: string) returns (r: Option<string>)
    requires line != "" && |line| < HISTORY_SIZE && NoNul(line)
    ensures r == Some(line)
  {
    var h := new History({});
    h.Put(line);
    r := h.Get(1);
  }

  /** The "Manual" history test: five puts, then the listing, most recent
      first. */
  method ManualHistory() returns (entries: seq<(nat, string)>, unbounded: bool)
    ensures entries == [(1, "sixth line"), (2, "fifth line"), (3, "third line"),
                        (4, "second line"), (5, "first line")]
    ensures !unbounded
  {
    var h := new History({});
    h.Put("first line");
    h.Put("second line");
    h.Put("third line");
    h.Put("fifth line");
    h.Put("sixth line");
    assert h.Puts == ["first line", "second line", "third line", "fifth line", "sixth line"];
    entries, unbounded := h.List();
    ManualListing(h.Puts);
  }

  /** The listing after the five puts of the "Manual" test. */
  lemma ManualListing(puts: seq<string>)
    requires puts == ["first line", "second line", "third line", "fifth line", "sixth line"]
    ensures ListFrom(puts, 1) == [(1, "sixth line"), (2, "fifth line"), (3, "third line"),
                                  (4, "second line"), (5, "first line")]
  {
    ListFromRecent(puts, 1);
  }

  /** The "Ranges" history test: four puts followed by 100 puts of the same
      line. All 64 slots are then non-empty, so the C listing would never
      stop; the model lists the 64 most recent entries and reports the
      unbounded case. */
  method RangesHistory() returns (entries: seq<(nat, string)>, unbounded: bool)
    ensures unbounded && |entries| == HISTORY_LEN
    ensures forall k :: 0 <= k < |entries| ==> entries[k] == (k + 1, "same line")
  {
    var h := new History({});
    h.Put("first line");
    h.Put("second line");
    h.Put("third line");
    h.Put("fifth line");
    var count := 0;
    while count < 100
      invariant 0 <= count <= 100
      invariant h.Valid() && h.isActive && fresh(h.log)
      invariant |h.Puts| == 4 + count
      invariant forall k :: 0 <= k < |h.Puts| ==> h.Puts[k] != ""
      invariant forall k :: 4 <= k < |h.Puts| ==> h.Puts[k] == "same line"
    {
      h.Put("same line");
      count := count + 1;
    }
    entries, unbounded := h.List();
    ListFromRecent(h.Puts, 1);
  }


  /** (1, 2, 1): the repeated root -1 in both outputs. */
  lemma SolveRepeatedRootExample(s: real)
    requires IsSqrtOfDisc(1.0, 2.0, 1.0, s)
    ensures Solve(1.0, 2.0, 1.0, s) == Roots(Finite(-1.0), Finite(-1.0))
  {
  }

  /** (1, 0, 0): the repeated root 0 in both outputs. */
  lemma SolveZeroRootExample(s: real)
    requires IsSqrtOfDisc(1.0, 0.0, 0.0, s)
    ensures Solve(1.0, 0.0, 0.0, s) == Roots(Finite(0.0), Finite(0.0))
  {
  }

  /** (14, -97, 113): D = 3081, and the outputs lie within TOL of 1.4819
      and 5.4467. */
  lemma SolveTwoRootsExample(s: real)
    requires IsSqrtOfDisc(14.0, -97.0, 113.0, s)
    ensures Solve(14.0, -97.0, 113.0, s).first.Finite?
    ensures Solve(14.0, -97.0, 113.0, s).second.Finite?
    ensures Abs(Solve(14.0, -97.0, 113.0, s).first.x - 1.4819) < TOL
    ensures Abs(Solve(14.0, -97.0, 113.0, s).second.x - 5.4467) < TOL
  {
    assert Disc(14.0, -97.0, 113.0) == 3081.0;
    assert s * s == 3081.0;
    SqrtBetween(s, 55.49, 55.52);
    assert (97.0 - s) / 2.0 / 14.0 == (97.0 - s) / 28.0;
    assert (97.0 + s) / 2.0 / 14.0 == (97.0 + s) / 28.0;
  }

  /** (1400, -97, 113): D < 0, so both outputs keep the caller's NAN. */
  lemma SolveNoRootsExample(s: real)
    requires IsSqrtOfDisc(1400.0, -97.0, 113.0, s)
    ensures Solve(1400.0, -97.0, 113.0, s) == Roots(Untouched, Untouched)
  {
  }

  /** (0, -97, 113): as written the solver divides by a = 0, whereas the
      test expects 113/97 ≈ 1.1649 in result_1, which the corrected linear
      branch writes. */
  lemma SolveLinearExample(s: real)
    requires IsSqrtOfDisc(0.0, -97.0, 113.0, s)
    ensures Solve(0.0, -97.0, 113.0, s) == Roots(NonFinite, Untouched)
    ensures SolveCorrected(0.0, -97.0, 113.0, s) == Roots(Finite(113.0 / 97.0), Untouched)
    ensures Abs(113.0 / 97.0 - 1.1649) < TOL
  {
  }

  /** (0, 0, 113): result_1 receives -0/0, a NaN, and result_2 stays NAN. */
  lemma SolveConstantExample(s: real)
    requires IsSqrtOfDisc(0.0, 0.0, 113.0, s)
    ensures Solve(0.0, 0.0, 113.0, s) == Roots(NonFinite, Untouched)
  {
  }
}
