/**
 * The data behind the fuzzer's terminal interface: the summary lines of the
 * found and missing causes, the history of the maximum coverage and the
 * message log. The rendering itself is not part of this model.
 */
module FuzzUi {
  import opened Wrappers
  import opened Text
  import opened Causes

  // ---------------------------------------------------------------------------
  // summarize_findings

  /** How many found cases have cause `c` (the `dupes` count). */
  function Count(found: seq<TestCaseData>, c: string): nat
  {
    if |found| == 0 then 0
    else Count(found[..|found| - 1], c) + (if found[|found| - 1].cause == c then 1 else 0)
  }

  /** The causes of the found cases. */
  function CausesOf(found: seq<TestCaseData>): set<string>
  {
    if |found| == 0 then {} else CausesOf(found[..|found| - 1]) + {found[|found| - 1].cause}
  }

  /** Each case whose cause no earlier case has: the first case of each cause, in order of appearance. */
  function FirstOfEach(found: seq<TestCaseData>): seq<TestCaseData>
  {
    if |found| == 0 then []
    else
      var n := |found| - 1;
      FirstOfEach(found[..n]) + (if found[n].cause in CausesOf(found[..n]) then [] else [found[n]])
  }

  /** `"<cause> (TTE: <time>) Dupes: <count>"`, with libafl's duration formatter given. */
  function FindingLine(c: TestCaseData, dupes: nat, formatDuration: nat -> string): string
  {
    c.cause + " (TTE: " + formatDuration(c.timeToExposure) + ") Dupes: " + Decimal(dupes)
  }

  /** `"<cause> (Missing)"`. */
  function MissingLine(cause: string): string
  {
    cause + " (Missing)"
  }

  /** One line per first case of each cause, with the count of its cause among all found cases. */
  function FindingLines(firsts: seq<TestCaseData>, found: seq<TestCaseData>, formatDuration: nat -> string): (r: seq<string>)
    ensures |r| == |firsts|
    ensures forall k :: 0 <= k < |firsts| ==> r[k] == FindingLine(firsts[k], Count(found, firsts[k].cause), formatDuration)
  {
    if |firsts| == 0 then []
    else
      var m := |firsts| - 1;
      FindingLines(firsts[..m], found, formatDuration) + [FindingLine(firsts[m], Count(found, firsts[m].cause), formatDuration)]
  }

  /** One line per missing cause, in order. */
  function MissingLines(missing: seq<string>): (r: seq<string>)
    ensures |r| == |missing| && forall k :: 0 <= k < |missing| ==> r[k] == MissingLine(missing[k])
  {
    if |missing| == 0 then [] else MissingLines(missing[..|missing| - 1]) + [MissingLine(missing[|missing| - 1])]
  }

  /** The `dupes` loop: the count of every cause among the found cases. */
  method CountDupes(found: seq<TestCaseData>) returns (dupes: map<string, nat>)
    ensures forall c :: c in dupes <==> c in CausesOf(found)
    ensures forall c :: c in dupes ==> dupes[c] == Count(found, c)
  {
    dupes := map[];
    for i := 0 to |found|
      invariant forall c :: c in dupes <==> c in CausesOf(found[..i])
      invariant forall c :: c in dupes ==> dupes[c] == Count(found[..i], c)
    {
      assert found[..i + 1] == found[..i] + [found[i]];
      var c := found[i].cause;
      CausesOfLast(found[..i], found[i]);
      CausesOfCounted(found[..i], c);
      forall d ensures Count(found[..i + 1], d) == Count(found[..i], d) + (if c == d then 1 else 0) {
        CountLast(found[..i], found[i], d);
      }
      dupes := dupes[c := (if c in dupes then dupes[c] else 0) + 1];
    }
    assert found[..|found|] == found;
  }

  /** The emitting loop: a line for each case whose cause was not emitted before. */
  method EmitFindings(found: seq<TestCaseData>, dupes: map<string, nat>, formatDuration: nat -> string)
    returns (result: seq<string>)
    requires forall c :: c in dupes <==> c in CausesOf(found)
    requires forall c :: c in dupes ==> dupes[c] == Count(found, c)
    ensures result == FindingLines(FirstOfEach(found), found, formatDuration)
  {
    var emittedCauses: set<string> := {};
    result := [];
    for i := 0 to |found|
      invariant emittedCauses == CausesOf(found[..i])
      invariant result == FindingLines(FirstOfEach(found[..i]), found, formatDuration)
    {
      assert found[..i + 1][..i] == found[..i];
      FirstOfEachLast(found[..i + 1]);
      var c := found[i].cause;
      if c !in emittedCauses {
        CausesOfHas(found, i);
        FindingLinesLast(FirstOfEach(found[..i]), found[i], found, formatDuration);
        result := result + [FindingLine(found[i], dupes[c], formatDuration)];
      }
      emittedCauses := emittedCauses + {c};
    }
    assert found[..|found|] == found;
  }

  lemma FindingLinesLast(firsts: seq<TestCaseData>, x: TestCaseData, found: seq<TestCaseData>, formatDuration: nat -> string)
    ensures FindingLines(firsts + [x], found, formatDuration)
            == FindingLines(firsts, found, formatDuration) + [FindingLine(x, Count(found, x.cause), formatDuration)]
  {
    assert (firsts + [x])[..|firsts|] == firsts;
  }

  /**
   * `summarize_findings` on the causes list: the count of each cause, then
   * the line of each cause at its first case, then the missing causes.
   */
  method SummarizeFindings(caseList: CausesList, formatDuration: nat -> string) returns (result: seq<string>)
    ensures result == FindingLines(FirstOfEach(caseList.found), caseList.found, formatDuration)
                      + MissingLines(caseList.stillMissing)
  {
    var dupes := CountDupes(caseList.found);
    result := EmitFindings(caseList.found, dupes, formatDuration);
    ghost var findings := result;
    for k := 0 to |caseList.stillMissing|
      invariant result == findings + MissingLines(caseList.stillMissing[..k])
    {
      assert caseList.stillMissing[..k + 1][..k] == caseList.stillMissing[..k];
      result := result + [MissingLine(caseList.stillMissing[k])];
    }
    assert caseList.stillMissing[..|caseList.stillMissing|] == caseList.stillMissing;
  }

  /** The cause of every case is among the causes. */
  lemma {:induction false} CausesOfHas(found: seq<TestCaseData>, i: nat)
    requires i < |found|
    ensures found[i].cause in CausesOf(found)
  {
    var n := |found| - 1;
    if i < n {
      CausesOfHas(found[..n], i);
    }
  }

  /** A cause has a positive count exactly when some case has it. */
  lemma {:induction false} CausesOfCounted(found: seq<TestCaseData>, c: string)
    ensures c in CausesOf(found) <==> Count(found, c) > 0
  {
    if |found| > 0 {
      CausesOfCounted(found[..|found| - 1], c);
    }
  }

  /** The causes of the first cases are all the causes. */
  lemma {:induction false} FirstOfEachCovers(found: seq<TestCaseData>)
    ensures CausesOf(FirstOfEach(found)) == CausesOf(found)
  {
    if |found| > 0 {
      var n := |found| - 1;
      FirstOfEachCovers(found[..n]);
      FirstOfEachLast(found);
      CausesOfLast(FirstOfEach(found[..n]), found[n]);
    }
  }

  /** The step of `FirstOfEach`: the last case is kept when its cause is new. */
  lemma FirstOfEachLast(found: seq<TestCaseData>)
    requires |found| > 0
    ensures var n := |found| - 1;
            FirstOfEach(found) == if found[n].cause in CausesOf(found[..n]) then FirstOfEach(found[..n])
                                  else FirstOfEach(found[..n]) + [found[n]]
    ensures CausesOf(found) == CausesOf(found[..|found| - 1]) + {found[|found| - 1].cause}
  {
    var n := |found| - 1;
    assert FirstOfEach(found[..n]) + [] == FirstOfEach(found[..n]);
  }

  lemma CausesOfLast(s: seq<TestCaseData>, x: TestCaseData)
    ensures CausesOf(s + [x]) == CausesOf(s) + {x.cause}
  {
    assert (s + [x])[..|s|] == s;
  }

  lemma CountLast(s: seq<TestCaseData>, x: TestCaseData, c: string)
    ensures Count(s + [x], c) == Count(s, c) + (if x.cause == c then 1 else 0)
  {
    assert (s + [x])[..|s|] == s;
  }

  /** Every cause has exactly one first case, and no other cause has one. */
  lemma {:induction false} FirstOfEachOnce(found: seq<TestCaseData>, c: string)
    ensures Count(FirstOfEach(found), c) == if c in CausesOf(found) then 1 else 0
  {
    if |found| > 0 {
      var n := |found| - 1;
      FirstOfEachOnce(found[..n], c);
      FirstOfEachLast(found);
      if found[n].cause !in CausesOf(found[..n]) {
        CountLast(FirstOfEach(found[..n]), found[n], c);
      }
    }
  }

  /** Exactly one line per distinct cause. */
  lemma {:induction false} FirstOfEachSize(found: seq<TestCaseData>)
    ensures |FirstOfEach(found)| == |CausesOf(found)|
  {
    if |found| > 0 {
      var n := |found| - 1;
      FirstOfEachSize(found[..n]);
      FirstOfEachLast(found);
      if found[n].cause !in CausesOf(found[..n]) {
        assert |CausesOf(found[..n]) + {found[n].cause}| == |CausesOf(found[..n])| + 1;
      } else {
        assert CausesOf(found[..n]) + {found[n].cause} == CausesOf(found[..n]);
      }
    }
  }

  /** The sum of the counts over `firsts`. */
  function SumCounts(firsts: seq<TestCaseData>, found: seq<TestCaseData>): nat
  {
    if |firsts| == 0 then 0
    else SumCounts(firsts[..|firsts| - 1], found) + Count(found, firsts[|firsts| - 1].cause)
  }

  lemma {:induction false} SumCountsLast(firsts: seq<TestCaseData>, found: seq<TestCaseData>, x: TestCaseData)
    ensures SumCounts(firsts, found + [x]) == SumCounts(firsts, found) + Count(firsts, x.cause)
  {
    if |firsts| > 0 {
      var m := |firsts| - 1;
      SumCountsLast(firsts[..m], found, x);
      CountLast(found, x, firsts[m].cause);
    }
  }

  /** The `Dupes` figures of the summary add up to the number of found cases. */
  lemma {:induction false} DupesAddUp(found: seq<TestCaseData>)
    ensures SumCounts(FirstOfEach(found), found) == |found|
  {
    if |found| > 0 {
      var n := |found| - 1;
      var before := found[..n];
      var x := found[n];
      assert found == before + [x];
      DupesAddUp(before);
      SumCountsLast(FirstOfEach(before), before, x);
      FirstOfEachOnce(before, x.cause);
      FirstOfEachLast(found);
      if x.cause !in CausesOf(before) {
        CausesOfCounted(before, x.cause);
        CountLast(before, x, x.cause);
        var firsts := FirstOfEach(before) + [x];
        assert firsts[..|firsts| - 1] == FirstOfEach(before);
      }
    }
  }

  // ---------------------------------------------------------------------------
  // FuzzUIData

  /**
   * `FuzzUIData`, without the corpus-size timing: the maximum coverage over
   * time as `(seconds since start, coverage)` points and the messages, the
   * newest first. `f64` values are modelled as reals.
   */
  class FuzzUIData {
    var maxCoverage: seq<(real, real)>
    var messages: seq<string>

    constructor ()
      ensures maxCoverage == [] && messages == []
    {
      maxCoverage := [];
      messages := [];
    }

    /** Every recorded coverage value is above the ones before it. */
    predicate CoverageIncreasing()
      reads this
    {
      forall i, j :: 0 <= i < j < |maxCoverage| ==> maxCoverage[i].1 < maxCoverage[j].1
    }

    /**
     * `get_max_coverage` as written: `ok_or` turns the missing last point into
     * an `Err` that `unwrap` then panics on, so there is no value (`None`)
     * before the first point.
     */
    function MaxCoverageAsWritten(): (r: Option<real>)
      reads this
      ensures r.None? <==> |maxCoverage| == 0
      ensures r.Some? ==> r.value == maxCoverage[|maxCoverage| - 1].1
    {
      if |maxCoverage| == 0 then None else Some(maxCoverage[|maxCoverage| - 1].1)
    }

    /** `get_max_coverage` as intended: the last recorded value, 0 before any; the largest while the values increase. */
    function MaxCoverage(): (r: real)
      reads this
      ensures CoverageIncreasing() ==> forall i :: 0 <= i < |maxCoverage| ==> maxCoverage[i].1 <= r
      ensures |maxCoverage| > 0 ==> exists i :: 0 <= i < |maxCoverage| && maxCoverage[i].1 == r
    {
      if |maxCoverage| == 0 then 0.0 else maxCoverage[|maxCoverage| - 1].1
    }

    /**
     * `add_max_coverage`: a point is recorded only for the first value and
     * for values above the last one. `shrink_to` leaves the length alone.
     */
    method AddMaxCoverage(relTime: real, value: real)
      modifies this
      ensures maxCoverage == if |old(maxCoverage)| == 0 || old(maxCoverage)[|old(maxCoverage)| - 1].1 < value
                             then old(maxCoverage) + [(relTime, value)] else old(maxCoverage)
      ensures messages == old(messages)
      ensures old(CoverageIncreasing()) ==> CoverageIncreasing()
      ensures MaxCoverage() >= value && (|old(maxCoverage)| > 0 ==> MaxCoverage() >= old(MaxCoverage()))
    {
      if |maxCoverage| == 0 || maxCoverage[|maxCoverage| - 1].1 < value {
        maxCoverage := maxCoverage + [(relTime, value)];
      }
    }

    /** A fresh `FuzzUIData` panics in `get_max_coverage` as written, where 0 was meant. */
    lemma EmptyMaxCoveragePanics()
      requires maxCoverage == []
      ensures MaxCoverageAsWritten().None?
      ensures MaxCoverage() == 0.0
    {
    }

    /** After any `add_max_coverage` the as-written reading agrees with the intended one. */
    lemma MaxCoverageAgreesOnceRecorded()
      requires |maxCoverage| > 0
      ensures MaxCoverageAsWritten() == Some(MaxCoverage())
    {
    }

    /** `add_message`: the newest message goes in front. */
    method AddMessage(value: string)
      modifies this
      ensures messages == [value] + old(messages)
      ensures maxCoverage == old(maxCoverage)
    {
      messages := [value] + messages;
    }
  }
}
