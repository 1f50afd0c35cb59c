/**
 * The fuzzer's bookkeeping of crash causes (`list_causes`): every file in
 * the cause directory stands for one found case, named after its cause; the
 * cases are ordered by the time it took to find them, the expected causes
 * not found yet are listed in order, and once none is missing the results
 * are written to the `found_all` file.
 *
 * The directory listing is given as the files' names with their creation
 * times already taken relative to the start of the campaign (in
 * nanoseconds), the expected list as its lines; the `found_all` write is
 * returned as a value.
 */
module Causes {
  import opened Wrappers
  import opened Bits
  import opened Text
  import FuzzerApi

  /** A file of the cause directory: its name and how long after the start it was created, in nanoseconds. */
  datatype CauseFile = CauseFile(fileName: string, sinceStart: nat)

  /** `TestCaseData`: a found cause and its time to exposure, in nanoseconds. */
  datatype TestCaseData = TestCaseData(cause: string, timeToExposure: nat)

  /** `CausesList`. */
  datatype CausesList = CausesList(found: seq<TestCaseData>, stillMissing: seq<string>)

  /** The results written once nothing is missing: the file and its lines. */
  datatype FoundAll = FoundAll(path: string, lines: seq<string>)

  // ---------------------------------------------------------------------------
  // Names

  /** The cause a file stands for: its name up to the first `%`, with `_` shown as a blank. */
  function CauseOfName(fileName: string): string
  {
    Replace(Split(fileName, '%')[0], '_', ' ')
  }

  /** The cause is read from the part of the name before the first `%`. */
  lemma CauseBeforeFirstPercent(fileName: string, i: nat)
    requires i < |fileName| && fileName[i] == '%' && '%' !in fileName[..i]
    ensures CauseOfName(fileName) == Replace(fileName[..i], '_', ' ')
  {
    SplitFirst(fileName, '%', i);
  }

  /** A name without `%` is all cause. */
  lemma CauseOfWholeName(fileName: string)
    requires '%' !in fileName
    ensures CauseOfName(fileName) == Replace(fileName, '_', ' ')
  {
    SplitOfNoSep(fileName, '%');
  }

  /**
   * The cause read back from the name the target saves a crash under is the
   * reason the target reported, when that reason holds neither `%` nor `_`.
   */
  lemma CauseOfSavedName(reason: string, hash: U64)
    requires '%' !in reason && '_' !in reason
    ensures CauseOfName(FuzzerApi.SavedName(reason, hash)) == reason
  {
    FuzzerApi.SavedNameParses(reason, hash);
    ReplaceBack(reason, ' ', '_');
  }

  /** The file names' causes. */
  function DisplayNames(files: seq<CauseFile>): set<string>
  {
    set f | f in files :: CauseOfName(f.fileName)
  }

  // ---------------------------------------------------------------------------
  // get_expected

  /** `get_expected`: the set of the non-empty lines of the expected list. */
  function ExpectedCauses(lines: seq<string>): set<string>
  {
    if |lines| == 0 then {}
    else ExpectedCauses(lines[..|lines| - 1]) + (if lines[|lines| - 1] != [] then {lines[|lines| - 1]} else {})
  }

  /** An expected cause is a line of the list, and every line but the empty one is one. */
  lemma {:induction false} ExpectedCausesMembers(lines: seq<string>, x: string)
    ensures x in ExpectedCauses(lines) <==> x in lines && x != []
  {
    if |lines| > 0 {
      var n := |lines| - 1;
      ExpectedCausesMembers(lines[..n], x);
      assert lines == lines[..n] + [lines[n]];
    }
  }

  // ---------------------------------------------------------------------------
  // The cases, sorted by their time to exposure

  /** One case per file, in directory order. */
  function Cases(files: seq<CauseFile>): (r: seq<TestCaseData>)
    ensures |r| == |files|
    ensures forall i :: 0 <= i < |files| ==> r[i] == TestCaseData(CauseOfName(files[i].fileName), files[i].sinceStart)
  {
    if |files| == 0 then []
    else
      var f := files[|files| - 1];
      Cases(files[..|files| - 1]) + [TestCaseData(CauseOfName(f.fileName), f.sinceStart)]
  }

  /** Ordered non-decreasingly by time to exposure. */
  predicate SortedByTte(s: seq<TestCaseData>)
  {
    forall i, j :: 0 <= i < j < |s| ==> s[i].timeToExposure <= s[j].timeToExposure
  }

  /** `c` inserted after every entry that is not later than it. */
  function InsertByTte(s: seq<TestCaseData>, c: TestCaseData): (r: seq<TestCaseData>)
    ensures |r| == |s| + 1
  {
    if |s| == 0 || s[|s| - 1].timeToExposure <= c.timeToExposure then s + [c]
    else InsertByTte(s[..|s| - 1], c) + [s[|s| - 1]]
  }

  /** `sort_by_key(|t| t.time_to_exposure)`: a stable sort, here by insertion. */
  function SortByTte(s: seq<TestCaseData>): (r: seq<TestCaseData>)
    ensures |r| == |s|
  {
    if |s| == 0 then [] else InsertByTte(SortByTte(s[..|s| - 1]), s[|s| - 1])
  }

  lemma {:induction false} InsertByTtePermutes(s: seq<TestCaseData>, c: TestCaseData)
    ensures multiset(InsertByTte(s, c)) == multiset(s) + multiset{c}
  {
    if !(|s| == 0 || s[|s| - 1].timeToExposure <= c.timeToExposure) {
      var n := |s| - 1;
      InsertByTtePermutes(s[..n], c);
      assert s == s[..n] + [s[n]];
    }
  }

  /** The sort puts out the cases it was given, each as often as it was given. */
  lemma {:induction false} SortByTtePermutes(s: seq<TestCaseData>)
    ensures multiset(SortByTte(s)) == multiset(s)
  {
    if |s| > 0 {
      var n := |s| - 1;
      SortByTtePermutes(s[..n]);
      InsertByTtePermutes(SortByTte(s[..n]), s[n]);
      assert s == s[..n] + [s[n]];
    }
  }

  lemma {:induction false} InsertByTteSorted(s: seq<TestCaseData>, c: TestCaseData)
    requires SortedByTte(s)
    ensures SortedByTte(InsertByTte(s, c))
  {
    if !(|s| == 0 || s[|s| - 1].timeToExposure <= c.timeToExposure) {
      var n := |s| - 1;
      var front := InsertByTte(s[..n], c);
      InsertByTteSorted(s[..n], c);
      InsertByTtePermutes(s[..n], c);
      forall i | 0 <= i < |front| ensures front[i].timeToExposure <= s[n].timeToExposure {
        assert front[i] in multiset(front);
        assert front[i] in s[..n] || front[i] == c;
      }
    }
  }

  /** The cases come out ordered by time to exposure. */
  lemma {:induction false} SortByTteSorted(s: seq<TestCaseData>)
    ensures SortedByTte(SortByTte(s))
  {
    if |s| > 0 {
      var n := |s| - 1;
      SortByTteSorted(s[..n]);
      InsertByTteSorted(SortByTte(s[..n]), s[n]);
    }
  }

  /** The entries with time to exposure `t`, in order. */
  function WithTte(s: seq<TestCaseData>, t: nat): seq<TestCaseData>
  {
    if |s| == 0 then []
    else WithTte(s[..|s| - 1], t) + (if s[|s| - 1].timeToExposure == t then [s[|s| - 1]] else [])
  }

  lemma WithTteLast(s: seq<TestCaseData>, y: TestCaseData, t: nat)
    ensures WithTte(s + [y], t) == WithTte(s, t) + (if y.timeToExposure == t then [y] else [])
  {
    assert (s + [y])[..|s|] == s;
  }

  /** Inserting `c` puts it after every entry of its own time. */
  lemma {:induction false} InsertByTteStable(s: seq<TestCaseData>, c: TestCaseData, t: nat)
    ensures WithTte(InsertByTte(s, c), t) == WithTte(s, t) + (if c.timeToExposure == t then [c] else [])
  {
    if |s| == 0 || s[|s| - 1].timeToExposure <= c.timeToExposure {
      WithTteLast(s, c, t);
    } else {
      var n := |s| - 1;
      InsertByTteStable(s[..n], c, t);
      WithTteLast(InsertByTte(s[..n], c), s[n], t);
      WithTteLast(s[..n], s[n], t);
      assert s[..n] + [s[n]] == s;
    }
  }

  /**
   * The sort is stable: the entries of any one time to exposure come out in
   * the order they went in.
   */
  lemma {:induction false} SortByTteStable(s: seq<TestCaseData>, t: nat)
    ensures WithTte(SortByTte(s), t) == WithTte(s, t)
  {
    if |s| > 0 {
      var n := |s| - 1;
      SortByTteStable(s[..n], t);
      InsertByTteStable(SortByTte(s[..n]), s[n], t);
      WithTteLast(s[..n], s[n], t);
      assert s[..n] + [s[n]] == s;
    }
  }

  // ---------------------------------------------------------------------------
  // The missing causes, sorted

  /** `Ord` on `String`: lexicographic, character by character. */
  predicate LexLe(a: string, b: string)
  {
    |a| == 0 || (|b| > 0 && (a[0] < b[0] || (a[0] == b[0] && LexLe(a[1..], b[1..]))))
  }

  /** Any two strings are ordered one way or the other. */
  lemma {:induction false} LexLeTotal(a: string, b: string)
    ensures LexLe(a, b) || LexLe(b, a)
  {
    if |a| > 0 && |b| > 0 && a[0] == b[0] {
      LexLeTotal(a[1..], b[1..]);
    }
  }

  /** Strings ordered both ways are equal. */
  lemma {:induction false} LexLeAntisymmetric(a: string, b: string)
    requires LexLe(a, b) && LexLe(b, a)
    ensures a == b
  {
    if |a| > 0 {
      LexLeAntisymmetric(a[1..], b[1..]);
      assert a == [a[0]] + a[1..] && b == [b[0]] + b[1..];
    }
  }

  /** The order is transitive. */
  lemma {:induction false} LexLeTransitive(a: string, b: string, c: string)
    requires LexLe(a, b) && LexLe(b, c)
    ensures LexLe(a, c)
  {
    if |a| > 0 && a[0] == b[0] && b[0] == c[0] {
      LexLeTransitive(a[1..], b[1..], c[1..]);
    }
  }

  predicate SortedStrings(s: seq<string>)
  {
    forall i, j :: 0 <= i < j < |s| ==> LexLe(s[i], s[j])
  }

  /** `m` inserted after every string not greater than it. */
  function InsertString(s: seq<string>, m: string): (r: seq<string>)
    ensures |r| == |s| + 1
  {
    if |s| == 0 || LexLe(s[|s| - 1], m) then s + [m]
    else InsertString(s[..|s| - 1], m) + [s[|s| - 1]]
  }

  /** `sort` on a vector of strings. */
  function SortStrings(s: seq<string>): (r: seq<string>)
    ensures |r| == |s|
  {
    if |s| == 0 then [] else InsertString(SortStrings(s[..|s| - 1]), s[|s| - 1])
  }

  lemma {:induction false} InsertStringPermutes(s: seq<string>, m: string)
    ensures multiset(InsertString(s, m)) == multiset(s) + multiset{m}
  {
    if !(|s| == 0 || LexLe(s[|s| - 1], m)) {
      var n := |s| - 1;
      InsertStringPermutes(s[..n], m);
      assert s == s[..n] + [s[n]];
    }
  }

  /** Sorting keeps every string, as often as it occurs. */
  lemma {:induction false} SortStringsPermutes(s: seq<string>)
    ensures multiset(SortStrings(s)) == multiset(s)
  {
    if |s| > 0 {
      var n := |s| - 1;
      SortStringsPermutes(s[..n]);
      InsertStringPermutes(SortStrings(s[..n]), s[n]);
      assert s == s[..n] + [s[n]];
    }
  }

  lemma {:induction false} InsertStringSorted(s: seq<string>, m: string)
    requires SortedStrings(s)
    ensures SortedStrings(InsertString(s, m))
  {
    if |s| > 0 && LexLe(s[|s| - 1], m) {
      forall i | 0 <= i < |s| - 1 ensures LexLe(s[i], m) {
        LexLeTransitive(s[i], s[|s| - 1], m);
      }
    } else if |s| > 0 {
      var n := |s| - 1;
      var front := InsertString(s[..n], m);
      InsertStringSorted(s[..n], m);
      InsertStringPermutes(s[..n], m);
      LexLeTotal(s[n], m);
      forall i | 0 <= i < |front| ensures LexLe(front[i], s[n]) {
        assert front[i] in multiset(front);
        assert front[i] in s[..n] || front[i] == m;
      }
    }
  }

  /** Sorting orders the strings. */
  lemma {:induction false} SortStringsSorted(s: seq<string>)
    ensures SortedStrings(SortStrings(s))
  {
    if |s| > 0 {
      var n := |s| - 1;
      SortStringsSorted(s[..n]);
      InsertStringSorted(SortStrings(s[..n]), s[n]);
    }
  }

  // ---------------------------------------------------------------------------
  // found_all

  const NanosPerSecond: nat := 1_000_000_000

  /** `found_all` lies next to the cause directory. */
  function FoundAllPath(causeDir: string): string
  {
    causeDir + "/../found_all"
  }

  /** `"<whole seconds> $ <cause>\n"`. */
  function FoundAllLine(c: TestCaseData): string
  {
    Decimal(c.timeToExposure / NanosPerSecond) + " $ " + c.cause + "\n"
  }

  /** One line per case, in order. */
  function FoundAllLines(found: seq<TestCaseData>): (r: seq<string>)
    ensures |r| == |found| && forall i :: 0 <= i < |found| ==> r[i] == FoundAllLine(found[i])
  {
    if |found| == 0 then [] else FoundAllLines(found[..|found| - 1]) + [FoundAllLine(found[|found| - 1])]
  }

  /**
   * A line reads back: its first blank-separated field is the whole seconds,
   * and what follows that field and `" $ "`, up to the newline, is the cause.
   */
  lemma FoundAllLineReads(c: TestCaseData)
    ensures DigitsValue(Split(FoundAllLine(c), ' ')[0], 10) == Some(c.timeToExposure / NanosPerSecond)
    ensures var line := FoundAllLine(c); var first := Split(line, ' ')[0];
            |first| + 3 <= |line| - 1 && line[|first|..|first| + 3] == " $ " && line[|first| + 3..|line| - 1] == c.cause
    ensures FoundAllLine(c)[|FoundAllLine(c)| - 1] == '\n'
  {
    var secs := Decimal(c.timeToExposure / NanosPerSecond);
    var line := FoundAllLine(c);
    DigitsAreDigitChars(c.timeToExposure / NanosPerSecond, 10);
    assert line[..|secs|] == secs;
    assert line[|secs|] == ' ';
    SplitFirst(line, ' ', |secs|);
    DigitsRoundTrip(c.timeToExposure / NanosPerSecond, 10);
    assert line[|secs|..|secs| + 3] == " $ ";
    assert line[|secs| + 3..|line| - 1] == c.cause;
  }

  /** The `found_all` lines of the cases, written one at a time. */
  method FoundAllResults(caseList: seq<TestCaseData>) returns (results: seq<string>)
    ensures results == FoundAllLines(caseList)
  {
    results := [];
    for k := 0 to |caseList|
      invariant results == FoundAllLines(caseList[..k])
    {
      assert caseList[..k + 1][..k] == caseList[..k];
      results := results + [FoundAllLine(caseList[k])];
    }
    assert caseList[..|caseList|] == caseList;
  }

  /** The expected causes left over, each once, in sorted order. */
  method SortedMissing(expected: set<string>) returns (missing: seq<string>)
    ensures forall x :: x in missing <==> x in expected
    ensures |missing| == |expected|
    ensures SortedStrings(missing)
  {
    var rest := expected;
    missing := [];
    while rest != {}
      invariant rest <= expected
      invariant forall x :: x in missing <==> x in expected && x !in rest
      invariant |missing| + |rest| == |expected|
      decreases |rest|
    {
      var m :| m in rest;
      missing := missing + [m];
      rest := rest - {m};
    }
    ghost var unsorted := missing;
    missing := SortStrings(missing);
    SortStringsPermutes(unsorted);
    SortStringsSorted(unsorted);
    assert forall x :: x in missing <==> x in unsorted by {
      forall x ensures x in missing <==> x in unsorted {
        assert x in missing <==> x in multiset(missing);
      }
    }
  }

  lemma DisplayNamesLast(files: seq<CauseFile>, f: CauseFile)
    ensures DisplayNames(files + [f]) == DisplayNames(files) + {CauseOfName(f.fileName)}
  {
    assert forall g :: g in files + [f] <==> g in files || g == f;
  }

  // ---------------------------------------------------------------------------
  // list_causes

  /**
   * `list_causes`: one case per file, each found cause struck from the
   * expected set; the cases sorted by time to exposure, the rest of the
   * expected set sorted; `found_all` written only when nothing is missing.
   */
  method ListCauses(causeDir: string, files: seq<CauseFile>, expectedLines: seq<string>)
    returns (r: CausesList, foundAll: Option<FoundAll>)
    ensures r.found == SortByTte(Cases(files))
    ensures forall x :: x in r.stillMissing <==> x in ExpectedCauses(expectedLines) && x !in DisplayNames(files)
    ensures |r.stillMissing| == |ExpectedCauses(expectedLines) - DisplayNames(files)|
    ensures SortedStrings(r.stillMissing)
    ensures foundAll == if r.stillMissing == [] then Some(FoundAll(FoundAllPath(causeDir), FoundAllLines(r.found)))
                        else None
  {
    var expected := ExpectedCauses(expectedLines);
    var caseList: seq<TestCaseData> := [];
    for i := 0 to |files|
      invariant caseList == Cases(files[..i])
      invariant expected == ExpectedCauses(expectedLines) - DisplayNames(files[..i])
    {
      assert files[..i + 1] == files[..i] + [files[i]];
      DisplayNamesLast(files[..i], files[i]);
      var displayStr := CauseOfName(files[i].fileName);
      expected := expected - {displayStr};
      caseList := caseList + [TestCaseData(displayStr, files[i].sinceStart)];
    }
    assert files[..|files|] == files;
    caseList := SortByTte(caseList);
    var missing := SortedMissing(expected);
    if missing == [] {
      var results := FoundAllResults(caseList);
      foundAll := Some(FoundAll(FoundAllPath(causeDir), results));
    } else {
      foundAll := None;
    }
    r := CausesList(caseList, missing);
  }
}
