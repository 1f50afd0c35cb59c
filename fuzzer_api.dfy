/**
 * The target-side C++ header through which a simulated program reports a
 * crash cause to the fuzzer and records every input it runs:
 *
 *  - `getFuzzingSavePath` names the copy of a crashing input after its
 *    reason and a hash of its contents, inside `FUZZING_CAUSE_DIR`;
 *  - `reportFuzzingIssue` copies the input there and aborts;
 *  - `fuzzInputCallback` copies every input into `INPUT_STORAGE` under a
 *    time-stamped name and appends one telemetry line per input to a file
 *    in `COUNTER_FOLDER`.
 *
 * The environment variables, the file contents, the clocks, the process
 * ids and `std::hash` are parameters; a copy or an append is returned as a
 * value instead of being performed.
 */
module FuzzerApi {
  import opened Wrappers
  import opened Bits
  import opened Text

  // ---------------------------------------------------------------------------
  // getFuzzingSavePath

  /** Only this many leading hex digits of the hash go into the name. */
  const HashDigits: nat := 16

  /** `std::string::substr(0, n)`: the first `n` characters, or all of them. */
  function Prefix(s: string, n: nat): (r: string)
    ensures |r| == if |s| < n then |s| else n
    ensures r == s[..|r|]
  {
    if |s| <= n then s else s[..n]
  }

  /** The file name of a saved crash: the reason with `_` for blanks, `%`, the hash in hex. */
  function SavedName(reason: string, hash: U64): string
  {
    Replace(reason, ' ', '_') + "%" + Prefix(Hex(hash), HashDigits)
  }

  /** Where `reportFuzzingIssue` saves the input: nowhere (`""`) without a cause directory. */
  function SavePath(causeDir: Option<string>, reason: string, hash: U64): string
  {
    match causeDir
    case None => ""
    case Some(dir) => dir + "/" + SavedName(reason, hash)
  }

  /**
   * `getFuzzingSavePath`, with the cause directory, the contents of the test
   * case and `std::hash` given: the blanks of the reason are replaced one
   * character at a time, then the path is concatenated.
   */
  method GetFuzzingSavePath(causeDir: Option<string>, reason: string, contents: string, hash: string -> U64)
    returns (r: string)
    ensures r == SavePath(causeDir, reason, hash(contents))
  {
    if causeDir.None? {
      return "";
    }
    var hashHex := Hex(hash(contents));
    var name := reason;
    for i := 0 to |name|
      invariant |name| == |reason|
      invariant forall k :: 0 <= k < i ==> name[k] == if reason[k] == ' ' then '_' else reason[k]
      invariant forall k :: i <= k < |name| ==> name[k] == reason[k]
    {
      if name[i] == ' ' {
        name := name[i := '_'];
      }
    }
    assert name == Replace(reason, ' ', '_');
    r := causeDir.value + "/" + name + "%";
    r := r + Prefix(hashHex, HashDigits);
  }

  /** The 16-digit cut never shortens the hash: a 64-bit value has at most 16 hex digits. */
  lemma SavedNameKeepsWholeHash(reason: string, hash: U64)
    ensures SavedName(reason, hash) == Replace(reason, ' ', '_') + "%" + Hex(hash)
  {
    HexOf64Bits(hash);
  }

  /**
   * A reason without `%` can be read back from its saved name: the name
   * splits at `%` into the reason with `_` for blanks and the hex digits of
   * the hash, whose value is the hash.
   */
  lemma SavedNameParses(reason: string, hash: U64)
    requires '%' !in reason
    ensures Split(SavedName(reason, hash), '%') == [Replace(reason, ' ', '_'), Hex(hash)]
    ensures DigitsValue(Hex(hash), 16) == Some(hash)
  {
    SavedNameKeepsWholeHash(reason, hash);
    DigitsAreDigitChars(hash, 16);
    assert '%' !in Replace(reason, ' ', '_');
    assert '%' !in Hex(hash);
    SplitTwo(Replace(reason, ' ', '_'), Hex(hash), '%');
    DigitsRoundTrip(hash, 16);
  }

  // ---------------------------------------------------------------------------
  // reportFuzzingIssue

  /** A copy of the file at `from` to the path `to`. */
  datatype Copy = Copy(from: string, to: string)

  /**
   * `reportFuzzingIssue` never returns: it aborts in every case. What it
   * does before aborting is the copy returned: none when the cause directory
   * is unset, else the test case to its save path.
   */
  method ReportFuzzingIssue(causeDir: Option<string>, reason: string, pathToTestCase: string, contents: string,
                            hash: string -> U64)
    returns (copied: Option<Copy>)
    ensures causeDir.None? <==> copied.None?
    ensures copied.Some? ==> copied.value == Copy(pathToTestCase, SavePath(causeDir, reason, hash(contents)))
    ensures copied.Some? ==> copied.value.to != ""
  {
    if causeDir.None? {
      return None;
    }
    var savedFileName := GetFuzzingSavePath(causeDir, reason, contents, hash);
    copied := Some(Copy(pathToTestCase, savedFileName));
  }

  // ---------------------------------------------------------------------------
  // fuzzInputCallback: the stored copy of every input

  /** The time stamp is written zero-padded to this width. */
  const StampWidth: nat := 21

  /** The microseconds since the epoch, in decimal, zero-padded to 21 digits. */
  function Stamp(micros: nat): string
  {
    PadLeft(Decimal(micros), StampWidth, '0')
  }

  /** The name of a stored input: the padded time stamp, the pid and the parent pid (unpadded). */
  function InputName(micros: nat, pid: nat, ppid: nat): string
  {
    Stamp(micros) + "-" + Decimal(pid) + "-" + Decimal(ppid)
  }

  /** Where an input is stored under `INPUT_STORAGE`. */
  function StorageName(dir: string, micros: nat, pid: nat, ppid: nat): string
  {
    dir + "/" + InputName(micros, pid, ppid)
  }

  /** The time stamp reads back as the microseconds, and is exactly 21 digits up to 10^21. */
  lemma StampValue(micros: nat)
    ensures DigitsValue(Stamp(micros), 10) == Some(micros)
    ensures micros < Pow(10, StampWidth) ==> |Stamp(micros)| == StampWidth
    ensures forall i :: 0 <= i < |Stamp(micros)| ==> IsDigitChar(Stamp(micros)[i])
  {
    var d := Decimal(micros);
    var zeros := seq(|Stamp(micros)| - |d|, _ => '0');
    assert Stamp(micros) == zeros + d;
    ZerosValue(|zeros|, 10);
    ZeroPrefixValue(zeros, d, 10);
    DigitsRoundTrip(micros, 10);
    DigitsAreDigitChars(micros, 10);
    if micros < Pow(10, StampWidth) {
      DigitsLength(micros, 10, StampWidth);
    }
  }

  /** A stored input's name splits at `-` into the time stamp, the pid and the parent pid. */
  lemma InputNameParses(micros: nat, pid: nat, ppid: nat)
    ensures Split(InputName(micros, pid, ppid), '-') == [Stamp(micros), Decimal(pid), Decimal(ppid)]
  {
    StampValue(micros);
    DigitsAreDigitChars(pid, 10);
    DigitsAreDigitChars(ppid, 10);
    assert '-' !in Stamp(micros) && '-' !in Decimal(pid) && '-' !in Decimal(ppid);
    SplitThree(Stamp(micros), Decimal(pid), Decimal(ppid), '-');
  }

  /** Two inputs stored at different times or from different processes get different names. */
  lemma InputNamesDistinct(micros: nat, pid: nat, ppid: nat, micros': nat, pid': nat, ppid': nat)
    requires InputName(micros, pid, ppid) == InputName(micros', pid', ppid')
    ensures micros == micros' && pid == pid' && ppid == ppid'
  {
    InputNameParses(micros, pid, ppid);
    InputNameParses(micros', pid', ppid');
    StampValue(micros);
    StampValue(micros');
    DigitsRoundTrip(pid, 10);
    DigitsRoundTrip(pid', 10);
    DigitsRoundTrip(ppid, 10);
    DigitsRoundTrip(ppid', 10);
  }

  // ---------------------------------------------------------------------------
  // fuzzInputCallback: the telemetry line

  /** 1 January 2024, the epoch of the telemetry time stamps, in seconds since 1970. */
  const CustomEpoch: int := 1704063600

  /** `int64_t`. */
  type I64 = x: int | -0x8000_0000_0000_0000 <= x < 0x8000_0000_0000_0000

  /** The bits of a signed 64-bit value read as unsigned, as `std::hex` prints it. */
  function Unsigned64(x: int): (r: U64)
    ensures -0x8000_0000_0000_0000 <= x < 0 ==> r == x + 0x1_0000_0000_0000_0000
    ensures 0 <= x < 0x1_0000_0000_0000_0000 ==> r == x
  {
    x % 0x1_0000_0000_0000_0000
  }

  /** The file that collects the telemetry of the inputs run by one fork server. */
  function CounterFile(folder: string, ppid: nat): string
  {
    folder + "/inputs_" + Decimal(ppid)
  }

  /** Fork servers with different parent pids write to different counter files. */
  lemma CounterFilesDistinct(folder: string, ppid: nat, ppid': nat)
    requires CounterFile(folder, ppid) == CounterFile(folder, ppid')
    ensures ppid == ppid'
  {
    var p := folder + "/inputs_";
    assert CounterFile(folder, ppid)[|p|..] == Decimal(ppid);
    assert CounterFile(folder, ppid')[|p|..] == Decimal(ppid');
    DigitsRoundTrip(ppid, 10);
    DigitsRoundTrip(ppid', 10);
  }

  /** The three fields of a telemetry line, in hex. */
  function TelemetryFields(hash: U64, size: nat, seconds: I64): string
  {
    Hex(hash) + " " + Hex(size) + " " + Hex(Unsigned64(seconds - CustomEpoch))
  }

  /** One telemetry line: the hash and size of the input and the seconds since 2024, in hex. */
  function TelemetryLine(hash: U64, size: nat, seconds: I64): string
  {
    TelemetryFields(hash, size, seconds) + "\n"
  }

  /** Three numbers in hex, separated by blanks, split back into their digits and hold no newline. */
  lemma HexFieldsSplit(x: nat, y: nat, z: nat)
    ensures Split(Hex(x) + " " + Hex(y) + " " + Hex(z), ' ') == [Hex(x), Hex(y), Hex(z)]
    ensures '\n' !in Hex(x) + " " + Hex(y) + " " + Hex(z)
  {
    DigitsAreDigitChars(x, 16);
    DigitsAreDigitChars(y, 16);
    DigitsAreDigitChars(z, 16);
    assert ' ' !in Hex(x) && ' ' !in Hex(y) && ' ' !in Hex(z);
    assert '\n' !in Hex(x) && '\n' !in Hex(y) && '\n' !in Hex(z);
    SplitThree(Hex(x), Hex(y), Hex(z), ' ');
  }

  /**
   * A telemetry line is one line whose blank-separated fields read back as
   * the hash, the size and the seconds since 2024, these last in two's
   * complement when the clock is before 2024.
   */
  lemma TelemetryLineParses(hash: U64, size: nat, seconds: I64)
    ensures TelemetryLine(hash, size, seconds) == TelemetryFields(hash, size, seconds) + "\n"
    ensures '\n' !in TelemetryFields(hash, size, seconds)
    ensures Split(TelemetryFields(hash, size, seconds), ' ')
            == [Hex(hash), Hex(size), Hex(Unsigned64(seconds - CustomEpoch))]
    ensures DigitsValue(Hex(hash), 16) == Some(hash) && DigitsValue(Hex(size), 16) == Some(size)
    ensures seconds >= CustomEpoch ==> DigitsValue(Hex(Unsigned64(seconds - CustomEpoch)), 16) == Some(seconds - CustomEpoch)
    ensures seconds < CustomEpoch ==>
      DigitsValue(Hex(Unsigned64(seconds - CustomEpoch)), 16) == Some(seconds - CustomEpoch + 0x1_0000_0000_0000_0000)
  {
    var stamp := Unsigned64(seconds - CustomEpoch);
    HexFieldsSplit(hash, size, stamp);
    DigitsRoundTrip(hash, 16);
    DigitsRoundTrip(size, 16);
    DigitsRoundTrip(stamp, 16);
  }

  /**
   * The loop that reads the input for the telemetry, as written: it pushes
   * the character of every `get`, including the last one, which fails at the
   * end of the file and leaves `c` unset (`stale` stands for whatever it
   * holds). The contents are one character longer than the file.
   */
  method ReadContentsAsWritten(file: string, stale: char) returns (contents: string)
    ensures contents == file + [stale]
    ensures |contents| == |file| + 1
  {
    contents := [];
    var pos := 0;
    var good := true;
    while good
      invariant 0 <= pos <= |file|
      invariant contents == file[..pos] + (if good then [] else [stale])
      invariant !good ==> pos == |file|
      decreases |file| - pos + (if good then 1 else 0)
    {
      var c := stale;
      if pos < |file| {
        c := file[pos];
        pos := pos + 1;
      } else {
        good := false;
      }
      contents := contents + [c];
    }
    assert file[..pos] == file;
  }

  /** The read loop as intended: a character is pushed only when `get` delivered one. */
  method ReadContents(file: string) returns (contents: string)
    ensures contents == file
  {
    contents := [];
    var pos := 0;
    while pos < |file|
      invariant 0 <= pos <= |file| && contents == file[..pos]
    {
      contents := contents + [file[pos]];
      pos := pos + 1;
    }
  }

  /** The stale character shows in the telemetry: the size field is never the file's size. */
  lemma StaleCharChangesSize(file: string, stale: char, hash: U64, hash': U64, seconds: I64)
    ensures TelemetryLine(hash, |file + [stale]|, seconds) != TelemetryLine(hash', |file|, seconds)
  {
    TelemetryLineParses(hash, |file + [stale]|, seconds);
    TelemetryLineParses(hash', |file|, seconds);
    var a := TelemetryLine(hash, |file + [stale]|, seconds);
    var b := TelemetryLine(hash', |file|, seconds);
    if a == b {
      assert a[..|a| - 1] == TelemetryFields(hash, |file + [stale]|, seconds);
      assert b[..|b| - 1] == TelemetryFields(hash', |file|, seconds);
    }
  }

  // ---------------------------------------------------------------------------
  // fuzzInputCallback

  /** An append of `line` to the file at `path`. */
  datatype Append = Append(path: string, line: string)

  /** What `fuzzInputCallback` does: possibly store a copy, possibly append a telemetry line. */
  datatype Effects = Effects(stored: Option<Copy>, appended: Option<Append>)

  /**
   * How the input is read for the telemetry: `AsWritten` is the source's loop,
   * which pushes `stale` once more at the end of the file; `Intended` reads
   * exactly the file.
   */
  datatype Reading = AsWritten(stale: char) | Intended

  /**
   * `fuzzInputCallback`: with `INPUT_STORAGE` set the input is copied under
   * its time-stamped name; with `COUNTER_FOLDER` set the hash and the size of
   * its contents and the time are appended to the parent's counter file.
   * `micros` and `seconds` are the two readings of the system clock. As
   * written the contents are the file and one stale character, so the line
   * holds their hash and a size one above the file's.
   */
  method FuzzInputCallback(inputStorage: Option<string>, counterFolder: Option<string>, path: string, file: string,
                           micros: nat, seconds: I64, pid: nat, ppid: nat, hash: string -> U64, reading: Reading)
    returns (e: Effects)
    ensures e.stored == if inputStorage.None? then None
                        else Some(Copy(path, StorageName(inputStorage.value, micros, pid, ppid)))
    ensures counterFolder.None? ==> e.appended.None?
    ensures counterFolder.Some? && reading.AsWritten? ==>
      e.appended == Some(Append(CounterFile(counterFolder.value, ppid), TelemetryLine(hash(file + [reading.stale]), |file| + 1, seconds)))
    ensures counterFolder.Some? && reading.Intended? ==>
      e.appended == Some(Append(CounterFile(counterFolder.value, ppid), TelemetryLine(hash(file), |file|, seconds)))
  {
    var stored: Option<Copy> := None;
    if inputStorage.Some? {
      var outPath := inputStorage.value + "/";
      outPath := outPath + PadLeft(Decimal(micros), StampWidth, '0');
      outPath := outPath + "-" + Decimal(pid);
      outPath := outPath + "-" + Decimal(ppid);
      assert outPath == StorageName(inputStorage.value, micros, pid, ppid);
      stored := Some(Copy(path, outPath));
    }
    var appended: Option<Append> := None;
    if counterFolder.Some? {
      var counterFile := counterFolder.value;
      counterFile := counterFile + "/inputs_" + Decimal(ppid);
      var inputContents: string;
      if reading.AsWritten? {
        inputContents := ReadContentsAsWritten(file, reading.stale);
      } else {
        inputContents := ReadContents(file);
      }
      var hashSum := hash(inputContents);
      var line := Hex(hashSum);
      line := line + " " + Hex(|inputContents|);
      line := line + " " + Hex(Unsigned64(seconds - CustomEpoch));
      line := line + "\n";
      assert line == TelemetryLine(hashSum, |inputContents|, seconds);
      appended := Some(Append(counterFile, line));
    }
    e := Effects(stored, appended);
  }
}
