/**
 * The coverage figure the target reports: the number of bytes of AFL's
 * shared coverage map that are not zero. The map is an array given to
 * `GetCurrentCoverage` together with `__afl_map_size`; finding it through
 * `dlopen`/`dlsym` (and aborting when that fails) happens before and is
 * stated as the precondition that the map exists and is large enough.
 */
module FuzzerCoverage {
  import opened Bits

  /** The number of non-zero bytes. */
  function CountNonZero(s: seq<Byte>): (r: nat)
    ensures r <= |s|
  {
    if |s| == 0 then 0 else CountNonZero(s[..|s| - 1]) + (if s[|s| - 1] != 0 then 1 else 0)
  }

  /** The indices of the non-zero bytes. */
  function NonZeroIndices(s: seq<Byte>): set<nat>
  {
    set i: nat | i < |s| && s[i] != 0
  }

  /**
   * `getCurrentCoverage`'s loop: counts the set bytes among the first
   * `mapSize`. The map is only read.
   */
  method GetCurrentCoverage(areaPtr: array<Byte>, mapSize: Word) returns (result: Word)
    requires mapSize <= areaPtr.Length
    ensures result == CountNonZero(areaPtr[..mapSize])
  {
    result := 0;
    for i := 0 to mapSize
      invariant result == CountNonZero(areaPtr[..i])
    {
      assert areaPtr[..i + 1][..i] == areaPtr[..i];
      if areaPtr[i] != 0 {
        result := result + 1;
      }
    }
  }

  /** The count is the number of indices whose byte is not zero. */
  lemma {:induction false} CountIsNonZeroIndices(s: seq<Byte>)
    ensures CountNonZero(s) == |NonZeroIndices(s)|
  {
    if |s| > 0 {
      var n := |s| - 1;
      CountIsNonZeroIndices(s[..n]);
      var before := NonZeroIndices(s[..n]);
      assert n !in before;
      if s[n] != 0 {
        assert NonZeroIndices(s) == before + {n};
      } else {
        assert NonZeroIndices(s) == before;
      }
    }
  }

  /** An all-zero map counts nothing. */
  lemma {:induction false} AllZeroCountsNothing(s: seq<Byte>)
    requires forall i :: 0 <= i < |s| ==> s[i] == 0
    ensures CountNonZero(s) == 0
  {
    if |s| > 0 {
      AllZeroCountsNothing(s[..|s| - 1]);
    }
  }

  /** A map whose every byte is set counts all of them. */
  lemma {:induction false} AllSetCountsAll(s: seq<Byte>)
    requires forall i :: 0 <= i < |s| ==> s[i] != 0
    ensures CountNonZero(s) == |s|
  {
    if |s| > 0 {
      AllSetCountsAll(s[..|s| - 1]);
    }
  }

  /** Setting one zero byte of the map raises the count by exactly one. */
  lemma {:induction false} SettingOneByteCountsOne(s: seq<Byte>, k: nat, b: Byte)
    requires k < |s| && s[k] == 0 && b != 0
    ensures CountNonZero(s[k := b]) == CountNonZero(s) + 1
  {
    var n := |s| - 1;
    if k < n {
      SettingOneByteCountsOne(s[..n], k, b);
      assert s[k := b][..n] == s[..n][k := b];
    } else {
      assert s[k := b][..n] == s[..n];
    }
  }
}
