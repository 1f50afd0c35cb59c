/**
 * The string operations the tools rely on, on strings as sequences of
 * characters: Rust's `trim`, `split` on one character, `replace` of one
 * character, `starts_with` and `trim_start_matches`, `u32::from_str_radix`,
 * and the number formatting of `{}`, `{:x}`, `{:016x}` and C++'s `std::hex`.
 */
module Text {
  import opened Wrappers

  /** `char::is_whitespace`: the characters with the Unicode White_Space property. */
  predicate IsWhitespace(c: char)
  {
    ('\t' <= c <= '\r') || c == ' ' || c == '\U{85}' || c == '\U{A0}' || c == '\U{1680}' ||
    ('\U{2000}' <= c <= '\U{200A}') || c == '\U{2028}' || c == '\U{2029}' || c == '\U{202F}' ||
    c == '\U{205F}' || c == '\U{3000}'
  }

  /** `trim_start`: drops the leading whitespace. */
  function TrimStart(s: string): (r: string)
    ensures |r| <= |s| && r == s[|s| - |r|..]
    ensures r == [] || !IsWhitespace(r[0])
    ensures forall i :: 0 <= i < |s| - |r| ==> IsWhitespace(s[i])
  {
    if |s| > 0 && IsWhitespace(s[0]) then TrimStart(s[1..]) else s
  }

  /** `trim_end`: drops the trailing whitespace. */
  function TrimEnd(s: string): (r: string)
    ensures |r| <= |s| && r == s[..|r|]
    ensures r == [] || !IsWhitespace(r[|r| - 1])
    ensures forall i :: |r| <= i < |s| ==> IsWhitespace(s[i])
  {
    if |s| > 0 && IsWhitespace(s[|s| - 1]) then TrimEnd(s[..|s| - 1]) else s
  }

  /** `trim`: drops leading and trailing whitespace. */
  function Trim(s: string): string
  {
    TrimEnd(TrimStart(s))
  }

  /** A string that neither starts nor ends with whitespace is its own trim. */
  lemma TrimUnchanged(s: string)
    requires s == [] || (!IsWhitespace(s[0]) && !IsWhitespace(s[|s| - 1]))
    ensures Trim(s) == s
  {
  }

  /** Every character is whitespace. */
  predicate Blank(s: string)
  {
    forall i :: 0 <= i < |s| ==> IsWhitespace(s[i])
  }

  /** A string of whitespace only trims to the empty string, and only such strings do. */
  lemma TrimEmptyIffBlank(s: string)
    ensures Trim(s) == [] <==> Blank(s)
  {
    var t := TrimStart(s);
    assert Trim(s) == [] ==> Blank(t);
    assert Blank(s) ==> Blank(t);
  }

  /** `starts_with`. */
  predicate StartsWith(s: string, prefix: string)
  {
    |prefix| <= |s| && s[..|prefix|] == prefix
  }

  /** `trim_start_matches(p)`: removes `p` from the front as often as it is there. */
  function TrimStartMatches(s: string, p: string): (r: string)
    requires |p| > 0
    ensures |r| <= |s| && r == s[|s| - |r|..]
    ensures !StartsWith(r, p)
    decreases |s|
  {
    if StartsWith(s, p) then TrimStartMatches(s[|p|..], p) else s
  }

  /**
   * `split(sep)`: the pieces between the separators, in order. There is one
   * piece more than there are separators, so the result is never empty.
   */
  function Split(s: string, sep: char): (r: seq<string>)
    ensures |r| >= 1
    ensures forall i :: 0 <= i < |r| ==> sep !in r[i]
  {
    if |s| == 0 then [[]]
    else
      var rest := Split(s[1..], sep);
      if s[0] == sep then [[]] + rest else [[s[0]] + rest[0]] + rest[1..]
  }

  /** The pieces joined with `sep` between them. */
  function Join(parts: seq<string>, sep: char): string
    requires |parts| >= 1
  {
    if |parts| == 1 then parts[0] else parts[0] + [sep] + Join(parts[1..], sep)
  }

  /** Joining the pieces of a split gives the string back. */
  lemma {:induction false} JoinSplit(s: string, sep: char)
    ensures Join(Split(s, sep), sep) == s
  {
    if |s| > 0 {
      JoinSplit(s[1..], sep);
      var rest := Split(s[1..], sep);
      if s[0] != sep && |rest| > 1 {
        assert ([[s[0]] + rest[0]] + rest[1..])[1..] == rest[1..];
      }
    }
  }

  /** Splitting pieces that hold no separator, once joined, gives the pieces back. */
  lemma {:induction false} SplitJoin(parts: seq<string>, sep: char)
    requires |parts| >= 1
    requires forall i :: 0 <= i < |parts| ==> sep !in parts[i]
    ensures Split(Join(parts, sep), sep) == parts
    decreases |parts|, |parts[0]|
  {
    if |parts| == 1 {
      SplitOfNoSep(parts[0], sep);
    } else {
      var p := parts[0];
      if |p| == 0 {
        assert Join(parts, sep) == [sep] + Join(parts[1..], sep);
        assert (([sep] + Join(parts[1..], sep)))[1..] == Join(parts[1..], sep);
        SplitJoin(parts[1..], sep);
      } else {
        var shorter := [p[1..]] + parts[1..];
        assert shorter[1..] == parts[1..];
        assert Join(parts, sep) == [p[0]] + Join(shorter, sep);
        assert ([p[0]] + Join(shorter, sep))[1..] == Join(shorter, sep);
        SplitJoin(shorter, sep);
        assert [p[0]] + p[1..] == p;
      }
    }
  }

  /** A string without the separator splits into itself. */
  lemma {:induction false} SplitOfNoSep(s: string, sep: char)
    requires sep !in s
    ensures Split(s, sep) == [s]
  {
    if |s| > 0 {
      SplitOfNoSep(s[1..], sep);
      assert [s[0]] + s[1..] == s;
    }
  }

  /** A string splits into two pieces exactly when it holds the separator exactly once. */
  lemma {:induction false} SplitTwo(a: string, b: string, sep: char)
    requires sep !in a && sep !in b
    ensures Split(a + [sep] + b, sep) == [a, b]
  {
    SplitJoin([a, b], sep);
    assert Join([a, b], sep) == a + [sep] + Join([b], sep);
  }

  /** Three pieces joined by a separator none of them holds split back into the pieces. */
  lemma SplitThree(a: string, b: string, c: string, sep: char)
    requires sep !in a && sep !in b && sep !in c
    ensures Split(a + [sep] + b + [sep] + c, sep) == [a, b, c]
  {
    assert a + [sep] + b + [sep] + c == Join([a, b, c], sep) by {
      assert [a, b, c][1..] == [b, c] && [b, c][1..] == [c];
      assert Join([a, b, c], sep) == a + [sep] + Join([b, c], sep);
      assert Join([b, c], sep) == b + [sep] + c;
    }
    SplitJoin([a, b, c], sep);
  }

  /** The first piece of a split is the text before the first separator. */
  lemma {:induction false} SplitFirst(s: string, sep: char, i: nat)
    requires i < |s| && s[i] == sep && sep !in s[..i]
    ensures Split(s, sep)[0] == s[..i]
  {
    if i > 0 {
      assert s[1..][..i - 1] == s[..i][1..];
      SplitFirst(s[1..], sep, i - 1);
      assert [s[0]] + s[1..][..i - 1] == s[..i];
    }
  }

  /** A character other than the separator that no piece holds is not in the joined string. */
  lemma {:induction false} JoinAvoids(parts: seq<string>, sep: char, c: char)
    requires |parts| >= 1 && c != sep
    requires forall i :: 0 <= i < |parts| ==> c !in parts[i]
    ensures c !in Join(parts, sep)
  {
    if |parts| > 1 {
      JoinAvoids(parts[1..], sep, c);
    }
  }

  /** The joined string starts with the first piece. */
  lemma JoinStart(parts: seq<string>, sep: char)
    requires |parts| >= 1 && |parts[0]| > 0
    ensures |Join(parts, sep)| > 0 && Join(parts, sep)[0] == parts[0][0]
  {
  }

  /** The joined string ends with the last piece. */
  lemma {:induction false} JoinEnd(parts: seq<string>, sep: char)
    requires |parts| >= 1 && |parts[|parts| - 1]| > 0
    ensures |Join(parts, sep)| > 0
    ensures Join(parts, sep)[|Join(parts, sep)| - 1] == parts[|parts| - 1][|parts[|parts| - 1]| - 1]
  {
    if |parts| > 1 {
      JoinEnd(parts[1..], sep);
    }
  }

  /** `replace(from, to)` for single characters: every `from` becomes `to`, nothing else changes. */
  function Replace(s: string, from: char, to: char): (r: string)
    ensures |r| == |s|
    ensures forall i :: 0 <= i < |s| ==> r[i] == if s[i] == from then to else s[i]
  {
    if |s| == 0 then []
    else Replace(s[..|s| - 1], from, to) + [if s[|s| - 1] == from then to else s[|s| - 1]]
  }

  /** Turning `a` into `b` and back restores a string that had no `b`. */
  lemma ReplaceBack(s: string, a: char, b: char)
    requires b !in s
    ensures Replace(Replace(s, a, b), b, a) == s
  {
  }

  // ---------------------------------------------------------------------------
  // Numbers

  /** The digit for `d` in bases up to 16, lower case. */
  function DigitChar(d: nat): (c: char)
    requires d < 16
    ensures IsDigitChar(c)
  {
    if d < 10 then ('0' as int + d) as char else ('a' as int + d - 10) as char
  }

  /** A character `DigitChar` can produce. */
  predicate IsDigitChar(c: char)
  {
    '0' <= c <= '9' || 'a' <= c <= 'f'
  }

  /** `n` in the given base, without leading zeros ("0" for zero). */
  function Digits(n: nat, radix: nat): (r: string)
    requires 2 <= radix <= 16
    ensures |r| >= 1
    ensures r[0] == '0' ==> n == 0
    decreases n
  {
    if n < radix then [DigitChar(n)]
    else
      DivLess(n, radix);
      Digits(n / radix, radix) + [DigitChar(n % radix)]
  }

  /** Decimal formatting (`{}`, `std::to_string`, `operator<<` on integers). */
  function Decimal(n: nat): string { Digits(n, 10) }

  /** Lower-case hexadecimal formatting without prefix or padding (`{:x}`, `std::hex`). */
  function Hex(n: nat): string { Digits(n, 16) }

  /** `s` padded on the left with `fill` to at least `width` characters. */
  function PadLeft(s: string, width: nat, fill: char): (r: string)
    ensures |r| == if |s| < width then width else |s|
    ensures r[|r| - |s|..] == s
    ensures forall i :: 0 <= i < |r| - |s| ==> r[i] == fill
  {
    if |s| >= width then s else seq(width - |s|, _ => fill) + s
  }

  /** `char::to_digit(radix)`: 0-9, then a-z and A-Z for 10 and up, when below the radix. */
  function DigitValue(c: char, radix: nat): (r: Option<nat>)
    ensures r.Some? ==> r.value < radix
  {
    var v :=
      if '0' <= c <= '9' then c as int - '0' as int
      else if 'a' <= c <= 'z' then c as int - 'a' as int + 10
      else if 'A' <= c <= 'Z' then c as int - 'A' as int + 10
      else 36;
    if v < radix then Some(v) else None
  }

  /** The value of a string of digits, when every character is a digit of the radix. */
  function DigitsValue(s: string, radix: nat): Option<nat>
  {
    if |s| == 0 then Some(0)
    else
      match (DigitsValue(s[..|s| - 1], radix), DigitValue(s[|s| - 1], radix))
      case (Some(v), Some(d)) => Some(v * radix + d)
      case _ => None
  }

  lemma DigitCharValue(d: nat, radix: nat)
    requires d < radix <= 16
    ensures DigitValue(DigitChar(d), radix) == Some(d)
  {
  }

  /** Reading back the digits of a number gives the number. */
  lemma {:induction false} DigitsRoundTrip(n: nat, radix: nat)
    requires 2 <= radix <= 16
    ensures DigitsValue(Digits(n, radix), radix) == Some(n)
    decreases n
  {
    if n < radix {
      DigitCharValue(n, radix);
      assert Digits(n, radix)[..0] == [];
    } else {
      DivLess(n, radix);
      DigitsRoundTrip(n / radix, radix);
      DigitsRoundTripStep(n, radix);
    }
  }

  /** A run of zeros is worth zero. */
  lemma {:induction false} ZerosValue(k: nat, radix: nat)
    requires radix >= 2
    ensures DigitsValue(seq(k, _ => '0'), radix) == Some(0)
  {
    if k > 0 {
      ZerosValue(k - 1, radix);
      assert seq(k, _ => '0')[..k - 1] == seq(k - 1, _ => '0');
    }
  }

  /** Digits worth zero in front change nothing. */
  lemma {:induction false} ZeroPrefixValue(p: string, s: string, radix: nat)
    requires DigitsValue(p, radix) == Some(0)
    ensures DigitsValue(p + s, radix) == DigitsValue(s, radix)
    decreases |s|
  {
    if |s| == 0 {
      assert p + s == p;
    } else {
      var n := |s| - 1;
      ZeroPrefixValue(p, s[..n], radix);
      assert (p + s)[..|p + s| - 1] == p + s[..n];
    }
  }

  lemma DivLess(n: nat, radix: nat)
    requires 2 <= radix <= n
    ensures 1 <= n / radix < n
  {
  }

  /** One more digit read back: the step of `DigitsRoundTrip`. */
  lemma DigitsRoundTripStep(n: nat, radix: nat)
    requires 2 <= radix <= n && radix <= 16
    requires DigitsValue(Digits(n / radix, radix), radix) == Some(n / radix)
    ensures DigitsValue(Digits(n, radix), radix) == Some(n)
  {
    var q, d := n / radix, n % radix;
    DivMod(n, radix);
    DigitCharValue(d, radix);
    DigitsValueLast(Digits(q, radix), DigitChar(d), radix, q, d);
  }

  /** The value of digits is the value of all but the last, times the radix, plus the last. */
  lemma DigitsValueLast(s: string, c: char, radix: nat, v: nat, d: nat)
    requires DigitsValue(s, radix) == Some(v)
    requires DigitValue(c, radix) == Some(d)
    ensures DigitsValue(s + [c], radix) == Some(v * radix + d)
  {
    assert (s + [c])[..|s|] == s;
  }

  /** The numbers 16^k, to bound the length of hexadecimal strings. */
  function Pow(radix: nat, k: nat): nat
  {
    if k == 0 then 1 else radix * Pow(radix, k - 1)
  }

  /** A number below radix^k has at most k digits. */
  lemma {:induction false} DigitsLength(n: nat, radix: nat, k: nat)
    requires 2 <= radix <= 16 && k >= 1 && n < Pow(radix, k)
    ensures |Digits(n, radix)| <= k
    decreases k
  {
    if n >= radix {
      assert k > 1;
      DivBelow(n, radix, Pow(radix, k - 1));
      DigitsLength(n / radix, radix, k - 1);
    }
  }

  lemma DivMod(n: nat, radix: nat)
    requires radix > 0
    ensures (n / radix) * radix + n % radix == n
  {
  }

  lemma DivBelow(n: nat, radix: nat, p: nat)
    requires radix > 0 && n < radix * p
    ensures n / radix < p
  {
    if n / radix >= p {
      assert radix * (n / radix) >= radix * p;
      DivMod(n, radix);
    }
  }

  /** A 64-bit number has at most 16 hexadecimal digits. */
  lemma HexOf64Bits(n: nat)
    requires n < 0x1_0000_0000_0000_0000
    ensures |Hex(n)| <= 16
  {
    assert Pow(16, 4) == 0x1_0000;
    assert Pow(16, 8) == 0x1_0000 * Pow(16, 4) by { PowAdd(16, 4, 4); }
    assert Pow(16, 16) == Pow(16, 8) * Pow(16, 8) by { PowAdd(16, 8, 8); }
    DigitsLength(n, 16, 16);
  }

  lemma {:induction false} PowAdd(radix: nat, a: nat, b: nat)
    ensures Pow(radix, a + b) == Pow(radix, a) * Pow(radix, b)
    decreases a
  {
    if a > 0 {
      PowAdd(radix, a - 1, b);
      assert Pow(radix, a + b) == radix * Pow(radix, a - 1 + b);
    }
  }

  /** Every character of a formatted number is a digit character. */
  lemma {:induction false} DigitsAreDigitChars(n: nat, radix: nat)
    requires 2 <= radix <= 16
    ensures forall i :: 0 <= i < |Digits(n, radix)| ==> IsDigitChar(Digits(n, radix)[i])
    decreases n
  {
    if n >= radix {
      DigitsAreDigitChars(n / radix, radix);
      var d := Digits(n / radix, radix);
      assert Digits(n, radix) == d + [DigitChar(n % radix)];
    }
  }

  /**
   * `u32::from_str_radix`: an optional `+`, then at least one digit of the
   * radix, with a value that fits 32 bits. A lone sign, an empty string, any
   * other character or an overflow is an error.
   */
  function FromStrRadixU32(s: string, radix: nat): (r: Option<nat>)
    ensures r.Some? ==> r.value < 0x1_0000_0000
  {
    if |s| == 0 || s == "+" || s == "-" then None
    else
      var digits := if s[0] == '+' then s[1..] else s;
      match DigitsValue(digits, radix)
      case Some(v) => if v < 0x1_0000_0000 then Some(v) else None
      case None => None
  }

  /** Formatting a 32-bit number and parsing it back gives the number. */
  lemma FromStrRadixDigits(n: nat, radix: nat)
    requires 2 <= radix <= 16 && n < 0x1_0000_0000
    ensures FromStrRadixU32(Digits(n, radix), radix) == Some(n)
  {
    DigitsRoundTrip(n, radix);
    var s := Digits(n, radix);
    DigitsAreDigitChars(n, radix);
    assert IsDigitChar(s[0]);
  }
}
