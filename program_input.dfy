/**
 * `ProgramInput`, the fuzzer's input: a program as a list of instructions
 * that travels as its assembled bytes (src/program_input.rs). The template
 * list `riscv::all()` is a parameter `all`.
 */
module ProgramInputs {
  import opened Wrappers
  import opened Bits
  import opened ByteOrder
  import opened Text
  import opened Instructions
  import opened Assembler
  import opened Parser

  datatype ProgramInput = ProgramInput(insts: seq<Instruction>)

  /** `serialize`: the assembled bytes, four little-endian bytes per instruction. */
  function Serialize(p: ProgramInput): (r: seq<Byte>)
    ensures |r| == 4 * |p.insts|
    ensures forall k :: 0 <= k < |p.insts| ==> r[4 * k..4 * k + 4] == LeBytes(Encoded(p.insts[k]))
  {
    var r := Assembled(p.insts);
    forall k | 0 <= k < |p.insts| ensures r[4 * k..4 * k + 4] == LeBytes(Encoded(p.insts[k])) {
      AssembledWord(p.insts, k);
    }
    r
  }

  /**
   * `visit_borrowed_bytes`: parses the bytes with the full template list and
   * unwraps, so it panics on bytes that do not parse.
   */
  function Deserialize(bytes: seq<Byte>, all: seq<InstructionTemplate>): (r: ProgramInput)
    requires Parsed(bytes, all).Ok?
    ensures 4 * |r.insts| == |bytes|
  {
    ProgramInput(Parsed(bytes, all).value)
  }

  /** Deserialising the serialisation gives the input back when every instruction decodes back. */
  lemma DeserializeSerialize(p: ProgramInput, all: seq<InstructionTemplate>)
    requires forall k :: 0 <= k < |p.insts| ==> DecodesBack(all, p.insts[k])
    ensures Parsed(Serialize(p), all).Ok?
    ensures Deserialize(Serialize(p), all) == p
  {
    ParseAssembled(p.insts, all);
  }

  /**
   * `target_bytes`: the bytes the target executes, the serialisation. The
   * source's debug assertion that they parse is a precondition here.
   */
  function TargetBytes(p: ProgramInput, all: seq<InstructionTemplate>): (r: seq<Byte>)
    requires Parsed(Assembled(p.insts), all).Ok?
    ensures r == Serialize(p) && |r| == 4 * |p.insts|
    ensures Parsed(r, all).Ok? && |Parsed(r, all).value| == |p.insts|
  {
    Assembled(p.insts)
  }

  /** `len`: the length counts instructions, a quarter of the bytes. */
  function Len(p: ProgramInput): (r: nat)
    ensures 4 * r == |Serialize(p)|
  {
    |p.insts|
  }

  /** The caller's byte buffer (`&mut Vec<u8>`). */
  class ByteBuffer {
    var bytes: seq<Byte>

    constructor (initial: seq<Byte>)
      ensures bytes == initial
    {
      bytes := initial;
    }
  }

  /** `unparse`: clears the buffer, then fills it with the serialisation. */
  method Unparse(p: ProgramInput, buffer: ByteBuffer)
    modifies buffer
    ensures buffer.bytes == Serialize(p)
  {
    buffer.bytes := [];
    var assembled := AssembleInstructions(p.insts);
    buffer.bytes := buffer.bytes + assembled;
  }

  // ---------------------------------------------------------------------------
  // crop

  /** The outcomes of `crop` as written: a value, the error, or a panic. */
  datatype CropOutcome = Cropped(input: ProgramInput) | IllegalArgument | Panicked

  /**
   * `clone_from_slice`: copies `source` over `destination`, which must have
   * the same length; `None` is the panic on a length mismatch.
   */
  function CloneFromSlice<T>(destination: seq<T>, source: seq<T>): (r: Option<seq<T>>)
    ensures r.Some? <==> |destination| == |source|
    ensures r.Some? ==> r.value == source
  {
    if |destination| == |source| then Some(source) else None
  }

  /**
   * `crop` as written: on a valid range it clones the slice into a new empty
   * vector with `clone_from_slice`, which panics unless both have the same
   * length, so every range it accepts panics.
   */
  function CropAsWritten(p: ProgramInput, from: nat, to: nat): (r: CropOutcome)
    ensures r.IllegalArgument? <==> !(from < to <= |p.insts|)
  {
    if from < to && to <= |p.insts| then
      match CloneFromSlice([], p.insts[from..to])
      case Some(insts) => Cropped(ProgramInput(insts))
      case None => Panicked
    else IllegalArgument
  }

  /** Every range `crop` accepts makes it panic: it never returns a cropped input. */
  lemma CropAsWrittenPanics(p: ProgramInput, from: nat, to: nat)
    requires from < to <= |p.insts|
    ensures CropAsWritten(p, from, to) == Panicked
  {
  }

  /** `crop` as written never yields a value, whatever its arguments. */
  lemma CropAsWrittenNeverCrops(p: ProgramInput, from: nat, to: nat)
    ensures !CropAsWritten(p, from, to).Cropped?
  {
  }

  /** The one error `crop` reports. */
  datatype CropError = InvalidRange

  /** `crop` as intended: the instructions `from` up to `to`, or an error for an empty or out-of-range span. */
  function Crop(p: ProgramInput, from: nat, to: nat): (r: Result<ProgramInput, CropError>)
    ensures r.Ok? <==> from < to <= |p.insts|
    ensures r.Ok? ==> Len(r.value) == to - from
    ensures r.Ok? ==> forall i :: 0 <= i < to - from ==> r.value.insts[i] == p.insts[from + i]
  {
    if from < to && to <= |p.insts| then Ok(ProgramInput(p.insts[from..to])) else Err(InvalidRange)
  }

  /** Cropping a cropped input is one crop of the original. */
  lemma CropCrop(p: ProgramInput, a: nat, b: nat, c: nat, d: nat)
    requires Crop(p, a, b).Ok? && Crop(Crop(p, a, b).value, c, d).Ok?
    ensures Crop(p, a + c, a + d) == Crop(Crop(p, a, b).value, c, d)
  {
    assert p.insts[a..b][c..d] == p.insts[a + c..a + d];
  }

  /** Cropping the whole range gives the input back. */
  lemma CropWhole(p: ProgramInput)
    requires |p.insts| > 0
    ensures Crop(p, 0, |p.insts|) == Ok(p)
  {
    assert p.insts[0..|p.insts|] == p.insts;
  }

  // ---------------------------------------------------------------------------
  // generate_name

  /**
   * `generate_name`: `size:<instruction count>-hash:<16 hex digits>`, the
   * hash taken over the serialisation; the seeded hasher is a parameter.
   */
  function GenerateName(p: ProgramInput, hasher: seq<Byte> -> U64): (r: string)
    ensures |r| == 5 + |Decimal(|p.insts|)| + 6 + 16
  {
    HexOf64Bits(hasher(Serialize(p)));
    "size:" + Decimal(|p.insts|) + "-hash:" + PadLeft(Hex(hasher(Serialize(p))), 16, '0')
  }

  /** Leading zeros do not change the value of digits. */
  lemma {:induction false} LeadingZeros(k: nat, s: string, radix: nat)
    requires 2 <= radix
    ensures DigitsValue(seq(k, _ => '0') + s, radix) == DigitsValue(s, radix)
    decreases |s|
  {
    var z := seq(k, _ => '0');
    if |s| == 0 {
      assert z + s == z;
      ZerosValue(k, radix);
    } else {
      var n := |s| - 1;
      LeadingZeros(k, s[..n], radix);
      assert (z + s)[..|z + s| - 1] == z + s[..n];
    }
  }

  /** Every character of `s` is a digit character. */
  predicate AllDigitChars(s: string)
  {
    forall i :: 0 <= i < |s| ==> IsDigitChar(s[i])
  }

  /** A prefix without `-` followed by digits holds no `-`. */
  lemma NoDashAfterPrefix(prefix: string, zeros: nat, digits: string)
    requires '-' !in prefix && AllDigitChars(digits)
    ensures '-' !in prefix + seq(zeros, _ => '0') + digits
  {
    var s := prefix + seq(zeros, _ => '0') + digits;
    forall i | 0 <= i < |s| ensures s[i] != '-' {
      if i >= |prefix| + zeros { assert s[i] == digits[i - |prefix| - zeros]; }
    }
  }

  /** The name splits at `-` into its size part and its hash part. */
  lemma GenerateNameSplits(p: ProgramInput, hasher: seq<Byte> -> U64)
    ensures Split(GenerateName(p, hasher), '-') ==
      ["size:" + Decimal(|p.insts|), "hash:" + PadLeft(Hex(hasher(Serialize(p))), 16, '0')]
  {
    var h := hasher(Serialize(p));
    HexOf64Bits(h);
    var hex := Hex(h);
    DigitsAreDigitChars(|p.insts|, 10);
    DigitsAreDigitChars(h, 16);
    NoDashAfterPrefix("size:", 0, Decimal(|p.insts|));
    assert "size:" + seq(0, _ => '0') + Decimal(|p.insts|) == "size:" + Decimal(|p.insts|);
    NoDashAfterPrefix("hash:", 16 - |hex|, hex);
    assert PadLeft(hex, 16, '0') == seq(16 - |hex|, _ => '0') + hex;
    assert "hash:" + PadLeft(hex, 16, '0') == "hash:" + seq(16 - |hex|, _ => '0') + hex;
    var a, b := "size:" + Decimal(|p.insts|), "hash:" + PadLeft(hex, 16, '0');
    assert GenerateName(p, hasher) == a + ['-'] + b;
    SplitTwo(a, b, '-');
  }

  /** The two numbers of the name read back as the instruction count and the hash. */
  lemma GenerateNameReadsBack(p: ProgramInput, hasher: seq<Byte> -> U64)
    ensures DigitsValue(Decimal(|p.insts|), 10) == Some(|p.insts|)
    ensures DigitsValue(PadLeft(Hex(hasher(Serialize(p))), 16, '0'), 16) == Some(hasher(Serialize(p)))
  {
    var h := hasher(Serialize(p));
    HexOf64Bits(h);
    var hex := Hex(h);
    DigitsRoundTrip(|p.insts|, 10);
    DigitsRoundTrip(h, 16);
    assert PadLeft(hex, 16, '0') == seq(16 - |hex|, _ => '0') + hex;
    LeadingZeros(16 - |hex|, hex, 16);
  }

  /** Inputs with the same name have the same length and the same hash. */
  lemma SameNameSameSizeAndHash(p: ProgramInput, q: ProgramInput, hasher: seq<Byte> -> U64)
    requires GenerateName(p, hasher) == GenerateName(q, hasher)
    ensures |p.insts| == |q.insts| && hasher(Serialize(p)) == hasher(Serialize(q))
  {
    GenerateNameSplits(p, hasher);
    GenerateNameSplits(q, hasher);
    GenerateNameReadsBack(p, hasher);
    GenerateNameReadsBack(q, hasher);
    var sp := Split(GenerateName(p, hasher), '-');
    assert sp[0][5..] == Decimal(|p.insts|);
    assert sp[1][5..] == PadLeft(Hex(hasher(Serialize(p))), 16, '0');
    var sq := Split(GenerateName(q, hasher), '-');
    assert sq[0][5..] == Decimal(|q.insts|);
    assert sq[1][5..] == PadLeft(Hex(hasher(Serialize(q))), 16, '0');
  }
}
