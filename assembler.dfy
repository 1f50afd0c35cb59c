/** Serialising a program as consecutive little-endian instruction words (src/assembler.rs). */
module Assembler {
  import opened Bits
  import opened ByteOrder
  import opened Instructions

  /** The bytes of a program: each instruction's encoding, least significant byte first. */
  function Assembled(insts: seq<Instruction>): (r: seq<Byte>)
    ensures |r| == 4 * |insts|
  {
    if |insts| == 0 then []
    else Assembled(insts[..|insts| - 1]) + LeBytes(Encoded(insts[|insts| - 1]))
  }

  /** `assemble_instructions`: pushes the four bytes of every instruction's encoding. */
  method AssembleInstructions(input: seq<Instruction>) returns (result: seq<Byte>)
    ensures result == Assembled(input)
  {
    result := [];
    for i := 0 to |input|
      invariant result == Assembled(input[..i])
    {
      var word := Encode(input[i]);
      var bytes := LeBytes(word);
      for j := 0 to 4
        invariant result == Assembled(input[..i]) + bytes[..j]
      {
        assert bytes[..j + 1] == bytes[..j] + [bytes[j]];
        result := result + [bytes[j]];
      }
      assert input[..i + 1][..i] == input[..i];
    }
    assert input[..|input|] == input;
  }

  /** Assembling a concatenation concatenates the assembled parts; the empty program is empty. */
  lemma {:induction false} AssembledAppend(a: seq<Instruction>, b: seq<Instruction>)
    ensures Assembled(a + b) == Assembled(a) + Assembled(b)
    decreases |b|
  {
    if |b| == 0 {
      assert a + b == a;
    } else {
      var n := |b| - 1;
      assert (a + b)[..|a + b| - 1] == a + b[..n];
      AssembledAppend(a, b[..n]);
    }
  }

  /** Bytes 4k to 4k + 3 are the little-endian bytes of the encoding of instruction k. */
  lemma {:induction false} AssembledWord(insts: seq<Instruction>, k: nat)
    requires k < |insts|
    ensures Assembled(insts)[4 * k..4 * k + 4] == LeBytes(Encoded(insts[k]))
    decreases |insts|
  {
    var n := |insts| - 1;
    if k < n {
      AssembledWord(insts[..n], k);
    }
  }
}
