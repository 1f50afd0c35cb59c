/** `InstGenerator`: random instructions whose operand values fit their fields (src/generator.rs). */
module Generator {
  import opened Wrappers
  import opened Bits
  import opened Instructions
  import opened Random

  /** The known arguments with the requested field length, in order (the `filter` of `generate_argument`). */
  function SameLength(known: seq<Argument>, spec: ArgumentSpec): (r: seq<Argument>)
    ensures forall a :: a in r <==> a in known && a.spec.length == spec.length
    ensures |r| <= |known|
  {
    if |known| == 0 then []
    else
      var n := |known| - 1;
      SameLength(known[..n], spec) + (if known[n].spec.length == spec.length then [known[n]] else [])
  }

  /** `v` is the value of a known argument whose field has the requested length. */
  predicate Reused(known: seq<Argument>, spec: ArgumentSpec, v: Word)
  {
    exists a :: a in known && a.spec.length == spec.length && a.value == v
  }

  /** Every known value fits its own field. */
  predicate KnownValuesFit(known: seq<Argument>)
  {
    forall a :: a in known ==> a.value < MaxValue(a.spec)
  }

  /** Every operand of every template has a field at least one bit wide. */
  predicate PositiveFields(templates: seq<InstructionTemplate>)
  {
    forall t, op :: t in templates && op in Operands(t) ==> op.length > 0
  }

  /** A value is a reused one or below the field's bound; with fitting known values it always fits. */
  lemma GeneratedValueFits(known: seq<Argument>, spec: ArgumentSpec, v: Word)
    requires KnownValuesFit(known)
    requires Reused(known, spec, v) || v < MaxValue(spec)
    ensures v < MaxValue(spec)
  {
  }

  class InstGenerator {
    /** Arguments whose values the generator tries to reuse. */
    var knownArgs: seq<Argument>
    /** Chance, out of 100, of reusing a known value. */
    var reuseChance: nat
    /** Chance, out of 100, of picking a power of two. */
    var powerOfTwoChance: nat

    /** `new`: no known arguments, both chances 50. */
    constructor ()
      ensures knownArgs == [] && reuseChance == 50 && powerOfTwoChance == 50
    {
      knownArgs := [];
      reuseChance := 50;
      powerOfTwoChance := 50;
    }

    /** `forward_args`: appends the arguments, in order, to the known ones. */
    method ForwardArgs(args: seq<Argument>)
      modifies this
      ensures knownArgs == old(knownArgs) + args
      ensures reuseChance == old(reuseChance) && powerOfTwoChance == old(powerOfTwoChance)
    {
      knownArgs := knownArgs + args;
    }

    /**
     * `generate_argument`: with the reuse chance, copies the value of a random
     * known argument of the same field length, if there is one; otherwise,
     * with the power-of-two chance, `1 << k` for a `k` below the length, else
     * a value below `max_value`.
     */
    method GenerateArgument(rand: Rand, spec: ArgumentSpec) returns (a: Argument)
      requires spec.length > 0
      modifies rand
      ensures a.spec == spec
      ensures Reused(knownArgs, spec, a.value) || a.value < MaxValue(spec)
      ensures KnownValuesFit(knownArgs) ==> a.value < MaxValue(spec)
    {
      var roll := rand.Below(100);
      if roll < reuseChance {
        var options := SameLength(knownArgs, spec);
        if |options| > 0 {
          var i := rand.ChooseIndex(options);
          assert options[i] in knownArgs;
          a := Argument(spec, options[i].value);
          if KnownValuesFit(knownArgs) {
            GeneratedValueFits(knownArgs, spec, a.value);
          }
          return;
        }
      }
      roll := rand.Below(100);
      if roll < powerOfTwoChance {
        var k := rand.Below(spec.length);
        Pow2Monotone(k + 1, spec.length);
        Pow2Word(spec.length);
        a := Argument(spec, Pow2(k));
      } else {
        Pow2Word(spec.length);
        var v := rand.Below(MaxValue(spec));
        a := Argument(spec, v);
      }
    }

    /**
     * `generate_instruction`: a random template of the list, with one
     * generated argument per operand, in operand order.
     */
    method GenerateInstruction(rand: Rand, templates: seq<InstructionTemplate>) returns (inst: Instruction)
      requires |templates| > 0 && PositiveFields(templates)
      modifies rand
      ensures inst.template in templates
      ensures InOperandOrder(inst)
      ensures KnownValuesFit(knownArgs) ==> forall i :: 0 <= i < |inst.arguments| ==> inst.arguments[i].value < MaxValue(inst.arguments[i].spec)
    {
      var which := rand.ChooseIndex(templates);
      var template := templates[which];
      var ops := Operands(template);
      var arguments: seq<Argument> := [];
      for i := 0 to |ops|
        invariant |arguments| == i
        invariant forall j :: 0 <= j < i ==> arguments[j].spec == ops[j]
        invariant KnownValuesFit(knownArgs) ==> forall j :: 0 <= j < i ==> arguments[j].value < MaxValue(arguments[j].spec)
      {
        assert ops[i] in Operands(template);
        var arg := GenerateArgument(rand, ops[i]);
        arguments := arguments + [arg];
      }
      inst := NewInstruction(template, arguments);
    }

    /** `generate_instructions`: exactly `number` generated instructions. */
    method GenerateInstructions(rand: Rand, templates: seq<InstructionTemplate>, number: nat) returns (result: seq<Instruction>)
      requires |templates| > 0 && PositiveFields(templates)
      modifies rand
      ensures |result| == number
      ensures forall k :: 0 <= k < number ==> result[k].template in templates && InOperandOrder(result[k])
      ensures KnownValuesFit(knownArgs) ==> forall k, i :: 0 <= k < number && 0 <= i < |result[k].arguments| ==> result[k].arguments[i].value < MaxValue(result[k].arguments[i].spec)
    {
      result := [];
      for n := 0 to number
        invariant |result| == n
        invariant forall k :: 0 <= k < n ==> result[k].template in templates && InOperandOrder(result[k])
        invariant KnownValuesFit(knownArgs) ==> forall k, i :: 0 <= k < n && 0 <= i < |result[k].arguments| ==> result[k].arguments[i].value < MaxValue(result[k].arguments[i].spec)
      {
        var inst := GenerateInstruction(rand, templates);
        result := result + [inst];
      }
    }
  }

  /**
   * A generated instruction over a well-formed template, from fitting known
   * values, decodes back from its encoding.
   */
  lemma GeneratedRoundTrip(inst: Instruction)
    requires WellFormedTemplate(inst.template) && InOperandOrder(inst)
    requires forall i :: 0 <= i < |inst.arguments| ==> inst.arguments[i].value < MaxValue(inst.arguments[i].spec)
    ensures Decoded(inst.template, Encoded(inst)) == Some(inst)
  {
    var ops := Operands(inst.template);
    forall i | 0 <= i < |inst.arguments| ensures Fits(inst.arguments[i]) {
      assert inst.arguments[i].spec == ops[i];
    }
    DecodeEncode(inst);
  }
}
