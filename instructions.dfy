/**
 * RISC-V instruction templates, operand fields and the 32-bit instruction
 * codec (src/instructions.rs). The generated template tables are not part of
 * this model: a template is any value of `InstructionTemplate`, and the
 * base instruction formats of the RISC-V Unprivileged ISA manual (section 2.2,
 * "Base Instruction Formats") are what `WellFormedTemplate` asks of them.
 */
module Instructions {
  import opened Wrappers
  import opened Bits

  /** A named operand field of `length` bits starting at bit `offset`. */
  datatype ArgumentSpec = ArgumentSpec(name: string, length: Width, offset: Width)

  /** A value for one operand field. */
  datatype Argument = Argument(spec: ArgumentSpec, value: Word)

  /**
   * An instruction is recognised by `data & maskPattern == matchPattern`;
   * it has up to five operand fields, in this order.
   */
  datatype InstructionTemplate = InstructionTemplate(
    name: string,
    matchPattern: Word,
    maskPattern: Word,
    operand1: Option<ArgumentSpec>,
    operand2: Option<ArgumentSpec>,
    operand3: Option<ArgumentSpec>,
    operand4: Option<ArgumentSpec>,
    operand5: Option<ArgumentSpec>)

  /** A template together with the values of its operands. */
  datatype Instruction = Instruction(template: InstructionTemplate, arguments: seq<Argument>)

  // ---------------------------------------------------------------------------
  // ArgumentSpec

  /** `max_value`: 2 to the power of the field length. */
  function MaxValue(spec: ArgumentSpec): Word
  {
    Pow2Word(spec.length);
    Pow2(spec.length)
  }

  /**
   * `max_value` is one more than the largest value the field can hold: the
   * values below it are exactly those the field's mask keeps, and it does not
   * fit the field itself.
   */
  lemma MaxValueIsOnePastLargestFit(spec: ArgumentSpec, v: Word)
    ensures v < MaxValue(spec) <==> And(v, LowMask(spec.length)) == v
    ensures And(MaxValue(spec), LowMask(spec.length)) == 0
  {
    FitsIffBelowPow2(v, spec.length);
    Pow2AndLowMask(spec.length);
  }

  /** `extract`: the operand's field of `inst`, shifted down and masked to `length` bits. */
  function Extract(spec: ArgumentSpec, inst: Word): (a: Argument)
    ensures a.spec == spec
    ensures a.value < MaxValue(spec)
  {
    FieldValueFits(inst, spec.length, spec.offset);
    FieldValueWord(inst, spec.length, spec.offset);
    Argument(spec, FieldValue(inst, spec.length, spec.offset))
  }

  /** The field lies inside the 32-bit word, so no bit of a fitting value is shifted out. */
  predicate FieldInWord(spec: ArgumentSpec)
  {
    spec.offset + spec.length <= 32
  }

  /** The value fits the field and the field lies inside the word. */
  predicate Fits(a: Argument)
  {
    a.value < MaxValue(a.spec) && FieldInWord(a.spec)
  }

  /** The bits of an instruction word that belong to this operand. */
  function SpecMask(spec: ArgumentSpec): nat
  {
    FieldMask(spec.length, spec.offset)
  }

  // ---------------------------------------------------------------------------
  // InstructionTemplate

  /** `[op1, .., op5].into_iter().flatten()`: the present operands, in order, absent ones skipped. */
  function Flatten(opts: seq<Option<ArgumentSpec>>): (r: seq<ArgumentSpec>)
    ensures |r| <= |opts|
  {
    if |opts| == 0 then []
    else (if opts[0].Some? then [opts[0].value] else []) + Flatten(opts[1..])
  }

  /** An operand is listed exactly when one of the slots holds it. */
  lemma {:induction false} FlattenMembers(opts: seq<Option<ArgumentSpec>>, s: ArgumentSpec)
    ensures s in Flatten(opts) <==> Some(s) in opts
  {
    if |opts| > 0 {
      FlattenMembers(opts[1..], s);
      assert opts == [opts[0]] + opts[1..];
    }
  }

  /** The five operand slots, in order. */
  function Slots(t: InstructionTemplate): seq<Option<ArgumentSpec>>
  {
    [t.operand1, t.operand2, t.operand3, t.operand4, t.operand5]
  }

  /** `operands`: the present operands, in operand1..operand5 order. */
  function Operands(t: InstructionTemplate): (r: seq<ArgumentSpec>)
    ensures |r| <= 5
  {
    Flatten(Slots(t))
  }

  /** The operands are exactly the specs held by the five slots. */
  lemma OperandsMembers(t: InstructionTemplate, s: ArgumentSpec)
    ensures s in Operands(t) <==>
      (t.operand1 == Some(s) || t.operand2 == Some(s) || t.operand3 == Some(s) ||
       t.operand4 == Some(s) || t.operand5 == Some(s))
  {
    FlattenMembers(Slots(t), s);
  }

  /** `base_pattern`: the word an instruction starts from before its operands are ORed in. */
  function BasePattern(t: InstructionTemplate): Word
  {
    t.matchPattern
  }

  /** `matches`. */
  predicate Matches(t: InstructionTemplate, data: Word)
  {
    And(data, t.maskPattern) == t.matchPattern
  }

  /** The index of the first operand called `name`, or `|ops|` when there is none. */
  function FirstIndexWithName(ops: seq<ArgumentSpec>, name: string): (k: nat)
    ensures k <= |ops|
    ensures k < |ops| ==> ops[k].name == name
    ensures forall j :: 0 <= j < k ==> ops[j].name != name
  {
    if |ops| == 0 then 0
    else if ops[0].name == name then 0
    else 1 + FirstIndexWithName(ops[1..], name)
  }

  /** The first operand called `name`, if any. */
  function FirstWithName(ops: seq<ArgumentSpec>, name: string): (r: Option<ArgumentSpec>)
    ensures r.None? <==> forall j :: 0 <= j < |ops| ==> ops[j].name != name
    ensures r.Some? ==> r.value.name == name && r.value in ops
  {
    var k := FirstIndexWithName(ops, name);
    if k < |ops| then Some(ops[k]) else None
  }

  /** `op_with_name`: a loop over the operands that returns at the first one called `name`. */
  method OpWithName(t: InstructionTemplate, name: string) returns (r: Option<ArgumentSpec>)
    ensures r == FirstWithName(Operands(t), name)
  {
    var ops := Operands(t);
    var i := 0;
    while i < |ops|
      invariant 0 <= i <= |ops|
      invariant forall j :: 0 <= j < i ==> ops[j].name != name
    {
      if ops[i].name == name {
        assert FirstIndexWithName(ops, name) == i by {
          FirstIndexIsFirstMatch(ops, name, i);
        }
        return Some(ops[i]);
      }
      i := i + 1;
    }
    return None;
  }

  /** Any index whose operand is the first one called `name` is the one `FirstIndexWithName` finds. */
  lemma {:induction false} FirstIndexIsFirstMatch(ops: seq<ArgumentSpec>, name: string, i: nat)
    requires i < |ops| && ops[i].name == name
    requires forall j :: 0 <= j < i ==> ops[j].name != name
    ensures FirstIndexWithName(ops, name) == i
  {
  }

  /** One extracted argument per operand, in operand order. */
  function ExtractAll(ops: seq<ArgumentSpec>, data: Word): (r: seq<Argument>)
    ensures |r| == |ops|
    ensures forall i :: 0 <= i < |ops| ==> r[i] == Extract(ops[i], data)
  {
    if |ops| == 0 then []
    else ExtractAll(ops[..|ops| - 1], data) + [Extract(ops[|ops| - 1], data)]
  }

  /** `decode` as a value: None when the word does not match, else one extracted argument per operand. */
  function Decoded(t: InstructionTemplate, data: Word): (r: Option<Instruction>)
    ensures r.None? <==> !Matches(t, data)
    ensures r.Some? ==> r.value.template == t && |r.value.arguments| == |Operands(t)|
    ensures r.Some? ==> forall i :: 0 <= i < |Operands(t)| ==>
      r.value.arguments[i] == Extract(Operands(t)[i], data)
  {
    if !Matches(t, data) then None else Some(Instruction(t, ExtractAll(Operands(t), data)))
  }

  /** `decode`: checks the match, then pushes one extracted argument per operand. */
  method Decode(t: InstructionTemplate, data: Word) returns (r: Option<Instruction>)
    ensures r == Decoded(t, data)
  {
    if !Matches(t, data) {
      return None;
    }
    var ops := Operands(t);
    var args: seq<Argument> := [];
    for i := 0 to |ops|
      invariant |args| == i
      invariant forall j :: 0 <= j < i ==> args[j] == Extract(ops[j], data)
    {
      args := args + [Extract(ops[i], data)];
    }
    assert args == ExtractAll(ops, data);
    return Some(Instruction(t, args));
  }

  // ---------------------------------------------------------------------------
  // Argument and Instruction encoding

  /** `Argument::encode`: `value << offset` (bits shifted past bit 31 are lost). */
  function EncodeArgument(a: Argument): Word
  {
    ShlWord(a.value, a.spec.offset)
  }

  /** A fitting argument loses no bit to the 32-bit shift. */
  lemma EncodeArgumentExact(a: Argument)
    requires Fits(a)
    ensures EncodeArgument(a) == Shl(a.value, a.spec.offset)
  {
    ShlWordExact(a.value, a.spec.length, a.spec.offset);
  }

  /** A fitting argument is encoded inside its own field. */
  lemma EncodeArgumentInField(a: Argument)
    requires Fits(a)
    ensures And(EncodeArgument(a), SpecMask(a.spec)) == EncodeArgument(a)
  {
    EncodeArgumentExact(a);
    ShiftedInField(a.value, a.spec.length, a.spec.offset);
  }

  /** A fitting argument is read back by its own field. */
  lemma EncodeArgumentRoundTrip(a: Argument)
    requires Fits(a)
    ensures Extract(a.spec, EncodeArgument(a)) == a
  {
    EncodeArgumentExact(a);
    ShiftRoundTrip(a.value, a.spec.length, a.spec.offset);
  }

  /** A fitting argument reads zero in a field disjoint from its own. */
  lemma EncodeArgumentOutside(a: Argument, s: ArgumentSpec)
    requires Fits(a)
    requires And(SpecMask(a.spec), SpecMask(s)) == 0
    ensures FieldValue(EncodeArgument(a), s.length, s.offset) == 0
  {
    EncodeArgumentExact(a);
    ShiftedOutsideDisjoint(a.value, a.spec.length, a.spec.offset, s.length, s.offset);
  }

  /** A fitting argument whose field avoids `m` has no bit in `m`. */
  lemma EncodeArgumentAvoids(a: Argument, m: nat)
    requires Fits(a)
    requires And(SpecMask(a.spec), m) == 0
    ensures And(EncodeArgument(a), m) == 0
  {
    EncodeArgumentExact(a);
    ShiftedAvoids(a.value, a.spec.length, a.spec.offset, m);
  }

  /** The OR of the encodings of `args`, accumulated from the first to the last. */
  function EncodedArgs(args: seq<Argument>): Word
  {
    if |args| == 0 then 0
    else WordOr(EncodedArgs(args[..|args| - 1]), EncodeArgument(args[|args| - 1]))
  }

  /** `Instruction::encode` as a value: the base pattern ORed with every argument's encoding. */
  function Encoded(inst: Instruction): Word
  {
    WordOr(BasePattern(inst.template), EncodedArgs(inst.arguments))
  }

  /** `Instruction::encode`: starts from the base pattern and ORs in each argument. */
  method Encode(inst: Instruction) returns (r: Word)
    ensures r == Encoded(inst)
  {
    var base, args := BasePattern(inst.template), inst.arguments;
    r := base;
    OrZero(base);
    for i := 0 to |args|
      invariant r == Or(base, EncodedArgs(args[..i]))
    {
      assert args[..i + 1][..i] == args[..i];
      OrAssoc(base, EncodedArgs(args[..i]), EncodeArgument(args[i]));
      r := WordOr(r, EncodeArgument(args[i]));
    }
    assert args[..|args|] == args;
  }

  /** Encoding a single argument. */
  lemma EncodedArgsSingle(x: Argument)
    ensures EncodedArgs([x]) == EncodeArgument(x)
  {
    assert [x][..0] == [];
    ZeroOr(EncodeArgument(x));
  }

  /** Encoding a concatenation ORs the encodings of the parts. */
  lemma {:induction false} EncodedArgsAppend(a: seq<Argument>, b: seq<Argument>)
    ensures EncodedArgs(a + b) == Or(EncodedArgs(a), EncodedArgs(b))
    decreases |b|
  {
    if |b| == 0 {
      assert a + b == a;
      OrZero(EncodedArgs(a));
    } else {
      var n := |b| - 1;
      assert (a + b)[..|a + b| - 1] == a + b[..n];
      EncodedArgsAppend(a, b[..n]);
      OrAssoc(EncodedArgs(a), EncodedArgs(b[..n]), EncodeArgument(b[n]));
    }
  }

  /** Taking the same element `x` out of two permutations of each other leaves permutations. */
  lemma RemoveFromPermutation(a: seq<Argument>, front: seq<Argument>, x: Argument, back: seq<Argument>)
    requires multiset(a + [x]) == multiset(front + [x] + back)
    ensures multiset(a) == multiset(front + back)
  {
    calc {
      multiset(a) + multiset{x};
      multiset(a + [x]);
      multiset(front + [x] + back);
      multiset(front) + multiset{x} + multiset(back);
      multiset(front + back) + multiset{x};
    }
    assert multiset(a) == multiset(a) + multiset{x} - multiset{x};
    assert multiset(front + back) == multiset(front + back) + multiset{x} - multiset{x};
  }

  /** Moving one argument from the middle to the end does not change the encoding. */
  lemma EncodedArgsMoveToEnd(front: seq<Argument>, x: Argument, back: seq<Argument>)
    ensures EncodedArgs(front + [x] + back) == EncodedArgs(front + back + [x])
  {
    EncodedArgsAppend(front + [x], back);
    EncodedArgsAppend(front, [x]);
    EncodedArgsAppend(front, back);
    EncodedArgsAppend(front + back, [x]);
    EncodedArgsSingle(x);
    OrSwap(EncodedArgs(front), EncodeArgument(x), EncodedArgs(back));
  }

  /** The encoding of the arguments does not depend on their order. */
  lemma {:induction false} EncodedArgsPermutation(a: seq<Argument>, b: seq<Argument>)
    requires multiset(a) == multiset(b)
    ensures EncodedArgs(a) == EncodedArgs(b)
    decreases |a|
  {
    if |a| == 0 {
      assert |b| == |multiset(b)| == 0;
    } else {
      var n := |a| - 1;
      var x := a[n];
      assert a == a[..n] + [x];
      assert x in multiset(b);
      var j :| 0 <= j < |b| && b[j] == x;
      var front, back := b[..j], b[j + 1..];
      assert b == front + [x] + back;
      RemoveFromPermutation(a[..n], front, x, back);
      EncodedArgsPermutation(a[..n], front + back);
      EncodedArgsMoveToEnd(front, x, back);
      assert (front + back + [x])[..|front + back|] == front + back;
    }
  }

  /** Two instructions of one template whose arguments are a permutation of each other encode alike. */
  lemma EncodeOrderIndependent(i1: Instruction, i2: Instruction)
    requires i1.template == i2.template
    requires multiset(i1.arguments) == multiset(i2.arguments)
    ensures Encoded(i1) == Encoded(i2)
  {
    EncodedArgsPermutation(i1.arguments, i2.arguments);
  }

  // ---------------------------------------------------------------------------
  // The decode/encode round trip

  /**
   * Templates as the base formats lay them out: the match bits lie inside the
   * mask, every operand field lies inside the word and outside the mask, and
   * no two operand fields overlap.
   */
  predicate WellFormedTemplate(t: InstructionTemplate)
  {
    var ops := Operands(t);
    And(t.matchPattern, t.maskPattern) == t.matchPattern &&
    (forall i :: 0 <= i < |ops| ==> FieldInWord(ops[i]) && And(SpecMask(ops[i]), t.maskPattern) == 0) &&
    (forall i, j :: 0 <= i < j < |ops| ==> And(SpecMask(ops[i]), SpecMask(ops[j])) == 0)
  }

  /** One argument per operand, in operand order, as `Instruction::new` asserts in debug builds. */
  predicate InOperandOrder(inst: Instruction)
  {
    var ops := Operands(inst.template);
    |inst.arguments| == |ops| &&
    forall i :: 0 <= i < |ops| ==> inst.arguments[i].spec == ops[i]
  }

  /** Every argument's value fits its field, and the field lies inside the word. */
  predicate ValuesFit(args: seq<Argument>)
  {
    forall i :: 0 <= i < |args| ==> Fits(args[i])
  }

  /** An instruction for which `decode(encode(inst)) == inst` is expected. */
  predicate Canonical(inst: Instruction)
  {
    WellFormedTemplate(inst.template) && InOperandOrder(inst) && ValuesFit(inst.arguments)
  }

  /** Fitting arguments whose fields avoid `m` encode to a word with no bit in `m`. */
  lemma {:induction false} EncodedArgsAvoid(args: seq<Argument>, m: nat)
    requires ValuesFit(args)
    requires forall i :: 0 <= i < |args| ==> And(SpecMask(args[i].spec), m) == 0
    ensures And(EncodedArgs(args), m) == 0
    decreases |args|
  {
    if |args| == 0 {
      AndComm(0, m);
      AndZero(m);
    } else {
      var n := |args| - 1;
      EncodedArgsAvoid(args[..n], m);
      EncodeArgumentAvoids(args[n], m);
      AndOr(EncodedArgs(args[..n]), EncodeArgument(args[n]), m);
    }
  }

  /** Fitting arguments whose fields all miss the field `s` leave that field zero. */
  lemma {:induction false} EncodedArgsFieldZero(args: seq<Argument>, s: ArgumentSpec)
    requires ValuesFit(args)
    requires forall i :: 0 <= i < |args| ==> And(SpecMask(args[i].spec), SpecMask(s)) == 0
    ensures FieldValue(EncodedArgs(args), s.length, s.offset) == 0
    decreases |args|
  {
    if |args| == 0 {
      ShrZero(s.offset);
      AndComm(0, LowMask(s.length));
      AndZero(LowMask(s.length));
    } else {
      var n := |args| - 1;
      EncodedArgsFieldZero(args[..n], s);
      EncodeArgumentOutside(args[n], s);
      FieldValueOr(EncodedArgs(args[..n]), EncodeArgument(args[n]), s.length, s.offset);
    }
  }

  /** The field of argument j holds exactly its value when no other argument overlaps it. */
  lemma {:induction false} EncodedArgsField(args: seq<Argument>, j: nat)
    requires ValuesFit(args)
    requires j < |args|
    requires forall i :: 0 <= i < |args| && i != j ==> And(SpecMask(args[i].spec), SpecMask(args[j].spec)) == 0
    ensures FieldValue(EncodedArgs(args), args[j].spec.length, args[j].spec.offset) == args[j].value
    decreases |args|
  {
    var n := |args| - 1;
    var s := args[j].spec;
    FieldValueOr(EncodedArgs(args[..n]), EncodeArgument(args[n]), s.length, s.offset);
    if j == n {
      EncodedArgsFieldZero(args[..n], s);
      EncodeArgumentRoundTrip(args[n]);
      ZeroOr(args[n].value);
    } else {
      EncodedArgsField(args[..n], j);
      EncodeArgumentOutside(args[n], s);
      OrZero(args[j].value);
    }
  }

  /** The base pattern has no bit in an operand field that avoids the mask. */
  lemma BaseOutsideField(t: InstructionTemplate, s: ArgumentSpec)
    requires And(t.matchPattern, t.maskPattern) == t.matchPattern
    requires And(SpecMask(s), t.maskPattern) == 0
    ensures FieldValue(BasePattern(t), s.length, s.offset) == 0
  {
    AndComm(SpecMask(s), t.maskPattern);
    InsideAvoids(t.matchPattern, t.maskPattern, SpecMask(s));
    FieldZero(t.matchPattern, s.length, s.offset);
  }

  /** The operand fields of a well-formed template avoid one another, in either order. */
  lemma OperandsDisjoint(t: InstructionTemplate, i: nat, j: nat)
    requires WellFormedTemplate(t)
    requires i < |Operands(t)| && j < |Operands(t)| && i != j
    ensures And(SpecMask(Operands(t)[i]), SpecMask(Operands(t)[j])) == 0
  {
    if j < i {
      AndComm(SpecMask(Operands(t)[j]), SpecMask(Operands(t)[i]));
    }
  }

  /** An encoded canonical instruction matches its template. */
  lemma EncodedMatches(inst: Instruction)
    requires Canonical(inst)
    ensures Matches(inst.template, Encoded(inst))
  {
    var t, args := inst.template, inst.arguments;
    EncodedArgsAvoid(args, t.maskPattern);
    AndOr(BasePattern(t), EncodedArgs(args), t.maskPattern);
    OrZero(t.matchPattern);
  }

  /** Operand i of an encoded canonical instruction reads back argument i. */
  lemma EncodedOperand(inst: Instruction, i: nat)
    requires Canonical(inst) && i < |inst.arguments|
    ensures Extract(Operands(inst.template)[i], Encoded(inst)) == inst.arguments[i]
  {
    var t, args := inst.template, inst.arguments;
    var s := args[i].spec;
    forall k | 0 <= k < |args| && k != i
      ensures And(SpecMask(args[k].spec), SpecMask(s)) == 0
    {
      OperandsDisjoint(t, k, i);
    }
    EncodedArgsField(args, i);
    BaseOutsideField(t, s);
    FieldValueOr(BasePattern(t), EncodedArgs(args), s.length, s.offset);
    ZeroOr(args[i].value);
  }

  /**
   * `decode(encode(inst)) == inst` for arguments in operand order whose values
   * fit their fields, when the fields are pairwise disjoint and disjoint from
   * the mask bits.
   */
  lemma DecodeEncode(inst: Instruction)
    requires Canonical(inst)
    ensures Decoded(inst.template, Encoded(inst)) == Some(inst)
  {
    var t, w := inst.template, Encoded(inst);
    EncodedMatches(inst);
    forall i | 0 <= i < |inst.arguments|
      ensures Extract(Operands(t)[i], w) == inst.arguments[i]
    {
      EncodedOperand(inst, i);
    }
    assert Decoded(t, w).value.arguments == inst.arguments;
  }

  /** `Instruction::new`, with its debug assertions (argument count and names) as the precondition. */
  function NewInstruction(t: InstructionTemplate, args: seq<Argument>): (r: Instruction)
    requires |args| == |Operands(t)|
    requires forall i :: 0 <= i < |args| ==> args[i].spec.name == Operands(t)[i].name
    ensures r.template == t && r.arguments == args
  {
    Instruction(t, args)
  }

  // ---------------------------------------------------------------------------
  // set_arg

  /** `retain(|arg| arg.spec != spec)`: the arguments of other specs, in their order. */
  function Without(args: seq<Argument>, spec: ArgumentSpec): (r: seq<Argument>)
    ensures |r| <= |args|
  {
    if |args| == 0 then []
    else
      var n := |args| - 1;
      Without(args[..n], spec) + (if args[n].spec != spec then [args[n]] else [])
  }

  /** `retain` keeps exactly the arguments whose spec differs. */
  lemma {:induction false} WithoutMembers(args: seq<Argument>, spec: ArgumentSpec, a: Argument)
    ensures a in Without(args, spec) <==> a in args && a.spec != spec
  {
    if |args| > 0 {
      var n := |args| - 1;
      WithoutMembers(args[..n], spec, a);
      assert args == args[..n] + [args[n]];
    }
  }

  /** `retain` keeps the relative order: filtering a concatenation concatenates the filtered parts. */
  lemma {:induction false} WithoutAppend(a: seq<Argument>, b: seq<Argument>, spec: ArgumentSpec)
    ensures Without(a + b, spec) == Without(a, spec) + Without(b, spec)
  {
    if |b| == 0 {
      assert a + b == a;
    } else {
      var n := |b| - 1;
      assert (a + b)[..|a + b| - 1] == a + b[..n];
      WithoutAppend(a, b[..n], spec);
    }
  }

  /** `retain` on arguments none of which has the spec changes nothing. */
  lemma {:induction false} WithoutAbsent(args: seq<Argument>, spec: ArgumentSpec)
    requires forall i :: 0 <= i < |args| ==> args[i].spec != spec
    ensures Without(args, spec) == args
  {
    if |args| > 0 {
      var n := |args| - 1;
      WithoutAbsent(args[..n], spec);
      assert args[..n] + [args[n]] == args;
    }
  }

  /** `set_arg`: drops every argument with the new argument's spec, then appends the new one. */
  method SetArg(inst: Instruction, newArg: Argument) returns (r: Instruction)
    ensures r.template == inst.template
    ensures r.arguments == Without(inst.arguments, newArg.spec) + [newArg]
  {
    var args := inst.arguments;
    var kept: seq<Argument> := [];
    for i := 0 to |args|
      invariant kept == Without(args[..i], newArg.spec)
    {
      assert args[..i + 1][..i] == args[..i];
      if args[i].spec != newArg.spec {
        kept := kept + [args[i]];
      }
    }
    assert args[..|args|] == args;
    r := Instruction(inst.template, kept + [newArg]);
  }

  /**
   * When the argument with the new argument's spec occurs once, at index k,
   * `set_arg` removes exactly it: the others keep their order and the new one
   * ends the list.
   */
  lemma {:induction false} SetArgMovesToEnd(args: seq<Argument>, k: nat, newArg: Argument)
    requires k < |args| && args[k].spec == newArg.spec
    requires forall i :: 0 <= i < |args| && i != k ==> args[i].spec != newArg.spec
    ensures Without(args, newArg.spec) + [newArg] == args[..k] + args[k + 1..] + [newArg]
  {
    var s := newArg.spec;
    assert args == args[..k] + [args[k]] + args[k + 1..];
    WithoutAppend(args[..k] + [args[k]], args[k + 1..], s);
    WithoutAppend(args[..k], [args[k]], s);
    WithoutAbsent(args[..k], s);
    WithoutAbsent(args[k + 1..], s);
    assert Without([args[k]], s) == [] by {
      assert [args[k]][..0] == [];
    }
  }
}
