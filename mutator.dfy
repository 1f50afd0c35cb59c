/**
 * `RiscVInstructionMutator` (src/mutator.rs): each strategy edits the
 * program, a vector of instructions, in place.
 */
module Mutator {
  import opened Wrappers
  import opened Instructions
  import opened Random
  import opened Generator

  /** The supported mutation strategies. */
  datatype Mutation = Add | Replace | ReplaceArg | RepeatOne | RepeatSeveral | SwapTwo | Remove

  /** libafl's verdict on one mutation. */
  datatype MutationResult = Mutated | Skipped

  /** The fuzz input's instruction vector, edited in place. */
  class Program {
    var insts: seq<Instruction>

    constructor (insts: seq<Instruction>)
      ensures this.insts == insts
    {
      this.insts := insts;
    }
  }

  // ---------------------------------------------------------------------------
  // What each strategy does to the vector

  /** `after` is `before` with one element inserted at `pos`; the others keep their order. */
  predicate Inserted(before: seq<Instruction>, after: seq<Instruction>, pos: nat)
  {
    pos <= |before| && |after| == |before| + 1
    && after[..pos] == before[..pos] && after[pos + 1..] == before[pos..]
  }

  /** `after` is `before` with the element at `pos` deleted; the others keep their order. */
  predicate Removed(before: seq<Instruction>, after: seq<Instruction>, pos: nat)
  {
    pos < |before| && |after| + 1 == |before|
    && after[..pos] == before[..pos] && after[pos..] == before[pos + 1..]
  }

  /** Only position `pos` may differ between `before` and `after`, which have the same length. */
  predicate OnlyAt(before: seq<Instruction>, after: seq<Instruction>, pos: nat)
  {
    pos < |before| && |after| == |before|
    && forall i :: 0 <= i < |before| && i != pos ==> after[i] == before[i]
  }

  /** Exactly position `pos` changed. */
  predicate ReplacedAt(before: seq<Instruction>, after: seq<Instruction>, pos: nat)
  {
    OnlyAt(before, after, pos) && after[pos] != before[pos]
  }

  /**
   * `after` is `before` with the value of its `k`-th argument's spec changed:
   * same template, the other arguments in their order, the new argument last.
   */
  predicate ArgReplaced(before: Instruction, after: Instruction, k: nat)
  {
    k < |before.arguments| && |after.arguments| > 0
    && var newArg := after.arguments[|after.arguments| - 1];
    newArg.spec == before.arguments[k].spec && newArg != before.arguments[k]
    && after == Instruction(before.template, Without(before.arguments, newArg.spec) + [newArg])
  }

  /** `after` is `before` with the elements at `p` and `q` exchanged. */
  predicate Swapped(before: seq<Instruction>, after: seq<Instruction>, p: nat, q: nat)
  {
    p < |before| && q < |before| && after == before[p := before[q]][q := before[p]]
  }

  /** `after` is `before` with `count` extra copies of `before[pos]` inserted at `pos`. */
  predicate Repeated(before: seq<Instruction>, after: seq<Instruction>, pos: nat, count: nat)
  {
    pos < |before| && |after| == |before| + count
    && after[..pos] == before[..pos]
    && (forall i :: pos <= i <= pos + count ==> after[i] == before[pos])
    && after[pos + count + 1..] == before[pos + 1..]
  }

  /** Insertion and deletion at the same position undo each other. */
  lemma InsertedIffRemoved(before: seq<Instruction>, after: seq<Instruction>, pos: nat)
    ensures Inserted(before, after, pos) <==> Removed(after, before, pos)
  {
  }

  /** An insertion keeps every old element, the new one included, and adds one occurrence. */
  lemma InsertedMultiset(before: seq<Instruction>, after: seq<Instruction>, pos: nat)
    requires Inserted(before, after, pos)
    ensures multiset(after) == multiset(before) + multiset{after[pos]}
  {
    assert after == after[..pos] + [after[pos]] + after[pos + 1..];
    assert before == before[..pos] + before[pos..];
  }

  /** Exactly one position differs after a replacement: the changed count is one. */
  lemma ReplacedAtChangesOne(before: seq<Instruction>, after: seq<Instruction>, pos: nat)
    requires ReplacedAt(before, after, pos)
    ensures forall i :: 0 <= i < |before| ==> (after[i] != before[i] <==> i == pos)
  {
  }

  /** Swapping the same two positions again restores the vector. */
  lemma SwappedInvolution(before: seq<Instruction>, after: seq<Instruction>, p: nat, q: nat)
    requires Swapped(before, after, p, q)
    ensures Swapped(after, before, p, q)
  {
    var back := after[p := after[q]][q := after[p]];
    forall i | 0 <= i < |before|
      ensures back[i] == before[i]
    {
    }
    assert back == before;
  }

  /** A swap only reorders the vector. */
  lemma SwappedPermutes(before: seq<Instruction>, after: seq<Instruction>, p: nat, q: nat)
    requires Swapped(before, after, p, q)
    ensures multiset(after) == multiset(before)
  {
    var x, y := before[p], before[q];
    var mid := before[p := y];
    assert multiset(mid) == multiset(before) - multiset{x} + multiset{y};
    assert mid[q] == y;
    assert after == mid[q := x];
    assert multiset(after) == multiset(mid) - multiset{y} + multiset{x};
  }

  /** Repeating once is inserting a copy of the element in front of itself. */
  lemma RepeatedOnce(before: seq<Instruction>, after: seq<Instruction>, pos: nat)
    ensures Repeated(before, after, pos, 1) <==> Inserted(before, after, pos) && pos < |before| && after[pos] == before[pos]
  {
    if Inserted(before, after, pos) && pos < |before| && after[pos] == before[pos] {
      assert after[pos + 1] == before[pos];
    }
  }

  /**
   * When the instruction's argument specs are distinct, replacing an
   * argument changes the arguments, only the last one is new, and the others
   * keep their order.
   */
  lemma {:induction false} ArgReplacedChanges(before: Instruction, after: Instruction, k: nat)
    requires ArgReplaced(before, after, k)
    requires forall i, j :: 0 <= i < j < |before.arguments| ==> before.arguments[i].spec != before.arguments[j].spec
    ensures after.template == before.template
    ensures after.arguments == before.arguments[..k] + before.arguments[k + 1..] + [after.arguments[|after.arguments| - 1]]
    ensures after.arguments != before.arguments
  {
    var args := before.arguments;
    var newArg := after.arguments[|after.arguments| - 1];
    SetArgMovesToEnd(args, k, newArg);
  }

  // ---------------------------------------------------------------------------
  // The mutator

  /** Every argument of every instruction has a field at least one bit wide. */
  predicate ArgumentFieldsPositive(insts: seq<Instruction>)
  {
    forall i, j :: 0 <= i < |insts| && 0 <= j < |insts[i].arguments| ==> insts[i].arguments[j].spec.length > 0
  }

  /** The arguments of all instructions, in program order. */
  function AllArguments(insts: seq<Instruction>): (r: seq<Argument>)
    ensures forall a :: a in r <==> exists i :: 0 <= i < |insts| && a in insts[i].arguments
  {
    if |insts| == 0 then []
    else
      var n := |insts| - 1;
      var prior := AllArguments(insts[..n]);
      assert forall i :: 0 <= i < n ==> insts[..n][i] == insts[i];
      prior + insts[n].arguments
  }

  /** Every argument of the program fits its field. */
  predicate ProgramValuesFit(insts: seq<Instruction>)
  {
    forall i, j :: 0 <= i < |insts| && 0 <= j < |insts[i].arguments| ==> insts[i].arguments[j].value < MaxValue(insts[i].arguments[j].spec)
  }

  /** The program's arguments fit when each instruction's arguments fit. */
  lemma ProgramValuesFitKnown(insts: seq<Instruction>)
    requires ProgramValuesFit(insts)
    ensures KnownValuesFit(AllArguments(insts))
  {
    forall a | a in AllArguments(insts) ensures a.value < MaxValue(a.spec) {
      var i :| 0 <= i < |insts| && a in insts[i].arguments;
      var j :| 0 <= j < |insts[i].arguments| && insts[i].arguments[j] == a;
    }
  }

  /**
   * `gen_inst`: a fresh generator learns every argument of the program, then
   * generates an instruction over the template list.
   */
  method GenInst(program: seq<Instruction>, rng: Rand, templates: seq<InstructionTemplate>) returns (inst: Instruction)
    requires |templates| > 0 && PositiveFields(templates)
    modifies rng
    ensures inst.template in templates && InOperandOrder(inst)
    ensures ProgramValuesFit(program) ==> forall i :: 0 <= i < |inst.arguments| ==> inst.arguments[i].value < MaxValue(inst.arguments[i].spec)
  {
    var generator := new InstGenerator();
    for i := 0 to |program|
      invariant generator.knownArgs == AllArguments(program[..i])
    {
      assert program[..i + 1][..i] == program[..i];
      generator.ForwardArgs(program[i].arguments);
    }
    assert program[..|program|] == program;
    if ProgramValuesFit(program) {
      ProgramValuesFitKnown(program);
    }
    inst := generator.GenerateInstruction(rng, templates);
  }

  /** Add: inserts a generated instruction at a position below the old length. */
  method MutateAdd(program: Program, rng: Rand, templates: seq<InstructionTemplate>) returns (r: Option<()>)
    requires |templates| > 0 && PositiveFields(templates)
    modifies program, rng
    ensures r.None? <==> |old(program.insts)| == 0
    ensures r.None? ==> program.insts == old(program.insts)
    ensures r.Some? ==> exists pos: nat :: pos < |old(program.insts)| && Inserted(old(program.insts), program.insts, pos)
                                      && program.insts[pos].template in templates
  {
    var before := program.insts;
    if |before| == 0 {
      return None;
    }
    var pos := rng.Below(|before|);
    var inst := GenInst(before, rng, templates);
    program.insts := before[..pos] + [inst] + before[pos..];
    assert Inserted(before, program.insts, pos);
    r := Some(());
  }

  /**
   * Replace: draws a position and a generated instruction until the two
   * differ, then stores the new one there; gives up after `retries` draws.
   */
  method MutateReplace(program: Program, rng: Rand, templates: seq<InstructionTemplate>, retries: nat) returns (r: Option<()>)
    requires |templates| > 0 && PositiveFields(templates)
    modifies program, rng
    ensures |old(program.insts)| == 0 ==> r.None?
    ensures r.None? ==> program.insts == old(program.insts)
    ensures r.Some? ==> exists pos: nat :: ReplacedAt(old(program.insts), program.insts, pos)
                                      && program.insts[pos].template in templates
  {
    var before := program.insts;
    if |before| == 0 {
      return None;
    }
    var attempt := 0;
    while attempt < retries
      invariant program.insts == before
    {
      var pos := rng.Below(|before|);
      var newInst := GenInst(before, rng, templates);
      if newInst != before[pos] {
        program.insts := before[pos := newInst];
        assert ReplacedAt(before, program.insts, pos);
        return Some(());
      }
      attempt := attempt + 1;
    }
    r := None;
  }

  /**
   * ReplaceArg: picks an instruction and one of its arguments, draws values
   * from a fresh generator until one differs, and stores it with `set_arg`;
   * skipped for an instruction without arguments; gives up after `retries` draws.
   */
  method MutateReplaceArg(program: Program, rng: Rand, retries: nat) returns (r: Option<()>)
    requires ArgumentFieldsPositive(program.insts)
    modifies program, rng
    ensures |old(program.insts)| == 0 ==> r.None?
    ensures r.None? ==> program.insts == old(program.insts)
    ensures r.Some? ==> exists pos: nat, k: nat :: OnlyAt(old(program.insts), program.insts, pos)
                                         && ArgReplaced(old(program.insts)[pos], program.insts[pos], k)
  {
    var before := program.insts;
    if |before| == 0 {
      return None;
    }
    var pos := rng.Below(|before|);
    var inst := before[pos];
    if |inst.arguments| == 0 {
      return None;
    }
    var k := rng.ChooseIndex(inst.arguments);
    var oldArg := inst.arguments[k];
    var attempt := 0;
    while attempt < retries
      invariant program.insts == before
    {
      var generator := new InstGenerator();
      var newArg := generator.GenerateArgument(rng, oldArg.spec);
      if newArg != oldArg {
        var changed := SetArg(inst, newArg);
        program.insts := before[pos := changed];
        assert ArgReplaced(before[pos], program.insts[pos], k);
        assert OnlyAt(before, program.insts, pos);
        return Some(());
      }
      attempt := attempt + 1;
    }
    r := None;
  }

  /** SwapTwo: exchanges two drawn positions, possibly the same one. */
  method MutateSwapTwo(program: Program, rng: Rand) returns (r: Option<()>)
    modifies program, rng
    ensures r.None? <==> |old(program.insts)| == 0
    ensures r.None? ==> program.insts == old(program.insts)
    ensures r.Some? ==> exists p: nat, q: nat :: Swapped(old(program.insts), program.insts, p, q)
  {
    var before := program.insts;
    if |before| == 0 {
      return None;
    }
    var pos := rng.Below(|before|);
    var pos2 := rng.Below(|before|);
    var backup := program.insts[pos];
    program.insts := program.insts[pos := program.insts[pos2]];
    program.insts := program.insts[pos2 := backup];
    assert Swapped(before, program.insts, pos, pos2);
    r := Some(());
  }

  /**
   * RepeatSeveral (and RepeatOne, with `count == 1`): `count` times inserts
   * a copy of the element at `pos` in front of it.
   */
  method RepeatAt(program: Program, pos: nat, count: nat)
    requires pos < |program.insts|
    modifies program
    ensures Repeated(old(program.insts), program.insts, pos, count)
  {
    ghost var before := program.insts;
    for n := 0 to count
      invariant program.insts == before[..pos] + seq(n, _ => before[pos]) + before[pos..]
    {
      assert program.insts[pos] == before[pos];
      program.insts := program.insts[..pos] + [program.insts[pos]] + program.insts[pos..];
      assert program.insts == before[..pos] + seq(n + 1, _ => before[pos]) + before[pos..];
    }
    assert forall i :: pos <= i <= pos + count ==> program.insts[i] == before[pos];
  }

  /** RepeatOne or RepeatSeveral: one copy, or between 1 and 32 copies, of a drawn element. */
  method MutateRepeat(program: Program, rng: Rand, several: bool) returns (r: Option<()>)
    modifies program, rng
    ensures r.None? <==> |old(program.insts)| == 0
    ensures r.None? ==> program.insts == old(program.insts)
    ensures r.Some? && !several ==> exists pos: nat :: Repeated(old(program.insts), program.insts, pos, 1)
    ensures r.Some? && several ==> exists pos: nat, count: nat :: 1 <= count <= 32 && Repeated(old(program.insts), program.insts, pos, count)
  {
    if |program.insts| == 0 {
      return None;
    }
    var pos := rng.Below(|program.insts|);
    var count := 1;
    if several {
      var extra := rng.Below(32);
      count := extra + 1;
    }
    RepeatAt(program, pos, count);
    r := Some(());
  }

  /** Remove: deletes the element at a drawn position. */
  method MutateRemove(program: Program, rng: Rand) returns (r: Option<()>)
    modifies program, rng
    ensures r.None? <==> |old(program.insts)| == 0
    ensures r.None? ==> program.insts == old(program.insts)
    ensures r.Some? ==> exists pos: nat :: Removed(old(program.insts), program.insts, pos)
  {
    var before := program.insts;
    if |before| == 0 {
      return None;
    }
    var pos := rng.Below(|before|);
    program.insts := before[..pos] + before[pos + 1..];
    assert Removed(before, program.insts, pos);
    r := Some(());
  }

  /** What each strategy does to the program when `mutate_with` applies it. */
  ghost predicate MutatedBy(mutation: Mutation, before: seq<Instruction>, after: seq<Instruction>)
  {
    match mutation
    case Add => exists pos: nat :: pos < |before| && Inserted(before, after, pos)
    case Replace => exists pos: nat :: ReplacedAt(before, after, pos)
    case ReplaceArg => exists pos: nat, k: nat :: OnlyAt(before, after, pos) && ArgReplaced(before[pos], after[pos], k)
    case SwapTwo => exists p: nat, q: nat :: Swapped(before, after, p, q)
    case RepeatOne => exists pos: nat :: Repeated(before, after, pos, 1)
    case RepeatSeveral => exists pos: nat, count: nat :: 1 <= count <= 32 && Repeated(before, after, pos, count)
    case Remove => exists pos: nat :: Removed(before, after, pos)
  }

  /**
   * `mutate_with`: applies one strategy; `None` when the program is empty
   * (every strategy), when ReplaceArg picks an instruction without
   * arguments, or when a retrying strategy runs out of `retries`.
   */
  method MutateWith(program: Program, rng: Rand, mutation: Mutation, templates: seq<InstructionTemplate>, retries: nat)
    returns (r: Option<()>)
    requires |templates| > 0 && PositiveFields(templates) && ArgumentFieldsPositive(program.insts)
    modifies program, rng
    ensures |old(program.insts)| == 0 ==> r.None?
    ensures r.None? ==> program.insts == old(program.insts)
    ensures |old(program.insts)| > 0 && mutation in {Add, SwapTwo, RepeatOne, RepeatSeveral, Remove} ==> r.Some?
    ensures r.Some? ==> MutatedBy(mutation, old(program.insts), program.insts)
  {
    match mutation {
      case Add => r := MutateAdd(program, rng, templates);
      case Replace => r := MutateReplace(program, rng, templates, retries);
      case ReplaceArg => r := MutateReplaceArg(program, rng, retries);
      case SwapTwo => r := MutateSwapTwo(program, rng);
      case RepeatOne => r := MutateRepeat(program, rng, false);
      case RepeatSeveral => r := MutateRepeat(program, rng, true);
      case Remove => r := MutateRemove(program, rng);
    }
  }

  /**
   * `mutate_impl`: `Skipped` exactly when `mutate_with` gave `None`, and then
   * the program is unchanged; `Mutated` when the strategy was applied, and the
   * program is then changed as the strategy says (a swap may pick one
   * position twice, so `Mutated` does not promise a different program).
   */
  method MutateImpl(mutation: Mutation, rng: Rand, program: Program, templates: seq<InstructionTemplate>, retries: nat)
    returns (res: MutationResult)
    requires |templates| > 0 && PositiveFields(templates) && ArgumentFieldsPositive(program.insts)
    modifies program, rng
    ensures |old(program.insts)| == 0 ==> res == Skipped
    ensures res == Skipped ==> program.insts == old(program.insts)
    ensures res == Mutated ==> MutatedBy(mutation, old(program.insts), program.insts)
    ensures |old(program.insts)| > 0 && mutation in {Add, SwapTwo, RepeatOne, RepeatSeveral, Remove} ==> res == Mutated
  {
    var outcome := MutateWith(program, rng, mutation, templates, retries);
    if outcome.None? {
      return Skipped;
    }
    res := Mutated;
  }

  /** `all_riscv_mutations`: every strategy except RepeatSeveral, once each. */
  function AllRiscvMutations(): (r: seq<Mutation>)
    ensures |r| == 6
    ensures RepeatSeveral !in r
    ensures forall i, j :: 0 <= i < j < |r| ==> r[i] != r[j]
  {
    [Add, Remove, ReplaceArg, Replace, RepeatOne, SwapTwo]
  }

  /** The list holds exactly the strategies other than RepeatSeveral. */
  lemma AllRiscvMutationsMembers(m: Mutation)
    ensures m in AllRiscvMutations() <==> m != RepeatSeveral
  {
    var r := AllRiscvMutations();
    match m {
      case Add => assert r[0] == m;
      case Remove => assert r[1] == m;
      case ReplaceArg => assert r[2] == m;
      case Replace => assert r[3] == m;
      case RepeatOne => assert r[4] == m;
      case SwapTwo => assert r[5] == m;
      case RepeatSeveral =>
    }
  }
}
