/**
 * The text assembler (src/bin/inst-assembler.rs): lines `mnemonic NAME=VALUE ...`
 * become instructions, and a file of such lines becomes a program's bytes.
 * The error messages are modelled by what they report, not by their wording.
 */
module InstAssembler {
  import opened Wrappers
  import opened Bits
  import opened Text
  import opened Instructions
  import opened Assembler

  /** Why a `NAME=VALUE` token was refused by `parse_arg`. */
  datatype ArgError =
    | NotArgValue(arg: string)
    | MissingValue(arg: string)
    | UnknownOperand(name: string, operands: seq<string>)
    | InvalidValue(text: string)
    | TooLarge(value: Word, field: string, max: Word)

  /** Why a line was refused by `parse_inst`. */
  datatype InstError =
    | UnknownInstruction(name: string)
    | BadArgument(token: string, reason: ArgError)
    | DuplicateOperand(name: string)
    | MissingOperands(template: string, missing: seq<string>)

  // ---------------------------------------------------------------------------
  // find_template

  /** The index of the first template called `name`, or `|templates|` when there is none. */
  function TemplateIndex(templates: seq<InstructionTemplate>, name: string): (k: nat)
    ensures k <= |templates|
    ensures k < |templates| ==> templates[k].name == name
    ensures forall j :: 0 <= j < k ==> templates[j].name != name
  {
    if |templates| == 0 then 0
    else if templates[0].name == name then 0
    else 1 + TemplateIndex(templates[1..], name)
  }

  /** The first template called `name`, if any. */
  function TemplateNamed(templates: seq<InstructionTemplate>, name: string): (r: Option<InstructionTemplate>)
    ensures r.None? <==> forall j :: 0 <= j < |templates| ==> templates[j].name != name
    ensures r.Some? ==> r.value in templates && r.value.name == name
  {
    var k := TemplateIndex(templates, name);
    if k < |templates| then Some(templates[k]) else None
  }

  /** `find_template`: a loop over the templates that returns at the first one called `name`. */
  method FindTemplate(templates: seq<InstructionTemplate>, name: string) returns (r: Option<InstructionTemplate>)
    ensures r == TemplateNamed(templates, name)
  {
    for i := 0 to |templates|
      invariant forall j :: 0 <= j < i ==> templates[j].name != name
    {
      if templates[i].name == name {
        TemplateIndexIsFirst(templates, name, i);
        return Some(templates[i]);
      }
    }
    return None;
  }

  /** An index whose template is the first one called `name` is the one `TemplateIndex` finds. */
  lemma {:induction false} TemplateIndexIsFirst(templates: seq<InstructionTemplate>, name: string, i: nat)
    requires i < |templates| && templates[i].name == name
    requires forall j :: 0 <= j < i ==> templates[j].name != name
    ensures TemplateIndex(templates, name) == i
  {
    if i > 0 {
      TemplateIndexIsFirst(templates[1..], name, i - 1);
    }
  }

  // ---------------------------------------------------------------------------
  // parse_arg

  /** The names of the operands, in order. */
  function OperandNames(ops: seq<ArgumentSpec>): (r: seq<string>)
    ensures |r| == |ops| && forall i :: 0 <= i < |ops| ==> r[i] == ops[i].name
  {
    if |ops| == 0 then [] else OperandNames(ops[..|ops| - 1]) + [ops[|ops| - 1].name]
  }

  /**
   * `parse_arg` up to the range check: the trimmed token must split at `=`
   * into exactly two pieces, the value piece must not be empty, the name
   * piece must name an operand, and the value must parse as a `u32`, in hex
   * after a `0x` prefix (every leading `0x` is stripped), else in decimal.
   */
  function ArgValue(t: InstructionTemplate, argStr: string): (r: Result<Argument, ArgError>)
    ensures r.Err? && r.error.NotArgValue? <==> |Split(Trim(argStr), '=')| != 2
    ensures r.Ok? ==> r.value.spec in Operands(t) && r.value.spec.name == Split(Trim(argStr), '=')[0]
  {
    var parts := Split(Trim(argStr), '=');
    if |parts| != 2 then Err(NotArgValue(argStr))
    else
      var name := parts[0];
      var valueStr := parts[1];
      if |valueStr| == 0 then Err(MissingValue(argStr))
      else
        match FirstWithName(Operands(t), name)
        case None => Err(UnknownOperand(name, OperandNames(Operands(t))))
        case Some(spec) =>
          var radix := if StartsWith(valueStr, "0x") then 16 else 10;
          match FromStrRadixU32(TrimStartMatches(valueStr, "0x"), radix)
          case None => Err(InvalidValue(valueStr))
          case Some(v) => Ok(Argument(spec, v))
  }

  /** `parse_arg` as written: the value is refused only when it is above `max_value`. */
  function ParseArgAsWritten(t: InstructionTemplate, argStr: string): (r: Result<Argument, ArgError>)
    ensures r.Ok? ==> r.value.spec in Operands(t) && r.value.value <= MaxValue(r.value.spec)
    ensures r.Ok? <==> ArgValue(t, argStr).Ok? && ArgValue(t, argStr).value.value <= MaxValue(ArgValue(t, argStr).value.spec)
  {
    match ArgValue(t, argStr)
    case Err(e) => Err(e)
    case Ok(a) => if a.value > MaxValue(a.spec) then Err(TooLarge(a.value, a.spec.name, MaxValue(a.spec))) else Ok(a)
  }

  /** `parse_arg` as intended: `max_value` itself does not fit the field either. */
  function ParseArg(t: InstructionTemplate, argStr: string): (r: Result<Argument, ArgError>)
    ensures r.Ok? ==> r.value.spec in Operands(t) && r.value.value < MaxValue(r.value.spec)
    ensures r.Ok? <==> ArgValue(t, argStr).Ok? && ArgValue(t, argStr).value.value < MaxValue(ArgValue(t, argStr).value.spec)
  {
    match ArgValue(t, argStr)
    case Err(e) => Err(e)
    case Ok(a) => if a.value >= MaxValue(a.spec) then Err(TooLarge(a.value, a.spec.name, MaxValue(a.spec))) else Ok(a)
  }

  /**
   * The range check `parse_arg` applies: `AsWritten` is the source's
   * `value > max_value`, `Intended` refuses `max_value` as well. Every member
   * from `parse_arg` up to `main` takes one, so the source and its correction
   * are two instances of the same model.
   */
  datatype RangeCheck = AsWritten | Intended

  /** The bound an accepted value keeps under the check. */
  predicate WithinRange(check: RangeCheck, a: Argument)
  {
    match check
    case AsWritten => a.value <= MaxValue(a.spec)
    case Intended => a.value < MaxValue(a.spec)
  }

  /** `parse_arg` under the given range check. */
  function ParseArgWith(check: RangeCheck, t: InstructionTemplate, argStr: string): (r: Result<Argument, ArgError>)
    ensures r.Ok? <==> ArgValue(t, argStr).Ok? && WithinRange(check, ArgValue(t, argStr).value)
    ensures r.Ok? ==> r.value == ArgValue(t, argStr).value && r.value.spec in Operands(t) && WithinRange(check, r.value)
  {
    match check
    case AsWritten => ParseArgAsWritten(t, argStr)
    case Intended => ParseArg(t, argStr)
  }

  /** A name no character of which is whitespace, `=` or `#`. */
  predicate PlainName(name: string)
  {
    forall i :: 0 <= i < |name| ==> !IsWhitespace(name[i]) && name[i] != '=' && name[i] != '#'
  }

  /** `NAME=VALUE` with the value in decimal. */
  function DecimalArgText(name: string, v: nat): string
  {
    name + ['='] + Decimal(v)
  }

  /** Hex and decimal digits hold no whitespace, no `=`, no `#` and no `x`. */
  lemma DigitsPlain(n: nat, radix: nat)
    requires 2 <= radix <= 16
    ensures forall i :: 0 <= i < |Digits(n, radix)| ==>
      var c := Digits(n, radix)[i]; !IsWhitespace(c) && c != '=' && c != '#' && c != 'x' && c != '+'
  {
    DigitsAreDigitChars(n, radix);
  }

  /** `NAME=DIGITS` trims to itself and splits at `=` into the name and the digits. */
  lemma ArgTextSplits(name: string, digits: string)
    requires PlainName(name) && |digits| > 0
    requires forall i :: 0 <= i < |digits| ==> !IsWhitespace(digits[i]) && digits[i] != '='
    ensures Trim(name + ['='] + digits) == name + ['='] + digits
    ensures Split(name + ['='] + digits, '=') == [name, digits]
  {
    var s := name + ['='] + digits;
    assert s[|s| - 1] == digits[|digits| - 1];
    assert s[0] == if |name| > 0 then name[0] else '=';
    TrimUnchanged(s);
    SplitTwo(name, digits, '=');
  }

  /** Digits in any base neither start with `0x` nor with a sign. */
  lemma DigitsUnprefixed(n: nat, radix: nat)
    requires 2 <= radix <= 16
    ensures !StartsWith(Digits(n, radix), "0x") && Digits(n, radix)[0] != '+'
    ensures TrimStartMatches(Digits(n, radix), "0x") == Digits(n, radix)
  {
    var digits := Digits(n, radix);
    DigitsPlain(n, radix);
    if |digits| >= 2 { assert digits[1] != 'x'; }
  }

  /** `NAME=<decimal>` splits into the name and the digits, which read back as the value. */
  lemma DecimalArgPieces(name: string, v: Word)
    requires PlainName(name)
    ensures Split(Trim(DecimalArgText(name, v)), '=') == [name, Decimal(v)]
    ensures !StartsWith(Decimal(v), "0x") && TrimStartMatches(Decimal(v), "0x") == Decimal(v)
    ensures FromStrRadixU32(Decimal(v), 10) == Some(v)
  {
    DigitsPlain(v, 10);
    ArgTextSplits(name, Decimal(v));
    DigitsUnprefixed(v, 10);
    FromStrRadixDigits(v, 10);
  }

  /** `NAME=0x<hex>` splits into the name and `0x<hex>`, whose digits read back as the value. */
  lemma HexArgPieces(name: string, v: Word)
    requires PlainName(name)
    ensures Split(Trim(name + ['='] + ("0x" + Hex(v))), '=') == [name, "0x" + Hex(v)]
    ensures StartsWith("0x" + Hex(v), "0x") && TrimStartMatches("0x" + Hex(v), "0x") == Hex(v)
    ensures FromStrRadixU32(Hex(v), 16) == Some(v)
  {
    var h := Hex(v);
    var valueStr := "0x" + h;
    DigitsPlain(v, 16);
    forall i | 0 <= i < |valueStr|
      ensures !IsWhitespace(valueStr[i]) && valueStr[i] != '='
    {
      if i >= 2 { assert valueStr[i] == h[i - 2]; }
    }
    ArgTextSplits(name, valueStr);
    DigitsUnprefixed(v, 16);
    assert valueStr[2..] == h;
    FromStrRadixDigits(v, 16);
  }

  /** An argument text whose pieces read correctly gives that argument. */
  lemma ArgValueOfPieces(t: InstructionTemplate, argStr: string, valueStr: string, spec: ArgumentSpec, v: Word)
    requires Split(Trim(argStr), '=') == [spec.name, valueStr] && |valueStr| > 0
    requires FirstWithName(Operands(t), spec.name) == Some(spec)
    requires FromStrRadixU32(TrimStartMatches(valueStr, "0x"), if StartsWith(valueStr, "0x") then 16 else 10) == Some(v)
    ensures ArgValue(t, argStr) == Ok(Argument(spec, v))
  {
  }

  /** `NAME=<decimal>` reads as that value for the first operand called `NAME`. */
  lemma DecimalArgValue(t: InstructionTemplate, spec: ArgumentSpec, v: Word)
    requires FirstWithName(Operands(t), spec.name) == Some(spec) && PlainName(spec.name)
    ensures ArgValue(t, DecimalArgText(spec.name, v)) == Ok(Argument(spec, v))
  {
    DecimalArgPieces(spec.name, v);
    ArgValueOfPieces(t, DecimalArgText(spec.name, v), Decimal(v), spec, v);
  }

  /**
   * `parse_arg` as written accepts `NAME=<max_value>` for any operand it can
   * find; the value it returns does not fit the field (its masked value is
   * zero), and the intended check refuses it.
   */
  lemma ParseArgAcceptsMaxValue(t: InstructionTemplate, spec: ArgumentSpec)
    requires FirstWithName(Operands(t), spec.name) == Some(spec) && PlainName(spec.name)
    ensures ParseArgAsWritten(t, DecimalArgText(spec.name, MaxValue(spec))) == Ok(Argument(spec, MaxValue(spec)))
    ensures And(MaxValue(spec), LowMask(spec.length)) == 0 && MaxValue(spec) > 0
    ensures ParseArg(t, DecimalArgText(spec.name, MaxValue(spec))).Err?
  {
    DecimalArgValue(t, spec, MaxValue(spec));
    MaxValueIsOnePastLargestFit(spec, 0);
  }

  /** `NAME=0x<hex digits>`, as the dump of an instruction writes each argument. */
  function ArgText(a: Argument): string
  {
    a.spec.name + ['='] + ("0x" + Hex(a.value))
  }

  /** `NAME=0x<hex>` reads as that value for the first operand called `NAME`. */
  lemma HexArgValue(t: InstructionTemplate, a: Argument)
    requires FirstWithName(Operands(t), a.spec.name) == Some(a.spec) && PlainName(a.spec.name)
    ensures ArgValue(t, ArgText(a)) == Ok(a)
  {
    HexArgPieces(a.spec.name, a.value);
    ArgValueOfPieces(t, ArgText(a), "0x" + Hex(a.value), a.spec, a.value);
    assert Argument(a.spec, a.value) == a;
  }

  /** A fitting argument whose operand is the first of its name reads back from its text, under either check. */
  lemma ArgTextParses(check: RangeCheck, t: InstructionTemplate, a: Argument)
    requires FirstWithName(Operands(t), a.spec.name) == Some(a.spec) && PlainName(a.spec.name)
    requires a.value < MaxValue(a.spec)
    ensures ParseArgWith(check, t, ArgText(a)) == Ok(a)
  {
    HexArgValue(t, a);
  }

  /** `NAME=` with nothing after the `=` is refused for its missing value. */
  lemma MissingValueRejected(t: InstructionTemplate, name: string)
    requires PlainName(name)
    ensures ArgValue(t, name + ['=']) == Err(MissingValue(name + ['=']))
  {
    var s := name + ['='];
    assert s[|s| - 1] == '=';
    assert s[0] == if |name| > 0 then name[0] else '=';
    TrimUnchanged(s);
    assert '=' !in name;
    SplitTwo(name, [], '=');
    assert name + ['='] + [] == s;
  }

  /** A well-formed token naming no operand of the template is refused with the operand list. */
  lemma UnknownOperandRejected(t: InstructionTemplate, name: string, v: Word)
    requires PlainName(name) && FirstWithName(Operands(t), name).None?
    ensures ArgValue(t, DecimalArgText(name, v)) == Err(UnknownOperand(name, OperandNames(Operands(t))))
  {
    DecimalArgPieces(name, v);
  }

  /** `NAME=0x` without hex digits is an invalid value. */
  lemma EmptyHexRejected(t: InstructionTemplate, spec: ArgumentSpec)
    requires FirstWithName(Operands(t), spec.name) == Some(spec) && PlainName(spec.name)
    ensures ArgValue(t, spec.name + ['='] + "0x") == Err(InvalidValue("0x"))
  {
    ArgTextSplits(spec.name, "0x");
    assert StartsWith("0x", "0x") && "0x"[2..] == [];
    assert TrimStartMatches("0x", "0x") == [];
  }

  /**
   * A value above `max_value` is too large for both versions of `parse_arg`;
   * `max_value` itself is too large only for the intended one.
   */
  lemma TooLargeRejected(t: InstructionTemplate, spec: ArgumentSpec, v: Word)
    requires FirstWithName(Operands(t), spec.name) == Some(spec) && PlainName(spec.name)
    requires v >= MaxValue(spec)
    ensures ParseArg(t, DecimalArgText(spec.name, v)) == Err(TooLarge(v, spec.name, MaxValue(spec)))
    ensures v > MaxValue(spec) ==> ParseArgAsWritten(t, DecimalArgText(spec.name, v)) == Err(TooLarge(v, spec.name, MaxValue(spec)))
  {
    DecimalArgValue(t, spec, v);
  }

  // ---------------------------------------------------------------------------
  // parse_inst

  /** The operand names of the arguments (the `seen_ops` set). */
  function Names(args: seq<Argument>): set<string>
  {
    if |args| == 0 then {} else Names(args[..|args| - 1]) + {args[|args| - 1].spec.name}
  }

  /** The seen names are exactly the names of the arguments. */
  lemma {:induction false} NamesMembers(args: seq<Argument>, name: string)
    ensures name in Names(args) <==> exists i :: 0 <= i < |args| && args[i].spec.name == name
  {
    if |args| > 0 {
      var k := |args| - 1;
      NamesMembers(args[..k], name);
      assert forall i :: 0 <= i < k ==> args[..k][i] == args[i];
    }
  }

  /** `parse_arg` for one template and range check, as a function of the token. */
  function ArgParser(check: RangeCheck, t: InstructionTemplate): string -> Result<Argument, ArgError>
  {
    (s: string) => ParseArgWith(check, t, s)
  }

  /** The token loop is handed `parse_arg` as written, or its correction. */
  lemma ArgParserApplies(check: RangeCheck, t: InstructionTemplate, s: string)
    ensures ArgParser(check, t)(s) == ParseArgWith(check, t, s)
    ensures check == AsWritten ==> ArgParser(check, t)(s) == ParseArgAsWritten(t, s)
    ensures check == Intended ==> ArgParser(check, t)(s) == ParseArg(t, s)
  {
  }

  /**
   * The loop of `parse_inst` over the tokens after the mnemonic, with `parse`
   * for `parse_arg`: blank tokens are skipped, the others parsed in text
   * order; the first refused token or the first repeated operand name ends it.
   */
  function ParsedArgs(tokens: seq<string>, parse: string -> Result<Argument, ArgError>): (r: Result<seq<Argument>, InstError>)
    ensures r.Ok? ==> |r.value| <= |tokens|
  {
    if |tokens| == 0 then Ok([])
    else
      var n := |tokens| - 1;
      match ParsedArgs(tokens[..n], parse)
      case Err(e) => Err(e)
      case Ok(args) =>
        if Blank(tokens[n]) then Ok(args)
        else
          match parse(tokens[n])
          case Err(e) => Err(BadArgument(tokens[n], e))
          case Ok(a) =>
            if a.spec.name in Names(args) then Err(DuplicateOperand(a.spec.name)) else Ok(args + [a])
  }

  /** The same operand twice is refused at its second occurrence. */
  lemma RepeatedTokenIsDuplicate(token: string, parse: string -> Result<Argument, ArgError>, a: Argument)
    requires !Blank(token) && parse(token) == Ok(a)
    ensures ParsedArgs([token, token], parse) == Err(DuplicateOperand(a.spec.name))
  {
    assert [token][..0] == [];
    assert ParsedArgs([token], parse) == Ok([a]) by {
      assert ParsedArgs([], parse) == Ok([]);
      assert [] + [a] == [a];
    }
    assert [token, token][..1] == [token];
    assert Names([a]) == {a.spec.name} by {
      assert [a][..0] == [];
    }
  }

  /** The operand names not seen, in operand order (the "Missing operands" list). */
  function MissingNames(ops: seq<ArgumentSpec>, seen: set<string>): (r: seq<string>)
    ensures forall n :: n in r <==> n !in seen && exists i :: 0 <= i < |ops| && ops[i].name == n
  {
    if |ops| == 0 then []
    else
      var k := |ops| - 1;
      var prior := MissingNames(ops[..k], seen);
      assert forall i :: 0 <= i < k ==> ops[..k][i] == ops[i];
      prior + (if ops[k].name !in seen then [ops[k].name] else [])
  }

  /** The tokens of a line: its text before the first `#`, trimmed, split at every space. */
  function Tokens(line: string): (r: seq<string>)
    ensures |r| >= 1
  {
    Split(Trim(Split(line, '#')[0]), ' ')
  }

  /**
   * `parse_inst`: the first token names the template; the number of distinct
   * operand names seen must equal the template's operand count; the
   * arguments stay in text order.
   */
  function ParsedInst(line: string, templates: seq<InstructionTemplate>, check: RangeCheck): (r: Result<Instruction, InstError>)
  {
    InstOfTokens(Tokens(line), templates, check)
  }

  /** `parse_inst` after the tokens are split off. */
  function InstOfTokens(parts: seq<string>, templates: seq<InstructionTemplate>, check: RangeCheck): (r: Result<Instruction, InstError>)
    requires |parts| >= 1
  {
    match TemplateNamed(templates, parts[0])
    case None => Err(UnknownInstruction(parts[0]))
    case Some(t) => Completed(t, ParsedArgs(parts[1..], ArgParser(check, t)))
  }

  /** The end of `parse_inst`: the count check on the parsed arguments. */
  function Completed(t: InstructionTemplate, parsed: Result<seq<Argument>, InstError>): (r: Result<Instruction, InstError>)
  {
    match parsed
    case Err(e) => Err(e)
    case Ok(args) =>
      var seen := Names(args);
      if |seen| != |Operands(t)| then Err(MissingOperands(t.name, MissingNames(Operands(t), seen)))
      else Ok(Instruction(t, args))
  }

  /** Once a prefix of the tokens is refused, so are all the tokens, with the same error. */
  lemma {:induction false} ParsedArgsErrorStays(tokens: seq<string>, parse: string -> Result<Argument, ArgError>, k: nat)
    requires k <= |tokens| && ParsedArgs(tokens[..k], parse).Err?
    ensures ParsedArgs(tokens, parse) == ParsedArgs(tokens[..k], parse)
    decreases |tokens| - k
  {
    if k < |tokens| {
      assert tokens[..k + 1][..k] == tokens[..k];
      ParsedArgsErrorStays(tokens, parse, k + 1);
    } else {
      assert tokens[..k] == tokens;
    }
  }

  /** One round of the token loop, on the prefix of the tokens. */
  lemma ParsedArgsStep(tokens: seq<string>, parse: string -> Result<Argument, ArgError>, i: nat, args: seq<Argument>)
    requires i < |tokens| && ParsedArgs(tokens[..i], parse) == Ok(args)
    ensures Blank(tokens[i]) ==> ParsedArgs(tokens[..i + 1], parse) == Ok(args)
    ensures !Blank(tokens[i]) && parse(tokens[i]).Err? ==>
      ParsedArgs(tokens[..i + 1], parse) == Err(BadArgument(tokens[i], parse(tokens[i]).error))
    ensures !Blank(tokens[i]) && parse(tokens[i]).Ok? ==>
      var name := parse(tokens[i]).value.spec.name;
      ParsedArgs(tokens[..i + 1], parse) ==
        if name in Names(args) then Err(DuplicateOperand(name)) else Ok(args + [parse(tokens[i]).value])
  {
    assert tokens[..i + 1][..i] == tokens[..i];
  }

  /** `parse_inst`: the token loop keeps the parsed arguments and the set of their names. */
  method ParseInst(line: string, templates: seq<InstructionTemplate>, check: RangeCheck) returns (r: Result<Instruction, InstError>)
    ensures r == ParsedInst(line, templates, check)
  {
    var withoutComment := Split(line, '#')[0];
    var stripped := Trim(withoutComment);
    var parts := Split(stripped, ' ');
    var found := FindTemplate(templates, parts[0]);
    if found.None? {
      return Err(UnknownInstruction(parts[0]));
    }
    var t := found.value;
    var tokens := parts[1..];
    ghost var parse := ArgParser(check, t);
    var args: seq<Argument> := [];
    var seenOps: set<string> := {};
    for i := 0 to |tokens|
      invariant ParsedArgs(tokens[..i], parse) == Ok(args)
      invariant seenOps == Names(args)
    {
      ParsedArgsStep(tokens, parse, i, args);
      TrimEmptyIffBlank(tokens[i]);
      if Trim(tokens[i]) != [] {
        var arg := ParseArgWith(check, t, tokens[i]);
        ArgParserApplies(check, t, tokens[i]);
        if arg.Err? {
          ParsedArgsErrorStays(tokens, parse, i + 1);
          return Err(BadArgument(tokens[i], arg.error));
        }
        var argName := arg.value.spec.name;
        if argName in seenOps {
          ParsedArgsErrorStays(tokens, parse, i + 1);
          return Err(DuplicateOperand(argName));
        }
        NamesAppend(args, arg.value);
        seenOps := seenOps + {argName};
        args := args + [arg.value];
      }
    }
    assert tokens[..|tokens|] == tokens;
    if |seenOps| != |Operands(t)| {
      return Err(MissingOperands(t.name, MissingNames(Operands(t), seenOps)));
    }
    return Ok(Instruction(t, args));
  }

  lemma NamesAppend(args: seq<Argument>, a: Argument)
    ensures Names(args + [a]) == Names(args) + {a.spec.name}
  {
    assert (args + [a])[..|args|] == args;
  }

  /** Operand names that all differ. */
  predicate DistinctNames(ops: seq<ArgumentSpec>)
  {
    forall i, j :: 0 <= i < j < |ops| ==> ops[i].name != ops[j].name
  }

  /** There are no more names of operands than operands. */
  lemma {:induction false} OperandNameCount(ops: seq<ArgumentSpec>)
    ensures |set i | 0 <= i < |ops| :: ops[i].name| <= |ops|
  {
    if |ops| > 0 {
      var k := |ops| - 1;
      OperandNameCount(ops[..k]);
      assert (set i | 0 <= i < |ops| :: ops[i].name) == (set i | 0 <= i < k :: ops[..k][i].name) + {ops[k].name};
    }
  }

  /** What the last token adds to the arguments of an accepted token list. */
  lemma ParsedArgsLast(tokens: seq<string>, parse: string -> Result<Argument, ArgError>)
    requires |tokens| > 0 && ParsedArgs(tokens, parse).Ok?
    ensures var n := |tokens| - 1;
      var prior := ParsedArgs(tokens[..n], parse);
      prior.Ok?
      && (Blank(tokens[n]) ==> ParsedArgs(tokens, parse).value == prior.value)
      && (!Blank(tokens[n]) ==> parse(tokens[n]).Ok? && parse(tokens[n]).value.spec.name !in Names(prior.value)
                                    && ParsedArgs(tokens, parse).value == prior.value + [parse(tokens[n]).value])
  {
  }

  /**
   * Parsed arguments have distinct names, and any property every argument
   * `parse` accepts has holds of each of them.
   */
  lemma {:induction false} ParsedArgsNames(tokens: seq<string>, parse: string -> Result<Argument, ArgError>, ok: Argument -> bool)
    requires ParsedArgs(tokens, parse).Ok?
    requires forall s :: parse(s).Ok? ==> ok(parse(s).value)
    ensures var args := ParsedArgs(tokens, parse).value;
      |Names(args)| == |args| && forall i :: 0 <= i < |args| ==> ok(args[i])
  {
    if |tokens| > 0 {
      var n := |tokens| - 1;
      ParsedArgsLast(tokens, parse);
      ParsedArgsNames(tokens[..n], parse, ok);
      var args := ParsedArgs(tokens[..n], parse).value;
      var all := ParsedArgs(tokens, parse).value;
      if !Blank(tokens[n]) {
        var a := parse(tokens[n]).value;
        assert all == args + [a];
        NamesAppend(args, a);
        forall i | 0 <= i < |all|
          ensures ok(all[i])
        {
          if i < |args| { assert all[i] == args[i]; }
        }
      }
    }
  }

  /** A subset at least as large as the set is the set. */
  lemma SubsetSameSize(a: set<string>, b: set<string>)
    requires a <= b && |b| <= |a|
    ensures a == b
  {
    assert b == a + (b - a);
    assert |b| == |a| + |b - a|;
    assert b - a == {};
  }

  /**
   * The count check passes only when the arguments name every operand once:
   * their names are the operands', and there are as many as operands.
   */
  lemma CompletedCovers(t: InstructionTemplate, tokens: seq<string>, parse: string -> Result<Argument, ArgError>, check: RangeCheck)
    requires Completed(t, ParsedArgs(tokens, parse)).Ok?
    requires forall s :: parse(s).Ok? ==> parse(s).value.spec in Operands(t) && WithinRange(check, parse(s).value)
    ensures var inst := Completed(t, ParsedArgs(tokens, parse)).value;
      var ops := Operands(t);
      inst.template == t && |inst.arguments| == |ops|
      && Names(inst.arguments) == (set i | 0 <= i < |ops| :: ops[i].name)
      && forall i :: 0 <= i < |inst.arguments| ==> inst.arguments[i].spec in ops && WithinRange(check, inst.arguments[i])
  {
    var ops := Operands(t);
    var args := ParsedArgs(tokens, parse).value;
    var ok := (a: Argument) => a.spec in ops && WithinRange(check, a);
    ParsedArgsNames(tokens, parse, ok);
    var opNames := set i | 0 <= i < |ops| :: ops[i].name;
    assert Names(args) <= opNames by {
      forall n | n in Names(args) ensures n in opNames {
        NamesMembers(args, n);
        var i :| 0 <= i < |args| && args[i].spec.name == n;
        assert ok(args[i]);
        var j :| 0 <= j < |ops| && ops[j] == args[i].spec;
      }
    }
    OperandNameCount(ops);
    SubsetSameSize(Names(args), opNames);
  }

  /**
   * An accepted line names every operand of its template exactly once:
   * the arguments' names are the operands' names, there are as many
   * arguments as operands, each from the template and each within the
   * check's range: at most `max_value` as written, below it as intended.
   */
  lemma ParsedInstCoversOperands(line: string, templates: seq<InstructionTemplate>, check: RangeCheck)
    requires ParsedInst(line, templates, check).Ok?
    ensures var inst := ParsedInst(line, templates, check).value;
      var ops := Operands(inst.template);
      inst.template in templates && inst.template.name == Tokens(line)[0]
      && |inst.arguments| == |ops|
      && Names(inst.arguments) == (set i | 0 <= i < |ops| :: ops[i].name)
      && forall i :: 0 <= i < |inst.arguments| ==> inst.arguments[i].spec in ops && WithinRange(check, inst.arguments[i])
  {
    var parts := Tokens(line);
    var t := TemplateNamed(templates, parts[0]).value;
    var parse := ArgParser(check, t);
    forall s ensures parse(s).Ok? ==> parse(s).value.spec in Operands(t) && WithinRange(check, parse(s).value) {
      ArgParserApplies(check, t, s);
    }
    CompletedCovers(t, parts[1..], parse, check);
  }

  /** Where `p` accepts a token, `q` gives the same result: whatever `p` reads, `q` reads alike. */
  lemma {:induction false} ParsedArgsAgree(tokens: seq<string>, p: string -> Result<Argument, ArgError>, q: string -> Result<Argument, ArgError>)
    requires forall s :: p(s).Ok? ==> q(s) == p(s)
    requires ParsedArgs(tokens, p).Ok?
    ensures ParsedArgs(tokens, q) == ParsedArgs(tokens, p)
  {
    if |tokens| > 0 {
      ParsedArgsAgree(tokens[..|tokens| - 1], p, q);
    }
  }

  /** The correction only refuses more: a line accepted as intended is accepted as written, as the same instruction. */
  lemma IntendedLineAcceptedAsWritten(line: string, templates: seq<InstructionTemplate>)
    requires ParsedInst(line, templates, Intended).Ok?
    ensures ParsedInst(line, templates, AsWritten) == ParsedInst(line, templates, Intended)
  {
    var parts := Tokens(line);
    var t := TemplateNamed(templates, parts[0]).value;
    forall s ensures ArgParser(Intended, t)(s).Ok? ==> ArgParser(AsWritten, t)(s) == ArgParser(Intended, t)(s) {
      ArgParserApplies(Intended, t, s);
      ArgParserApplies(AsWritten, t, s);
    }
    ParsedArgsAgree(parts[1..], ArgParser(Intended, t), ArgParser(AsWritten, t));
  }

  /**
   * The line-level difference: for a template with one operand, the line
   * `mnemonic NAME=<max_value>` (`rd=32` for a 5-bit `rd`) assembles as
   * written and is refused as intended.
   */
  lemma MaxValueLineDiffers(t: InstructionTemplate, spec: ArgumentSpec)
    requires Operands(t) == [spec] && PlainName(spec.name)
    ensures var token := DecimalArgText(spec.name, MaxValue(spec));
      InstOfTokens([t.name, token], [t], AsWritten) == Ok(Instruction(t, [Argument(spec, MaxValue(spec))]))
      && InstOfTokens([t.name, token], [t], Intended) == Err(BadArgument(token, TooLarge(MaxValue(spec), spec.name, MaxValue(spec))))
  {
    var token := DecimalArgText(spec.name, MaxValue(spec));
    assert FirstWithName(Operands(t), spec.name) == Some(spec);
    ParseArgAcceptsMaxValue(t, spec);
    TooLargeRejected(t, spec, MaxValue(spec));
    assert !Blank(token) by {
      assert token[|spec.name|] == '=';
    }
    SingleTokenLine(t, token, AsWritten);
    SingleTokenLine(t, token, Intended);
  }

  /** A line of a mnemonic and one token, for a template with one operand. */
  lemma SingleTokenLine(t: InstructionTemplate, token: string, check: RangeCheck)
    requires |Operands(t)| == 1 && !Blank(token)
    ensures ParseArgWith(check, t, token).Err? ==>
      InstOfTokens([t.name, token], [t], check) == Err(BadArgument(token, ParseArgWith(check, t, token).error))
    ensures ParseArgWith(check, t, token).Ok? ==>
      InstOfTokens([t.name, token], [t], check) == Ok(Instruction(t, [ParseArgWith(check, t, token).value]))
  {
    var parse := ArgParser(check, t);
    ArgParserApplies(check, t, token);
    SingleTemplateLine(t, token, check);
    SingleTokenArgs(token, parse);
    if parse(token).Ok? {
      SingleArgCompleted(t, parse(token).value);
    }
  }

  /** With a single template, the line's mnemonic finds it and the rest is the token loop. */
  lemma SingleTemplateLine(t: InstructionTemplate, token: string, check: RangeCheck)
    ensures InstOfTokens([t.name, token], [t], check) == Completed(t, ParsedArgs([token], ArgParser(check, t)))
  {
    var parts := [t.name, token];
    assert TemplateNamed([t], parts[0]) == Some(t);
    assert parts[1..] == [token];
  }

  /** One argument completes a template with one operand. */
  lemma SingleArgCompleted(t: InstructionTemplate, a: Argument)
    requires |Operands(t)| == 1
    ensures Completed(t, Ok([a])) == Ok(Instruction(t, [a]))
  {
    assert Names([a]) == {a.spec.name} by {
      assert [a][..0] == [];
    }
  }

  /** The token loop over one token that is not blank. */
  lemma SingleTokenArgs(token: string, parse: string -> Result<Argument, ArgError>)
    requires !Blank(token)
    ensures parse(token).Err? ==> ParsedArgs([token], parse) == Err(BadArgument(token, parse(token).error))
    ensures parse(token).Ok? ==> ParsedArgs([token], parse) == Ok([parse(token).value])
  {
    var noTokens: seq<string> := [];
    assert [token][..0] == noTokens;
    assert ParsedArgs(noTokens, parse) == Ok([]);
    if parse(token).Ok? {
      assert [] + [parse(token).value] == [parse(token).value];
    }
  }

  // ---------------------------------------------------------------------------
  // The dump of the tests, and its round trip

  /** `dump_inst`: the template's name, then ` NAME=0x<hex>` for every argument, in order. */
  function DumpInst(inst: Instruction): string
  {
    Join([inst.template.name] + ArgTexts(inst.arguments), ' ')
  }

  /** The texts of the arguments, in order. */
  function ArgTexts(args: seq<Argument>): (r: seq<string>)
    ensures |r| == |args| && forall i :: 0 <= i < |args| ==> r[i] == ArgText(args[i])
  {
    if |args| == 0 then [] else ArgTexts(args[..|args| - 1]) + [ArgText(args[|args| - 1])]
  }

  /**
   * An instruction the assembler can name: the first template with its name is
   * its template, names have no whitespace, `=` or `#`, the mnemonic is not
   * empty, operand names differ, and it has one fitting argument per operand.
   */
  predicate Dumpable(inst: Instruction, templates: seq<InstructionTemplate>)
  {
    var ops := Operands(inst.template);
    TemplateNamed(templates, inst.template.name) == Some(inst.template)
    && |inst.template.name| > 0 && PlainName(inst.template.name)
    && InOperandOrder(inst) && DistinctNames(ops)
    && (forall i :: 0 <= i < |ops| ==> PlainName(ops[i].name))
    && forall i :: 0 <= i < |inst.arguments| ==> inst.arguments[i].value < MaxValue(inst.arguments[i].spec)
  }

  /** With distinct names, each operand is the first one of its name. */
  lemma DistinctFirst(ops: seq<ArgumentSpec>, i: nat)
    requires DistinctNames(ops) && i < |ops|
    ensures FirstWithName(ops, ops[i].name) == Some(ops[i])
  {
    FirstIndexIsFirstMatch(ops, ops[i].name, i);
  }

  /** Texts that `parse` reads back, with distinct names, go through the token loop unchanged. */
  lemma {:induction false} TextsParse(texts: seq<string>, args: seq<Argument>, parse: string -> Result<Argument, ArgError>)
    requires |texts| == |args|
    requires forall i :: 0 <= i < |args| ==> parse(texts[i]) == Ok(args[i]) && !Blank(texts[i])
    requires forall i, j :: 0 <= i < j < |args| ==> args[i].spec.name != args[j].spec.name
    ensures ParsedArgs(texts, parse) == Ok(args)
  {
    if |args| > 0 {
      var n := |args| - 1;
      TextsParse(texts[..n], args[..n], parse);
      NamesMembers(args[..n], args[n].spec.name);
      assert args[..n] + [args[n]] == args;
    }
  }

  /** An argument's text is its own trim and is not empty. */
  lemma TrimUnchangedArgText(a: Argument)
    requires PlainName(a.spec.name)
    ensures Trim(ArgText(a)) == ArgText(a) && |ArgText(a)| > 0
  {
    var digits := Hex(a.value);
    DigitsPlain(a.value, 16);
    assert ArgText(a) == a.spec.name + ['='] + ("0x" + digits);
    ArgTextSplits(a.spec.name, "0x" + digits);
  }

  /** An argument's text holds no space and no `#`, and neither starts nor ends with whitespace. */
  lemma ArgTextPlain(a: Argument)
    requires PlainName(a.spec.name)
    ensures var s := ArgText(a);
      '#' !in s && ' ' !in s && |s| > 0 && !IsWhitespace(s[0]) && !IsWhitespace(s[|s| - 1])
  {
    var digits := Hex(a.value);
    DigitsPlain(a.value, 16);
    var s := ArgText(a);
    assert s == a.spec.name + ['='] + ("0x" + digits);
    forall i | 0 <= i < |s| ensures !IsWhitespace(s[i]) && s[i] != '#' {
      if i > |a.spec.name| + 2 {
        assert s[i] == digits[i - |a.spec.name| - 3];
      }
    }
  }

  /** The dump of an instruction with plain names holds no `#`, is its own trim and splits into its pieces. */
  lemma DumpInstTokens(inst: Instruction)
    requires |inst.template.name| > 0 && PlainName(inst.template.name)
    requires forall i :: 0 <= i < |inst.arguments| ==> PlainName(inst.arguments[i].spec.name)
    ensures Tokens(DumpInst(inst)) == [inst.template.name] + ArgTexts(inst.arguments)
  {
    var parts := [inst.template.name] + ArgTexts(inst.arguments);
    var line := DumpInst(inst);
    forall i | 0 <= i < |parts| ensures '#' !in parts[i] && ' ' !in parts[i] && |parts[i]| > 0
      && !IsWhitespace(parts[i][0]) && !IsWhitespace(parts[i][|parts[i]| - 1])
    {
      if i > 0 {
        ArgTextPlain(inst.arguments[i - 1]);
      }
    }
    JoinAvoids(parts, ' ', '#');
    SplitOfNoSep(line, '#');
    JoinStart(parts, ' ');
    JoinEnd(parts, ' ');
    TrimUnchanged(line);
    SplitJoin(parts, ' ');
  }

  /** Each argument of a dumpable instruction reads back from its text. */
  lemma DumpableArgsParse(inst: Instruction, templates: seq<InstructionTemplate>, check: RangeCheck)
    requires Dumpable(inst, templates)
    ensures forall i :: 0 <= i < |inst.arguments| ==> PlainName(inst.arguments[i].spec.name)
    ensures forall i :: 0 <= i < |inst.arguments| ==>
      ArgParser(check, inst.template)(ArgText(inst.arguments[i])) == Ok(inst.arguments[i]) && !Blank(ArgText(inst.arguments[i]))
    ensures forall i, j :: 0 <= i < j < |inst.arguments| ==> inst.arguments[i].spec.name != inst.arguments[j].spec.name
  {
    var t := inst.template;
    var ops := Operands(t);
    forall i | 0 <= i < |inst.arguments|
      ensures PlainName(inst.arguments[i].spec.name)
      ensures ArgParser(check, t)(ArgText(inst.arguments[i])) == Ok(inst.arguments[i]) && !Blank(ArgText(inst.arguments[i]))
    {
      var a := inst.arguments[i];
      assert a.spec == ops[i];
      DistinctFirst(ops, i);
      ArgTextParses(check, t, a);
      ArgParserApplies(check, t, ArgText(a));
      assert ArgText(a)[|a.spec.name|] == '=';
    }
    forall i, j | 0 <= i < j < |inst.arguments| ensures inst.arguments[i].spec.name != inst.arguments[j].spec.name {
      assert inst.arguments[i].spec == ops[i] && inst.arguments[j].spec == ops[j];
    }
  }

  /** The distinct names of one argument per operand are as many as the operands. */
  lemma {:induction false} DistinctNamesCount(args: seq<Argument>)
    requires forall i, j :: 0 <= i < j < |args| ==> args[i].spec.name != args[j].spec.name
    ensures |Names(args)| == |args|
  {
    if |args| > 0 {
      var n := |args| - 1;
      DistinctNamesCount(args[..n]);
      NamesMembers(args[..n], args[n].spec.name);
    }
  }

  /** Dumping an instruction and assembling the line gives the instruction back, under either check. */
  lemma DumpParses(inst: Instruction, templates: seq<InstructionTemplate>, check: RangeCheck)
    requires Dumpable(inst, templates)
    ensures ParsedInst(DumpInst(inst), templates, check) == Ok(inst)
  {
    DumpableArgsParse(inst, templates, check);
    DumpInstTokens(inst);
    DumpTokensParse(inst, templates, check);
  }

  /** The tokens of a dumpable instruction's line give the instruction. */
  lemma DumpTokensParse(inst: Instruction, templates: seq<InstructionTemplate>, check: RangeCheck)
    requires Dumpable(inst, templates)
    requires forall i :: 0 <= i < |inst.arguments| ==>
      ArgParser(check, inst.template)(ArgText(inst.arguments[i])) == Ok(inst.arguments[i]) && !Blank(ArgText(inst.arguments[i]))
    requires forall i, j :: 0 <= i < j < |inst.arguments| ==> inst.arguments[i].spec.name != inst.arguments[j].spec.name
    ensures InstOfTokens([inst.template.name] + ArgTexts(inst.arguments), templates, check) == Ok(inst)
  {
    var t := inst.template;
    var parts := [t.name] + ArgTexts(inst.arguments);
    assert parts[1..] == ArgTexts(inst.arguments);
    TextsParse(ArgTexts(inst.arguments), inst.arguments, ArgParser(check, t));
    DistinctNamesCount(inst.arguments);
  }

  // ---------------------------------------------------------------------------
  // main

  /**
   * `main` skips the lines whose trimmed text is empty or starts with `#`:
   * the blank lines and those whose first character other than whitespace is `#`.
   */
  predicate SkippedLine(line: string)
  {
    Blank(line) || StartsWith(TrimStart(line), "#")
  }

  /** `SkippedLine` is `main`'s test on the trimmed line. */
  lemma SkippedLineMeans(line: string)
    ensures SkippedLine(line) <==> StartsWith(Trim(line), "#") || Trim(line) == []
  {
    TrimEmptyIffBlank(line);
    var t := TrimStart(line);
    if |t| > 0 {
      assert |TrimEnd(t)| > 0 && TrimEnd(t)[0] == t[0];
    }
  }

  /** `main`'s filter, as a function of the line. */
  function LineSkipped(): string -> bool
  {
    (line: string) => SkippedLine(line)
  }

  /** `parse_inst` over the templates, as a function of the line. */
  function LineParser(templates: seq<InstructionTemplate>, check: RangeCheck): string -> Result<Instruction, InstError>
  {
    (line: string) => ParsedInst(line, templates, check)
  }

  lemma LineParserApplies(templates: seq<InstructionTemplate>, check: RangeCheck, line: string)
    ensures LineParser(templates, check)(line) == ParsedInst(line, templates, check)
  {
  }

  /**
   * `main`'s loop with `skip` for its filter and `parse` for `parse_inst`: the instructions of the
   * lines not skipped, in order, or the first refused line's error.
   */
  function ParsedLines(lines: seq<string>, skip: string -> bool, parse: string -> Result<Instruction, InstError>): (r: Result<seq<Instruction>, InstError>)
    ensures r.Ok? ==> |r.value| <= |lines|
  {
    if |lines| == 0 then Ok([])
    else
      var n := |lines| - 1;
      match ParsedLines(lines[..n], skip, parse)
      case Err(e) => Err(e)
      case Ok(insts) =>
        if skip(lines[n]) then Ok(insts)
        else
          match parse(lines[n])
          case Err(e) => Err(e)
          case Ok(inst) => Ok(insts + [inst])
  }

  /** The instructions of a file's lines. */
  function AssembledLines(lines: seq<string>, templates: seq<InstructionTemplate>, check: RangeCheck): Result<seq<Instruction>, InstError>
  {
    ParsedLines(lines, LineSkipped(), LineParser(templates, check))
  }

  /** Once a prefix of the lines fails, the file fails with that error. */
  lemma {:induction false} ParsedLinesErrorStays(lines: seq<string>, skip: string -> bool, parse: string -> Result<Instruction, InstError>, k: nat)
    requires k <= |lines| && ParsedLines(lines[..k], skip, parse).Err?
    ensures ParsedLines(lines, skip, parse) == ParsedLines(lines[..k], skip, parse)
    decreases |lines| - k
  {
    if k < |lines| {
      assert lines[..k + 1][..k] == lines[..k];
      ParsedLinesErrorStays(lines, skip, parse, k + 1);
    } else {
      assert lines[..k] == lines;
    }
  }

  /**
   * The instructions of the lines before the first refused one: what `main`
   * has written when it stops, or all the instructions when no line is refused.
   */
  function AcceptedLines(lines: seq<string>, skip: string -> bool, parse: string -> Result<Instruction, InstError>): (r: seq<Instruction>)
    ensures ParsedLines(lines, skip, parse).Ok? ==> r == ParsedLines(lines, skip, parse).value
  {
    if |lines| == 0 then []
    else
      var n := |lines| - 1;
      match ParsedLines(lines[..n], skip, parse)
      case Err(_) => AcceptedLines(lines[..n], skip, parse)
      case Ok(insts) => if ParsedLines(lines, skip, parse).Ok? then ParsedLines(lines, skip, parse).value else insts
  }

  /** Once a prefix of the lines fails, the later lines write nothing. */
  lemma {:induction false} AcceptedLinesStay(lines: seq<string>, skip: string -> bool, parse: string -> Result<Instruction, InstError>, k: nat)
    requires k <= |lines| && ParsedLines(lines[..k], skip, parse).Err?
    ensures AcceptedLines(lines, skip, parse) == AcceptedLines(lines[..k], skip, parse)
    decreases |lines| - k
  {
    if k < |lines| {
      assert lines[..k + 1][..k] == lines[..k];
      ParsedLinesErrorStays(lines[..k + 1], skip, parse, k);
      AcceptedLinesStay(lines, skip, parse, k + 1);
    } else {
      assert lines[..k] == lines;
    }
  }

  /**
   * The file after writing `data` at offset `pos`: the bytes before `pos`
   * stay, `data` replaces what follows, and old bytes past its end stay,
   * since the output is opened without truncation.
   */
  function WrittenAt(file: seq<Byte>, pos: nat, data: seq<Byte>): (r: seq<Byte>)
    requires pos <= |file|
    ensures |r| == if pos + |data| <= |file| then |file| else pos + |data|
    ensures r[..pos] == file[..pos] && r[pos..pos + |data|] == data
    ensures forall i :: pos + |data| <= i < |file| ==> r[i] == file[i]
  {
    file[..pos] + data + (if pos + |data| <= |file| then file[pos + |data|..] else [])
  }

  /** The old contents of the output with `data` written from its start. */
  function Overwritten(previous: seq<Byte>, data: seq<Byte>): seq<Byte>
  {
    WrittenAt(previous, 0, data)
  }

  /** Writing `more` after `data` is writing `data + more` from the start. */
  lemma WriteAfter(previous: seq<Byte>, data: seq<Byte>, more: seq<Byte>)
    ensures |data| <= |Overwritten(previous, data)|
    ensures WrittenAt(Overwritten(previous, data), |data|, more) == Overwritten(previous, data + more)
  {
    var f := Overwritten(previous, data);
    var a := WrittenAt(f, |data|, more);
    var b := Overwritten(previous, data + more);
    assert |a| == |b|;
    forall i | 0 <= i < |a| ensures a[i] == b[i] {
      if i < |data| {
        assert a[i] == a[..|data|][i] == f[..|data|][i] == f[i];
        assert f[i] == f[0..|data|][i] == data[i];
        assert b[i] == b[0..|data + more|][i] == (data + more)[i];
      } else if i < |data| + |more| {
        assert a[i] == a[|data|..|data| + |more|][i - |data|] == more[i - |data|];
        assert b[i] == b[0..|data + more|][i] == (data + more)[i];
      }
    }
  }

  /** Writing one more instruction's bytes after the others is writing the whole program from the start. */
  lemma WriteInstruction(previous: seq<Byte>, insts: seq<Instruction>, inst: Instruction)
    ensures |Assembled(insts)| <= |Overwritten(previous, Assembled(insts))|
    ensures |Assembled(insts + [inst])| == |Assembled(insts)| + |Assembled([inst])|
    ensures WrittenAt(Overwritten(previous, Assembled(insts)), |Assembled(insts)|, Assembled([inst]))
            == Overwritten(previous, Assembled(insts + [inst]))
  {
    WriteAfter(previous, Assembled(insts), Assembled([inst]));
    AssembledAppend(insts, [inst]);
  }

  /**
   * `main`'s loop: each kept line is assembled on its own and its four bytes
   * written at the end of what was written so far, over the old contents of
   * the output (`oldFile`, empty when the file is created). The first refused
   * line stops the run with its error and leaves the bytes written before it;
   * otherwise `main` reports the number of instructions written.
   */
  method AssembleLines(lines: seq<string>, templates: seq<InstructionTemplate>, check: RangeCheck, oldFile: seq<Byte>)
    returns (r: Result<nat, InstError>, file: seq<Byte>)
    ensures r.Err? <==> AssembledLines(lines, templates, check).Err?
    ensures r.Err? ==> r.error == AssembledLines(lines, templates, check).error
    ensures r.Ok? ==> r.value == |AssembledLines(lines, templates, check).value|
    ensures file == Overwritten(oldFile, Assembled(AcceptedLines(lines, LineSkipped(), LineParser(templates, check))))
  {
    ghost var skip := LineSkipped();
    ghost var parse := LineParser(templates, check);
    file := oldFile;
    var pos := 0;
    var written := 0;
    ghost var insts: seq<Instruction> := [];
    assert Overwritten(oldFile, []) == oldFile;
    for i := 0 to |lines|
      invariant ParsedLines(lines[..i], skip, parse) == Ok(insts)
      invariant file == Overwritten(oldFile, Assembled(insts)) && pos == |Assembled(insts)| && written == |insts|
    {
      assert lines[..i + 1][..i] == lines[..i];
      var line := lines[i];
      SkippedLineMeans(line);
      if !(StartsWith(Trim(line), "#") || Trim(line) == []) {
        var inst := ParseInst(line, templates, check);
        LineParserApplies(templates, check, line);
        if inst.Err? {
          ParsedLinesErrorStays(lines, skip, parse, i + 1);
          AcceptedLinesStay(lines, skip, parse, i + 1);
          return Err(inst.error), file;
        }
        var out := AssembleInstructions([inst.value]);
        WriteInstruction(oldFile, insts, inst.value);
        file := WrittenAt(file, pos, out);
        pos := pos + |out|;
        written := written + 1;
        insts := insts + [inst.value];
      }
    }
    assert lines[..|lines|] == lines;
    r := Ok(written);
  }

  /** Skipped lines add nothing, wherever they are. */
  lemma SkippedLinesIgnored(lines: seq<string>, line: string, skip: string -> bool, parse: string -> Result<Instruction, InstError>)
    requires skip(line)
    ensures ParsedLines(lines + [line], skip, parse) == ParsedLines(lines, skip, parse)
  {
    assert (lines + [line])[..|lines|] == lines;
  }

  /** A kept line that `parse` reads appends its instruction. */
  lemma ParsedLinesKept(lines: seq<string>, skip: string -> bool, parse: string -> Result<Instruction, InstError>, insts: seq<Instruction>, inst: Instruction)
    requires |lines| > 0 && ParsedLines(lines[..|lines| - 1], skip, parse) == Ok(insts)
    requires !skip(lines[|lines| - 1]) && parse(lines[|lines| - 1]) == Ok(inst)
    ensures ParsedLines(lines, skip, parse) == Ok(insts + [inst])
  {
  }

  /** Lines that `parse` reads back, none of them skipped, give their instructions in order. */
  lemma {:induction false} LinesParse(lines: seq<string>, insts: seq<Instruction>, skip: string -> bool, parse: string -> Result<Instruction, InstError>)
    requires |lines| == |insts|
    requires forall k :: 0 <= k < |lines| ==> parse(lines[k]) == Ok(insts[k]) && !skip(lines[k])
    ensures ParsedLines(lines, skip, parse) == Ok(insts)
  {
    if |lines| > 0 {
      var n := |lines| - 1;
      forall k | 0 <= k < n
        ensures parse(lines[..n][k]) == Ok(insts[..n][k]) && !skip(lines[..n][k])
      {
        assert lines[..n][k] == lines[k] && insts[..n][k] == insts[k];
      }
      LinesParse(lines[..n], insts[..n], skip, parse);
      ParsedLinesKept(lines, skip, parse, insts[..n], insts[n]);
      assert insts[..n] + [insts[n]] == insts;
    }
  }

  /** A dumpable program, one dumped line per instruction, assembles back to the program. */
  lemma DumpedProgramAssembles(insts: seq<Instruction>, templates: seq<InstructionTemplate>, check: RangeCheck)
    requires forall k :: 0 <= k < |insts| ==> Dumpable(insts[k], templates)
    ensures AssembledLines(DumpedLines(insts), templates, check) == Ok(insts)
  {
    var lines := DumpedLines(insts);
    forall k | 0 <= k < |insts|
      ensures LineParser(templates, check)(lines[k]) == Ok(insts[k]) && !LineSkipped()(lines[k])
    {
      DumpParses(insts[k], templates, check);
      DumpInstNotSkipped(insts[k]);
      LineParserApplies(templates, check, lines[k]);
    }
    LinesParse(lines, insts, LineSkipped(), LineParser(templates, check));
  }

  /** One dumped line per instruction. */
  function DumpedLines(insts: seq<Instruction>): (r: seq<string>)
    ensures |r| == |insts| && forall k :: 0 <= k < |insts| ==> r[k] == DumpInst(insts[k])
  {
    if |insts| == 0 then [] else DumpedLines(insts[..|insts| - 1]) + [DumpInst(insts[|insts| - 1])]
  }

  /** A dumped line is not blank and does not start with `#`. */
  lemma DumpInstNotSkipped(inst: Instruction)
    requires |inst.template.name| > 0 && PlainName(inst.template.name)
    ensures !SkippedLine(DumpInst(inst))
  {
    var parts := [inst.template.name] + ArgTexts(inst.arguments);
    JoinStart(parts, ' ');
    var line := DumpInst(inst);
    assert line[0] == inst.template.name[0];
    assert TrimStart(line) == line;
  }
}
