# riscv-inst-mutator in Dafny

This project models the core of `riscv-inst-mutator`. That tool fuzzes RISC-V simulators. Its inputs are programs: lists of RISC-V instructions that travel as the bytes of their little-endian machine words. The model covers two parts.

- **The instruction codec and program mutator (Rust).**
  - Instruction templates recognise a 32-bit word by a (match, mask) pair and extract up to five operand fields.
  - `Instruction::encode` ORs the shifted operand values into the template's base pattern.
  - `assemble_instructions` and `parse_instructions` turn a program into consecutive 4-byte words and back.
  - `ProgramInput` is the fuzzer's input type.
  - `InstGenerator` builds random instructions whose operand values fit their fields.
  - `RiscVInstructionMutator` edits a program in place: add, remove, replace, replace one argument, swap, repeat.
  - The text assembler reads `mnemonic NAME=VALUE ...` lines.
- **Crash artifacts, coverage and cause bookkeeping (C++ header and Rust).**
  - `getFuzzingSavePath` and `reportFuzzingIssue` name and save an input that exposed a bug: `<cause dir>/<reason with '_' for ' '>%<hex hash>`.
  - `fuzzInputCallback` stores every input under a time-stamped name and appends a telemetry line.
  - `getCurrentCoverage` counts the non-zero bytes of AFL's coverage map.
  - `list_causes` reads the saved names back into causes, compares them with the expected list, and sorts both lists.
  - `summarize_findings` prints one line per distinct cause with its duplicate count.

Modules follow the source files:

| module | source file |
|---|---|
| `Bits`, `ByteOrder` | `u32` operators and byte order |
| `Instructions` | `src/instructions.rs` |
| `Assembler` | `src/assembler.rs` |
| `Parser` | `src/parser.rs` |
| `ProgramInputs` | `src/program_input.rs` |
| `Random` | the random source, as an oracle |
| `Generator` | `src/generator.rs` |
| `Mutator` | `src/mutator.rs` |
| `InstAssembler` | `src/bin/inst-assembler.rs` |
| `Text` | the string operations the sources use |
| `FuzzerApi` | `FuzzerAPI.h` |
| `FuzzerCoverage` | `FuzzerCoverage.h` |
| `Causes` | `src/causes.rs` |
| `FuzzUi` | `src/fuzz_ui.rs` |

How the model is shaped:

- `u32` words are integers below 2^32, and the bitwise operators are defined bit by bit.
- `Bits.Or`, `Bits.And` and `Bits.Shr` are Rust's `|`, `&` and `>>` on `u32`. `Bits.Shl` is an unbounded shift, and `Bits.ShlWord` is the 32-bit `<<`, with the high bits lost. `Bits.Pow2` is `2u32.pow`. Together they serve `Argument::extract` and `Argument::encode` (src/instructions.rs:22-26 and 162-164).
- The specification functions of src/instructions.rs have no row of their own. Their lemmas below state what they mean:
  - `Instructions.MaxValue` is `max_value` (32-34);
  - `Instructions.BasePattern` is `base_pattern` (89-91);
  - `Instructions.Matches` is `matches` (106-108);
  - `Instructions.EncodeArgument` is `Argument::encode` (162-164);
  - `Instructions.Encoded` is `Instruction::encode` (184-190).
- Code that loops or mutates becomes a method. Each method is proved equal to a specification function, or to the new state it promises, and the properties are lemmas about those functions.
- The following are parameters of the model:
  - the generated template tables;
  - the hash functions (`std::hash`, ahash);
  - the environment variables;
  - the clock, the process ids and the directory listing;
  - the random source: `Random.Rand` only promises `below(n) < n`.
- Where a finding below corrects the source, the code that uses the corrected part takes a parameter choosing between the two versions:
  - `InstAssembler.RangeCheck` is taken by everything from `parse_arg` up to `main`;
  - `FuzzerApi.Reading` is taken by `fuzzInputCallback`.
  `AsWritten` is the source as it stands; `Intended` is its correction.

## Model

| member | source | states |
|---|---|---|
| Instructions.MaxValueIsOnePastLargestFit | src/instructions.rs:32-34 | a value is below `max_value` exactly when the field's low mask keeps it whole; `max_value` itself has no bit inside the mask |
| Instructions.Extract | src/instructions.rs:22-26 | the extracted argument has the requested spec and a value below `max_value` |
| Instructions.FlattenMembers | src/instructions.rs:77-87 | a spec is among the flattened operands exactly when one of the five slots holds it |
| Instructions.OperandsMembers | src/instructions.rs:77-87 | a spec is an operand of the template exactly when it is one of `operand1`..`operand5` |
| Instructions.Operands | src/instructions.rs:77-87 | a template has at most five operands |
| Instructions.FirstIndexWithName | src/instructions.rs:97-104 | the index is the first operand with the name; no operand before it has that name |
| Instructions.FirstWithName | src/instructions.rs:97-104 | `None` exactly when no operand has the name; otherwise an operand of the template with that name |
| Instructions.OpWithName | src/instructions.rs:97-104 | the early-return loop returns the first operand with the name, or `None` |
| Instructions.FirstIndexIsFirstMatch | src/instructions.rs:97-104 | a matching position with no match before it is the one found |
| Instructions.ExtractAll | src/instructions.rs:116-118 | one argument per operand, in operand order, each extracted from the word |
| Instructions.Decoded | src/instructions.rs:110-123 | `None` exactly when the word does not match; otherwise the template and one extracted argument per operand, in operand1..operand5 order |
| Instructions.Decode | src/instructions.rs:110-123 | the loop that pushes extracted arguments computes `Decoded` |
| Instructions.EncodeArgumentExact | src/instructions.rs:162-164 | for a fitting value the 32-bit `<<` loses no bit |
| Instructions.EncodeArgumentInField | src/instructions.rs:162-164 | an encoded argument has bits only inside its own field |
| Instructions.EncodeArgumentRoundTrip | src/instructions.rs:22-26 | extracting a field from its own encoded argument gives the argument back |
| Instructions.EncodeArgumentOutside | src/instructions.rs:162-164 | an encoded argument is zero in every field disjoint from its own |
| Instructions.EncodeArgumentAvoids | src/instructions.rs:162-164 | an encoded argument has no bit in a mask disjoint from its field |
| Instructions.Encode | src/instructions.rs:184-190 | the `result \|=` loop computes the base pattern ORed with every encoded argument |
| Instructions.EncodedArgsSingle | src/instructions.rs:186-188 | one argument contributes exactly its own encoding |
| Instructions.EncodedArgsAppend | src/instructions.rs:186-188 | the OR over concatenated argument lists is the OR of the two parts |
| Instructions.EncodedArgsMoveToEnd | src/instructions.rs:186-188 | moving one argument to the end does not change the OR |
| Instructions.EncodedArgsPermutation | src/instructions.rs:184-190 | argument lists with the same multiset encode alike |
| Instructions.EncodeOrderIndependent | src/instructions.rs:184-190 | the encoding depends only on the template and the multiset of arguments, not on their order |
| Instructions.EncodedArgsAvoid | src/instructions.rs:184-190 | fitting arguments whose fields avoid a mask leave that mask clear |
| Instructions.EncodedArgsFieldZero | src/instructions.rs:184-190 | a field disjoint from every argument's field reads zero |
| Instructions.EncodedArgsField | src/instructions.rs:184-190 | with pairwise disjoint fields, each argument's field of the OR holds that argument's value |
| Instructions.BaseOutsideField | src/instructions.rs:89-91 | the base pattern is zero in a field outside the mask |
| Instructions.OperandsDisjoint | src/instructions.rs:77-87 | the operands of a well-formed template have pairwise disjoint fields |
| Instructions.EncodedMatches | src/instructions.rs:106-108 | a canonical instruction's encoding matches its own template |
| Instructions.EncodedOperand | src/instructions.rs:22-26 | extracting the i-th operand from a canonical encoding gives the i-th argument |
| Instructions.DecodeEncode | src/instructions.rs:266-279 | `decode(encode(inst)) == inst` when arguments are in operand order, values fit, fields are pairwise disjoint and disjoint from the mask |
| Instructions.NewInstruction | src/instructions.rs:192-206 | with one argument per operand, named like it, the instruction holds exactly that template and those arguments |
| Instructions.Without | src/instructions.rs:218-219 | `retain` never lengthens the argument list |
| Instructions.WithoutMembers | src/instructions.rs:218-219 | `retain` keeps exactly the arguments whose spec differs from the given one |
| Instructions.WithoutAppend | src/instructions.rs:218-219 | `retain` works element by element over concatenations |
| Instructions.WithoutAbsent | src/instructions.rs:218-219 | `retain` keeps every argument when none has the spec |
| Instructions.SetArg | src/instructions.rs:216-222 | same template; the arguments are the old ones without the new argument's spec, in their order, then the new argument |
| Instructions.SetArgMovesToEnd | src/instructions.rs:216-222 | when exactly one argument has the spec, `set_arg` removes it and appends the new one at the end |
| ByteOrder.LeBytes | src/assembler.rs:8 | a word becomes four bytes |
| ByteOrder.LeBytesRoundTrip | src/assembler.rs:8 | reading the four little-endian bytes of a word gives the word |
| ByteOrder.FromLeBytesRoundTrip | src/parser.rs:17 | writing a read word gives the same four bytes |
| Assembler.Assembled | src/assembler.rs:4-14 | the output is four bytes per instruction (two instructions give 8) |
| Assembler.AssembleInstructions | src/assembler.rs:4-14 | the nested push loop computes `Assembled` |
| Assembler.AssembledAppend | src/assembler.rs:5-13 | assembling `a ++ b` is `assemble(a) ++ assemble(b)` |
| Assembler.AssembledWord | src/assembler.rs:7-11 | bytes 4k..4k+3 are the little-endian bytes of instruction k's encoding |
| Parser.OptionToSeq | src/parser.rs:22-24 | a found decoding contributes at most one instruction |
| Parser.FirstDecode | src/parser.rs:19-27 | `None` exactly when no template matches the word |
| Parser.FirstDecodeAt | src/parser.rs:20-27 | the first matching template in list order decodes the word |
| Parser.DecoderOfApplies | src/parser.rs:20-27 | the decoder handed to the word loop is `FirstDecode` over the templates |
| Parser.DecodeFirst | src/parser.rs:19-27 | the loop with the `found` flag and `break` computes `FirstDecode` |
| Parser.ParseWords | src/parser.rs:13-35 | on success four bytes per instruction: `result.len() * 4 == input.len()` |
| Parser.ParseInstructions | src/parser.rs:3-36 | the `step_by(4)` loop with early error return computes `Parsed` |
| Parser.ParseWordsErrorStays | src/parser.rs:28-32 | once a prefix of the words fails the whole input fails with the same error: no partial result |
| Parser.ParseWordsStep | src/parser.rs:13-32 | one word extends the parse by its decoding or fails the parse |
| Parser.MultipleOfFourGap | src/parser.rs:13-16 | after the length check every word start has four bytes, so the `i + 4 > len` skip is unreachable |
| Parser.TrailingGarbageRejected | src/parser.rs:9-11 | a length that is not a multiple of 4 is the trailing-garbage error |
| Parser.ParseWordsAt | src/parser.rs:17-27 | the k-th parsed instruction is the decoding of bytes 4k..4k+3 |
| Parser.ParsedWords | src/parser.rs:13-35 | on success four bytes per instruction, and instruction k is the first template's decoding of word k |
| Parser.ParseWordsFailsAt | src/parser.rs:28-32 | one undecodable word fails the parse |
| Parser.UnknownWordFails | src/parser.rs:28-32 | a word no template matches makes the whole call an error |
| Parser.ParseWordsOfDecodable | src/parser.rs:13-35 | words that each decode to an instruction parse to exactly those instructions |
| Parser.AssembledWordDecodes | src/assembler.rs:7-11 | word k of an assembled program decodes back to instruction k when its template is found first |
| Parser.ParseAssembled | src/assembler.rs:54-56 | `parse_instructions(assemble(insts)) == insts` when each instruction's encoding is decoded first by its own template |
| Parser.FirstDecodeCanonical | src/parser.rs:20-27 | a canonical instruction whose template is the first to match its encoding decodes back |
| ProgramInputs.Serialize | src/program_input.rs:28-35 | the serialised bytes are the assembled instructions: four per instruction, each the little-endian encoding |
| ProgramInputs.Deserialize | src/program_input.rs:62-69 | the parsed program has a quarter as many instructions as bytes |
| ProgramInputs.DeserializeSerialize | src/program_input.rs:62-69 | deserialising the serialised input gives it back under the parse/assemble round trip |
| ProgramInputs.TargetBytes | src/program_input.rs:46-52 | the target bytes are the serialised bytes, four per instruction, and they parse back to as many instructions |
| ProgramInputs.Len | src/program_input.rs:82-86 | `len` is the instruction count: a quarter of the byte count |
| ProgramInputs.Unparse | src/program_input.rs:114-117 | the buffer's old contents are gone and it holds exactly the assembled bytes |
| ProgramInputs.CloneFromSlice | src/program_input.rs:123 | `clone_from_slice` succeeds only when the lengths agree, and then copies the source |
| ProgramInputs.CropAsWritten | src/program_input.rs:120-127 | the illegal-argument error comes exactly when `!(from < to <= len)` |
| ProgramInputs.CropAsWrittenPanics | src/program_input.rs:121-123 | every valid range panics in `clone_from_slice` into the empty vector |
| ProgramInputs.CropAsWrittenNeverCrops | src/program_input.rs:120-127 | the crop as written never returns a cropped input |
| ProgramInputs.Crop | src/program_input.rs:120-127 | succeeds exactly when `from < to <= len`; then holds instructions `from..to` in order |
| ProgramInputs.CropCrop | src/program_input.rs:120-127 | cropping twice is one crop with the offsets added |
| ProgramInputs.CropWhole | src/program_input.rs:120-127 | cropping a non-empty input to its whole length gives it back |
| ProgramInputs.GenerateName | src/program_input.rs:75-79 | the name is `size:` + digits + `-hash:` + 16 characters long |
| ProgramInputs.LeadingZeros | src/program_input.rs:78 | zero padding does not change the value of the hex digits |
| ProgramInputs.NoDashAfterPrefix | src/program_input.rs:78 | neither field of the name holds a `-` |
| ProgramInputs.GenerateNameSplits | src/program_input.rs:75-79 | the name splits at `-` into `size:<count>` and `hash:<16 zero-padded hex digits>` |
| ProgramInputs.GenerateNameReadsBack | src/program_input.rs:75-79 | the two numbers read back as the instruction count and the hash |
| ProgramInputs.SameNameSameSizeAndHash | src/program_input.rs:75-79 | inputs with the same name have the same instruction count and the same hash |
| Random.Rand.Below | src/generator.rs:32 | `below(n)` is a number below `n` |
| Random.Rand.ChooseIndex | src/generator.rs:39 | `choose` picks an index of the non-empty list |
| Generator.SameLength | src/generator.rs:33-37 | the filtered options are exactly the known arguments whose field length equals the requested one |
| Generator.GeneratedValueFits | src/generator.rs:32-48 | a reused or freshly drawn value is below `max_value` when the known values fit |
| Generator.InstGenerator.constructor | src/generator.rs:15-21 | no known arguments, reuse chance 50, power-of-two chance 50 |
| Generator.InstGenerator.ForwardArgs | src/generator.rs:23-25 | the given arguments are appended in order after the existing ones; the chances are unchanged |
| Generator.InstGenerator.GenerateArgument | src/generator.rs:27-49 | the argument has the requested spec; its value is reused from a known argument of the same length or is below `max_value` (`1 << k` with `k < length`, or a draw below `max_value`) |
| Generator.InstGenerator.GenerateInstruction | src/generator.rs:51-64 | a template from the list and one argument per operand in operand order; the values fit when the known ones do |
| Generator.InstGenerator.GenerateInstructions | src/generator.rs:66-77 | exactly `number` instructions, each from the list with its arguments in operand order; every value is below `max_value` when the known values fit |
| Generator.GeneratedRoundTrip | src/assembler.rs:60-84 | a generated instruction of a well-formed template decodes back from its encoding |
| Mutator.InsertedIffRemoved | src/mutator.rs:131-133 | inserting at a position and removing at that position undo each other |
| Mutator.InsertedMultiset | src/mutator.rs:131-133 | an insertion adds exactly the inserted instruction to the multiset |
| Mutator.ReplacedAtChangesOne | src/mutator.rs:134-145 | a replacement changes exactly one position |
| Mutator.SwappedInvolution | src/mutator.rs:165-171 | swapping the same two positions again restores the program |
| Mutator.SwappedPermutes | src/mutator.rs:165-171 | a swap only reorders the program |
| Mutator.RepeatedOnce | src/mutator.rs:172-175 | repeating once is inserting a copy of `program[pos]` at `pos` |
| Mutator.ArgReplacedChanges | src/mutator.rs:146-164 | after a replaced argument: same template, the others in their order, the new argument last, and the list differs from before |
| Mutator.AllArguments | src/mutator.rs:71-73 | the forwarded arguments are exactly those of the program's instructions |
| Mutator.ProgramValuesFitKnown | src/mutator.rs:71-73 | fitting program values make fitting known values |
| Mutator.GenInst | src/mutator.rs:68-76 | a template from the list with its operands in order; the values fit when the program's do |
| Mutator.MutateAdd | src/mutator.rs:131-133 | skipped exactly on an empty program; otherwise one instruction inserted at an index below the old length, the others in order |
| Mutator.MutateReplace | src/mutator.rs:134-145 | skipped on an empty program; otherwise the length is kept and exactly one position changes, to a different instruction |
| Mutator.MutateReplaceArg | src/mutator.rs:146-164 | skipped on an empty program or an instruction without arguments; otherwise only one position changes, its template stays, and one spec's value changes and moves to the end |
| Mutator.MutateSwapTwo | src/mutator.rs:165-171 | skipped exactly on an empty program; otherwise positions `pos` and `pos2` (possibly equal) are exchanged and nothing else changes |
| Mutator.RepeatAt | src/mutator.rs:178-180 | `count` copies of `program[pos]` are inserted at `pos`; the rest keeps its order |
| Mutator.MutateRepeat | src/mutator.rs:172-181 | skipped exactly on an empty program; RepeatOne inserts one copy at `pos`, RepeatSeveral between 1 and 32 |
| Mutator.MutateRemove | src/mutator.rs:182-184 | skipped exactly on an empty program; otherwise one instruction at a valid index is deleted |
| Mutator.MutateWith | src/mutator.rs:108-187 | `None` on an empty program, and then nothing changes; never `None` on a non-empty program for the strategies without retries; when applied, the program changes as the strategy says (`MutatedBy`: an insertion, one replaced position, one replaced argument, a swap, repeated copies, a removal) |
| Mutator.MutateImpl | src/mutator.rs:79-89 | `Skipped` on an empty program, and then the program is unchanged; `Mutated` for the strategies without retries on a non-empty program; after `Mutated` the program changed as `MutatedBy` states for the strategy (a swap may pick one position twice) |
| Mutator.AllRiscvMutations | src/mutator.rs:202-211 | six distinct strategies, RepeatSeveral not among them |
| Mutator.AllRiscvMutationsMembers | src/mutator.rs:202-211 | a strategy is in the list exactly when it is not RepeatSeveral |
| InstAssembler.TemplateIndex | src/bin/inst-assembler.rs:15-22 | the index of the first template with the name; none before it matches |
| InstAssembler.TemplateNamed | src/bin/inst-assembler.rs:15-22 | `None` (could not find instruction) exactly when no template has the name; otherwise a template with the name |
| InstAssembler.FindTemplate | src/bin/inst-assembler.rs:15-22 | the early-return loop computes `TemplateNamed` |
| InstAssembler.TemplateIndexIsFirst | src/bin/inst-assembler.rs:15-22 | a matching template with no match before it is the one found |
| InstAssembler.OperandNames | src/bin/inst-assembler.rs:43-45 | the error lists every operand name, in operand order |
| InstAssembler.ArgValue | src/bin/inst-assembler.rs:24-62 | "Not in ARG=VALUE format" exactly when the trimmed token does not split into two at `=`; a result names an operand of the template by the text before `=` |
| InstAssembler.ParseArgAsWritten | src/bin/inst-assembler.rs:24-73 | accepted exactly when the value reads and is at most `max_value`, for an operand of the template |
| InstAssembler.ParseArg | src/bin/inst-assembler.rs:24-74 | accepted exactly when the value reads and lies below `max_value`, for an operand of the template |
| InstAssembler.ParseArgWith | src/bin/inst-assembler.rs:24-74 | under `AsWritten` the source's check (at most `max_value`), under `Intended` the corrected one (below it); accepted exactly when the value reads and keeps the check's range, as the argument read |
| InstAssembler.DigitsPlain | src/bin/inst-assembler.rs:55-58 | digits hold no whitespace, `=`, `#`, `x` or `+` |
| InstAssembler.ArgTextSplits | src/bin/inst-assembler.rs:25-32 | `NAME=DIGITS` trims to itself and splits into the name and the digits |
| InstAssembler.DigitsUnprefixed | src/bin/inst-assembler.rs:55-58 | digits neither start with `0x` nor with a sign, so `trim_start_matches` keeps them |
| InstAssembler.DecimalArgPieces | src/bin/inst-assembler.rs:25-62 | `NAME=<decimal>` splits into the name and digits that read back, in base 10, as the value |
| InstAssembler.HexArgPieces | src/bin/inst-assembler.rs:25-62 | `NAME=0x<hex>` selects base 16 and its digits read back as the value |
| InstAssembler.ArgValueOfPieces | src/bin/inst-assembler.rs:24-62 | a token whose name, value text and digits read correctly gives that argument |
| InstAssembler.DecimalArgValue | src/bin/inst-assembler.rs:24-62 | `NAME=<decimal>` reads as that value for the first operand with that name |
| InstAssembler.ParseArgAcceptsMaxValue | src/bin/inst-assembler.rs:64-71 | the check as written accepts `max_value`, a value with no bit inside the field; the intended check refuses it |
| InstAssembler.HexArgValue | src/bin/inst-assembler.rs:24-62 | `NAME=0x<hex>` reads as that argument |
| InstAssembler.ArgTextParses | src/bin/inst-assembler.rs:24-74 | a fitting argument's `NAME=0x<hex>` text is accepted as exactly that argument, under either check |
| InstAssembler.MissingValueRejected | src/bin/inst-assembler.rs:34-36 | `NAME=` gives "Missing value in arg" |
| InstAssembler.UnknownOperandRejected | src/bin/inst-assembler.rs:40-52 | a name no operand has gives "Failed to find operand" with the operand list |
| InstAssembler.EmptyHexRejected | src/bin/inst-assembler.rs:55-61 | `NAME=0x` gives "Invalid decimal or hex value" |
| InstAssembler.TooLargeRejected | src/bin/inst-assembler.rs:64-71 | a value at or above `max_value` is too large for the intended check, and one above it also for the check as written |
| InstAssembler.NamesMembers | src/bin/inst-assembler.rs:101-105 | the seen set holds exactly the names of the arguments |
| InstAssembler.ArgParserApplies | src/bin/inst-assembler.rs:93 | the parser handed to the token loop is `parse_arg` as written under `AsWritten` and the corrected one under `Intended` |
| InstAssembler.RepeatedTokenIsDuplicate | src/bin/inst-assembler.rs:101-104 | the same operand twice gives "Duplicate operand" |
| InstAssembler.ParsedArgs | src/bin/inst-assembler.rs:89-107 | there are never more arguments than tokens |
| InstAssembler.MissingNames | src/bin/inst-assembler.rs:109-119 | the "Missing operands" list holds exactly the operand names not seen |
| InstAssembler.Tokens | src/bin/inst-assembler.rs:78-82 | the tokens of the line before its first `#`, trimmed and split at spaces; there is always a first one |
| InstAssembler.ParsedArgsErrorStays | src/bin/inst-assembler.rs:93-104 | once a token is refused the line is refused with that error |
| InstAssembler.ParsedArgsStep | src/bin/inst-assembler.rs:89-107 | a blank token is skipped; a refused one fails the line; an accepted one is appended |
| InstAssembler.ParseInst | src/bin/inst-assembler.rs:76-122 | the token loop with `seen_ops` computes `ParsedInst` for the given check |
| InstAssembler.NamesAppend | src/bin/inst-assembler.rs:105-106 | appending an argument adds its name to the seen set |
| InstAssembler.OperandNameCount | src/bin/inst-assembler.rs:109 | a template has no more operand names than operands |
| InstAssembler.ParsedArgsLast | src/bin/inst-assembler.rs:89-107 | the last token is skipped or appended with a name not seen before |
| InstAssembler.ParsedArgsNames | src/bin/inst-assembler.rs:101-106 | the parsed arguments have distinct names, and each has every property all accepted arguments have |
| InstAssembler.SubsetSameSize | src/bin/inst-assembler.rs:109 | a subset as large as the set is the set |
| InstAssembler.CompletedCovers | src/bin/inst-assembler.rs:109-121 | a line passing the count check names every operand exactly once, each value within the check's range |
| InstAssembler.ParsedInstCoversOperands | src/bin/inst-assembler.rs:76-122 | an accepted line has one argument per operand, naming all of them; values are at most `max_value` as written and below it as intended |
| InstAssembler.ParsedArgsAgree | src/bin/inst-assembler.rs:89-107 | a parser that accepts at least what another accepts, alike, gives the same token loop result on what the other reads |
| InstAssembler.IntendedLineAcceptedAsWritten | src/bin/inst-assembler.rs:64-71 | the correction only refuses more: a line accepted as intended is accepted as written, as the same instruction |
| InstAssembler.MaxValueLineDiffers | src/bin/inst-assembler.rs:64-71 | for a one-operand template, `mnemonic NAME=<max_value>` assembles as written and is refused as too large as intended |
| InstAssembler.SingleTokenLine | src/bin/inst-assembler.rs:76-122 | a mnemonic and one token give the token's error or the one-argument instruction |
| InstAssembler.SingleTemplateLine | src/bin/inst-assembler.rs:78-93 | the mnemonic finds the template and the rest of the line goes to the token loop |
| InstAssembler.SingleArgCompleted | src/bin/inst-assembler.rs:109-121 | one argument passes the count check of a one-operand template |
| InstAssembler.SingleTokenArgs | src/bin/inst-assembler.rs:89-107 | one non-blank token is refused with its error or gives its argument |
| InstAssembler.ArgTexts | src/bin/inst-assembler.rs:170-175 | one `NAME=0x<hex>` text per argument |
| InstAssembler.DistinctFirst | src/bin/inst-assembler.rs:40 | with distinct names each operand is the first with its name |
| InstAssembler.TextsParse | src/bin/inst-assembler.rs:89-107 | tokens that each parse to an argument with a distinct name give exactly those arguments |
| InstAssembler.TrimUnchangedArgText | src/bin/inst-assembler.rs:90 | an argument text is not blank and trims to itself |
| InstAssembler.ArgTextPlain | src/bin/inst-assembler.rs:78-81 | an argument text holds no space or `#` |
| InstAssembler.DumpInstTokens | src/bin/inst-assembler.rs:168-177 | a dumped line splits into the mnemonic and the argument texts |
| InstAssembler.DumpableArgsParse | src/bin/inst-assembler.rs:168-177 | each dumped argument text parses back to its argument, under either check |
| InstAssembler.DistinctNamesCount | src/bin/inst-assembler.rs:109 | distinctly named arguments have as many names as arguments |
| InstAssembler.DumpParses | src/bin/inst-assembler.rs:180-184 | parsing the dump of an instruction in operand order gives it back, under either check |
| InstAssembler.DumpTokensParse | src/bin/inst-assembler.rs:76-122 | the dumped tokens parse back to the instruction, under either check |
| InstAssembler.SkippedLineMeans | src/bin/inst-assembler.rs:142-144 | a line is skipped exactly when it trims to empty or to something starting with `#` |
| InstAssembler.LineParserApplies | src/bin/inst-assembler.rs:145 | the parser handed to the line loop is `parse_inst` |
| InstAssembler.ParsedLines | src/bin/inst-assembler.rs:139-155 | there are never more instructions than lines |
| InstAssembler.ParsedLinesErrorStays | src/bin/inst-assembler.rs:145-149 | the first refused line ends the run with its error |
| InstAssembler.AcceptedLines | src/bin/inst-assembler.rs:139-155 | without a refused line, the instructions written are all of them |
| InstAssembler.AcceptedLinesStay | src/bin/inst-assembler.rs:145-149 | after the first refused line nothing more is written |
| InstAssembler.WrittenAt | src/bin/inst-assembler.rs:130-153 | a write keeps the bytes before it, replaces the bytes it covers, and keeps old bytes past its end |
| InstAssembler.WriteAfter | src/bin/inst-assembler.rs:151-153 | writing more bytes after those written is writing their concatenation from the start |
| InstAssembler.WriteInstruction | src/bin/inst-assembler.rs:151-153 | writing one more instruction after the others is writing the whole assembled program from the start |
| InstAssembler.AssembleLines | src/bin/inst-assembler.rs:124-160 | fails exactly when a kept line is refused, with that error, else reports the instruction count; either way the file holds the bytes of the instructions of the lines before the first refused one, written over the old contents from the start, with old bytes past them kept |
| InstAssembler.SkippedLinesIgnored | src/bin/inst-assembler.rs:142-144 | a skipped line changes nothing |
| InstAssembler.ParsedLinesKept | src/bin/inst-assembler.rs:145-154 | a kept, accepted line appends its instruction |
| InstAssembler.LinesParse | src/bin/inst-assembler.rs:139-155 | kept lines that each parse give exactly those instructions |
| InstAssembler.DumpedProgramAssembles | src/bin/inst-assembler.rs:139-155 | a file of dumped instructions assembles to exactly those instructions, under either check |
| InstAssembler.DumpedLines | src/bin/inst-assembler.rs:168-177 | one dumped line per instruction |
| InstAssembler.DumpInstNotSkipped | src/bin/inst-assembler.rs:142 | a dumped line is never skipped |
| Text.TrimUnchanged | src/bin/inst-assembler.rs:25 | a string without whitespace at either end trims to itself |
| Text.TrimEmptyIffBlank | src/bin/inst-assembler.rs:90 | a string trims to empty exactly when it is all whitespace |
| Text.TrimStartMatches | src/bin/inst-assembler.rs:58 | the result is a suffix that no longer starts with the pattern |
| Text.Split | src/bin/inst-assembler.rs:25 | splitting never gives an empty list of pieces |
| Text.JoinSplit | src/causes.rs:57-59 | joining the split pieces with the separator gives the string back |
| Text.SplitJoin | src/causes.rs:57-59 | splitting pieces joined by a separator none of them holds gives the pieces back |
| Text.SplitOfNoSep | src/causes.rs:57-61 | a string without the separator is its own one piece |
| Text.SplitTwo | src/bin/inst-assembler.rs:25-32 | a string with the separator once splits into the two sides |
| Text.SplitThree | FuzzerAPI.h:102-110 | three pieces joined by a separator they do not hold split back into the three |
| Text.SplitFirst | src/causes.rs:57-59 | the first piece is the text before the first separator |
| Text.Replace | FuzzerAPI.h:49-52 | every occurrence of the character is replaced, every other character is kept, the length is kept |
| Text.ReplaceBack | src/causes.rs:62 | replacing back undoes a replacement when the new character was absent |
| Text.Digits | FuzzerAPI.h:44-45 | at least one digit, without leading zeros: the first digit is `0` only for zero |
| Text.PadLeft | FuzzerAPI.h:104-107 | the result is the fill characters followed by the text, at least `width` long |
| Text.DigitsRoundTrip | FuzzerAPI.h:44-45 | the formatted digits read back as the number |
| Text.DigitsLength | FuzzerAPI.h:44-45 | a number below `radix^k` has at most k digits |
| Text.HexOf64Bits | FuzzerAPI.h:56-57 | a 64-bit value has at most 16 hex digits |
| Text.ZerosValue | FuzzerAPI.h:104-107 | a run of zeros is worth zero |
| Text.ZeroPrefixValue | FuzzerAPI.h:104-107 | digits worth zero in front change nothing |
| Text.DigitsAreDigitChars | FuzzerAPI.h:44-45 | every formatted character is a digit of the radix |
| Text.FromStrRadixU32 | src/bin/inst-assembler.rs:58 | a successful `u32::from_str_radix` is below 2^32 |
| Text.FromStrRadixDigits | src/bin/inst-assembler.rs:58 | `from_str_radix` reads formatted digits back as the number |
| FuzzerApi.Prefix | FuzzerAPI.h:56-57 | `substr(0, n)` is the first `min(n, length)` characters |
| FuzzerApi.GetFuzzingSavePath | FuzzerAPI.h:21-60 | `""` when the cause directory is unset; otherwise `causeDir/reason'%hexprefix`, with the space-replacing loop over `reason` |
| FuzzerApi.SavedNameKeepsWholeHash | FuzzerAPI.h:41-57 | the cut to 16 characters never shortens the hex of a 64-bit hash |
| FuzzerApi.SavedNameParses | FuzzerAPI.h:49-57 | for a reason without `%` the name splits at `%` into the replaced reason and the hex hash, which reads back as the hash |
| FuzzerApi.ReportFuzzingIssue | FuzzerAPI.h:69-89 | nothing is copied exactly when the cause directory is unset; otherwise the test case is copied to its save path, which is not empty |
| FuzzerApi.StampValue | FuzzerAPI.h:104-107 | the time stamp reads back as the microseconds; below 10^21 it has exactly 21 digits |
| FuzzerApi.InputNameParses | FuzzerAPI.h:102-110 | the stored name splits at `-` into the stamp, the pid and the ppid |
| FuzzerApi.InputNamesDistinct | FuzzerAPI.h:102-110 | different (time, pid, ppid) triples give different stored names |
| FuzzerApi.Unsigned64 | FuzzerAPI.h:145 | `std::hex` prints a negative `int64_t` as its two's-complement `uint64_t` |
| FuzzerApi.CounterFilesDistinct | FuzzerAPI.h:120-121 | different parent pids get different counter files |
| FuzzerApi.HexFieldsSplit | FuzzerAPI.h:143-146 | three hex fields joined by spaces split back and hold no line break |
| FuzzerApi.TelemetryLineParses | FuzzerAPI.h:142-146 | the line is three space-separated hex fields and `\n`; they read back as the hash, the size and the seconds since the custom epoch |
| FuzzerApi.ReadContentsAsWritten | FuzzerAPI.h:124-131 | the read loop as written yields the file plus one stale character |
| FuzzerApi.ReadContents | FuzzerAPI.h:124-131 | the intended read yields exactly the file |
| FuzzerApi.StaleCharChangesSize | FuzzerAPI.h:132-146 | the telemetry line of the read as written differs from the line for the file itself |
| FuzzerApi.FuzzInputCallback | FuzzerAPI.h:95-148 | with `INPUT_STORAGE` set the input is copied to `dir/<21-digit stamp>-pid-ppid`; with `COUNTER_FOLDER` set a telemetry line is appended to `folder/inputs_<ppid>`: as written it holds the hash of the file and one stale character and the size one above the file's, as intended the file's hash and size |
| FuzzerCoverage.CountNonZero | FuzzerCoverage.h:36-41 | the count is at most the map size |
| FuzzerCoverage.GetCurrentCoverage | FuzzerCoverage.h:13-42 | the loop counts the non-zero bytes among the first `__afl_map_size`, reading the map only |
| FuzzerCoverage.CountIsNonZeroIndices | FuzzerCoverage.h:36-41 | the count is the number of indices whose byte is not zero |
| FuzzerCoverage.AllZeroCountsNothing | FuzzerCoverage.h:36-41 | an all-zero map counts 0 |
| FuzzerCoverage.AllSetCountsAll | FuzzerCoverage.h:36-41 | a map of non-zero bytes counts its size |
| FuzzerCoverage.SettingOneByteCountsOne | FuzzerCoverage.h:36-41 | turning one zero byte non-zero raises the count by exactly one |
| Causes.CauseBeforeFirstPercent | src/causes.rs:56-62 | the cause is the name before the first `%`, with `_` shown as space |
| Causes.CauseOfWholeName | src/causes.rs:56-62 | a name without `%` is the cause entire, with `_` shown as space |
| Causes.CauseOfSavedName | src/causes.rs:56-62 | for a reason with neither `%` nor `_`, the cause read from its saved name is the reason |
| Causes.ExpectedCausesMembers | src/causes.rs:24-34 | the expected set holds exactly the non-empty lines |
| Causes.Cases | src/causes.rs:49-70 | one case per file, in listing order, with its cause and time to exposure |
| Causes.InsertByTte | src/causes.rs:72 | inserting adds one element |
| Causes.SortByTte | src/causes.rs:72 | sorting keeps the length |
| Causes.InsertByTtePermutes | src/causes.rs:72 | inserting adds exactly the new case |
| Causes.SortByTtePermutes | src/causes.rs:72 | the sort is a permutation |
| Causes.InsertByTteSorted | src/causes.rs:72 | inserting keeps the list sorted by time to exposure |
| Causes.SortByTteSorted | src/causes.rs:72 | the result is sorted non-decreasingly by time to exposure |
| Causes.WithTteLast | src/causes.rs:72 | selecting the cases with one time works element by element |
| Causes.InsertByTteStable | src/causes.rs:72 | an inserted case goes after the cases with the same time |
| Causes.SortByTteStable | src/causes.rs:72 | the sort is stable: cases with equal times keep their order |
| Causes.LexLeTotal | src/causes.rs:78 | string order is total |
| Causes.LexLeAntisymmetric | src/causes.rs:78 | string order is antisymmetric |
| Causes.LexLeTransitive | src/causes.rs:78 | string order is transitive |
| Causes.InsertString | src/causes.rs:78 | inserting adds one element |
| Causes.SortStrings | src/causes.rs:78 | sorting keeps the length |
| Causes.InsertStringPermutes | src/causes.rs:78 | inserting adds exactly the new string |
| Causes.SortStringsPermutes | src/causes.rs:78 | the sort is a permutation |
| Causes.InsertStringSorted | src/causes.rs:78 | inserting keeps the list sorted |
| Causes.SortStringsSorted | src/causes.rs:78 | the result is sorted ascending |
| Causes.FoundAllLines | src/causes.rs:84-90 | one line per found case, in sorted order |
| Causes.FoundAllLineReads | src/causes.rs:87 | a line starts with the whole seconds, then ` $ `, then the cause, and ends with a line break |
| Causes.FoundAllResults | src/causes.rs:84-90 | the write loop produces `FoundAllLines` |
| Causes.SortedMissing | src/causes.rs:74-78 | the missing list holds each remaining expected name once, sorted ascending |
| Causes.DisplayNamesLast | src/causes.rs:64 | one more file removes one more display name |
| Causes.ListCauses | src/causes.rs:41-106 | `found` is the sorted cases; `still_missing` holds exactly the expected causes not found, once each, sorted; `found_all` is written exactly when nothing is missing |
| FuzzUi.FindingLines | src/fuzz_ui.rs:184-195 | one `<cause> (TTE: ..) Dupes: <count>` line per first case, with the count of its cause |
| FuzzUi.MissingLines | src/fuzz_ui.rs:196-199 | one `<cause> (Missing)` line per missing cause, in list order |
| FuzzUi.CountDupes | src/fuzz_ui.rs:173-179 | the map holds exactly the causes found, each with the number of found entries with that cause |
| FuzzUi.EmitFindings | src/fuzz_ui.rs:181-195 | the loop over `found` with `emitted_causes` emits the finding lines of the first case of each cause |
| FuzzUi.FindingLinesLast | src/fuzz_ui.rs:184-195 | one more first case adds one more line |
| FuzzUi.SummarizeFindings | src/fuzz_ui.rs:170-201 | the finding lines, in order of first appearance, then the missing lines |
| FuzzUi.CausesOfHas | src/fuzz_ui.rs:174-178 | each found entry's cause is among the causes |
| FuzzUi.CausesOfCounted | src/fuzz_ui.rs:173-179 | a cause is present exactly when its count is positive |
| FuzzUi.FirstOfEachCovers | src/fuzz_ui.rs:184-187 | the first cases cover every cause |
| FuzzUi.FirstOfEachLast | src/fuzz_ui.rs:184-187 | one more entry adds a first case only for a new cause |
| FuzzUi.CausesOfLast | src/fuzz_ui.rs:174-178 | one more entry adds its cause |
| FuzzUi.CountLast | src/fuzz_ui.rs:174-178 | one more entry raises the count of its cause by one |
| FuzzUi.FirstOfEachOnce | src/fuzz_ui.rs:184-187 | each cause gets exactly one line |
| FuzzUi.FirstOfEachSize | src/fuzz_ui.rs:183-200 | there are as many finding lines as distinct causes |
| FuzzUi.SumCountsLast | src/fuzz_ui.rs:173-179 | one more entry raises the sum of the counts by one for its cause |
| FuzzUi.DupesAddUp | src/fuzz_ui.rs:173-192 | the Dupes figures together count every found entry once |
| FuzzUi.FuzzUIData.constructor | src/fuzz_ui.rs:96 | a new interface has no coverage points and no messages |
| FuzzUi.FuzzUIData.MaxCoverageAsWritten | src/fuzz_ui.rs:45-47 | as written there is no value before the first point, because `unwrap` panics; otherwise the last point's value |
| FuzzUi.FuzzUIData.MaxCoverage | src/fuzz_ui.rs:45-47 | the last recorded value, 0 before any; while the values increase it is the largest |
| FuzzUi.FuzzUIData.EmptyMaxCoveragePanics | src/fuzz_ui.rs:45-47 | with no points, the function as written panics where 0 was meant |
| FuzzUi.FuzzUIData.MaxCoverageAgreesOnceRecorded | src/fuzz_ui.rs:45-47 | once a point is recorded, both readings agree |
| FuzzUi.FuzzUIData.AddMaxCoverage | src/fuzz_ui.rs:49-56 | a point is appended only to an empty list or above the last value; increasing values stay increasing; the maximum is at least the value and never drops |
| FuzzUi.FuzzUIData.AddMessage | src/fuzz_ui.rs:78-80 | the newest message goes in front; the coverage history is unchanged |

## Left out

- The randomness source is an oracle (`Random.Rand`). Its only promise is `below(n) < n`, and `choose` picks a valid index.
- Mutator.MutateReplace: the loop that draws until the new instruction differs is bounded by a `retries` parameter. After `retries` equal draws the model skips, so "non-empty implies mutated" is not stated for Replace. The source loops until it succeeds, and that termination cannot be proved.
- Mutator.MutateReplaceArg: bounded by `retries` in the same way, and for the same reason.
- Mutator.MutateWith: "mutated on a non-empty program" is stated only for the strategies without a retry loop. Replace and ReplaceArg are bounded by `retries`.
- Mutator.MutateImpl: `Mutated` is promised only for the strategies that do not retry.
- InstAssembler.AssembleLines: the old contents of the output file are a parameter (empty when it is created). Failures to open the output, to read an input line or to write are not modelled.
- `Instruction::new`'s `debug_assert`s become the preconditions of `Instructions.NewInstruction`.
- `parse_inst` builds its instruction directly, keeping the arguments in text order. Operands written out of order would trip those asserts in a debug build; `ParsedInst` keeps the text order and does not check it.
- `Deserialize` requires that the bytes parse, which stands for the `unwrap` at src/program_input.rs:67. `TargetBytes` requires the same, which stands for the `debug_assert` at src/program_input.rs:49.
- `parse_instructions` reads words with `from_ne_bytes`. The model reads them little-endian, which assumes a little-endian host.
- Field lengths and offsets are below 32 (`Bits.Width`). `2u32.pow(32)` overflows in the source.
- Generator.InstGenerator.GenerateArgument requires a field at least one bit wide, because `below(0)` has no result.
- The generated template tables (`riscv::all`, `riscv_g`) are parameters.
- The hash functions (`std::hash`, ahash) are function parameters.
- Environment variables, `std::filesystem::copy`, file reads and writes, clocks, `getpid`/`getppid`, `dlopen`/`dlsym` and `abort` are parameters, preconditions or returned effects (`Copy`, `Append`, `FoundAll`).
- Directory iteration order is the order of the `files` parameter. Creation timestamps and `Duration` subtraction become a given time to exposure in nanoseconds.
- The `killall` call in `list_causes` is not modelled.
- `getFuzzingSavePath` only aborts on `testCase.bad()`, a check that does not fire when the open fails. The model always reads the given contents and models no abort.
- `completedSimCallback` and the log messages of `reportFuzzingIssue` are not modelled.
- `getCurrentCoveragePercent` uses floating-point division and is not modelled.
- The "Bad cause name" fallback in `list_causes` is unreachable, because `split` always yields a first piece. The model has no such branch.
- `format_duration_hms` is a parameter of `SummarizeFindings`.
- `f64` coverage values are modelled as reals. NaN and rounding are not modelled.
- `shrink_to(200)` only changes the capacity, so the model leaves the list length uncapped.
- Terminal and tui rendering, `add_corpus_size` and its wall-clock timing are not modelled.
- Error messages are modelled by what they report (the `ArgError` and `InstError` constructors), not by their wording.
- The stored-input time stamp is a non-negative number of microseconds. A clock before 1970 is not modelled.

## Findings

| source | as written | input that shows it | evidently intended | confidence | as-written member | corrected member |
|---|---|---|---|---|---|---|
| src/bin/inst-assembler.rs:64 | `value > spec.max_value()` refuses only values above `2^length` | `rd=32` for a 5-bit `rd` field is accepted, and its encoding sets a bit outside the field (`And(32, 31) == 0`) | refuse `value >= max_value()`, so that every accepted value fits its field | not executed; high | InstAssembler.ParseArgAcceptsMaxValue | InstAssembler.ParseArg |
| src/program_input.rs:122-123 | `clone_from_slice` into a fresh, empty `vec![]` | `crop(0, 1)` on a one-instruction input panics, because the lengths differ | copy the slice (`to_vec()`), so that a valid range crops | not executed; high | ProgramInputs.CropAsWrittenPanics | ProgramInputs.Crop |
| FuzzerAPI.h:126-130 | `while (infile) { infile.get(c); push_back(c); }` pushes once more after the failed `get` at end of file | a 3-byte file yields 4 characters, so the recorded size is 4 | stop before pushing when `get` fails | not executed; high | FuzzerApi.StaleCharChangesSize | FuzzerApi.ReadContents |
| src/fuzz_ui.rs:46 | `last().ok_or((0.0, 0.0)).unwrap()` | on a new `FuzzUIData`, `ok_or` yields `Err((0.0, 0.0))` and `unwrap` panics | `unwrap_or((0.0, 0.0))`: 0 before the first point | not executed; medium | FuzzUi.FuzzUIData.EmptyMaxCoveragePanics | FuzzUi.FuzzUIData.MaxCoverage |
