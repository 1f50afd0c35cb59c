/** Reading a program back from its bytes (src/parser.rs). */
module Parser {
  import opened Wrappers
  import opened Bits
  import opened ByteOrder
  import opened Instructions
  import opened Assembler

  /** Why `parse_instructions` failed; the message text is not modelled, only what it shows. */
  datatype ParseError =
    | TrailingGarbage(input: seq<Byte>)  // the length is not a multiple of 4
    | UnknownWord(data: Word)            // no template decodes this word

  /** The value of an option as a sequence of at most one element. */
  function OptionToSeq<T>(o: Option<T>): (r: seq<T>)
    ensures |r| <= 1
  {
    if o.Some? then [o.value] else []
  }

  /** The decoding by the first template, in list order, that decodes `data`. */
  function FirstDecode(templates: seq<InstructionTemplate>, data: Word): (r: Option<Instruction>)
    ensures r.None? <==> forall j :: 0 <= j < |templates| ==> !Matches(templates[j], data)
  {
    if |templates| == 0 then None
    else if Matches(templates[0], data) then Decoded(templates[0], data)
    else FirstDecode(templates[1..], data)
  }

  /** When template m is the first that matches, `FirstDecode` is its decoding. */
  lemma {:induction false} FirstDecodeAt(templates: seq<InstructionTemplate>, data: Word, m: nat)
    requires m < |templates| && Matches(templates[m], data)
    requires forall j :: 0 <= j < m ==> !Matches(templates[j], data)
    ensures FirstDecode(templates, data) == Decoded(templates[m], data)
    decreases m
  {
    if m > 0 {
      FirstDecodeAt(templates[1..], data, m - 1);
    }
  }

  /** The decoding of one word by the template list, as a value of its own. */
  function DecoderOf(templates: seq<InstructionTemplate>): Word -> Option<Instruction>
  {
    (w: Word) => FirstDecode(templates, w)
  }

  /** The decoder decodes each word as the template list does. */
  lemma DecoderOfApplies(templates: seq<InstructionTemplate>, w: Word)
    ensures DecoderOf(templates)(w) == FirstDecode(templates, w)
  {
  }

  /**
   * Parsing a byte string of whole words with a word decoder, from the first
   * word to the last; the first word the decoder rejects is the error.
   */
  function ParseWords(input: seq<Byte>, decode: Word -> Option<Instruction>): (r: Result<seq<Instruction>, ParseError>)
    requires |input| % 4 == 0
    ensures r.Ok? ==> 4 * |r.value| == |input|
    decreases |input|
  {
    if |input| == 0 then Ok([])
    else
      var n := |input| - 4;
      match ParseWords(input[..n], decode)
      case Err(e) => Err(e)
      case Ok(prefix) =>
        var data := FromLeBytes(input[n..]);
        match decode(data)
        case None => Err(UnknownWord(data))
        case Some(inst) => Ok(prefix + [inst])
  }

  /** `parse_instructions` as a value. */
  function Parsed(input: seq<Byte>, templates: seq<InstructionTemplate>): Result<seq<Instruction>, ParseError>
  {
    if |input| % 4 != 0 then Err(TrailingGarbage(input)) else ParseWords(input, DecoderOf(templates))
  }

  /** An error on a prefix of whole words is the error of the whole input. */
  lemma {:induction false} ParseWordsErrorStays(input: seq<Byte>, decode: Word -> Option<Instruction>, k: nat)
    requires |input| % 4 == 0 && k % 4 == 0 && k <= |input|
    requires ParseWords(input[..k], decode).Err?
    ensures ParseWords(input, decode) == ParseWords(input[..k], decode)
    decreases |input| - k
  {
    if k < |input| {
      var n := |input| - 4;
      assert input[..n][..k] == input[..k];
      ParseWordsErrorStays(input[..n], decode, k);
    } else {
      assert input[..k] == input;
    }
  }

  /**
   * The inner loop of `parse_instructions`: tries the templates in order and
   * keeps the decoding by the first that succeeds.
   */
  method DecodeFirst(templates: seq<InstructionTemplate>, data: Word) returns (r: Option<Instruction>)
    ensures r == FirstDecode(templates, data)
  {
    r := None;
    for j := 0 to |templates|
      invariant r.None? ==> forall k :: 0 <= k < j ==> !Matches(templates[k], data)
      invariant r.Some? ==> r == FirstDecode(templates, data)
    {
      var maybeParsed := Decode(templates[j], data);
      if maybeParsed.Some? {
        FirstDecodeAt(templates, data, j);
        r := maybeParsed;
        break;
      }
    }
  }

  /**
   * `parse_instructions`: rejects trailing garbage, then decodes each 4-byte
   * word with the first template that decodes it, failing at the first word
   * no template decodes.
   */
  method ParseInstructions(input: seq<Byte>, templates: seq<InstructionTemplate>)
    returns (r: Result<seq<Instruction>, ParseError>)
    ensures r == Parsed(input, templates)
  {
    var result: seq<Instruction> := [];
    if |input| % 4 != 0 {
      return Err(TrailingGarbage(input));
    }
    ghost var decode := DecoderOf(templates);
    var i := 0;
    ghost var words := 0;
    MultipleOfFour(0);
    while i < |input|
      invariant i == 4 * words && i <= |input|
      invariant (4 * words) % 4 == 0
      invariant ParseWords(input[..i], decode) == Ok(result)
    {
      // The source skips a word that would run past the end; the length check above rules that out.
      ParseWordsStep(input, decode, words, result);
      var data := FromLeBytes(input[i..i + 4]);
      var decoded := DecodeFirst(templates, data);
      DecoderOfApplies(templates, data);
      if decoded.None? {
        return Err(UnknownWord(data));
      }
      result := result + [decoded.value];
      i := i + 4;
      words := words + 1;
    }
    assert input[..i] == input;
    return Ok(result);
  }

  /** One more word of the input: the parse fails with it or grows by its decoding. */
  lemma ParseWordsStep(input: seq<Byte>, decode: Word -> Option<Instruction>, w: nat, prior: seq<Instruction>)
    requires |input| % 4 == 0 && 4 * w < |input| && (4 * w) % 4 == 0
    requires ParseWords(input[..4 * w], decode) == Ok(prior)
    ensures 4 * w + 4 <= |input| && (4 * (w + 1)) % 4 == 0
    ensures decode(FromLeBytes(input[4 * w..4 * w + 4])).None? ==>
      ParseWords(input, decode) == Err(UnknownWord(FromLeBytes(input[4 * w..4 * w + 4])))
    ensures decode(FromLeBytes(input[4 * w..4 * w + 4])).Some? ==>
      ParseWords(input[..4 * w + 4], decode) == Ok(prior + [decode(FromLeBytes(input[4 * w..4 * w + 4])).value])
  {
    MultipleOfFour(w + 1);
    assert 4 * w + 4 <= |input| by {
      if 4 * w + 4 > |input| {
        MultipleOfFourGap(w, |input|);
      }
    }
    var next := input[..4 * w + 4];
    assert next[..4 * w] == input[..4 * w];
    assert next[4 * w..] == input[4 * w..4 * w + 4];
    if decode(FromLeBytes(input[4 * w..4 * w + 4])).None? {
      ParseWordsErrorStays(input, decode, 4 * w + 4);
    }
  }

  /** No multiple of 4 lies strictly between 4w and 4w + 4. */
  lemma MultipleOfFourGap(w: nat, n: nat)
    requires n % 4 == 0 && 4 * w < n
    ensures 4 * w + 4 <= n
  {
  }

  /** Input whose length is not a multiple of 4 is rejected. */
  lemma TrailingGarbageRejected(input: seq<Byte>, templates: seq<InstructionTemplate>)
    requires |input| % 4 != 0
    ensures Parsed(input, templates) == Err(TrailingGarbage(input))
  {
  }

  /** Instruction k of a successful parse is the decoding of word k. */
  lemma {:induction false} ParseWordsAt(input: seq<Byte>, decode: Word -> Option<Instruction>, k: nat)
    requires |input| % 4 == 0 && ParseWords(input, decode).Ok?
    requires k < |ParseWords(input, decode).value|
    ensures Some(ParseWords(input, decode).value[k]) == decode(FromLeBytes(input[4 * k..4 * k + 4]))
    decreases |input|
  {
    var n := |input| - 4;
    if 4 * k < n {
      ParseWordsAt(input[..n], decode, k);
      assert input[..n][4 * k..4 * k + 4] == input[4 * k..4 * k + 4];
    }
  }

  /** A successful parse yields one instruction per four bytes, each decoded by the first template that matches its word. */
  lemma ParsedWords(input: seq<Byte>, templates: seq<InstructionTemplate>, k: nat)
    requires Parsed(input, templates).Ok?
    requires k < |Parsed(input, templates).value|
    ensures 4 * |Parsed(input, templates).value| == |input|
    ensures Some(Parsed(input, templates).value[k]) == FirstDecode(templates, FromLeBytes(input[4 * k..4 * k + 4]))
  {
    ParseWordsAt(input, DecoderOf(templates), k);
    DecoderOfApplies(templates, FromLeBytes(input[4 * k..4 * k + 4]));
  }

  /** A word the decoder rejects makes the parse of whole words fail. */
  lemma {:induction false} ParseWordsFailsAt(input: seq<Byte>, decode: Word -> Option<Instruction>, k: nat)
    requires |input| % 4 == 0 && 4 * k + 4 <= |input|
    requires decode(FromLeBytes(input[4 * k..4 * k + 4])).None?
    ensures ParseWords(input, decode).Err?
    decreases |input|
  {
    var n := |input| - 4;
    if 4 * k < n {
      assert input[..n][4 * k..4 * k + 4] == input[4 * k..4 * k + 4];
      ParseWordsFailsAt(input[..n], decode, k);
    }
  }

  /** A word that no template decodes makes the whole parse fail. */
  lemma UnknownWordFails(input: seq<Byte>, templates: seq<InstructionTemplate>, k: nat)
    requires |input| % 4 == 0 && 4 * k + 4 <= |input|
    requires FirstDecode(templates, FromLeBytes(input[4 * k..4 * k + 4])).None?
    ensures Parsed(input, templates).Err?
  {
    DecoderOfApplies(templates, FromLeBytes(input[4 * k..4 * k + 4]));
    ParseWordsFailsAt(input, DecoderOf(templates), k);
  }

  /** The template list decodes the encoding of `inst` back to `inst`. */
  predicate DecodesBack(templates: seq<InstructionTemplate>, inst: Instruction)
  {
    FirstDecode(templates, Encoded(inst)) == Some(inst)
  }

  /** Words that each decode to an instruction parse to those instructions. */
  lemma {:induction false} ParseWordsOfDecodable(bytes: seq<Byte>, insts: seq<Instruction>, decode: Word -> Option<Instruction>)
    requires |bytes| == 4 * |insts|
    requires forall k :: 0 <= k < |insts| ==> decode(FromLeBytes(bytes[4 * k..4 * k + 4])) == Some(insts[k])
    ensures |bytes| % 4 == 0 && ParseWords(bytes, decode) == Ok(insts)
    decreases |insts|
  {
    MultipleOfFour(|insts|);
    if |insts| > 0 {
      var m := |insts| - 1;
      var head := bytes[..4 * m];
      forall k | 0 <= k < m ensures decode(FromLeBytes(head[4 * k..4 * k + 4])) == Some(insts[..m][k]) {
        assert head[4 * k..4 * k + 4] == bytes[4 * k..4 * k + 4];
      }
      ParseWordsOfDecodable(head, insts[..m], decode);
      assert bytes[4 * m..] == bytes[4 * m..4 * m + 4];
      assert insts[..m] + [insts[m]] == insts;
    }
  }

  /** Word k of the assembled bytes decodes to instruction k when that instruction decodes back. */
  lemma AssembledWordDecodes(insts: seq<Instruction>, templates: seq<InstructionTemplate>, k: nat)
    requires k < |insts| && DecodesBack(templates, insts[k])
    ensures DecoderOf(templates)(FromLeBytes(Assembled(insts)[4 * k..4 * k + 4])) == Some(insts[k])
  {
    AssembledWord(insts, k);
    LeBytesRoundTrip(Encoded(insts[k]));
    DecoderOfApplies(templates, Encoded(insts[k]));
  }

  lemma MultipleOfFour(n: nat)
    ensures (4 * n) % 4 == 0
  {
  }

  /** Parsing assembled instructions gives them back when each is what the template list decodes its encoding to. */
  lemma ParseAssembled(insts: seq<Instruction>, templates: seq<InstructionTemplate>)
    requires forall k :: 0 <= k < |insts| ==> DecodesBack(templates, insts[k])
    ensures Parsed(Assembled(insts), templates) == Ok(insts)
  {
    var bytes := Assembled(insts);
    var decode := DecoderOf(templates);
    forall k | 0 <= k < |insts| ensures decode(FromLeBytes(bytes[4 * k..4 * k + 4])) == Some(insts[k]) {
      AssembledWordDecodes(insts, templates, k);
    }
    ParseWordsOfDecodable(bytes, insts, decode);
  }

  /**
   * A canonical instruction whose template comes first, among those in the
   * list that match its encoding, is what the list decodes its encoding to.
   */
  lemma FirstDecodeCanonical(templates: seq<InstructionTemplate>, inst: Instruction, m: nat)
    requires Canonical(inst)
    requires m < |templates| && templates[m] == inst.template
    requires forall j :: 0 <= j < m ==> !Matches(templates[j], Encoded(inst))
    ensures DecodesBack(templates, inst)
  {
    DecodeEncode(inst);
    FirstDecodeAt(templates, Encoded(inst), m);
  }
}
