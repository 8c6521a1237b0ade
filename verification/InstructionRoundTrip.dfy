/** Parsing an encoded instruction: which instructions come back, and what becomes of synthesised parts. */
module InstructionRoundTrip {
  import opened Words
  import opened Sm5Model
  import opened InstructionToken
  import opened ControlsRoundTrip
  import opened ExtendedOpcode
  import opened OperandCodec
  import opened InstructionCodec
  import opened InstructionLossless
  import opened DeclarationLossless

  predicate SameOperands(a: seq<Operand>, b: seq<Operand>) {
    |a| == |b| && forall i :: 0 <= i < |a| ==> SameOperand(a[i], b[i])
  }

  /** Equality up to parse provenance. */
  predicate SameInstruction(a: Instruction, b: Instruction) {
    && a.opcode == b.opcode && a.controls == b.controls && a.samplerMode == b.samplerMode
    && SameOperands(a.operands, b.operands)
    && a.customData == b.customData && a.customDataToken == b.customDataToken
  }

  predicate WellFormedOperands(operands: seq<Operand>) {
    forall i :: 0 <= i < |operands| ==> WellFormed(operands[i])
  }

  // ---------------------------------------------------------------- operand lists and chains

  lemma {:induction false} OperandsRoundTrip(operands: seq<Operand>, words: seq<Word>, total: nat, end: nat,
                                             cursor: nat)
    requires WellFormedOperands(operands) && Occurs(EncodeOperands(operands), words, cursor)
    requires cursor + |EncodeOperands(operands)| <= end <= total <= |words|
    ensures var r := ParseOperands(words, total, end, cursor);
            var tail := ParseOperands(words, total, end, cursor + |EncodeOperands(operands)|);
            && |r| == |operands| + |tail|
            && SameOperands(operands, r[..|operands|])
            && r[|operands|..] == tail
  {
    hide EncodeOperand, ParseOperand, SameOperand, WellFormed, Occurs, ParseOperands;
    if operands != [] {
      var first := EncodeOperand(operands[0]);
      OccursSplit(first, EncodeOperands(operands[1..]), words, cursor);
      assert WellFormed(operands[0]);
      OperandRoundTrip(operands[0], words, total, end, cursor);
      assert WellFormedOperands(operands[1..]);
      OperandsRoundTrip(operands[1..], words, total, end, cursor + |first|);
      ParseOperandsStep(words, total, end, cursor);
      Prepended(operands, ParseOperand(words, total, end, cursor).value,
                ParseOperands(words, total, end, cursor + |first|));
    }
  }

  lemma Prepended(operands: seq<Operand>, first: Operand, rest: seq<Operand>)
    requires operands != [] && SameOperand(operands[0], first) && |operands| - 1 <= |rest|
    requires SameOperands(operands[1..], rest[..|operands| - 1])
    ensures var r := [first] + rest;
            SameOperands(operands, r[..|operands|]) && r[|operands|..] == rest[|operands| - 1..]
  {
    hide SameOperand;
    var r := [first] + rest;
    forall i | 0 <= i < |operands| ensures SameOperand(operands[i], r[..|operands|][i]) {
      if i > 0 { assert operands[1..][i - 1] == operands[i] && rest[..|operands| - 1][i - 1] == r[i]; }
    }
  }

  lemma {:induction false} ChainRoundTrip(chain: seq<Word>, words: seq<Word>, end: nat, cursor: nat)
    requires WellFormedChain(chain) && chain != [] && Occurs(chain, words, cursor) && cursor + |chain| <= end <= |words|
    ensures ParseChain(words, end, cursor).cursor == cursor + |chain|
    decreases |chain|
  {
    hide AnotherFollows;
    OccursAt(chain, words, cursor, 0);
    if |chain| > 1 {
      assert chain == [chain[0]] + chain[1..];
      OccursSplit([chain[0]], chain[1..], words, cursor);
      forall i | 0 <= i < |chain[1..]| ensures AnotherFollows(chain[1..][i]) == (i < |chain[1..]| - 1) {
        assert chain[1..][i] == chain[i + 1];
      }
      ChainRoundTrip(chain[1..], words, end, cursor + 1);
    }
  }

  lemma ExtendedTokensRoundTrip(chain: seq<Word>, words: seq<Word>, end: nat, start: nat)
    requires WellFormedChain(chain) && start < |words| && Occurs(chain, words, start + 1)
    requires start + 1 + |chain| <= end <= |words| && IsExtended(words[start]) == (chain != [])
    ensures ExtendedTokens(words, end, start) == Parsed(chain, start + 1 + |chain|)
  {
    hide IsExtended, WellFormedChain, ParseChain;
    if chain != [] { ChainRoundTrip(chain, words, end, start + 1); }
  }

  // ---------------------------------------------------------------- generic instructions

  /** The opcodes whose instructions are an opcode token, extended tokens and operands. */
  predicate IsPlain(op: Word) {
    op != CUSTOMDATA && op != DCL_RESOURCE && op != DCL_CONSTANT_BUFFER && op != DCL_TEMPS
  }

  function PlainBody(i: Instruction): seq<Word> { i.controls.extended + EncodeOperands(i.operands) }

  /** What the format can carry: nothing synthesised, controls that agree on shared bits, a complete
      extended chain (none on structured declarations), well-formed operands, at most 127 words, and a
      semantic name that repeats the last word. */
  predicate WellFormedPlain(i: Instruction) {
    && OpcodeOf(i.opcode) == i.opcode
    && WellFormedControls(i.opcode, i.controls, i.samplerMode)
    && WellFormedChain(i.controls.extended)
    && (IsStructuredDeclaration(i.opcode) ==> i.controls.extended == [])
    && (RequiredChain(i.opcode).FixedPair? ==> i.controls.extended != [])
    && WellFormedOperands(i.operands)
    && 1 + |PlainBody(i)| <= MAX_LENGTH
    && i.controls.semanticName == NameAtEnd(i)
    && (i.controls.semanticName.Some? ==> |i.operands| >= EXPECTED_SEMANTIC_OPERANDS)
    && i.customData == [] && i.customDataToken == 0
  }

  function NameAtEnd(i: Instruction): Option<Byte> {
    if UsesSemanticName(i.opcode) && PlainBody(i) != [] then Some(NameOf(PlainBody(i)[|PlainBody(i)| - 1])) else None
  }

  /** A well-formed instruction encodes to its token and the words it holds. */
  lemma PlainEncoding(i: Instruction)
    requires IsPlain(i.opcode) && WellFormedPlain(i)
    ensures EncodeInstruction(i) == [Token0(i, 1 + |PlainBody(i)|, i.controls.extended != [])] + PlainBody(i)
  {
    hide Token0, WellFormedControls, RequiredChain, EncodeOperands, NameOf, OpcodeOf, WellFormedChain;
    NoStride(i);
    if IsStructuredDeclaration(i.opcode) {
      assert PlainBody(i) == EncodeOperands(i.operands) + [];
    } else {
      assert PlainBody(i) + [] == PlainBody(i);
    }
  }

  lemma NoStride(i: Instruction)
    requires WellFormedControls(i.opcode, i.controls, i.samplerMode)
    ensures i.controls.structureStride == 0 && i.controls.resourceDimension.None?
  {
    hide UsesTestBoolean, IsPixelInput;
  }

  /** What parsing takes from the opcode token of an encoded instruction. */
  lemma PlainToken(i: Instruction, total: nat, ext: bool)
    requires IsPlain(i.opcode) && OpcodeOf(i.opcode) == i.opcode && 1 <= total <= MAX_LENGTH
    requires WellFormedControls(i.opcode, i.controls, i.samplerMode)
    ensures var t := Token0(i, total, ext);
            && OpcodeOf(t) == i.opcode && LengthOf(t) == total && IsExtended(t) == ext
            && ReadsBack(i.opcode, i.controls, i.samplerMode, t) && LengthBitsOf(t) == LengthField(total)
  {
    hide OpcodeOf, LengthOf, IsExtended, Token0, WellFormedControls, ReadsBack, ControlBitsOf, ControlField,
         LengthBitsOf;
    hide LengthField;
    Token0Fields(i, total, ext);
    LengthFieldRead(total, Token0(i, total, ext));
    ControlsReadBackExactly(i.opcode, i.controls, i.samplerMode, Token0(i, total, ext));
  }

  /** The controls parsed from a generic instruction, field group by field group. */
  lemma ControlsParsed(words: seq<Word>, start: nat, end: nat, c: Controls, samplerMode: Byte)
    requires start < end <= |words|
    requires ReadsBack(OpcodeOf(words[start]), c, samplerMode, words[start]) && OpcodeOf(words[start]) != DCL_RESOURCE
    requires c.extended == ExtendedTokens(words, end, start).value && c.returnTypes == NO_RETURN_TYPES
    requires c.semanticName == (if UsesSemanticName(OpcodeOf(words[start])) && end - start >= 2
                                then Some(NameOf(words[end - 1])) else None)
    ensures ParsedControls(words, start, end) == c && SamplerModeOf(OpcodeOf(words[start]), words[start]) == samplerMode
  {
    hide OpcodeOf, TokenControls, ExtendedTokens, NameOf, UsesSemanticName;
  }

  lemma PlainParts(i: Instruction, words: seq<Word>, start: nat)
    requires IsPlain(i.opcode) && WellFormedPlain(i) && Occurs(EncodeInstruction(i), words, start)
    ensures var token := Token0(i, 1 + |PlainBody(i)|, i.controls.extended != []);
            && start < |words| && words[start] == token && |EncodeInstruction(i)| == 1 + |PlainBody(i)|
            && Occurs(PlainBody(i), words, start + 1)
            && Occurs(i.controls.extended, words, start + 1)
            && Occurs(EncodeOperands(i.operands), words, start + 1 + |i.controls.extended|)
  {
    hide Token0, EncodeOperands, WellFormedPlain, EncodeInstruction;
    PlainEncoding(i);
    var token := Token0(i, 1 + |PlainBody(i)|, i.controls.extended != []);
    OccursSplit([token], PlainBody(i), words, start);
    OccursAt([token], words, start, 0);
    OccursSplit(i.controls.extended, EncodeOperands(i.operands), words, start + 1);
  }

  lemma LastOfBody(body: seq<Word>, words: seq<Word>, start: nat)
    requires Occurs(body, words, start + 1) && body != []
    ensures words[start + |body|] == body[|body| - 1]
  {
    OccursAt(body, words, start + 1, |body| - 1);
  }

  lemma PlainControlsRoundTrip(i: Instruction, words: seq<Word>, start: nat)
    requires IsPlain(i.opcode) && WellFormedPlain(i) && Occurs(EncodeInstruction(i), words, start)
    requires start < |words|
    ensures var end := start + |EncodeInstruction(i)|;
            && start < end <= |words| && OpcodeOf(words[start]) == i.opcode && start + LengthOf(words[start]) == end
            && ParsedControls(words, start, end) == i.controls && SamplerModeOf(i.opcode, words[start]) == i.samplerMode
            && ExtendedTokens(words, end, start).cursor == start + 1 + |i.controls.extended|
  {
    hide OpcodeOf, LengthOf, IsExtended, Token0, WellFormedControls, ReadsBack, WellFormedChain, ParsedControls;
    hide EncodeInstruction, EncodeOperands, SamplerModeOf, ExtendedTokens, NameOf, RequiredChain, LengthBitsOf,
         LengthField;
    PlainParts(i, words, start);
    PlainToken(i, 1 + |PlainBody(i)|, i.controls.extended != []);
    var end := start + |EncodeInstruction(i)|;
    ExtendedTokensRoundTrip(i.controls.extended, words, end, start);
    if PlainBody(i) != [] { LastOfBody(PlainBody(i), words, start); }
    NoReturnTypes(i);
    ControlsParsed(words, start, end, i.controls, i.samplerMode);
  }

  lemma NoReturnTypes(i: Instruction)
    requires WellFormedControls(i.opcode, i.controls, i.samplerMode)
    ensures i.controls.returnTypes == NO_RETURN_TYPES
  {
    hide UsesTestBoolean, IsPixelInput;
  }

  lemma PlainRoundTrip(i: Instruction, words: seq<Word>, total: nat, start: nat)
    requires IsPlain(i.opcode) && WellFormedPlain(i) && Occurs(EncodeInstruction(i), words, start)
    requires start + |EncodeInstruction(i)| <= total <= |words| && start < total
    ensures RoundTrips(i, words, total, start)
  {
    hide OpcodeOf, LengthOf, Token0, WellFormedControls, WellFormedChain, ParsedControls, SameOperands;
    hide EncodeInstruction, EncodeOperands, SamplerModeOf, ExtendedTokens, NameAtEnd, RequiredChain, ParseOperands;
    PlainParts(i, words, start);
    PlainControlsRoundTrip(i, words, start);
    var end := start + |EncodeInstruction(i)|;
    OperandsRoundTrip(i.operands, words, total, end, start + 1 + |i.controls.extended|);
    NoOperands(words, total, end);
    var operands := ParseOperands(words, total, end, start + 1 + |i.controls.extended|);
    assert operands[..|i.operands|] == operands;
  }

  /** Parsing at `start` gives the instruction back, with its length and window. */
  predicate RoundTrips(i: Instruction, words: seq<Word>, total: nat, start: nat)
    requires start < total <= |words|
  {
    var r := ParseInstruction(words, total, start);
    && r.Some?
    && r.value.cursor == start + |EncodeInstruction(i)|
    && SameInstruction(i, r.value.value)
    && r.value.value.length == |EncodeInstruction(i)|
    && r.value.value.sourceOffset == start && r.value.value.sourceLength == |EncodeInstruction(i)|
  }

  // ---------------------------------------------------------------- declarations with encoders of their own

  /** Custom data whose first payload word is the block's word count, and whose opcode token leaves the
      length field (which overlaps the class bits) zero. */
  predicate WellFormedCustomData(i: Instruction) {
    && OpcodeOf(i.customDataToken) == CUSTOMDATA && LengthBitsOf(i.customDataToken) == 0
    && i.controls == TokenControls(CUSTOMDATA, i.customDataToken)
    && 1 <= |i.customData| && 1 + |i.customData| < WORD_LIMIT
    && i.customData[0] == ToWord(1 + |i.customData|)
    && i.operands == [] && i.samplerMode == 0
  }

  predicate WellFormedConstantBuffer(i: Instruction) {
    && i.controls.accessPattern.Some? && i.controls.accessPattern.value <= 1
    && i.controls == DEFAULT_CONTROLS.(accessPattern := i.controls.accessPattern)
    && |i.operands| == 1 && WellFormed(i.operands[0]) && |i.operands[0].entries| >= 2
    && 1 + |EncodeOperand(i.operands[0])| <= MAX_LENGTH
    && i.samplerMode == 0 && i.customData == [] && i.customDataToken == 0
  }

  predicate WellFormedTemps(i: Instruction) {
    && i.controls == DEFAULT_CONTROLS
    && |i.operands| == 1 && i.operands[0].entries != []
    && SameOperand(i.operands[0], RegisterOperand(TEMP, FirstRegister(i.operands[0])))
    && i.samplerMode == 0 && i.customData == [] && i.customDataToken == 0
  }

  /** Every instruction the round trip is promised for. */
  predicate WellFormedInstruction(i: Instruction) {
    if i.opcode == CUSTOMDATA then WellFormedCustomData(i)
    else if i.opcode == DCL_CONSTANT_BUFFER then WellFormedConstantBuffer(i)
    else if i.opcode == DCL_TEMPS then WellFormedTemps(i)
    else i.opcode != DCL_RESOURCE && WellFormedPlain(i)
  }

  lemma PlainSampler(op: Word, t: Word)
    requires op != DCL_SAMPLER
    ensures SamplerModeOf(op, t) == 0
  {
  }

  lemma CustomDataControls(words: seq<Word>, start: nat)
    requires start < |words| && OpcodeOf(words[start]) == CUSTOMDATA
    ensures ParsedControls(words, start, start + 1) == TokenControls(CUSTOMDATA, words[start])
  {
    hide IsExtended, TestOf, SyncFlagsOf, ModeOf, ReturnTypesOf;
  }

  lemma ZeroToken()
    ensures OpcodeOf(0) == 0
  {
  }

  lemma CustomDataRoundTrip(i: Instruction, words: seq<Word>, total: nat, start: nat)
    requires i.opcode == CUSTOMDATA && WellFormedCustomData(i) && Occurs(EncodeInstruction(i), words, start)
    requires start + |EncodeInstruction(i)| <= total <= |words| && start < total
    ensures RoundTrips(i, words, total, start)
  {
    hide OpcodeOf, LengthOf, ParsedControls, SamplerModeOf, ToWord, Value, TokenControls, LengthBitsOf, LengthField;
    ZeroToken();
    assert EncodeInstruction(i) == [i.customDataToken] + i.customData;
    OccursSplit([i.customDataToken], i.customData, words, start);
    OccursAt([i.customDataToken], words, start, 0);
    OccursAt(i.customData, words, start + 1, 0);
    ZeroLength(i.customDataToken);
    ValueOfToWord(1 + |i.customData|);
    CustomDataControls(words, start);
    PlainSampler(CUSTOMDATA, words[start]);
  }

  lemma ConstantBufferTokenRead(access: Byte, total: nat)
    requires access <= 1 && 1 <= total <= MAX_LENGTH
    ensures var t := ConstantBufferToken(access as bv32, total);
            && OpcodeOf(t) == DCL_CONSTANT_BUFFER && !IsExtended(t) && LengthOf(t) == total
            && TokenControls(DCL_CONSTANT_BUFFER, t) == DEFAULT_CONTROLS.(accessPattern := Some(access))
  {
    LengthFieldMasked(total);
    hide LengthOf, LengthField;
    LengthFieldRead(total, ConstantBufferToken(access as bv32, total));
  }

  lemma ConstantBufferControls(words: seq<Word>, start: nat, end: nat, c: Controls)
    requires start < end <= |words| && OpcodeOf(words[start]) == DCL_CONSTANT_BUFFER && !IsExtended(words[start])
    requires TokenControls(DCL_CONSTANT_BUFFER, words[start]) == c && c.extended == [] && c.semanticName.None?
    requires c.returnTypes == NO_RETURN_TYPES
    ensures ParsedControls(words, start, end) == c
  {
    hide TokenControls, OpcodeOf, IsExtended;
  }

  lemma ConstantBufferRoundTrip(i: Instruction, words: seq<Word>, total: nat, start: nat)
    requires i.opcode == DCL_CONSTANT_BUFFER && WellFormedConstantBuffer(i)
    requires Occurs(EncodeInstruction(i), words, start)
    requires start + |EncodeInstruction(i)| <= total <= |words| && start < total
    ensures RoundTrips(i, words, total, start)
  {
    hide OpcodeOf, LengthOf, IsExtended, ParsedControls, SamplerModeOf, TokenControls, EncodeOperand,
         ConstantBufferToken;
    hide SameOperand, ParseOperands, WellFormed;
    var operand := EncodeOperand(i.operands[0]);
    var token := ConstantBufferToken(AccessPattern(i.controls), 1 + |operand|);
    assert EncodeInstruction(i) == [token] + operand;
    OccursSplit([token], operand, words, start);
    OccursAt([token], words, start, 0);
    ConstantBufferTokenRead(i.controls.accessPattern.value, 1 + |operand|);
    var end := start + 1 + |operand|;
    ConstantBufferControls(words, start, end, i.controls);
    PlainSampler(DCL_CONSTANT_BUFFER, words[start]);
    OneOperand(i.operands, words, total, end, start + 1);
  }

  lemma OneOperand(operands: seq<Operand>, words: seq<Word>, total: nat, end: nat, cursor: nat)
    requires |operands| == 1 && WellFormed(operands[0]) && Occurs(EncodeOperand(operands[0]), words, cursor)
    requires cursor + |EncodeOperand(operands[0])| == end <= total <= |words|
    ensures SameOperands(operands, ParseOperands(words, total, end, cursor))
  {
    hide EncodeOperand, ParseOperand, SameOperand, WellFormed, Occurs, ParseOperands;
    OperandRoundTrip(operands[0], words, total, end, cursor);
    ParseOperandsStep(words, total, end, cursor);
    NoOperands(words, total, end);
  }

  lemma TempsTokenRead()
    ensures OpcodeOf(TEMPS_TOKEN) == DCL_TEMPS && !IsExtended(TEMPS_TOKEN) && LengthOf(TEMPS_TOKEN) == 2
    ensures TokenControls(DCL_TEMPS, TEMPS_TOKEN) == DEFAULT_CONTROLS && SamplerModeOf(DCL_TEMPS, TEMPS_TOKEN) == 0
    ensures DCL_TEMPS | LengthField(2) == TEMPS_TOKEN
  {
    hide LengthField, LengthOf;
    SmallLengths();
    LengthFieldRead(2, TEMPS_TOKEN);
  }

  lemma TempsRoundTrip(i: Instruction, words: seq<Word>, total: nat, start: nat)
    requires i.opcode == DCL_TEMPS && WellFormedTemps(i) && Occurs(EncodeInstruction(i), words, start)
    requires start + |EncodeInstruction(i)| <= total <= |words| && start < total
    ensures RoundTrips(i, words, total, start)
  {
    hide OpcodeOf, LengthOf, IsExtended, SamplerModeOf, TokenControls, LengthField;
    TempsTokenRead();
    var count := FirstRegister(i.operands[0]);
    assert EncodeInstruction(i) == [TEMPS_TOKEN, count];
    OccursAt(EncodeInstruction(i), words, start, 0);
    OccursAt(EncodeInstruction(i), words, start, 1);
  }

  // ---------------------------------------------------------------- main result

  /** Main result: wherever the words of a well-formed instruction occur in a program, one turn of the
      parsing loop gives the instruction back and consumes exactly those words. */
  lemma RoundTrip(i: Instruction, words: seq<Word>, total: nat, start: nat)
    requires WellFormedInstruction(i) && Occurs(EncodeInstruction(i), words, start)
    requires start + |EncodeInstruction(i)| <= total <= |words| && start < total
    ensures RoundTrips(i, words, total, start)
  {
    hide WellFormedCustomData, WellFormedConstantBuffer, WellFormedTemps, WellFormedPlain, EncodeInstruction,
         RoundTrips;
    if i.opcode == CUSTOMDATA { CustomDataRoundTrip(i, words, total, start); }
    else if i.opcode == DCL_CONSTANT_BUFFER { ConstantBufferRoundTrip(i, words, total, start); }
    else if i.opcode == DCL_TEMPS { TempsRoundTrip(i, words, total, start); }
    else { PlainRoundTrip(i, words, total, start); }
  }

  // ---------------------------------------------------------------- equality and encoding

  lemma {:induction false} SameOperandListsEncodeAlike(a: seq<Operand>, b: seq<Operand>)
    requires SameOperands(a, b)
    ensures EncodeOperands(a) == EncodeOperands(b)
  {
    hide SameOperand, EncodeOperand;
    if a != [] {
      assert SameOperand(a[0], b[0]);
      SameOperandsEncodeAlike(a[0], b[0]);
      SameOperandListsEncodeAlike(a[1..], b[1..]);
    }
  }

  lemma SameFirstRegister(a: Operand, b: Operand)
    requires SameOperand(a, b)
    ensures |a.entries| == |b.entries|
    ensures a.entries != [] ==> FirstRegister(a) == FirstRegister(b)
  {
    SameLength(a.entries, b.entries);
    if a.entries != [] { assert SameIndex(a.entries[0], b.entries[0]); }
  }

  lemma SameDeclarationsEncodeAlike(a: Instruction, b: Instruction)
    requires SameInstruction(a, b)
    ensures EncodeResource(a) == EncodeResource(b) && EncodeConstantBuffer(a) == EncodeConstantBuffer(b)
    ensures EncodeTemps(a) == EncodeTemps(b)
  {
    hide SameOperand, EncodeOperand, LengthField, FirstRegister;
    hide ResourceToken, ReturnTypeToken, ResourceTypes, ResourceDimension, RegisterOperand, ConstantBufferToken;
    if a.operands != [] {
      assert SameOperand(a.operands[0], b.operands[0]);
      SameOperandsEncodeAlike(a.operands[0], b.operands[0]);
      SameFirstRegister(a.operands[0], b.operands[0]);
    }
  }

  lemma SamePlainEncodeAlike(a: Instruction, b: Instruction)
    requires SameInstruction(a, b)
    ensures EncodeGeneric(a) == EncodeGeneric(b) && EncodeStructured(a) == EncodeStructured(b)
  {
    hide SameOperand, EncodeOperands, LengthField, ControlField, OpcodeOf, EmittedChain;
    hide Compose, NameToken, UsesSemanticName, ExtendedField;
    SameOperandListsEncodeAlike(a.operands, b.operands);
  }

  /** Instructions that differ only in provenance encode alike. */
  lemma SameInstructionsEncodeAlike(a: Instruction, b: Instruction)
    requires SameInstruction(a, b)
    ensures EncodeInstruction(a) == EncodeInstruction(b)
  {
    hide EncodeResource, EncodeConstantBuffer, EncodeTemps, EncodeGeneric, EncodeStructured, SameOperands, LengthField;
    SameDeclarationsEncodeAlike(a, b);
    SamePlainEncodeAlike(a, b);
  }
}
