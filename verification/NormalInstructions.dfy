/** When an encoded instruction, once parsed, encodes to the same words again: exactly, per kind of instruction. */
module NormalInstructions {
  import opened Words
  import opened Sm5Model
  import opened InstructionToken
  import opened ControlsRoundTrip
  import opened ExtendedOpcode
  import opened OperandCodec
  import opened OperandLossless
  import opened InstructionCodec
  import opened InstructionLossless
  import opened DeclarationLossless
  import opened InstructionRoundTrip
  import opened NormalForm

  /** The instruction's words, where they occur, parse, and what they parse to encodes to them again. */
  predicate Reencodes(i: Instruction, words: seq<Word>, total: nat, start: nat)
    requires start < total <= |words|
  {
    var r := ParseInstruction(words, total, start);
    && r.Some? && r.value.cursor == start + |EncodeInstruction(i)|
    && EncodeInstruction(r.value.value) == EncodeInstruction(i)
  }

  /** Every control bit that is written is parsed and written again. */
  predicate LosesNoControl(i: Instruction) {
    ControlField(i.opcode, i.controls, i.samplerMode) & DroppedBits(i.opcode) == 0
  }

  // ---------------------------------------------------------------- opcode tokens

  lemma DroppedWithin(t: Word, dropped: Word)
    requires dropped & !CONTROL_BITS == 0
    ensures t & dropped == ControlBitsOf(t) & dropped
  {
  }

  lemma DroppedMasked(op: Word)
    ensures DroppedBits(op) & !CONTROL_BITS == 0
  {
    hide CarriedBits;
  }

  lemma DroppedAlike(t: Word, i: Instruction)
    requires OpcodeOf(t) == i.opcode && ControlBitsOf(t) == ControlField(i.opcode, i.controls, i.samplerMode)
    ensures NothingDropped(t) <==> LosesNoControl(i)
  {
    hide OpcodeOf, ControlBitsOf, ControlField, DroppedBits;
    DroppedMasked(i.opcode);
    DroppedWithin(t, DroppedBits(i.opcode));
  }

  lemma EncodedOpcodeToken(i: Instruction, total: nat, ext: bool)
    requires OpcodeOf(i.opcode) == i.opcode && 1 <= total <= MAX_LENGTH
    ensures var t := Token0(i, total, ext);
            && OpcodeOf(t) == i.opcode && LengthOf(t) == total && IsExtended(t) == ext
            && (CanonicalOpcodeToken(t) <==> LosesNoControl(i))
  {
    hide OpcodeOf, LengthOf, IsExtended, Token0, ControlField, NothingDropped, LengthBitsOf, LengthField,
         LosesNoControl;
    hide ControlBitsOf;
    var t := Token0(i, total, ext);
    Token0Fields(i, total, ext);
    LengthFieldRead(total, t);
    LengthBits(t, total);
    DroppedAlike(t, i);
  }

  // ---------------------------------------------------------------- generic instructions

  predicate FormedGeneric(i: Instruction) {
    && !HasOwnForm(i.opcode) && OpcodeOf(i.opcode) == i.opcode
    && WellFormedChain(i.controls.extended) && WellFormedOperands(i.operands)
    && |EncodeInstruction(i)| <= MAX_LENGTH
  }

  /** A declaration with a name token also has the register operand before it. */
  predicate NamedInFull(i: Instruction) {
    UsesSemanticName(i.opcode) && |EncodeInstruction(i)| >= 2 ==>
      |i.operands| + |EmittedName(i)| >= EXPECTED_SEMANTIC_OPERANDS
  }

  lemma EmittedChainFormed(op: Word, c: Controls)
    requires WellFormedChain(c.extended)
    ensures WellFormedChain(EmittedChain(op, c))
    ensures RequiredChain(op).FixedPair? ==> EmittedChain(op, c) != []
  {
    hide RequiredChain, WellFormedChain, DimensionToken, TypesToken;
    if SynthesizesPair(op, c) { SynthesizedPair(op, c); }
  }

  /** Where the parts of an encoded generic instruction lie. */
  lemma GenericParts(i: Instruction, words: seq<Word>, start: nat)
    requires !HasOwnForm(i.opcode) && Occurs(EncodeInstruction(i), words, start)
    ensures var chain, operands := EmittedChain(i.opcode, i.controls), EncodeOperands(i.operands);
            && |EncodeInstruction(i)| == 1 + |chain| + |operands| + |EmittedName(i)|
            && start + |EncodeInstruction(i)| <= |words|
            && words[start] == Token0(i, |EncodeInstruction(i)|, chain != [])
            && Occurs(chain, words, start + 1) && Occurs(operands, words, start + 1 + |chain|)
            && Occurs(EmittedName(i), words, start + 1 + |chain| + |operands|)
  {
    hide Token0, EmittedChain, EncodeOperands, EmittedName, Occurs;
    var chain, operands, name := EmittedChain(i.opcode, i.controls), EncodeOperands(i.operands), EmittedName(i);
    var token := Token0(i, 1 + |chain + operands + name|, chain != []);
    assert EncodeInstruction(i) == [token] + (chain + operands + name);
    OccursSplit([token], chain + operands + name, words, start);
    OccursSplit(chain + operands, name, words, start + 1);
    OccursSplit(chain, operands, words, start + 1);
    OccursAt([token], words, start, 0);
  }

  lemma NarrowName(name: Byte)
    ensures NarrowStride(NameToken(name))
  {
  }

  /** A trailing name token parses as one canonical operand. */
  lemma NameAtTheEnd(i: Instruction, words: seq<Word>, total: nat, end: nat)
    requires |EmittedName(i)| <= end <= total <= |words| && Occurs(EmittedName(i), words, end - |EmittedName(i)|)
    ensures CanonicalOperands(words, total, end, end - |EmittedName(i)|)
    ensures |ParseOperands(words, total, end, end - |EmittedName(i)|)| == |EmittedName(i)|
  {
    hide NarrowStride, NameToken, CanonicalOperand, ParseOperand, UsesSemanticName, ParseOperands;
    NoOperands(words, total, end);
    if EmittedName(i) != [] {
      OccursAt(EmittedName(i), words, end - 1, 0);
      NarrowName(i.controls.semanticName.value);
      LastOperand(words, total, end);
      ParseOperandsStep(words, total, end, end - 1);
    }
  }

  lemma GenericBody(i: Instruction, words: seq<Word>, total: nat, start: nat)
    requires FormedGeneric(i) && Occurs(EncodeInstruction(i), words, start)
    requires start + |EncodeInstruction(i)| <= total <= |words|
    ensures start < total && OpcodeOf(words[start]) == i.opcode && LengthOf(words[start]) == |EncodeInstruction(i)|
    ensures CanonicalOpcodeToken(words[start]) <==> LosesNoControl(i)
    ensures CanonicalBody(words, total, start, start + |EncodeInstruction(i)|) <==> NamedInFull(i)
  {
    hide Token0, EmittedChain, EncodeOperands, EmittedName, Occurs, OpcodeOf, LengthOf, IsExtended, EncodeInstruction;
    hide CanonicalOpcodeToken, LosesNoControl, WellFormedChain, WellFormedOperands, RequiredChain, UsesSemanticName;
    hide CanonicalOperands, ParseOperands, ExtendedTokens, SameOperands, HasOwnForm;
    var n, chain, operands := |EncodeInstruction(i)|, EmittedChain(i.opcode, i.controls), EncodeOperands(i.operands);
    var c := start + 1 + |chain|;
    GenericParts(i, words, start);
    EncodedOpcodeToken(i, n, chain != []);
    EmittedChainFormed(i.opcode, i.controls);
    ExtendedTokensRoundTrip(chain, words, start + n, start);
    NameAtTheEnd(i, words, total, start + n);
    EncodedCanonical(i.operands, words, total, start + n, c);
    OperandsRoundTrip(i.operands, words, total, start + n, c);
  }

  /** Main result: a generic instruction's words, once parsed, encode to themselves if and only if no control bit
      is lost and no name token stands without its register operand. */
  lemma GenericExactly(i: Instruction, words: seq<Word>, total: nat, start: nat)
    requires FormedGeneric(i) && Occurs(EncodeInstruction(i), words, start)
    requires start + |EncodeInstruction(i)| <= total <= |words|
    ensures start < total && ParseInstruction(words, total, start).Some?
    ensures ParseInstruction(words, total, start).value.cursor == start + |EncodeInstruction(i)|
    ensures Reencodes(i, words, total, start) <==> LosesNoControl(i) && NamedInFull(i)
  {
    hide OpcodeOf, LengthOf, IsExtended, EncodeInstruction, LosesNoControl, NamedInFull, ParsedControls, ParseOperands;
    hide SamplerModeOf, ExtendedTokens, CanonicalBody, CanonicalOpcodeToken, WellFormedOperands, WellFormedChain;
    hide IsStructuredDeclaration;
    GenericBody(i, words, total, start);
    InstructionReencodesExactly(words, total, start);
  }

  // ---------------------------------------------------------------- what generic instructions parse to

  lemma OccursJoin(a: seq<Word>, b: seq<Word>, words: seq<Word>, at: nat)
    requires Occurs(a, words, at) && Occurs(b, words, at + |a|)
    ensures Occurs(a + b, words, at)
  {
    assert words[at..at + |a + b|] == words[at..at + |a|] + words[at + |a|..at + |a + b|];
  }

  lemma NameOperandWellFormed(name: Byte)
    ensures WellFormed(NameOperand(name))
  {
  }

  lemma ExplicitWellFormed(i: Instruction)
    requires WellFormedOperands(i.operands)
    ensures WellFormedOperands(Explicit(i).operands)
  {
    hide WellFormed, NameOperand, EmittedChain;
    var all := Explicit(i).operands;
    forall k | 0 <= k < |all| ensures WellFormed(all[k]) {
      if k < |i.operands| {
        assert all[k] == i.operands[k];
      } else {
        NameOperandWellFormed(i.controls.semanticName.value);
      }
    }
  }

  /** The operands of an encoded instruction, name token included, parse back. */
  lemma ExplicitOperands(i: Instruction, words: seq<Word>, total: nat, start: nat)
    requires FormedGeneric(i) && Occurs(EncodeInstruction(i), words, start)
    requires start + |EncodeInstruction(i)| <= total <= |words|
    ensures var c := start + 1 + |EmittedChain(i.opcode, i.controls)|;
            && c <= start + |EncodeInstruction(i)|
            && SameOperands(Explicit(i).operands, ParseOperands(words, total, start + |EncodeInstruction(i)|, c))
  {
    hide EmittedChain, EncodeOperands, EmittedName, Occurs, EncodeInstruction, HasOwnForm, OpcodeOf, WellFormedChain;
    hide WellFormedOperands, ParseOperands, SameOperand, NameOperands, Token0;
    var chain, end := EmittedChain(i.opcode, i.controls), start + |EncodeInstruction(i)|;
    GenericParts(i, words, start);
    NamesEncode(i);
    OccursJoin(EncodeOperands(i.operands), EmittedName(i), words, start + 1 + |chain|);
    ExplicitWellFormed(i);
    OperandsRoundTrip(Explicit(i).operands, words, total, end, start + 1 + |chain|);
    NoOperands(words, total, end);
    var r := ParseOperands(words, total, end, start + 1 + |chain|);
    assert r[..|Explicit(i).operands|] == r;
  }

  /** The controls of a generic instruction come back exactly when its token's do and the name is the last word. */
  lemma ParsedControlsExactly(words: seq<Word>, start: nat, end: nat, c: Controls, samplerMode: Byte)
    requires start < end <= |words| && OpcodeOf(words[start]) != DCL_RESOURCE
    requires c.extended == ExtendedTokens(words, end, start).value && c.returnTypes == NO_RETURN_TYPES
    ensures (ParsedControls(words, start, end) == c
             && SamplerModeOf(OpcodeOf(words[start]), words[start]) == samplerMode)
       <==> (&& ReadsBack(OpcodeOf(words[start]), c, samplerMode, words[start])
             && c.semanticName == (if UsesSemanticName(OpcodeOf(words[start])) && end - start >= 2
                                   then Some(NameOf(words[end - 1])) else None))
  {
    hide OpcodeOf, ExtendedTokens, NameOf, UsesSemanticName, TestOf, SyncFlagsOf, ModeOf, IsPixelInput, SamplerModeOf;
  }

  /** What an instruction has to say for its words to parse to it: controls that fit the token and agree on the
      bits they share, a name that repeats the last word, and no custom data. */
  predicate SaysWhatItEncodes(e: Instruction) {
    && WellFormedControls(e.opcode, e.controls, e.samplerMode) && e.controls.semanticName == NameAtEnd(e)
    && e.customData == [] && e.customDataToken == 0
  }

  lemma LastOfExplicit(i: Instruction, words: seq<Word>, start: nat)
    requires FormedGeneric(i) && Occurs(EncodeInstruction(i), words, start)
    ensures |EncodeInstruction(i)| == 1 + |PlainBody(Explicit(i))| && start + |EncodeInstruction(i)| <= |words|
    ensures PlainBody(Explicit(i)) != [] ==>
              words[start + |EncodeInstruction(i)| - 1] == PlainBody(Explicit(i))[|PlainBody(Explicit(i))| - 1]
  {
    hide EmittedChain, EncodeOperands, EmittedName, Occurs, Token0, NameOperands, UsesSemanticName, OpcodeOf;
    hide WellFormedChain, WellFormedOperands, IsStructuredDeclaration;
    NamesEncode(i);
    GenericParts(i, words, start);
    var chain, operands, name := EmittedChain(i.opcode, i.controls), EncodeOperands(i.operands), EmittedName(i);
    var token := Token0(i, 1 + |chain + operands + name|, chain != []);
    assert chain + (operands + name) == chain + operands + name;
    assert PlainBody(Explicit(i)) == chain + operands + name;
    assert EncodeInstruction(i) == [token] + PlainBody(Explicit(i));
    OccursAt(EncodeInstruction(i), words, start, |EncodeInstruction(i)| - 1);
  }

  /** Main result: a generic instruction's words parse, and what they parse to is the instruction with its
      synthesised parts written out if and only if that form says what it encodes. */
  lemma ParsesToExplicit(i: Instruction, words: seq<Word>, total: nat, start: nat)
    requires FormedGeneric(i) && Occurs(EncodeInstruction(i), words, start)
    requires start + |EncodeInstruction(i)| <= total <= |words|
    ensures start < total && ParseInstruction(words, total, start).Some?
    ensures SameInstruction(Explicit(i), ParseInstruction(words, total, start).value.value)
       <==> SaysWhatItEncodes(Explicit(i))
  {
    hide OpcodeOf, LengthOf, IsExtended, EncodeInstruction, ParsedControls, ParseOperands, SamplerModeOf,
         ExtendedTokens;
    hide WellFormedOperands, WellFormedChain, IsStructuredDeclaration, EmittedChain, NameOperands, SameOperands,
         ReadsBack;
    hide WellFormedControls, UsesSemanticName, NameOf, PlainBody, Occurs;
    var e, end := Explicit(i), start + |EncodeInstruction(i)|;
    ExplicitWindow(i, words, start);
    ExplicitOperands(i, words, total, start);
    LastOfExplicit(i, words, start);
    ParsedControlsExactly(words, start, end, e.controls, e.samplerMode);
  }

  lemma ExplicitWindow(i: Instruction, words: seq<Word>, start: nat)
    requires FormedGeneric(i) && Occurs(EncodeInstruction(i), words, start)
    ensures var end, e, chain := start + |EncodeInstruction(i)|, Explicit(i), EmittedChain(i.opcode, i.controls);
            && start < end <= |words| && OpcodeOf(words[start]) == i.opcode && start + LengthOf(words[start]) == end
            && start + 1 + |chain| <= end
            && ExtendedTokens(words, end, start) == Parsed(chain, start + 1 + |chain|)
            && (ReadsBack(i.opcode, e.controls, i.samplerMode, words[start])
                <==> WellFormedControls(i.opcode, e.controls, i.samplerMode))
  {
    hide OpcodeOf, LengthOf, IsExtended, Token0, ExtendedTokens, EncodeInstruction, Occurs, EncodeOperands,
         NameOperands;
    hide WellFormedOperands, IsStructuredDeclaration, ReadsBack, WellFormedControls, EmittedName, EmittedChain;
    hide ControlBitsOf, CanonicalOpcodeToken, LosesNoControl, WellFormedChain, LengthBitsOf, LengthField;
    var e, chain := Explicit(i), EmittedChain(i.opcode, i.controls);
    GenericParts(i, words, start);
    EncodedOpcodeToken(i, |EncodeInstruction(i)|, chain != []);
    EmittedChainFormed(i.opcode, i.controls);
    ExtendedTokensRoundTrip(chain, words, start + |EncodeInstruction(i)|, start);
    Token0Fields(i, |EncodeInstruction(i)|, chain != []);
    SameControlField(i);
    ControlsReadBackExactly(i.opcode, e.controls, i.samplerMode, words[start]);
  }

  lemma SameControlField(i: Instruction)
    ensures ControlField(i.opcode, Explicit(i).controls, i.samplerMode)
        == ControlField(i.opcode, i.controls, i.samplerMode)
  {
    hide SaturateField, TestField, PreciseField, ResinfoField, InterpolationField, SamplerField, GlobalFlagsField;
    hide UavField, Union, EmittedChain, NameOperands;
  }

  // ---------------------------------------------------------------- name tokens

  /** Main result for SIV/SGV declarations: one given its name token by Encode comes back word for word if and
      only if it has exactly its register operand. */
  lemma NameExactly(i: Instruction, words: seq<Word>, total: nat, start: nat)
    requires FormedGeneric(i) && LosesNoControl(i) && EmittedName(i) != []
    requires Occurs(EncodeInstruction(i), words, start)
    requires start + |EncodeInstruction(i)| <= total <= |words|
    ensures start < total && (Reencodes(i, words, total, start) <==> |i.operands| == 1)
  {
    hide LosesNoControl, Reencodes, EncodeInstruction, EmittedName, NamedInFull, Occurs, HasOwnForm, OpcodeOf;
    hide WellFormedChain, WellFormedOperands;
    GenericExactly(i, words, total, start);
    NameNeedsRegister(i);
  }

  lemma NameNeedsRegister(i: Instruction)
    requires !HasOwnForm(i.opcode) && EmittedName(i) != []
    ensures |i.operands| < EXPECTED_SEMANTIC_OPERANDS && (NamedInFull(i) <==> |i.operands| == 1)
  {
    hide EncodeOperands, Token0, EmittedChain, UsesSemanticName, NameToken, IsStructuredDeclaration;
  }

  lemma NameOperandFormed(words: seq<Word>, total: nat, end: nat, name: Byte)
    requires 0 < end <= total <= |words| && words[end - 1] == NameToken(name)
    ensures WellFormed(ParseOperand(words, total, end, end - 1).value)
  {
    hide OperandToken.RepresentationOf;
    assert NameToken(name) & 0xffff_ff00 == 0;
    NameTokenBits(NameToken(name));
    NoIndices(words, total, end, end, NameToken(name));
    NoImmediates(words, end, end);
  }

  lemma NameTokenBits(t: Word)
    requires t & 0xffff_ff00 == 0
    ensures OperandToken.TypeOf(t) == TEMP && OperandToken.DimensionOf(t) == 0 && !OperandToken.IsExtended(t)
    ensures OperandToken.NumComponentsOf(t) < 4
    ensures OperandToken.ComponentModeOf(t) & !OperandToken.COMPONENT_MODE_BITS == 0
  {
  }

  /** What an SIV/SGV declaration given no operand parses to: its name token has become its only operand. */
  lemma NameBecomesOperand(i: Instruction, words: seq<Word>, total: nat, start: nat)
    requires FormedGeneric(i) && EmittedName(i) != [] && i.operands == [] && Occurs(EncodeInstruction(i), words, start)
    requires start + |EncodeInstruction(i)| <= total <= |words|
    ensures start < total && ParseInstruction(words, total, start).Some?
    ensures var p := ParseInstruction(words, total, start).value.value;
            && p.opcode == i.opcode && p.controls.extended == EmittedChain(i.opcode, i.controls)
            && p.controls.resourceDimension.None? && p.controls.semanticName.Some? && LosesNoControl(p)
            && |p.operands| == 1 && EncodeOperands(p.operands) == EmittedName(i) && WellFormed(p.operands[0])
  {
    hide OpcodeOf, LengthOf, ParsedControls, ParseOperands, LosesNoControl, EmittedChain, EmittedName, SamplerModeOf;
    hide ExtendedTokens, UsesSemanticName, EncodeInstruction, CanonicalOperands, Occurs, EncodeOperands, WellFormed;
    hide IsStructuredDeclaration, WellFormedChain, WellFormedOperands;
    var end := start + |EncodeInstruction(i)|;
    NameWindow(i, words, start);
    NameAtTheEnd(i, words, total, end);
    OnlyNameParsed(i, words, total, end);
    ParsedControlField(words, start, end);
    ParsedLosesNothing(words, start, end, ParseInstruction(words, total, start).value.value);
  }

  lemma NameWindow(i: Instruction, words: seq<Word>, start: nat)
    requires FormedGeneric(i) && EmittedName(i) != [] && i.operands == [] && Occurs(EncodeInstruction(i), words, start)
    ensures var end, chain := start + |EncodeInstruction(i)|, EmittedChain(i.opcode, i.controls);
            && start + 2 <= end <= |words| && OpcodeOf(words[start]) == i.opcode
            && start + LengthOf(words[start]) == end
            && ExtendedTokens(words, end, start) == Parsed(chain, end - 1) && Occurs(EmittedName(i), words, end - 1)
  {
    hide OpcodeOf, LengthOf, IsExtended, Token0, LosesNoControl, EmittedChain, EmittedName, ExtendedTokens;
    hide CanonicalOpcodeToken, WellFormedChain, EncodeInstruction, Occurs, EncodeOperands, IsStructuredDeclaration;
    hide WellFormedOperands;
    var chain := EmittedChain(i.opcode, i.controls);
    GenericParts(i, words, start);
    assert EncodeOperands(i.operands) == [] by { NoneEncoded(); }
    EncodedOpcodeToken(i, |EncodeInstruction(i)|, chain != []);
    EmittedChainFormed(i.opcode, i.controls);
    ExtendedTokensRoundTrip(chain, words, start + |EncodeInstruction(i)|, start);
  }

  lemma NoneEncoded()
    ensures EncodeOperands([]) == []
  {
  }

  lemma OnlyNameParsed(i: Instruction, words: seq<Word>, total: nat, end: nat)
    requires EmittedName(i) != [] && 0 < end <= total <= |words| && Occurs(EmittedName(i), words, end - 1)
    requires CanonicalOperands(words, total, end, end - 1)
    ensures var r := ParseOperands(words, total, end, end - 1);
            |r| == 1 && EncodeOperands(r) == EmittedName(i) && WellFormed(r[0])
    ensures UsesSemanticName(i.opcode)
  {
    hide CanonicalOperands, ParseOperands, ParseOperand, EncodeOperands, WellFormed, NameToken, UsesSemanticName;
    OccursAt(EmittedName(i), words, end - 1, 0);
    OperandsReencoded(words, total, end, end - 1);
    NameOperandFormed(words, total, end, i.controls.semanticName.value);
    ParseOperandsStep(words, total, end, end - 1);
    NoOperands(words, total, end);
  }

  /** So encoding appends a second name token to an SIV/SGV declaration that was given no operand. That is the
      end of it: the result is in normal form. */
  lemma NameWithoutOperand(i: Instruction, words: seq<Word>, total: nat, start: nat)
    requires FormedGeneric(i) && EmittedName(i) != [] && i.operands == [] && Occurs(EncodeInstruction(i), words, start)
    requires start + |EncodeInstruction(i)| <= total <= |words|
    ensures start < total && ParseInstruction(words, total, start).Some?
    ensures var p := ParseInstruction(words, total, start).value.value;
            && |EncodeInstruction(p)| == |EncodeInstruction(i)| + 1
            && (|EncodeInstruction(p)| <= MAX_LENGTH ==> FormedGeneric(p) && LosesNoControl(p) && NamedInFull(p))
  {
    hide Token0, ParseInstruction, LosesNoControl, EmittedChain, WellFormedChain, UsesSemanticName, EncodeOperands;
    hide RequiredChain, NameToken, WellFormed, IsStructuredDeclaration, OpcodeOf;
    NameBecomesOperand(i, words, total, start);
    NoneEncoded();
    var p := ParseInstruction(words, total, start).value.value;
    EmittedChainFormed(i.opcode, i.controls);
    ParsedChain(p, EmittedChain(i.opcode, i.controls));
  }

  lemma ParsedChain(p: Instruction, chain: seq<Word>)
    requires p.controls.extended == chain && p.controls.resourceDimension.None?
    requires RequiredChain(p.opcode).FixedPair? ==> chain != []
    ensures EmittedChain(p.opcode, p.controls) == chain
  {
    hide RequiredChain;
  }

  lemma MaskedTwice(t: Word, carried: Word)
    ensures (t & carried) & (CONTROL_BITS & !carried) == 0
  {
  }

  /** Parsed controls lose nothing when they are written. */
  lemma ParsedLosesNothing(words: seq<Word>, start: nat, end: nat, p: Instruction)
    requires start < end <= |words|
    requires p.opcode == OpcodeOf(words[start]) && p.controls == ParsedControls(words, start, end)
    requires p.samplerMode == SamplerModeOf(p.opcode, words[start])
    ensures LosesNoControl(p)
  {
    hide OpcodeOf, ControlField, CarriedBits, ParsedControls, SamplerModeOf;
    ParsedControlField(words, start, end);
    MaskedTwice(words[start], CarriedBits(p.opcode));
  }

  // ---------------------------------------------------------------- structured declarations

  predicate FormedStructured(i: Instruction) {
    && IsStructuredDeclaration(i.opcode) && i.controls.extended == [] && WellFormedOperands(i.operands)
    && |EncodeInstruction(i)| <= MAX_LENGTH
  }

  lemma StructuredOpcode(op: Word)
    requires IsStructuredDeclaration(op)
    ensures OpcodeOf(op) == op
  {
  }

  lemma StructuredParts(i: Instruction, words: seq<Word>, start: nat)
    requires IsStructuredDeclaration(i.opcode) && i.controls.extended == []
    requires Occurs(EncodeInstruction(i), words, start)
    ensures var operands, n := EncodeOperands(i.operands), |EncodeInstruction(i)|;
            && start + n <= |words| && n == 1 + |operands| + (if i.controls.structureStride != 0 then 1 else 0)
            && words[start] == Token0(i, n, false) && Occurs(operands, words, start + 1)
            && (i.controls.structureStride != 0 ==> words[start + n - 1] == i.controls.structureStride)
  {
    hide EncodeOperands, Token0, Occurs;
    var operands := EncodeOperands(i.operands);
    var stride := if i.controls.structureStride != 0 then [i.controls.structureStride] else [];
    var token := Token0(i, 1 + |operands + stride|, false);
    assert EncodeInstruction(i) == [token] + (operands + stride);
    OccursSplit([token], operands + stride, words, start);
    OccursAt([token], words, start, 0);
    OccursSplit(operands, stride, words, start + 1);
    if stride != [] { OccursAt(stride, words, start + 1 + |operands|, 0); }
  }

  lemma NoStrideNarrow()
    ensures NarrowStride(0)
  {
  }

  /** Main result for structured declarations: the stride is emitted as a raw word that parses as an operand, so
      the declaration comes back word for word if and only if no control bit (a UAV flag) is lost and the stride
      is below 2^20. (D3D11 strides are at most 2048.) */
  lemma StructuredExactly(i: Instruction, words: seq<Word>, total: nat, start: nat)
    requires FormedStructured(i) && Occurs(EncodeInstruction(i), words, start)
    requires start + |EncodeInstruction(i)| <= total <= |words|
    ensures start < total && ParseInstruction(words, total, start).Some?
    ensures ParseInstruction(words, total, start).value.cursor == start + |EncodeInstruction(i)|
    ensures Reencodes(i, words, total, start) <==> LosesNoControl(i) && NarrowStride(i.controls.structureStride)
  {
    hide Token0, EncodeOperands, OpcodeOf, LengthOf, IsExtended, CanonicalOperands, CanonicalOpcodeToken, NarrowStride;
    hide ParsedControls, ParseOperands, SamplerModeOf, EncodeInstruction, ExtendedTokens, LosesNoControl;
    hide WellFormedOperands;
    var n := |EncodeInstruction(i)|;
    var end := start + n;
    StructuredOpcode(i.opcode);
    StructuredParts(i, words, start);
    EncodedOpcodeToken(i, n, false);
    EncodedCanonical(i.operands, words, total, end, start + 1);
    if i.controls.structureStride != 0 {
      LastOperand(words, total, end);
    } else {
      NoStrideNarrow();
      EndCanonical(words, total, end);
    }
    InstructionReencodesExactly(words, total, start);
    assert words[start..end] == EncodeInstruction(i);
  }

  lemma EndCanonical(words: seq<Word>, total: nat, end: nat)
    requires end <= |words|
    ensures CanonicalOperands(words, total, end, end)
  {
  }

  // ---------------------------------------------------------------- declarations with encoders of their own

  predicate FormedConstantBuffer(i: Instruction) {
    && i.opcode == DCL_CONSTANT_BUFFER && i.operands != [] && |i.operands[0].entries| >= 2 && WellFormed(i.operands[0])
    && |EncodeInstruction(i)| <= MAX_LENGTH
  }

  lemma ConstantBufferTokenBits(access: Word, total: nat)
    requires 1 <= total <= MAX_LENGTH
    ensures var t := ConstantBufferToken(access, total);
            OpcodeOf(t) == DCL_CONSTANT_BUFFER && t & 0x80ff_f000 == 0 && !IsExtended(t) && LengthOf(t) == total
  {
    LengthFieldMasked(total);
    hide LengthOf, LengthField;
    LengthFieldRead(total, ConstantBufferToken(access, total));
  }

  lemma ConstantBufferReencoded(i: Instruction, words: seq<Word>, total: nat, start: nat)
    requires FormedConstantBuffer(i) && Occurs(EncodeInstruction(i), words, start)
    requires start + |EncodeInstruction(i)| <= total <= |words|
    ensures start < total && Reencodes(i, words, total, start)
  {
    hide OpcodeOf, LengthOf, IsExtended, ParsedControls, SamplerModeOf, EncodeOperand, ConstantBufferToken, SameOperand;
    hide ParseOperands, WellFormed, ParseOperand, CanonicalOperand, AccessPattern, ExtendedTokens;
    var operand := EncodeOperand(i.operands[0]);
    var token := ConstantBufferToken(AccessPattern(i.controls), 1 + |operand|);
    var end := start + 1 + |operand|;
    assert EncodeInstruction(i) == [token] + operand;
    OccursSplit([token], operand, words, start);
    OccursAt([token], words, start, 0);
    ConstantBufferTokenBits(AccessPattern(i.controls), 1 + |operand|);
    OperandCanonical(i.operands[0], words, total, end, start + 1);
    InstructionReencodesExactly(words, total, start);
    assert words[start..end] == EncodeInstruction(i);
  }

  lemma OperandCanonical(o: Operand, words: seq<Word>, total: nat, end: nat, cursor: nat)
    requires WellFormed(o) && Occurs(EncodeOperand(o), words, cursor)
    requires cursor + |EncodeOperand(o)| <= end <= total <= |words|
    ensures var r := ParseOperand(words, total, end, cursor);
            && CanonicalOperand(words, total, end, cursor) && r.cursor == cursor + |EncodeOperand(o)|
            && |r.value.entries| == |o.entries|
  {
    hide EncodeOperand, WellFormed, ParseOperand, CanonicalOperand, SameIndices;
    OperandRoundTrip(o, words, total, end, cursor);
    var p := ParseOperand(words, total, end, cursor).value;
    SameOperandsEncodeAlike(o, p);
    ReencodesExactly(words, total, end, cursor);
    SameLength(o.entries, p.entries);
  }

  lemma TempsReencoded(i: Instruction, words: seq<Word>, total: nat, start: nat)
    requires i.opcode == DCL_TEMPS && Occurs(EncodeInstruction(i), words, start)
    requires start + |EncodeInstruction(i)| <= total <= |words|
    ensures start < total && Reencodes(i, words, total, start)
  {
    hide OpcodeOf, LengthOf, IsExtended, SamplerModeOf, LengthField, ParsedControls;
    TempsTokenRead();
    OccursAt(EncodeInstruction(i), words, start, 0);
    OccursAt(EncodeInstruction(i), words, start, 1);
  }

  /** A block whose first word is its word count, and whose opcode token (given, or made up) announces no more. */
  predicate FormedCustomData(i: Instruction) {
    && i.opcode == CUSTOMDATA && OpcodeOf(CustomDataToken(i)) == CUSTOMDATA
    && i.customData != [] && |EncodeInstruction(i)| < WORD_LIMIT && i.customData[0] == ToWord(|EncodeInstruction(i)|)
    && LengthOf(CustomDataToken(i)) <= |EncodeInstruction(i)|
  }

  lemma CustomDataComesBack(i: Instruction, words: seq<Word>, total: nat, start: nat)
    requires FormedCustomData(i) && Occurs(EncodeInstruction(i), words, start)
    requires start + |EncodeInstruction(i)| <= total <= |words|
    ensures start < total && Reencodes(i, words, total, start)
  {
    hide OpcodeOf, LengthOf, ParsedControls, SamplerModeOf, ToWord, Value, CustomDataToken, IsExtended;
    var n := |EncodeInstruction(i)|;
    assert EncodeInstruction(i) == [CustomDataToken(i)] + i.customData;
    OccursSplit([CustomDataToken(i)], i.customData, words, start);
    OccursAt([CustomDataToken(i)], words, start, 0);
    OccursAt(i.customData, words, start + 1, 0);
    ValueOfToWord(n);
    CustomDataReencoded(words, total, start);
    assert words[start..start + n] == EncodeInstruction(i);
  }

  lemma ResourceComesBack(i: Instruction, words: seq<Word>, total: nat, start: nat)
    requires i.opcode == DCL_RESOURCE && i.operands != [] && i.operands[0].entries != []
    requires Occurs(EncodeInstruction(i), words, start) && start + |EncodeInstruction(i)| <= total <= |words|
    ensures start < total && Reencodes(i, words, total, start)
  {
    hide ParseInstruction, EncodeInstruction, DeclaresAlike;
    EncodedResourceWords(i, words, start);
    ResourceNormalForm(i, words, total, start);
  }

  /** The opcode token an instruction is encoded with announces its opcode and its length. */
  lemma AnnouncedLength(i: Instruction)
    requires OpcodeOf(i.opcode) == i.opcode && i.opcode != CUSTOMDATA
    requires EncodeInstruction(i) != [] && |EncodeInstruction(i)| <= MAX_LENGTH
    ensures OpcodeOf(EncodeInstruction(i)[0]) == i.opcode && LengthOf(EncodeInstruction(i)[0]) == |EncodeInstruction(i)|
  {
    hide OpcodeOf, LengthOf, Token0, EncodeOperands, EncodeOperand, ResourceToken, ConstantBufferToken, LengthBitsOf;
    hide EmittedChain, EmittedName, LosesNoControl, CanonicalOpcodeToken, ReturnTypeToken, ResourceTypes, AccessPattern;
    hide ResourceDimension, IsExtended, TokenControls, SamplerModeOf, LengthField, FirstRegister, RegisterOperand;
    hide IsStructuredDeclaration;
    var n := |EncodeInstruction(i)|;
    if i.opcode == DCL_RESOURCE {
      EncodedResourceOperand(FirstRegister(i.operands[0]));
      ResourceTokenRead(ResourceDimension(i.controls));
      SmallLengths();
      LengthFieldRead(4, ResourceToken(ResourceDimension(i.controls)));
    } else if i.opcode == DCL_CONSTANT_BUFFER {
      ConstantBufferTokenBits(AccessPattern(i.controls), n);
    } else if i.opcode == DCL_TEMPS {
      TempsTokenRead();
    } else {
      EncodedOpcodeToken(i, n, true);
      EncodedOpcodeToken(i, n, false);
    }
  }

  // ---------------------------------------------------------------- main result

  /** The instructions whose words come back, word for word. */
  predicate Normal(i: Instruction) {
    if i.opcode == CUSTOMDATA then FormedCustomData(i)
    else if i.opcode == DCL_RESOURCE then i.operands != [] && i.operands[0].entries != []
    else if i.opcode == DCL_CONSTANT_BUFFER then FormedConstantBuffer(i)
    else if i.opcode == DCL_TEMPS then true
    else if IsStructuredDeclaration(i.opcode) then
      FormedStructured(i) && LosesNoControl(i) && NarrowStride(i.controls.structureStride)
    else FormedGeneric(i) && LosesNoControl(i) && NamedInFull(i)
  }

  /** Main result: wherever the words of a normal instruction occur, they parse to an instruction that encodes to
      them again. */
  lemma NormalReencodes(i: Instruction, words: seq<Word>, total: nat, start: nat)
    requires Normal(i) && Occurs(EncodeInstruction(i), words, start)
    requires start + |EncodeInstruction(i)| <= total <= |words|
    ensures start < total && Reencodes(i, words, total, start)
  {
    hide FormedCustomData, FormedConstantBuffer, FormedStructured, FormedGeneric, LosesNoControl, NamedInFull;
    hide NarrowStride, EncodeInstruction, Reencodes, IsStructuredDeclaration;
    if i.opcode == CUSTOMDATA { CustomDataComesBack(i, words, total, start); }
    else if i.opcode == DCL_RESOURCE { ResourceComesBack(i, words, total, start); }
    else if i.opcode == DCL_CONSTANT_BUFFER { ConstantBufferReencoded(i, words, total, start); }
    else if i.opcode == DCL_TEMPS { TempsReencoded(i, words, total, start); }
    else if IsStructuredDeclaration(i.opcode) { StructuredExactly(i, words, total, start); }
    else { GenericExactly(i, words, total, start); }
  }

  lemma PlainNormal(i: Instruction)
    requires IsPlain(i.opcode) && WellFormedPlain(i)
    ensures Normal(i)
  {
    hide Token0, OpcodeOf, LengthOf, IsExtended, WellFormedControls, WellFormedOperands, EncodeOperands, NarrowStride;
    hide WellFormedChain, RequiredChain, LosesNoControl, NameOf, UsesSemanticName;
    PlainEncoding(i);
    NoStride(i);
    NoStrideNarrow();
    EncodedTokenCanonical(i, 1, false);
    EncodedOpcodeToken(i, 1, false);
    assert EmittedChain(i.opcode, i.controls) == i.controls.extended by { ParsedChain(i, i.controls.extended); }
  }

  /** Whatever round-trips is normal. */
  lemma WellFormedNormal(i: Instruction)
    requires WellFormedInstruction(i)
    ensures Normal(i)
  {
    hide Token0, OpcodeOf, LengthOf, IsExtended, WellFormedPlain, ToWord, Value, EncodeOperand, ConstantBufferToken;
    hide WellFormed, FormedStructured, FormedGeneric, LosesNoControl, NamedInFull, NarrowStride, LengthBitsOf,
         LengthField;
    hide TokenControls, IsStructuredDeclaration;
    if i.opcode == CUSTOMDATA { ZeroToken(); ZeroLength(i.customDataToken); }
    else if i.opcode != DCL_CONSTANT_BUFFER && i.opcode != DCL_TEMPS { PlainNormal(i); }
  }
}
