/** Re-encoding a parsed instruction: exactly which instructions come back word for word. */
module InstructionLossless {
  import opened Words
  import opened Sm5Model
  import opened InstructionToken
  import opened ExtendedOpcode
  import opened OperandCodec
  import opened OperandLossless
  import opened InstructionCodec
  import opened ShiftedOperands

  // ---------------------------------------------------------------- operand lists

  /** Canonical operands from `cursor` to the end of the instruction. */
  predicate CanonicalOperands(words: seq<Word>, total: nat, end: nat, cursor: nat)
    requires cursor <= end <= |words|
    decreases end - cursor
  {
    cursor == end
    || (&& CanonicalOperand(words, total, end, cursor)
        && ParseOperand(words, total, end, cursor).cursor > cursor
        && CanonicalOperands(words, total, end, ParseOperand(words, total, end, cursor).cursor))
  }

  /** Operands are parsed one at a time until the instruction ends. */
  lemma ParseOperandsStep(words: seq<Word>, total: nat, end: nat, cursor: nat)
    requires cursor < end <= |words| && end <= total
    ensures var first := ParseOperand(words, total, end, cursor);
            && cursor < first.cursor
            && var rest := ParseOperands(words, total, end, first.cursor);
               && ParseOperands(words, total, end, cursor) == [first.value] + rest
               && ([first.value] + rest)[1..] == rest
  {
    hide ParseOperand;
    var first := ParseOperand(words, total, end, cursor);
    var rest := ParseOperands(words, total, end, first.cursor);
    assert ([first.value] + rest)[1..] == rest;
  }

  lemma {:induction false} OperandsReencoded(words: seq<Word>, total: nat, end: nat, cursor: nat)
    requires cursor <= end <= |words| && end <= total && CanonicalOperands(words, total, end, cursor)
    ensures EncodeOperands(ParseOperands(words, total, end, cursor)) == words[cursor..end]
    decreases end - cursor
  {
    hide ParseOperand, CanonicalOperand, EncodeOperand, ParseOperands;
    if cursor == end {
      NoOperands(words, total, end);
    } else {
      ParseOperandsStep(words, total, end, cursor);
      OperandReencoded(words, total, end, cursor);
      var first := ParseOperand(words, total, end, cursor);
      OperandsReencoded(words, total, end, first.cursor);
      assert words[cursor..first.cursor] + words[first.cursor..end] == words[cursor..end];
    }
  }

  lemma NoOperands(words: seq<Word>, total: nat, end: nat)
    requires end <= |words|
    ensures ParseOperands(words, total, end, end) == []
  {
  }

  /** If the re-encoded operands, followed by anything, occur where they were parsed, every operand
      was canonical and together they take exactly the words from `cursor` to the end. */
  lemma {:induction false} OperandsOnlyCanonical(words: seq<Word>, total: nat, end: nat, cursor: nat)
    requires cursor <= end <= |words| && end <= total
    requires Occurs(EncodeOperands(ParseOperands(words, total, end, cursor)), words, cursor)
    requires cursor + |EncodeOperands(ParseOperands(words, total, end, cursor))| <= end
    ensures CanonicalOperands(words, total, end, cursor)
    ensures cursor + |EncodeOperands(ParseOperands(words, total, end, cursor))| == end
    decreases end - cursor
  {
    hide ParseOperand, CanonicalOperand, EncodeOperand, Occurs, ParseOperands;
    if cursor == end {
      NoOperands(words, total, end);
    } else {
      ParseOperandsStep(words, total, end, cursor);
      var first := ParseOperand(words, total, end, cursor);
      var rest := ParseOperands(words, total, end, first.cursor);
      OccursSplit(EncodeOperand(first.value), EncodeOperands(rest), words, cursor);
      OnlyCanonical(words, total, end, cursor);
      OperandsOnlyCanonical(words, total, end, first.cursor);
    }
  }

  lemma {:induction false} OperandsGrowth(words: seq<Word>, total: nat, end: nat, cursor: nat)
    requires cursor <= end <= total <= |words|
    ensures |EncodeOperands(ParseOperands(words, total, end, cursor))| <= end - cursor + 1
    decreases end - cursor
  {
    hide ParseOperand, EncodeOperand, ParseOperands;
    if cursor == end {
      NoOperands(words, total, end);
    } else {
      var first := ParseOperand(words, total, end, cursor);
      ParseOperandsStep(words, total, end, cursor);
      OperandGrowth(words, total, end, cursor);
      OperandsGrowth(words, total, end, first.cursor);
      NoOperands(words, total, end);
    }
  }

  /** Operands that encode to one word more than they were parsed from are not repeated one word early. */
  lemma {:induction false} OperandsNeverShifted(words: seq<Word>, total: nat, end: nat, cursor: nat)
    requires 0 < cursor <= end <= total <= |words|
    ensures var encoded := EncodeOperands(ParseOperands(words, total, end, cursor));
            |encoded| == end - cursor + 1 ==> !Occurs(encoded, words, cursor - 1)
    decreases end - cursor
  {
    hide ParseOperand, EncodeOperand, ParseOperands, Occurs;
    NoOperands(words, total, end);
    if cursor < end {
      var first := ParseOperand(words, total, end, cursor);
      var rest := EncodeOperands(ParseOperands(words, total, end, first.cursor));
      ParseOperandsStep(words, total, end, cursor);
      OperandGrowth(words, total, end, cursor);
      OperandsGrowth(words, total, end, first.cursor);
      GrownNeverShifted(words, total, end, cursor);
      OperandsNeverShifted(words, total, end, first.cursor);
      if Occurs(EncodeOperand(first.value) + rest, words, cursor - 1) {
        OccursSplit(EncodeOperand(first.value), rest, words, cursor - 1);
      }
    }
  }

  // ---------------------------------------------------------------- generic instructions

  /** The parsed instruction that is not custom data, dcl_temps or a declaration of its own form. */
  function ParsedInstruction(words: seq<Word>, total: nat, start: nat, end: nat): Instruction
    requires start < end <= |words|
  {
    var op := OpcodeOf(words[start]);
    Instruction(op, ParsedControls(words, start, end), end - start,
                ParseOperands(words, total, end, ExtendedTokens(words, end, start).cursor),
                SamplerModeOf(op, words[start]), [], 0, start, end - start)
  }

  predicate HasOwnForm(op: Word) {
    || op == CUSTOMDATA || op == DCL_RESOURCE || op == DCL_CONSTANT_BUFFER || op == DCL_TEMPS
    || IsStructuredDeclaration(op)
  }

  /** Words an opcode token can be re-encoded from: no dropped bit, and a length field that is not zero. */
  predicate CanonicalOpcodeToken(t: Word) { NothingDropped(t) && LengthBitsOf(t) != 0 }

  /** The words after the opcode token of a generic instruction can be re-encoded. */
  predicate CanonicalBody(words: seq<Word>, total: nat, start: nat, end: nat)
    requires start < end <= |words|
  {
    var t := words[start];
    var op := OpcodeOf(t);
    var chain := ExtendedTokens(words, end, start);
    && (IsExtended(t) ==> end - start >= 2)
    && (RequiredChain(op).FixedPair? ==> IsExtended(t))
    && CanonicalOperands(words, total, end, chain.cursor)
    && (UsesSemanticName(op) && end - start >= 2 ==>
          |ParseOperands(words, total, end, chain.cursor)| >= EXPECTED_SEMANTIC_OPERANDS)
  }

  predicate CanonicalGeneric(words: seq<Word>, total: nat, start: nat, end: nat)
    requires start < end <= |words|
  {
    CanonicalOpcodeToken(words[start]) && CanonicalBody(words, total, start, end)
  }

  /** The controls that decide the opcode token are those parsed from it. */
  lemma ParsedControlField(words: seq<Word>, start: nat, end: nat)
    requires start < end <= |words|
    ensures var t := words[start];
            var op := OpcodeOf(t);
            var c := ParsedControls(words, start, end);
            && ControlField(op, c, SamplerModeOf(op, t)) == t & CarriedBits(op)
            && c.extended == ExtendedTokens(words, end, start).value
            && (op != DCL_RESOURCE ==> c.resourceDimension.None?)
            && c.structureStride == 0
            && (c.semanticName.Some? <==> UsesSemanticName(op) && end - start >= 2)
  {
    hide SaturateField, TestField, PreciseField, ResinfoField, InterpolationField, SamplerField, GlobalFlagsField;
    hide UavField, CarriedBits, TestOf, SyncFlagsOf, ModeOf, ReturnTypesOf, Union, ExtendedTokens, NameOf;
    ControlFieldOfToken(OpcodeOf(words[start]), words[start]);
  }

  /** When a token re-encodes to itself, given the number of words its instruction re-encodes to. */
  lemma TokenReencoded(words: seq<Word>, start: nat, end: nat, i: Instruction, total: nat, ext: bool)
    requires start < end <= |words| && end == start + LengthOf(words[start])
    requires i.opcode == OpcodeOf(words[start]) && i.controls == ParsedControls(words, start, end)
    requires i.samplerMode == SamplerModeOf(i.opcode, words[start]) && total == end - start
    ensures Token0(i, total, ext) == words[start]
       <==> CanonicalOpcodeToken(words[start]) && IsExtended(words[start]) == ext
  {
    hide LengthField, ControlField, CarriedBits, Token0, OpcodeOf, LengthBitsOf, IsExtended, NothingDropped;
    hide ParsedControls, SamplerModeOf, LengthOf;
    ParsedControlField(words, start, end);
    TokenLossless(words[start], i, total, ext);
    LengthFieldOfLength(words[start]);
  }

  lemma ExtendedTokensEmpty(words: seq<Word>, start: nat, end: nat)
    requires start < end <= |words|
    ensures ExtendedTokens(words, end, start).value == [] <==> IsExtended(words[start]) ==> end == start + 1
    ensures !IsExtended(words[start]) ==> ExtendedTokens(words, end, start).cursor == start + 1
  {
    hide IsExtended, AnotherFollows;
  }

  /** A canonical body is reproduced word for word behind the re-encoded token. */
  lemma BodyReencoded(words: seq<Word>, total: nat, start: nat, end: nat)
    requires start < end <= total <= |words| && end == start + LengthOf(words[start])
    requires !HasOwnForm(OpcodeOf(words[start])) && CanonicalBody(words, total, start, end)
    ensures var i := ParsedInstruction(words, total, start, end);
            EncodeGeneric(i) == [Token0(i, end - start, IsExtended(words[start]))] + words[start + 1..end]
  {
    hide OpcodeOf, LengthOf, IsExtended, Token0, ParsedControls, ExtendedTokens, CanonicalOperands, ParseOperands;
    hide RequiredChain, EncodeOperands, SamplerModeOf, ControlField, CarriedBits, UsesSemanticName;
    hide DimensionToken, TypesToken, PairDimension, PairTypes;
    var i := ParsedInstruction(words, total, start, end);
    var chain := ExtendedTokens(words, end, start);
    ParsedControlField(words, start, end);
    ExtendedTokensEmpty(words, start, end);
    OperandsReencoded(words, total, end, chain.cursor);
    assert EmittedChain(i.opcode, i.controls) == chain.value;
    assert EmittedName(i) == [];
    assert words[start + 1..chain.cursor] + words[chain.cursor..end] + [] == words[start + 1..end];
  }

  lemma GenericReencoded(words: seq<Word>, total: nat, start: nat, end: nat)
    requires start < end <= total <= |words| && end == start + LengthOf(words[start])
    requires !HasOwnForm(OpcodeOf(words[start])) && CanonicalGeneric(words, total, start, end)
    ensures EncodeGeneric(ParsedInstruction(words, total, start, end)) == words[start..end]
  {
    hide OpcodeOf, LengthOf, IsExtended, Token0, ParsedControls, ParseOperands, SamplerModeOf, EncodeGeneric;
    hide CanonicalBody, CanonicalOpcodeToken, HasOwnForm;
    BodyReencoded(words, total, start, end);
    TokenReencoded(words, start, end, ParsedInstruction(words, total, start, end), end - start,
                   IsExtended(words[start]));
    assert [words[start]] + words[start + 1..end] == words[start..end];
  }

  lemma ParsedTokenCleared(words: seq<Word>, start: nat, end: nat, i: Instruction)
    requires start < end <= |words| && end == start + LengthOf(words[start]) && LengthBitsOf(words[start]) != 0
    requires i.opcode == OpcodeOf(words[start]) && i.controls == ParsedControls(words, start, end)
    requires i.samplerMode == SamplerModeOf(i.opcode, words[start])
    ensures Token0(i, end - start, IsExtended(words[start])) == WithoutDropped(words[start])
  {
    hide LengthField, ControlField, CarriedBits, Token0, OpcodeOf, LengthBitsOf, IsExtended, WithoutDropped;
    hide ParsedControls, SamplerModeOf, LengthOf;
    ParsedControlField(words, start, end);
    LengthFieldOfLength(words[start]);
    TokenCleared(words[start], i, end - start, IsExtended(words[start]));
  }

  lemma GenericCleared(words: seq<Word>, total: nat, start: nat, end: nat)
    requires start < end <= total <= |words| && end == start + LengthOf(words[start])
    requires !HasOwnForm(OpcodeOf(words[start])) && CanonicalBody(words, total, start, end)
    requires LengthBitsOf(words[start]) != 0
    ensures EncodeGeneric(ParsedInstruction(words, total, start, end))
         == [WithoutDropped(words[start])] + words[start + 1..end]
  {
    hide OpcodeOf, LengthOf, IsExtended, Token0, ParsedControls, ParseOperands, SamplerModeOf, EncodeGeneric;
    hide CanonicalBody, LengthBitsOf, LengthField, ControlField, CarriedBits, ExtendedTokens, WithoutDropped,
         HasOwnForm;
    BodyReencoded(words, total, start, end);
    ParsedTokenCleared(words, start, end, ParsedInstruction(words, total, start, end));
  }

  /** What becomes of the bits the code parses but does not write, or does not parse at all (sync flags, the
      dimension and flags of unordered access views): exactly they are cleared. */
  lemma DroppedBitsCleared(words: seq<Word>, total: nat, start: nat)
    requires start < total <= |words| && ParseInstruction(words, total, start).Some?
    requires !HasOwnForm(OpcodeOf(words[start])) && LengthBitsOf(words[start]) != 0
    requires CanonicalBody(words, total, start, start + LengthOf(words[start]))
    ensures var r := ParseInstruction(words, total, start).value;
            EncodeInstruction(r.value) == [WithoutDropped(words[start])] + words[start + 1..r.cursor]
  {
    hide OpcodeOf, LengthOf, IsExtended, Token0, ParsedControls, ParseOperands, SamplerModeOf, EncodeGeneric;
    hide CanonicalBody, LengthBitsOf, LengthField, ControlField, CarriedBits, ExtendedTokens, WithoutDropped;
    hide IsStructuredDeclaration, EncodeResource, EncodeConstantBuffer, EncodeTemps, EncodeStructured, EncodeCustomData;
    GenericCleared(words, total, start, start + LengthOf(words[start]));
  }

  /** Two ways of cutting the same window. */
  lemma SameWindow(words: seq<Word>, start: nat, end: nat, token: Word, chain: seq<Word>, operands: seq<Word>,
                   name: seq<Word>)
    requires start < end <= |words|
    requires [token] + (chain + operands + name) == words[start..end]
    ensures token == words[start] && 1 + |chain| + |operands| + |name| == end - start
    ensures Occurs(chain, words, start + 1) && Occurs(operands, words, start + 1 + |chain|)
  {
    var all := [token] + (chain + operands + name);
    assert all == words[start..end] && all[0] == words[start];
    assert all == [token] + chain + operands + name;
    assert Occurs([token] + chain + operands + name, words, start);
    OccursSplit([token] + chain + operands, name, words, start);
    OccursSplit([token] + chain, operands, words, start);
    OccursSplit([token], chain, words, start);
  }

  lemma ChainOnlyParsed(words: seq<Word>, total: nat, start: nat, end: nat)
    requires start < end <= total <= |words| && end == start + LengthOf(words[start])
    requires !HasOwnForm(OpcodeOf(words[start]))
    requires EncodeGeneric(ParsedInstruction(words, total, start, end)) == words[start..end]
    ensures CanonicalOpcodeToken(words[start]) && (IsExtended(words[start]) ==> end - start >= 2)
    ensures RequiredChain(OpcodeOf(words[start])).FixedPair? ==> IsExtended(words[start])
  {
    hide OpcodeOf, LengthOf, IsExtended, Token0, ParsedControls, ExtendedTokens, ParseOperands;
    hide RequiredChain, EncodeOperands, SamplerModeOf, CanonicalOpcodeToken, EmittedName;
    hide DimensionToken, TypesToken, PairDimension, PairTypes, Occurs;
    var i := ParsedInstruction(words, total, start, end);
    var chain := EmittedChain(i.opcode, i.controls);
    var body := chain + EncodeOperands(i.operands) + EmittedName(i);
    ParsedControlField(words, start, end);
    ExtendedTokensEmpty(words, start, end);
    SameWindow(words, start, end, Token0(i, 1 + |body|, chain != []), chain, EncodeOperands(i.operands),
               EmittedName(i));
    TokenReencoded(words, start, end, i, 1 + |body|, chain != []);
  }

  lemma GenericOnlyCanonical(words: seq<Word>, total: nat, start: nat, end: nat)
    requires start < end <= total <= |words| && end == start + LengthOf(words[start])
    requires !HasOwnForm(OpcodeOf(words[start]))
    requires EncodeGeneric(ParsedInstruction(words, total, start, end)) == words[start..end]
    ensures CanonicalGeneric(words, total, start, end)
  {
    hide OpcodeOf, LengthOf, IsExtended, Token0, ParsedControls, ExtendedTokens, CanonicalOperands, ParseOperands;
    hide RequiredChain, EncodeOperands, SamplerModeOf, CanonicalOpcodeToken, UsesSemanticName, Occurs;
    hide DimensionToken, TypesToken, PairDimension, PairTypes, NameToken;
    var i := ParsedInstruction(words, total, start, end);
    var chain := ExtendedTokens(words, end, start);
    ChainOnlyParsed(words, total, start, end);
    ParsedControlField(words, start, end);
    ExtendedTokensEmpty(words, start, end);
    var body := chain.value + EncodeOperands(i.operands) + EmittedName(i);
    assert EmittedChain(i.opcode, i.controls) == chain.value;
    SameWindow(words, start, end, Token0(i, 1 + |body|, chain.value != []), chain.value, EncodeOperands(i.operands),
               EmittedName(i));
    OperandsOnlyCanonical(words, total, end, chain.cursor);
  }

  // ---------------------------------------------------------------- structured declarations

  predicate CanonicalStructured(words: seq<Word>, total: nat, start: nat, end: nat)
    requires start < end <= |words|
  {
    CanonicalOpcodeToken(words[start]) && !IsExtended(words[start]) && CanonicalOperands(words, total, end, start + 1)
  }

  lemma StructuredParts(words: seq<Word>, total: nat, start: nat, end: nat)
    requires start < end <= total <= |words| && IsStructuredDeclaration(OpcodeOf(words[start]))
    ensures var i := ParsedInstruction(words, total, start, end);
            var chain := ExtendedTokens(words, end, start);
            var operands := EncodeOperands(ParseOperands(words, total, end, chain.cursor));
            EncodeStructured(i) == [Token0(i, 1 + |operands|, chain.value != [])] + operands
  {
    hide OpcodeOf, IsExtended, Token0, ParsedControls, ExtendedTokens, ParseOperands, EncodeOperands, SamplerModeOf;
    hide ControlField, CarriedBits;
    var i := ParsedInstruction(words, total, start, end);
    ParsedControlField(words, start, end);
    assert EncodeOperands(i.operands) + [] == EncodeOperands(i.operands);
  }

  /** A structured declaration with the extended bit set never comes back: its extended tokens are not written,
      and the operands cannot make up for them. */
  lemma ExtendedNeverReencodes(words: seq<Word>, total: nat, start: nat, end: nat)
    requires start < end <= total <= |words| && end == start + LengthOf(words[start])
    requires IsStructuredDeclaration(OpcodeOf(words[start])) && IsExtended(words[start])
    ensures EncodeStructured(ParsedInstruction(words, total, start, end)) != words[start..end]
  {
    hide OpcodeOf, IsExtended, Token0, ParsedControls, ExtendedTokens, ParseOperands, EncodeOperands, SamplerModeOf;
    hide CanonicalOpcodeToken, LengthOf, EncodeStructured, IsStructuredDeclaration, Occurs;
    var i := ParsedInstruction(words, total, start, end);
    var chain := ExtendedTokens(words, end, start);
    var operands := EncodeOperands(ParseOperands(words, total, end, chain.cursor));
    StructuredParts(words, total, start, end);
    ExtendedTokensEmpty(words, start, end);
    OperandsGrowth(words, total, end, chain.cursor);
    OperandsNeverShifted(words, total, end, chain.cursor);
    if EncodeStructured(i) == words[start..end] {
      var token := Token0(i, 1 + |operands|, chain.value != []);
      assert |[token] + operands| == end - start;
      assert operands == ([token] + operands)[1..] == words[start..end][1..] == words[start + 1..end];
      assert token == ([token] + operands)[0] == words[start];
      WindowOccurs(words, start + 1, end);
      if chain.value == [] { TokenReencoded(words, start, end, i, end - start, false); }
      assert false;
    }
  }

  lemma StructuredReencodes(words: seq<Word>, total: nat, start: nat, end: nat)
    requires start < end <= total <= |words| && end == start + LengthOf(words[start])
    requires IsStructuredDeclaration(OpcodeOf(words[start]))
    ensures EncodeStructured(ParsedInstruction(words, total, start, end)) == words[start..end]
       <==> CanonicalStructured(words, total, start, end)
  {
    hide EncodeStructured, CanonicalStructured, IsExtended, OpcodeOf, LengthOf, IsStructuredDeclaration;
    if IsExtended(words[start]) {
      ExtendedNeverReencodes(words, total, start, end);
      if CanonicalStructured(words, total, start, end) { NotExtended(words, total, start, end); }
    } else {
      UnextendedReencodes(words, total, start, end);
    }
  }

  lemma NotExtended(words: seq<Word>, total: nat, start: nat, end: nat)
    requires start < end <= |words| && CanonicalStructured(words, total, start, end)
    ensures !IsExtended(words[start])
  {
    hide CanonicalOpcodeToken, CanonicalOperands, IsExtended;
  }

  lemma UnextendedReencodes(words: seq<Word>, total: nat, start: nat, end: nat)
    requires start < end <= total <= |words| && end == start + LengthOf(words[start])
    requires IsStructuredDeclaration(OpcodeOf(words[start])) && !IsExtended(words[start])
    ensures EncodeStructured(ParsedInstruction(words, total, start, end)) == words[start..end]
       <==> CanonicalStructured(words, total, start, end)
  {
    hide OpcodeOf, IsExtended, Token0, ParsedControls, ExtendedTokens, ParseOperands, EncodeOperands, SamplerModeOf;
    hide CanonicalOperands, CanonicalOpcodeToken, LengthOf, EncodeStructured, IsStructuredDeclaration, Occurs;
    var i := ParsedInstruction(words, total, start, end);
    var operands := EncodeOperands(ParseOperands(words, total, end, start + 1));
    StructuredParts(words, total, start, end);
    ExtendedTokensEmpty(words, start, end);
    TokenReencoded(words, start, end, i, end - start, false);
    if CanonicalStructured(words, total, start, end) {
      OperandsReencoded(words, total, end, start + 1);
      assert [words[start]] + words[start + 1..end] == words[start..end];
    }
    if EncodeStructured(i) == words[start..end] {
      var token := Token0(i, 1 + |operands|, false);
      assert token == ([token] + operands)[0];
      assert |[token] + operands| == end - start;
      assert operands == ([token] + operands)[1..] && words[start..end][1..] == words[start + 1..end];
      WindowOccurs(words, start + 1, end);
      OperandsOnlyCanonical(words, total, end, start + 1);
    }
  }

  lemma WindowOccurs(words: seq<Word>, a: nat, b: nat)
    requires a <= b <= |words|
    ensures Occurs(words[a..b], words, a)
  {
  }

  /** A structured declaration's extended opcode tokens are lost: the words that come back are fewer. */
  lemma StructuredChainDropped(words: seq<Word>, total: nat, start: nat, end: nat)
    requires start < end <= total <= |words|
    requires IsStructuredDeclaration(OpcodeOf(words[start])) && ExtendedTokens(words, end, start).value != []
    requires CanonicalOperands(words, total, end, ExtendedTokens(words, end, start).cursor)
    ensures |EncodeStructured(ParsedInstruction(words, total, start, end))|
         == end - start - |ExtendedTokens(words, end, start).value|
  {
    hide OpcodeOf, IsExtended, Token0, ParsedControls, ExtendedTokens, ParseOperands, EncodeOperands, SamplerModeOf;
    hide CanonicalOperands, EncodeStructured, IsStructuredDeclaration;
    StructuredParts(words, total, start, end);
    OperandsReencoded(words, total, end, ExtendedTokens(words, end, start).cursor);
  }
}
