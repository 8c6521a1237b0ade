/** Re-encoding parsed declarations that have encoders of their own, and the main lossless theorem. */
module DeclarationLossless {
  import opened Words
  import opened Sm5Model
  import opened InstructionToken
  import opened ExtendedOpcode
  import opened OperandCodec
  import opened OperandLossless
  import opened InstructionCodec
  import opened InstructionLossless

  const RESOURCE_OPERAND_TOKEN: Word := 0x0010_7000
  const TEMPS_TOKEN: Word := 0x0200_0068

  /** dcl_temps, with the length it is always given. */
  predicate CanonicalTemps(words: seq<Word>, start: nat)
    requires start < |words|
  {
    words[start] == TEMPS_TOKEN
  }

  /** dcl_resource: four words, with the operand token and the reserved bits the compiler gives them. */
  predicate CanonicalResource(words: seq<Word>, start: nat, end: nat)
    requires start < end <= |words|
  {
    && end - start == 4
    && words[start] & 0x80ff_0000 == 0
    && words[start + 1] == RESOURCE_OPERAND_TOKEN
    && words[start + 3] & 0xffff_0000 == 0
  }

  predicate CanonicalConstantBuffer(words: seq<Word>, total: nat, start: nat, end: nat)
    requires start < end <= |words|
  {
    && words[start] & 0x80ff_f000 == 0
    && start + 1 < end
    && CanonicalOperand(words, total, end, start + 1)
    && var r := ParseOperand(words, total, end, start + 1);
       r.cursor == end && |r.value.entries| >= 2
  }

  lemma SmallLengths()
    ensures LengthField(2) == 0x0200_0000 && LengthField(4) == 0x0400_0000
  {
    hide ToWord;
    SmallToWord();
  }

  lemma LengthBits(t: Word, n: nat)
    requires 1 <= n <= MAX_LENGTH
    ensures LengthOf(t) == n && LengthBitsOf(t) != 0 <==> LengthBitsOf(t) == LengthField(n)
  {
    hide LengthField, LengthOf, LengthBitsOf;
    LengthFieldOfLength(t);
    if LengthBitsOf(t) == LengthField(n) { LengthFieldRead(n, t); }
  }

  lemma LongIsNonzero(t: Word)
    requires LengthOf(t) >= 2
    ensures LengthBitsOf(t) != 0
  {
    hide LengthField, LengthOf, LengthBitsOf;
    LengthFieldOfLength(t);
    if LengthBitsOf(t) == 0 { ZeroLength(t); }
  }

  lemma ZeroLength(t: Word)
    requires LengthBitsOf(t) == 0
    ensures LengthOf(t) == 1
  {
    hide Value;
    SmallToWord();
    assert (t & LENGTH_BITS) >> 24 == 0;
  }

  lemma TempsReencodes(words: seq<Word>, total: nat, start: nat, i: Instruction)
    requires start + 1 < total <= |words| && OpcodeOf(words[start]) == DCL_TEMPS
    requires LengthOf(words[start]) >= 2 && start + LengthOf(words[start]) <= total
    requires |i.operands| == 1 && i.operands[0].entries == [ImmediateIndex(words[start + 1])]
    ensures EncodeTemps(i) == words[start..start + LengthOf(words[start])] <==> CanonicalTemps(words, start)
  {
    hide LengthField, LengthOf;
    SmallLengths();
    var end := start + LengthOf(words[start]);
    assert EncodeTemps(i) == [TEMPS_TOKEN, words[start + 1]] by { assert DCL_TEMPS | 0x0200_0000 == TEMPS_TOKEN; }
    if words[start] == TEMPS_TOKEN {
      LengthFieldRead(2, words[start]);
      assert words[start..start + 2] == [words[start], words[start + 1]];
    }
    if EncodeTemps(i) == words[start..end] {
      assert words[start..end][0] == words[start];
    }
  }

  lemma ResourceTokenRead(dimension: Byte)
    ensures var t := ResourceToken(dimension);
            && OpcodeOf(t) == DCL_RESOURCE && !IsExtended(t) && t & 0x80ff_0000 == 0 && LengthBitsOf(t) == 0x0400_0000
            && ((t & DIMENSION_BITS) >> 11) as bv8 == dimension & 0x1f
  {
    hide LengthField;
    SmallLengths();
  }

  lemma ResourceTokenOf(t: Word)
    requires OpcodeOf(t) == DCL_RESOURCE && LengthBitsOf(t) == 0x0400_0000 && t & 0x80ff_0000 == 0
    ensures ResourceToken(((t & DIMENSION_BITS) >> 11) as bv8) == t && !IsExtended(t)
  {
    hide LengthField;
    SmallLengths();
  }

  lemma ReturnTypeTokenOf(w: Word)
    ensures ReturnTypeToken(DeclaredTypes(ReturnTypesOf(w))) == w & 0xffff
    ensures w & 0xffff == w <==> w & 0xffff_0000 == 0
  {
  }

  lemma ReturnTypeTokenRead(types: PerComponent<Byte>)
    ensures ReturnTypesOf(ReturnTypeToken(types)) == Present(Nibbles(types))
    ensures ReturnTypeToken(types) & 0xffff_0000 == 0
  {
  }

  lemma EncodedResourceOperand(register: Word)
    ensures EncodeOperand(RegisterOperand(RESOURCE, register)) == [RESOURCE_OPERAND_TOKEN, register]
  {
    hide OperandToken.RepresentationFields;
    var o := RegisterOperand(RESOURCE, register);
    assert OperandToken.RepresentationFields(o.entries, 1) == 0 by {
      assert OperandToken.RepresentationField(0, Immediate32) == 0;
      OneField(o.entries);
    }
    assert EncodeOperandToken0(o) == RESOURCE_OPERAND_TOKEN;
    assert o.entries[1..] == [];
    assert EncodeIndices(o.entries) == [register] + [] + [];
  }

  lemma OneField(entries: seq<Index>)
    requires |entries| == 1
    ensures OperandToken.RepresentationFields(entries, 1)
         == 0 | OperandToken.RepresentationField(0, entries[0].representation)
  {
    hide OperandToken.RepresentationField;
  }

  lemma ConstantBufferTokenOf(t: Word, total: nat)
    requires OpcodeOf(t) == DCL_CONSTANT_BUFFER
    ensures ConstantBufferToken((((t & ACCESS_BIT) >> 11) as bv8) as bv32, total) == t
       <==> t & 0x80ff_f000 == 0 && LengthBitsOf(t) == LengthField(total)
    ensures t & 0x80ff_f000 == 0 ==> !IsExtended(t)
  {
    LengthFieldMasked(total);
    hide LengthField;
  }

  lemma WindowOf3(words: seq<Word>, start: nat, a: Word, b: Word, c: Word, d: Word)
    requires start + 4 <= |words|
    ensures words[start..start + 4] == [a] + [b, c] + [d]
       <==> words[start] == a && words[start + 1] == b && words[start + 2] == c && words[start + 3] == d
  {
    var window := words[start..start + 4];
    if window == [a] + [b, c] + [d] {
      assert window[0] == a && window[1] == b && window[2] == c && window[3] == d;
    }
  }

  /** The controls parsed from a four-word dcl_resource that announces no extended tokens. */
  lemma ResourceControls(words: seq<Word>, start: nat, end: nat)
    requires start < end <= |words| && OpcodeOf(words[start]) == DCL_RESOURCE && !IsExtended(words[start])
    ensures var c := ParsedControls(words, start, end);
            ResourceDimension(c) == ((words[start] & DIMENSION_BITS) >> 11) as bv8
    ensures end == start + 4
        ==> ResourceTypes(ParsedControls(words, start, end)) == DeclaredTypes(ReturnTypesOf(words[start + 3]))
  {
    hide OpcodeOf, IsExtended, ReturnTypesOf, TestOf, SyncFlagsOf, ModeOf, NameOf;
  }

  lemma ParsedResourceOperand(words: seq<Word>, total: nat, start: nat, end: nat)
    requires start + 3 <= end <= total <= |words| && words[start + 1] == RESOURCE_OPERAND_TOKEN
    ensures var operands := ParseOperands(words, total, end, start + 1);
            operands != [] && operands[0].entries != [] && FirstRegister(operands[0]) == words[start + 2]
  {
    hide ParseOperand, EncodeOperand, ParseOperands, IndexDims, Representations;
    var o := RegisterOperand(RESOURCE, words[start + 2]);
    EncodedResourceOperand(words[start + 2]);
    assert words[start + 1..start + 3] == EncodeOperand(o);
    ResourceOperandWellFormed(words[start + 2]);
    OperandRoundTrip(o, words, total, end, start + 1);
    ParseOperandsStep(words, total, end, start + 1);
    var first := ParseOperand(words, total, end, start + 1).value;
    SameLength(o.entries, first.entries);
    assert SameIndex(o.entries[0], first.entries[0]);
  }

  lemma ResourceOperandWellFormed(register: Word)
    ensures WellFormed(RegisterOperand(RESOURCE, register))
  {
    var entries := RegisterOperand(RESOURCE, register).entries;
    assert entries[1..] == [];
    assert WellFormedIndex(entries[0]);
  }

  lemma ResourceReencodes(words: seq<Word>, total: nat, start: nat, end: nat)
    requires start < end <= total <= |words| && end == start + LengthOf(words[start])
    requires OpcodeOf(words[start]) == DCL_RESOURCE
    ensures EncodeResource(ParsedInstruction(words, total, start, end)) == words[start..end]
       <==> CanonicalResource(words, start, end)
  {
    hide OpcodeOf, IsExtended, ParsedControls, ParseOperands, SamplerModeOf, LengthOf, ResourceToken, ReturnTypesOf;
    hide ReturnTypeToken, ResourceDimension, ResourceTypes, RegisterOperand, EncodeOperand, LengthBitsOf, FirstRegister;
    hide DeclaredTypes;
    var t := words[start];
    var i := ParsedInstruction(words, total, start, end);
    if CanonicalResource(words, start, end) {
      SmallLengths();
      LengthBits(t, 4);
      LongIsNonzero(t);
      ResourceTokenOf(t);
      ResourceControls(words, start, end);
      ParsedResourceOperand(words, total, start, end);
      EncodedResourceOperand(words[start + 2]);
      ReturnTypeTokenOf(words[start + 3]);
      WindowOf3(words, start, t, RESOURCE_OPERAND_TOKEN, words[start + 2], words[start + 3]);
    }
    if EncodeResource(i) == words[start..end] {
      var register := FirstRegister(i.operands[0]);
      EncodedResourceOperand(register);
      assert |words[start..end]| == 4;
      WindowOf3(words, start, ResourceToken(ResourceDimension(i.controls)), RESOURCE_OPERAND_TOKEN, register,
                ReturnTypeToken(ResourceTypes(i.controls)));
      ResourceTokenRead(ResourceDimension(i.controls));
      ReturnTypeTokenRead(ResourceTypes(i.controls));
    }
  }

  function KeptOfResource(t: Word): Word { t & 0x7f00_ffff }
  function KeptOfTypes(w: Word): Word { w & 0xffff }

  lemma ResourceTokenCleared(t: Word)
    requires OpcodeOf(t) == DCL_RESOURCE && LengthBitsOf(t) == 0x0400_0000
    ensures ResourceToken(((t & DIMENSION_BITS) >> 11) as bv8) == KeptOfResource(t)
  {
    hide LengthField;
    SmallLengths();
  }

  lemma ResourceCleared(words: seq<Word>, total: nat, start: nat)
    requires start + 4 <= total <= |words| && OpcodeOf(words[start]) == DCL_RESOURCE && LengthOf(words[start]) == 4
    requires !IsExtended(words[start]) && words[start + 1] == RESOURCE_OPERAND_TOKEN
    ensures EncodeResource(ParsedInstruction(words, total, start, start + 4))
         == [KeptOfResource(words[start]), words[start + 1], words[start + 2], KeptOfTypes(words[start + 3])]
  {
    hide OpcodeOf, IsExtended, ParsedControls, ParseOperands, SamplerModeOf, LengthOf, ResourceToken, ReturnTypesOf;
    hide ReturnTypeToken, ResourceDimension, ResourceTypes, RegisterOperand, EncodeOperand, LengthBitsOf, FirstRegister;
    hide DeclaredTypes, ExtendedTokens, LengthField, KeptOfResource, KeptOfTypes;
    var t := words[start];
    LongIsNonzero(t);
    SmallLengths();
    LengthBits(t, 4);
    ResourceTokenCleared(t);
    ResourceControls(words, start, start + 4);
    ExtendedTokensEmpty(words, start, start + 4);
    ParsedResourceOperand(words, total, start, start + 4);
    EncodedResourceOperand(words[start + 2]);
    ReturnTypesCleared(words[start + 3]);
  }

  lemma ReturnTypesCleared(w: Word)
    ensures ReturnTypeToken(DeclaredTypes(ReturnTypesOf(w))) == KeptOfTypes(w)
  {
    hide ReturnTypeToken, DeclaredTypes, ReturnTypesOf;
    ReturnTypeTokenOf(w);
  }

  /** What becomes of a four-word dcl_resource: the sample count (bits 16-22 of its token) and the reserved bits
      are cleared, and nothing else. */
  lemma SampleCountCleared(words: seq<Word>, total: nat, start: nat)
    requires start + 4 <= total <= |words| && OpcodeOf(words[start]) == DCL_RESOURCE && LengthOf(words[start]) == 4
    requires !IsExtended(words[start]) && words[start + 1] == RESOURCE_OPERAND_TOKEN
    ensures ParseInstruction(words, total, start).Some?
    ensures EncodeInstruction(ParseInstruction(words, total, start).value.value)
         == [KeptOfResource(words[start]), words[start + 1], words[start + 2], KeptOfTypes(words[start + 3])]
  {
    hide OpcodeOf, IsExtended, ParsedControls, ParseOperands, SamplerModeOf, LengthOf, ExtendedTokens, EncodeResource;
    hide KeptOfResource, KeptOfTypes;
    ResourceCleared(words, total, start);
  }

  lemma ConstantBufferReencodes(words: seq<Word>, total: nat, start: nat, end: nat)
    requires start < end <= total <= |words| && end == start + LengthOf(words[start])
    requires OpcodeOf(words[start]) == DCL_CONSTANT_BUFFER
    ensures EncodeConstantBuffer(ParsedInstruction(words, total, start, end)) == words[start..end]
       <==> CanonicalConstantBuffer(words, total, start, end)
  {
    hide OpcodeOf, IsExtended, ParsedControls, ParseOperands, SamplerModeOf, LengthOf, ConstantBufferToken;
    hide EncodeOperand, LengthBitsOf, ParseOperand, CanonicalOperand, AccessPattern, LengthField, Occurs;
    var t := words[start];
    var i := ParsedInstruction(words, total, start, end);
    ConstantBufferAccess(words, start, end);
    LengthFieldOfLength(t);
    ConstantBufferTokenOf(t, end - start);
    ExtendedTokensEmpty(words, start, end);
    if CanonicalConstantBuffer(words, total, start, end) {
      LongIsNonzero(t);
      ParseOperandsStep(words, total, end, start + 1);
      OperandReencoded(words, total, end, start + 1);
      assert [t] + words[start + 1..end] == words[start..end];
    }
    if EncodeConstantBuffer(i) == words[start..end] {
      ConstantBufferOnlyCanonical(words, total, start, end);
    }
  }

  lemma ConstantBufferAccess(words: seq<Word>, start: nat, end: nat)
    requires start < end <= |words| && OpcodeOf(words[start]) == DCL_CONSTANT_BUFFER
    ensures AccessPattern(ParsedControls(words, start, end)) == (((words[start] & ACCESS_BIT) >> 11) as bv8) as bv32
  {
    hide OpcodeOf, IsExtended, ReturnTypesOf, TestOf, SyncFlagsOf, ModeOf, NameOf;
  }

  lemma ConstantBufferOnlyCanonical(words: seq<Word>, total: nat, start: nat, end: nat)
    requires start < end <= total <= |words| && end == start + LengthOf(words[start])
    requires OpcodeOf(words[start]) == DCL_CONSTANT_BUFFER
    requires EncodeConstantBuffer(ParsedInstruction(words, total, start, end)) == words[start..end]
    ensures CanonicalConstantBuffer(words, total, start, end)
  {
    hide OpcodeOf, IsExtended, ParsedControls, ParseOperands, SamplerModeOf, LengthOf, ConstantBufferToken;
    hide EncodeOperand, LengthBitsOf, ParseOperand, CanonicalOperand, AccessPattern, LengthField, Occurs;
    var t := words[start];
    var i := ParsedInstruction(words, total, start, end);
    var operand := EncodeOperand(i.operands[0]);
    var token := ConstantBufferToken(AccessPattern(i.controls), 1 + |operand|);
    assert ([token] + operand)[0] == token;
    assert words[start..end][1..] == words[start + 1..end] && ([token] + operand)[1..] == operand;
    assert 1 + |operand| == end - start;
    ConstantBufferAccess(words, start, end);
    ConstantBufferTokenOf(t, end - start);
    ExtendedTokensEmpty(words, start, end);
    ParseOperandsStep(words, total, end, start + 1);
    WindowOccurs(words, start + 1, end);
    OnlyCanonical(words, total, end, start + 1);
  }

  // ---------------------------------------------------------------- main result

  /** The instructions that come back word for word. */
  predicate CanonicalInstruction(words: seq<Word>, total: nat, start: nat, end: nat)
    requires start < end <= total <= |words|
  {
    var op := OpcodeOf(words[start]);
    if op == CUSTOMDATA then true
    else if op == DCL_RESOURCE then CanonicalResource(words, start, end)
    else if op == DCL_CONSTANT_BUFFER then CanonicalConstantBuffer(words, total, start, end)
    else if op == DCL_TEMPS then CanonicalTemps(words, start)
    else if IsStructuredDeclaration(op) then CanonicalStructured(words, total, start, end)
    else CanonicalGeneric(words, total, start, end)
  }

  /** Main result: the words a parsed instruction encodes to are the words it was parsed from if and
      only if those words are canonical. */
  lemma InstructionReencodesExactly(words: seq<Word>, total: nat, start: nat)
    requires start < total <= |words| && ParseInstruction(words, total, start).Some?
    ensures var r := ParseInstruction(words, total, start).value;
            EncodeInstruction(r.value) == words[start..r.cursor]
            <==> CanonicalInstruction(words, total, start, r.cursor)
  {
    hide OpcodeOf, IsExtended, ParsedControls, ParseOperands, SamplerModeOf, LengthOf, EncodeResource,
         EncodeConstantBuffer;
    hide EncodeTemps, EncodeStructured, EncodeGeneric, CanonicalResource, CanonicalConstantBuffer, CanonicalTemps;
    hide CanonicalStructured, CanonicalGeneric, IsStructuredDeclaration, ExtendedTokens;
    var r := ParseInstruction(words, total, start).value;
    var op := OpcodeOf(words[start]);
    if op == CUSTOMDATA {
      CustomDataReencoded(words, total, start);
    } else if op == DCL_TEMPS {
      TempsReencodes(words, total, start, r.value);
    } else if op == DCL_RESOURCE {
      ResourceReencodes(words, total, start, r.cursor);
    } else if op == DCL_CONSTANT_BUFFER {
      ConstantBufferReencodes(words, total, start, r.cursor);
    } else if IsStructuredDeclaration(op) {
      StructuredReencodes(words, total, start, r.cursor);
    } else {
      GenericReencodes(words, total, start, r.cursor);
    }
  }

  lemma GenericReencodes(words: seq<Word>, total: nat, start: nat, end: nat)
    requires start < end <= total <= |words| && end == start + LengthOf(words[start])
    requires !HasOwnForm(OpcodeOf(words[start]))
    ensures EncodeGeneric(ParsedInstruction(words, total, start, end)) == words[start..end]
       <==> CanonicalGeneric(words, total, start, end)
  {
    hide EncodeGeneric, ParsedInstruction, CanonicalGeneric, LengthOf, OpcodeOf, HasOwnForm;
    if CanonicalGeneric(words, total, start, end) { GenericReencoded(words, total, start, end); }
    if EncodeGeneric(ParsedInstruction(words, total, start, end)) == words[start..end] {
      GenericOnlyCanonical(words, total, start, end);
    }
  }

  /** Custom data always comes back word for word. */
  lemma CustomDataReencoded(words: seq<Word>, total: nat, start: nat)
    requires start < total <= |words| && OpcodeOf(words[start]) == CUSTOMDATA
    requires ParseInstruction(words, total, start).Some?
    ensures var r := ParseInstruction(words, total, start).value;
            EncodeCustomData(r.value) == words[start..r.cursor]
  {
    hide ParsedControls, SamplerModeOf, LengthOf;
    var r := ParseInstruction(words, total, start).value;
    assert words[start] != 0;
    assert [words[start]] + words[start + 1..r.cursor] == words[start..r.cursor];
  }
}
