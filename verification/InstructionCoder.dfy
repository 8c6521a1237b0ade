/** The imperative codec of instructions: EncodeInstructionToken0, Instruction::Encode and the body of
    ParseProgramImpl's loop, each proved against its specification function in InstructionCodec. */
module InstructionCoder {
  import opened Words
  import opened Sm5Model
  import opened InstructionToken
  import opened ExtendedOpcode
  import opened OperandCodec
  import opened InstructionCodec
  import OperandCoder

  // ---------------------------------------------------------------- the opcode token

  // Every control is or-ed into the token when it is present.

  function Or(a: Word, b: Word): Word { a | b }

  lemma OrNothing(a: Word)
    ensures Or(a, 0) == a && PreciseField(0) == 0 && ResinfoField(0) == 0
  {
  }

  method OrSaturate(base: Word, saturate: bool) returns (token0: Word)
    ensures token0 == Or(base, SaturateField(saturate))
  {
    hide Or;
    OrNothing(base);
    token0 := base;
    if saturate { token0 := Or(token0, SATURATE_BIT); }
  }

  method OrTest(base: Word, test: Option<Word>) returns (token0: Word)
    ensures token0 == Or(base, TestField(test))
  {
    hide Or;
    OrNothing(base);
    token0 := base;
    if test.Some? { token0 := Or(token0, (test.value << 18) & TEST_BIT); }
  }

  method OrPrecise(base: Word, precise: Word) returns (token0: Word)
    ensures token0 == Or(base, PreciseField(precise))
  {
    hide Or, PreciseField;
    OrNothing(base);
    token0 := base;
    if precise != 0 { token0 := Or(token0, PreciseField(precise)); }
  }

  method OrResinfo(base: Word, returnType: Word) returns (token0: Word)
    ensures token0 == Or(base, ResinfoField(returnType))
  {
    hide Or, ResinfoField;
    OrNothing(base);
    token0 := base;
    if returnType != 0 { token0 := Or(token0, ResinfoField(returnType)); }
  }

  method OrInterpolation(base: Word, op: Word, mode: Option<Word>) returns (token0: Word)
    ensures token0 == Or(base, InterpolationField(op, mode))
  {
    hide Or, ModeField, IsPixelInput;
    OrNothing(base);
    token0 := base;
    if IsPixelInput(op) && mode.Some? { token0 := Or(token0, ModeField(mode.value)); }
  }

  method OrSampler(base: Word, op: Word, mode: Option<Byte>, samplerMode: Byte) returns (token0: Word)
    ensures token0 == Or(base, SamplerField(op, mode, samplerMode))
  {
    hide Or, ModeField;
    OrNothing(base);
    token0 := base;
    if op == DCL_SAMPLER {
      var chosen := samplerMode;
      if mode.Some? { chosen := mode.value; }
      token0 := Or(token0, ModeField(chosen as bv32));
    }
  }

  method OrGlobalFlags(base: Word, op: Word, flags: Word) returns (token0: Word)
    ensures token0 == Or(base, GlobalFlagsField(op, flags))
  {
    hide Or;
    OrNothing(base);
    token0 := base;
    if op == DCL_GLOBAL_FLAGS && flags != 0 { token0 := Or(token0, flags & CONTROL_BITS); }
  }

  method OrUavFlags(base: Word, op: Word, flags: Word) returns (token0: Word)
    ensures token0 == Or(base, UavField(op, flags))
  {
    hide IsUav;
    token0 := base;
    if IsUav(op) && flags != 0 {
      token0 := token0 | (flags & COHERENCY_BIT);
      token0 := token0 | (flags & COUNTER_BIT);
    }
  }

  lemma OrRegrouped(op: Word, length: Word, ext: Word, a: Word, b: Word, c: Word, d: Word, e: Word, f: Word, g: Word,
                    h: Word)
    ensures Or(Or(Or(Or(Or(Or(Or(Or(Or(Or(op, length), ext), a), b), c), d), e), f), g), h)
         == Compose(op, length, ext, Union(a, b, c, d, e, f, g, h))
  {
  }

  /** EncodeInstructionToken0 */
  method EncodeToken0(i: Instruction, total: nat, ext: bool) returns (token0: Word)
    ensures token0 == Token0(i, total, ext)
  {
    hide SaturateField, TestField, PreciseField, ResinfoField, InterpolationField, SamplerField, GlobalFlagsField;
    hide UavField, Union, OpcodeOf, LengthField, Compose, Or, ExtendedField;
    var c := i.controls;
    token0 := Or(OpcodeOf(i.opcode), LengthField(total));
    token0 := Or(token0, ExtendedField(ext));
    token0 := OrSaturate(token0, c.saturate);
    token0 := OrTest(token0, c.testBoolean);
    token0 := OrPrecise(token0, c.preciseValues);
    token0 := OrResinfo(token0, c.resinfoReturnType);
    token0 := OrInterpolation(token0, i.opcode, c.interpolationMode);
    token0 := OrSampler(token0, i.opcode, c.mode, i.samplerMode);
    token0 := OrGlobalFlags(token0, i.opcode, c.syncFlags);
    token0 := OrUavFlags(token0, i.opcode, c.uavFlags);
    OrRegrouped(OpcodeOf(i.opcode), LengthField(total), ExtendedField(ext), SaturateField(c.saturate),
                TestField(c.testBoolean), PreciseField(c.preciseValues), ResinfoField(c.resinfoReturnType),
                InterpolationField(i.opcode, c.interpolationMode), SamplerField(i.opcode, c.mode, i.samplerMode),
                GlobalFlagsField(i.opcode, c.syncFlags), UavField(i.opcode, c.uavFlags));
  }

  // ---------------------------------------------------------------- encoding

  method EncodeOperandList(operands: seq<Operand>) returns (encoded: seq<Word>)
    ensures encoded == EncodeOperands(operands)
  {
    hide EncodeOperand;
    encoded := [];
    for k := 0 to |operands|
      invariant encoded + EncodeOperands(operands[k..]) == EncodeOperands(operands)
    {
      ghost var rest := EncodeOperands(operands[k..][1..]);
      assert operands[k..][1..] == operands[k + 1..];
      var tokens := OperandCoder.Encode(operands[k]);
      assert encoded + (tokens + rest) == encoded + tokens + rest;
      encoded := encoded + tokens;
    }
    assert encoded + [] == encoded;
  }

  /** The overriding extended tokens of a resource declaration: the last of each kind wins. */
  method FindOverrides(chain: seq<Word>) returns (dimension: Option<Byte>, types: PerComponent<Option<Byte>>)
    ensures Overrides(dimension, types) == ChainOverrides(chain)
  {
    hide ExtensionType, ExtendedOpcode.DimensionOf, TypesOf;
    dimension, types := None, NO_RETURN_TYPES;
    for k := 0 to |chain|
      invariant Overrides(dimension, types) == ChainOverrides(chain[..k])
    {
      assert chain[..k + 1][..k] == chain[..k];
      var ext := chain[k];
      if ExtensionType(ext) == RESOURCE_DIM {
        dimension := Some(ExtendedOpcode.DimensionOf(ext));
      } else if ExtensionType(ext) == RESOURCE_TYPE {
        types := Present(TypesOf(ext));
      }
    }
    assert chain[..|chain|] == chain;
  }

  /** EncodeResourceDeclaration */
  method EncodeResourceWords(i: Instruction) returns (encoded: seq<Word>)
    ensures encoded == EncodeResource(i)
  {
    hide ResourceToken, ReturnTypeToken, EncodeOperand, ChainOverrides;
    if i.operands == [] || i.operands[0].entries == [] { return []; }
    var dimension, types := FindOverrides(i.controls.extended);
    if dimension.None? {
      dimension := if i.controls.resourceDimension.Some? then i.controls.resourceDimension else Some(TEXTURE_2D);
    }
    var declared := i.controls.returnTypes;
    types := PerComponent(OrElse(types.x, declared.x), OrElse(types.y, declared.y), OrElse(types.z, declared.z),
                          OrElse(types.w, declared.w));
    var operand := OperandCoder.Encode(RegisterOperand(RESOURCE, FirstRegister(i.operands[0])));
    encoded := [ResourceToken(dimension.value)];
    encoded := encoded + operand;
    encoded := encoded + [ReturnTypeToken(DeclaredTypes(types))];
  }

  /** EncodeConstantBufferDeclaration */
  method EncodeConstantBufferWords(i: Instruction) returns (encoded: seq<Word>)
    ensures encoded == EncodeConstantBuffer(i)
  {
    hide ConstantBufferToken, EncodeOperand;
    if i.operands == [] || |i.operands[0].entries| < 2 { return []; }
    var access: Word := 0;
    if i.controls.accessPattern.Some? {
      access := i.controls.accessPattern.value as bv32;
    } else if i.controls.accessPatternRaw != 0 {
      access := i.controls.accessPatternRaw;
    }
    var operand := OperandCoder.Encode(i.operands[0]);
    encoded := [ConstantBufferToken(access, 1 + |operand|)] + operand;
  }

  method EncodeStructuredWords(i: Instruction) returns (encoded: seq<Word>)
    ensures encoded == EncodeStructured(i)
  {
    hide Token0, EncodeOperands;
    var operands := EncodeOperandList(i.operands);
    var total := 1 + |operands|;
    if i.controls.structureStride != 0 { total := total + 1; }
    var token0 := EncodeToken0(i, total, i.controls.extended != []);
    encoded := [token0] + operands;
    if i.controls.structureStride != 0 { encoded := encoded + [i.controls.structureStride]; }
    assert operands + [] == operands;
  }

  /** The general path of Instruction::Encode. */
  method EncodeGenericWords(i: Instruction) returns (encoded: seq<Word>)
    ensures encoded == EncodeGeneric(i)
  {
    hide Token0, EncodeOperands, DimensionToken, TypesToken, NameToken, UsesSemanticName, RequiredChain;
    var chain := i.controls.extended;
    if SynthesizesPair(i.opcode, i.controls) {
      chain := [DimensionToken(PairDimension(i.opcode, i.controls), i.controls.structureStride),
                TypesToken(PairTypes(i.opcode, i.controls))];
    }
    var name: seq<Word> := [];
    if UsesSemanticName(i.opcode) && i.controls.semanticName.Some? && |i.operands| < EXPECTED_SEMANTIC_OPERANDS {
      name := [NameToken(i.controls.semanticName.value)];
    }
    var operands := EncodeOperandList(i.operands);
    var token0 := EncodeToken0(i, 1 + |chain| + |operands| + |name|, chain != []);
    encoded := [token0];
    encoded := encoded + chain;
    encoded := encoded + operands;
    encoded := encoded + name;
  }

  /** Instruction::Encode */
  method Encode(i: Instruction) returns (encoded: seq<Word>)
    ensures encoded == EncodeInstruction(i)
  {
    hide EncodeResource, EncodeConstantBuffer, EncodeStructured, EncodeGeneric, LengthField, IsStructuredDeclaration;
    if i.opcode == CUSTOMDATA {
      encoded := [CustomDataToken(i)] + i.customData;
    } else if i.opcode == DCL_RESOURCE {
      encoded := EncodeResourceWords(i);
    } else if i.opcode == DCL_CONSTANT_BUFFER {
      encoded := EncodeConstantBufferWords(i);
    } else if i.opcode == DCL_TEMPS {
      var count: Word := 0;
      if i.operands != [] && i.operands[0].entries != [] { count := FirstRegister(i.operands[0]); }
      encoded := [DCL_TEMPS | LengthField(2), count];
    } else if IsStructuredDeclaration(i.opcode) {
      encoded := EncodeStructuredWords(i);
    } else {
      encoded := EncodeGenericWords(i);
    }
  }

  // ---------------------------------------------------------------- parsing

  /** The extended opcode tokens of the instruction at `start`, and the cursor after them. */
  method ParseExtended(words: seq<Word>, start: nat, end: nat) returns (chain: seq<Word>, cursor: nat)
    requires start < end <= |words|
    ensures Parsed(chain, cursor) == ExtendedTokens(words, end, start)
  {
    hide IsExtended, AnotherFollows;
    chain, cursor := [], start + 1;
    if !IsExtended(words[start]) { return; }
    ghost var all := ParseChain(words, end, start + 1);
    while cursor < end
      invariant start + 1 <= cursor <= end && chain == words[start + 1..cursor]
      invariant ParseChain(words, end, cursor).cursor == all.cursor
    {
      var ext := words[cursor];
      chain := chain + [ext];
      cursor := cursor + 1;
      if !AnotherFollows(ext) {
        assert chain == words[start + 1..cursor] && all.cursor == cursor;
        return;
      }
    }
  }

  /** The operands from `start` to the end of the instruction. */
  method ParseOperandList(words: seq<Word>, total: nat, end: nat, start: nat) returns (operands: seq<Operand>)
    requires start <= end <= |words|
    ensures operands == ParseOperands(words, total, end, start)
  {
    hide ParseOperand;
    operands := [];
    var cursor := start;
    ghost var all := ParseOperands(words, total, end, start);
    while cursor < end
      invariant start <= cursor <= end
      invariant operands + ParseOperands(words, total, end, cursor) == all
    {
      var before := cursor;
      var operand: Operand;
      operand, cursor := OperandCoder.Parse(words, total, end, cursor);
      if operand.sourceLength == 0 || cursor <= before {
        assert operands + [] == operands;
        return;
      }
      ghost var rest := ParseOperands(words, total, end, cursor);
      assert operands + ([operand] + rest) == operands + [operand] + rest;
      operands := operands + [operand];
    }
    assert operands + [] == operands;
  }

  /** ParseOpcodeControls */
  method ParseControls(words: seq<Word>, start: nat, end: nat) returns (controls: Controls, cursor: nat)
    requires start < end <= |words|
    ensures controls == ParsedControls(words, start, end) && cursor == ExtendedTokens(words, end, start).cursor
  {
    hide OpcodeOf, NameOf, TokenControls, ReturnTypesOf, UsesSemanticName, ExtendedTokens;
    var token0 := words[start];
    var op := OpcodeOf(token0);
    var types := NO_RETURN_TYPES;
    if op == DCL_RESOURCE {
      types := ReturnTypesOf(token0);
      if end - start >= 4 { types := ReturnTypesOf(words[end - 1]); }
    }
    var name: Option<Byte> := None;
    if UsesSemanticName(op) && end - start >= 2 { name := Some(NameOf(words[end - 1])); }
    var chain: seq<Word>;
    chain, cursor := ParseExtended(words, start, end);
    controls := TokenControls(op, token0).(semanticName := name, extended := chain, returnTypes := types);
  }

  method ParseCustomDataWords(words: seq<Word>, total: nat, start: nat, base: Instruction)
    returns (r: Option<Parsed<Instruction>>)
    requires start < total <= |words|
    ensures r == ParseCustomData(words, total, start, base)
  {
    hide Value;
    if start + 1 >= total { return None; }
    var count := Value(words[start + 1]);
    if count < 2 || start + count > total { return None; }
    var data: seq<Word> := [];
    for k := 1 to count
      invariant data == words[start + 1..start + k]
    {
      data := data + [words[start + k]];
    }
    r := Some(Parsed(base.(length := count, sourceLength := count, customDataToken := words[start], customData := data),
                     start + count));
  }

  /** One turn of ParseProgramImpl's loop. */
  method ParseOne(words: seq<Word>, total: nat, start: nat) returns (r: Option<Parsed<Instruction>>)
    requires start < total <= |words|
    ensures r == ParseInstruction(words, total, start)
  {
    hide OpcodeOf, LengthOf, SamplerModeOf, ParsedControls, ExtendedTokens, ParseOperands, ParseCustomData;
    var token0 := words[start];
    var op := OpcodeOf(token0);
    var length := LengthOf(token0);
    if start + length > total { return None; }
    var end := start + length;
    var controls, cursor := ParseControls(words, start, end);
    var instruction := Instruction(op, controls, length, [], SamplerModeOf(op, token0), [], 0, start, length);
    if op == CUSTOMDATA {
      r := ParseCustomDataWords(words, total, start, instruction);
    } else if op == DCL_TEMPS {
      if length < 2 { return None; }
      var operand := RegisterOperand(TEMP, words[start + 1]).(sourceOffset := start + 1, sourceLength := 1);
      r := Some(Parsed(instruction.(operands := [operand]), end));
    } else {
      var operands := ParseOperandList(words, total, end, cursor);
      r := Some(Parsed(instruction.(operands := operands), end));
    }
  }
}
