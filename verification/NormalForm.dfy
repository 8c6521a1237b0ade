/** What Instruction::Encode synthesises, written out; dcl_resource in normal form; and when encoded words are
    canonical. */
module NormalForm {
  import opened Words
  import opened Sm5Model
  import opened InstructionToken
  import opened ControlsRoundTrip
  import opened ExtendedOpcode
  import opened OperandCodec
  import opened OperandLossless
  import opened InstructionCodec
  import opened InstructionLossless
  import opened DeclarationLossless
  import opened InstructionRoundTrip

  // ---------------------------------------------------------------- synthesised tokens

  /** The operand a trailing name token parses as. */
  function NameOperand(name: Byte): Operand {
    EMPTY_OPERAND.(numComponents := name & 3, componentMode := (name as bv32) & OperandToken.COMPONENT_MODE_BITS)
  }

  function NameOperands(i: Instruction): (s: seq<Operand>)
    ensures |s| == |EmittedName(i)|
  {
    if EmittedName(i) == [] then [] else [NameOperand(i.controls.semanticName.value)]
  }

  /** The instruction with its synthesised parts written out, and without the declaration's dimension,
      return types and stride, which only steer the synthesis. */
  function Explicit(i: Instruction): Instruction {
    i.(controls := i.controls.(extended := EmittedChain(i.opcode, i.controls), resourceDimension := None,
                               returnTypes := NO_RETURN_TYPES, structureStride := 0),
       operands := i.operands + NameOperands(i))
  }

  lemma NameOperandEncodes(name: Byte)
    ensures EncodeOperand(NameOperand(name)) == [NameToken(name)]
  {
    hide OperandToken.RepresentationFields, OperandToken.RepresentationField;
  }

  lemma {:induction false} OperandsConcatenate(a: seq<Operand>, b: seq<Operand>)
    ensures EncodeOperands(a + b) == EncodeOperands(a) + EncodeOperands(b)
  {
    hide EncodeOperand;
    if a == [] {
      assert a + b == b;
    } else {
      assert (a + b)[1..] == a[1..] + b;
      OperandsConcatenate(a[1..], b);
    }
  }

  lemma NamesEncode(i: Instruction)
    ensures EncodeOperands(Explicit(i).operands) == EncodeOperands(i.operands) + EmittedName(i)
  {
    hide EncodeOperand, NameToken, NameOperand, UsesSemanticName, EmittedChain;
    OperandsConcatenate(i.operands, NameOperands(i));
    if EmittedName(i) != [] {
      NameOperandEncodes(i.controls.semanticName.value);
      assert NameOperands(i)[1..] == [];
    }
  }

  // ---------------------------------------------------------------- dcl_resource

  lemma EncodedResourceWords(i: Instruction, words: seq<Word>, start: nat)
    requires i.opcode == DCL_RESOURCE && i.operands != [] && i.operands[0].entries != []
    requires Occurs(EncodeInstruction(i), words, start)
    ensures |EncodeInstruction(i)| == 4 && start + 4 <= |words|
    ensures words[start] == ResourceToken(ResourceDimension(i.controls)) && words[start + 1] == RESOURCE_OPERAND_TOKEN
    ensures words[start + 2] == FirstRegister(i.operands[0])
    ensures words[start + 3] == ReturnTypeToken(ResourceTypes(i.controls))
  {
    hide ResourceToken, ReturnTypeToken, ResourceTypes, ResourceDimension, RegisterOperand, EncodeOperand,
         FirstRegister;
    EncodedResourceOperand(FirstRegister(i.operands[0]));
    forall k | 0 <= k < 4 ensures words[start + k] == EncodeInstruction(i)[k] {
      OccursAt(EncodeInstruction(i), words, start, k);
    }
  }

  lemma DeclaredPresent(types: PerComponent<Byte>)
    ensures DeclaredTypes(Present(types)) == types
  {
  }

  /** `p` declares what `i` does, up to the width of the fields. */
  predicate DeclaresAlike(i: Instruction, p: Instruction) {
    && p.opcode == DCL_RESOURCE
    && ResourceDimension(p.controls) == ResourceDimension(i.controls) & 0x1f
    && ResourceTypes(p.controls) == Nibbles(ResourceTypes(i.controls))
    && i.operands != [] && i.operands[0].entries != []
    && p.operands != [] && p.operands[0].entries != []
    && FirstRegister(p.operands[0]) == FirstRegister(i.operands[0])
  }

  /** An encoded dcl_resource announces the dimension (5 bits), return types (4 bits each) and register it
      was declared with, whether they came from extended tokens, from controls or by default, and
      re-encodes to the same words. */
  lemma ResourceNormalForm(i: Instruction, words: seq<Word>, total: nat, start: nat)
    requires i.opcode == DCL_RESOURCE && i.operands != [] && i.operands[0].entries != []
    requires Occurs(EncodeInstruction(i), words, start)
    requires start + |EncodeInstruction(i)| <= total <= |words|
    ensures start < total
    ensures var r := ParseInstruction(words, total, start);
            && r.Some? && r.value.cursor == start + 4
            && DeclaresAlike(i, r.value.value)
            && EncodeInstruction(r.value.value) == EncodeInstruction(i)
  {
    hide ResourceToken, ReturnTypeToken, ResourceTypes, ResourceDimension, ParsedControls, ParseOperands, ReturnTypesOf;
    hide OpcodeOf, LengthOf, IsExtended, LengthBitsOf, LengthField, SamplerModeOf, Nibbles, DeclaredTypes,
         FirstRegister;
    EncodedResourceWords(i, words, start);
    ResourceTokenRead(ResourceDimension(i.controls));
    SmallLengths();
    LengthBits(words[start], 4);
    ResourceControls(words, start, start + 4);
    ReturnTypeTokenRead(ResourceTypes(i.controls));
    DeclaredPresent(Nibbles(ResourceTypes(i.controls)));
    ParsedResourceOperand(words, total, start, start + 4);
    ExtendedTokensEmpty(words, start, start + 4);
    ResourceReencoded(i, words, total, start);
  }

  lemma ResourceReencoded(i: Instruction, words: seq<Word>, total: nat, start: nat)
    requires i.opcode == DCL_RESOURCE && i.operands != [] && i.operands[0].entries != []
    requires Occurs(EncodeInstruction(i), words, start) && start + 4 <= total <= |words|
    requires OpcodeOf(words[start]) == DCL_RESOURCE && LengthOf(words[start]) == 4
    ensures ParseInstruction(words, total, start).Some?
    ensures EncodeInstruction(ParseInstruction(words, total, start).value.value) == EncodeInstruction(i)
  {
    hide ResourceToken, ReturnTypeToken, ResourceTypes, ResourceDimension, ParsedControls, ParseOperands,
         EncodeInstruction;
    hide OpcodeOf, LengthOf, IsExtended, LengthBitsOf, LengthField, SamplerModeOf, FirstRegister, ExtendedTokens;
    EncodedResourceWords(i, words, start);
    ResourceTokenRead(ResourceDimension(i.controls));
    ReturnTypeTokenRead(ResourceTypes(i.controls));
    InstructionReencodesExactly(words, total, start);
  }

  // ---------------------------------------------------------------- canonical words

  /** A stride's word, read as an operand token with nothing after it, is canonical when it has only the
      token's first twenty bits. */
  predicate NarrowStride(stride: Word) { stride & 0xfff0_0000 == 0 }

  lemma LastWordCanonical(words: seq<Word>, total: nat, end: nat)
    requires 0 < end <= total <= |words|
    ensures CanonicalOperand(words, total, end, end - 1) <==> NarrowStride(words[end - 1])
  {
    hide OperandToken.TypeOf, OperandToken.RepresentationOf;
    LastWordBits(words[end - 1]);
  }

  predicate NoDimensionBits(t: Word) { t & 0x0030_0000 == 0 }

  lemma NoDimension(t: Word)
    ensures OperandToken.DimensionOf(t) == 0 <==> NoDimensionBits(t)
  {
  }

  lemma MaskSplit(t: Word)
    ensures t & 0xfff0_0000 == 0 <==> t & 0x0030_0000 == 0 && t & 0x7fc0_0000 == 0 && t & 0x8000_0000 == 0
  {
  }

  lemma NarrowParts(t: Word)
    ensures NoReservedBits(t, 0) <==> t & 0x7fc0_0000 == 0
    ensures OperandToken.IsExtended(t) <==> t & 0x8000_0000 != 0
  {
  }

  lemma NarrowBits(t: Word)
    ensures NarrowStride(t) <==> NoDimensionBits(t) && NoReservedBits(t, 0) && !OperandToken.IsExtended(t)
  {
    hide NoReservedBits, OperandToken.IsExtended;
    NarrowParts(t);
    MaskSplit(t);
  }

  lemma LastWordBits(t: Word)
    ensures CanonicalToken(t) && !OperandToken.IsExtended(t) && OperandToken.DimensionOf(t) == 0 <==> NarrowStride(t)
  {
    hide OperandToken.TypeOf, OperandToken.DimensionOf, OperandToken.IsExtended, NoReservedBits, NarrowStride;
    hide NoDimensionBits;
    NoDimension(t);
    NarrowBits(t);
  }

  lemma LastOperand(words: seq<Word>, total: nat, end: nat)
    requires 0 < end <= total <= |words|
    ensures CanonicalOperands(words, total, end, end - 1) <==> NarrowStride(words[end - 1])
  {
    hide CanonicalOperand, ParseOperand, NarrowStride;
    LastWordCanonical(words, total, end);
    ParseOperandsStep(words, total, end, end - 1);
  }

  /** Encoded well-formed operands are canonical where they occur. */
  lemma {:induction false} EncodedCanonical(operands: seq<Operand>, words: seq<Word>, total: nat, end: nat, cursor: nat)
    requires WellFormedOperands(operands) && Occurs(EncodeOperands(operands), words, cursor)
    requires cursor + |EncodeOperands(operands)| <= end <= total <= |words|
    ensures CanonicalOperands(words, total, end, cursor)
       <==> CanonicalOperands(words, total, end, cursor + |EncodeOperands(operands)|)
  {
    hide EncodeOperand, ParseOperand, SameOperand, WellFormed, CanonicalOperand;
    if operands != [] {
      var first := EncodeOperand(operands[0]);
      OccursSplit(first, EncodeOperands(operands[1..]), words, cursor);
      assert WellFormed(operands[0]);
      OperandRoundTrip(operands[0], words, total, end, cursor);
      SameOperandsEncodeAlike(operands[0], ParseOperand(words, total, end, cursor).value);
      ReencodesExactly(words, total, end, cursor);
      EncodedCanonical(operands[1..], words, total, end, cursor + |first|);
    }
  }

  /** An encoded opcode token with well-formed controls has no bit that would be dropped. */
  lemma EncodedTokenCanonical(i: Instruction, total: nat, ext: bool)
    requires IsPlain(i.opcode) && OpcodeOf(i.opcode) == i.opcode && 1 <= total <= MAX_LENGTH
    requires WellFormedControls(i.opcode, i.controls, i.samplerMode)
    ensures CanonicalOpcodeToken(Token0(i, total, ext))
  {
    hide OpcodeOf, LengthOf, IsExtended, Token0, WellFormedControls, ControlBitsOf, LengthBitsOf, CarriedBits;
    hide LengthField, NothingDropped, SaturateField, TestField, PreciseField, ResinfoField, InterpolationField,
         SamplerField;
    hide GlobalFlagsField, UavField, Union, TokenControls;
    var t := Token0(i, total, ext);
    PlainToken(i, total, ext);
    Token0Fields(i, total, ext);
    ControlFieldOfToken(i.opcode, t);
    CarriedExactly(t);
    LengthBits(t, total);
  }
}
