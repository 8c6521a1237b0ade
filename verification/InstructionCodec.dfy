/** Instruction::Encode and the per-instruction part of ParseProgramImpl. */
module InstructionCodec {
  import opened Words
  import opened Sm5Model
  import opened InstructionToken
  import opened ExtendedOpcode
  import opened OperandCodec

  // ---------------------------------------------------------------- encoding

  function EncodeOperands(operands: seq<Operand>): seq<Word> {
    if operands == [] then [] else EncodeOperand(operands[0]) + EncodeOperands(operands[1..])
  }

  function NameToken(name: Byte): Word { (name as bv32) & 0xffff }

  /** The trailing name token synthesised for SIV/SGV declarations given without one. */
  function EmittedName(i: Instruction): (s: seq<Word>)
    ensures |s| <= 1
  {
    if UsesSemanticName(i.opcode) && i.controls.semanticName.Some? && |i.operands| < EXPECTED_SEMANTIC_OPERANDS then
      [NameToken(i.controls.semanticName.value)]
    else []
  }

  /** Instruction::Encode on the opcodes without an encoder of their own. */
  function EncodeGeneric(i: Instruction): seq<Word> {
    var chain := EmittedChain(i.opcode, i.controls);
    var body := chain + EncodeOperands(i.operands) + EmittedName(i);
    [Token0(i, 1 + |body|, chain != [])] + body
  }

  /** Structured declarations: the extended bit is set when the controls hold extended tokens, which
      are not emitted. */
  function EncodeStructured(i: Instruction): seq<Word> {
    var stride := if i.controls.structureStride != 0 then [i.controls.structureStride] else [];
    var body := EncodeOperands(i.operands) + stride;
    [Token0(i, 1 + |body|, i.controls.extended != [])] + body
  }

  function CustomDataToken(i: Instruction): Word {
    if i.customDataToken != 0 then i.customDataToken else CUSTOMDATA | LengthField(1 + |i.customData|)
  }

  function EncodeCustomData(i: Instruction): seq<Word> { [CustomDataToken(i)] + i.customData }

  function RegisterOperand(ty: Byte, register: Word): Operand {
    EMPTY_OPERAND.(ty := ty, numComponents := ZERO_COMPONENTS, entries := [ImmediateIndex(register)])
  }

  function ResourceToken(dimension: Byte): Word {
    DCL_RESOURCE | (((dimension as bv32) << 11) & DIMENSION_BITS) | LengthField(4)
  }

  function ReturnTypeToken(types: PerComponent<Byte>): Word {
    ((types.x as bv32) & 0xf) | (((types.y as bv32) & 0xf) << 4) | (((types.z as bv32) & 0xf) << 8)
    | (((types.w as bv32) & 0xf) << 12)
  }

  /** The low word of an operand's first index (absent reads as 0: dereferencing an empty optional has
      no defined value). */
  function FirstRegister(o: Operand): Word
    requires o.entries != []
  {
    if o.entries[0].lo.Some? then o.entries[0].lo.value else 0
  }

  function EncodeResource(i: Instruction): seq<Word> {
    if i.operands == [] || i.operands[0].entries == [] then []
    else
      [ResourceToken(ResourceDimension(i.controls))]
      + EncodeOperand(RegisterOperand(RESOURCE, FirstRegister(i.operands[0])))
      + [ReturnTypeToken(ResourceTypes(i.controls))]
  }

  function AccessPattern(c: Controls): Word {
    if c.accessPattern.Some? then c.accessPattern.value as bv32 else c.accessPatternRaw
  }

  function ConstantBufferToken(access: Word, total: nat): Word {
    DCL_CONSTANT_BUFFER | ((access << 11) & ACCESS_BIT) | LengthField(total)
  }

  function EncodeConstantBuffer(i: Instruction): seq<Word> {
    if i.operands == [] || |i.operands[0].entries| < 2 then []
    else
      var operand := EncodeOperand(i.operands[0]);
      [ConstantBufferToken(AccessPattern(i.controls), 1 + |operand|)] + operand
  }

  function EncodeTemps(i: Instruction): seq<Word> {
    var count := if i.operands != [] && i.operands[0].entries != [] then FirstRegister(i.operands[0]) else 0;
    [DCL_TEMPS | LengthField(2), count]
  }

  /** Instruction::Encode */
  function EncodeInstruction(i: Instruction): seq<Word> {
    if i.opcode == CUSTOMDATA then EncodeCustomData(i)
    else if i.opcode == DCL_RESOURCE then EncodeResource(i)
    else if i.opcode == DCL_CONSTANT_BUFFER then EncodeConstantBuffer(i)
    else if i.opcode == DCL_TEMPS then EncodeTemps(i)
    else if IsStructuredDeclaration(i.opcode) then EncodeStructured(i)
    else EncodeGeneric(i)
  }

  // ---------------------------------------------------------------- parsing

  /** The extended opcode tokens from `cursor` on: up to and including the first that announces no other. */
  function ParseChain(words: seq<Word>, end: nat, cursor: nat): (r: Parsed<seq<Word>>)
    requires cursor <= end <= |words|
    ensures cursor <= r.cursor <= end && r.value == words[cursor..r.cursor]
    decreases end - cursor
  {
    if cursor == end then Parsed([], cursor)
    else if AnotherFollows(words[cursor]) then
      var rest := ParseChain(words, end, cursor + 1);
      Parsed([words[cursor]] + rest.value, rest.cursor)
    else Parsed([words[cursor]], cursor + 1)
  }

  function ExtendedTokens(words: seq<Word>, end: nat, start: nat): (r: Parsed<seq<Word>>)
    requires start < end <= |words|
    ensures start < r.cursor <= end && r.value == words[start + 1..r.cursor]
  {
    if IsExtended(words[start]) then ParseChain(words, end, start + 1) else Parsed([], start + 1)
  }

  function NameOf(w: Word): Byte { (w & 0xffff & 0xff) as bv8 }

  /** ParseOpcodeControls, with the per-opcode additions of ParseProgramImpl. */
  function ParsedControls(words: seq<Word>, start: nat, end: nat): Controls
    requires start < end <= |words|
  {
    var t := words[start];
    var op := OpcodeOf(t);
    TokenControls(op, t).(
      semanticName := if UsesSemanticName(op) && end - start >= 2 then Some(NameOf(words[end - 1])) else None,
      extended := ExtendedTokens(words, end, start).value,
      returnTypes := if op == DCL_RESOURCE then ReturnTypesOf(words[if end - start >= 4 then end - 1 else start])
                     else NO_RETURN_TYPES)
  }

  function ParseOperands(words: seq<Word>, total: nat, end: nat, cursor: nat): (r: seq<Operand>)
    requires cursor <= end <= |words|
    decreases end - cursor
  {
    if cursor == end then []
    else
      var first := ParseOperand(words, total, end, cursor);
      if first.value.sourceLength == 0 || first.cursor <= cursor then []
      else [first.value] + ParseOperands(words, total, end, first.cursor)
  }

  function ParseCustomData(words: seq<Word>, total: nat, start: nat, base: Instruction)
    : (r: Option<Parsed<Instruction>>)
    requires start < total <= |words|
    ensures r.Some? ==> start < r.value.cursor <= total
  {
    if start + 1 >= total then None
    else
      var count := Value(words[start + 1]);
      if count < 2 || start + count > total then None
      else
        Some(Parsed(base.(length := count, sourceLength := count, customDataToken := words[start],
                          customData := words[start + 1..start + count]),
                    start + count))
  }

  /** One turn of ParseProgramImpl's loop. `total` is the dword count of the program. */
  function ParseInstruction(words: seq<Word>, total: nat, start: nat): (r: Option<Parsed<Instruction>>)
    requires start < total <= |words|
    ensures r.Some? ==> start < r.value.cursor <= total
  {
    var t := words[start];
    var op := OpcodeOf(t);
    var end := start + LengthOf(t);
    if end > total then None
    else
      var base := Instruction(op, ParsedControls(words, start, end), end - start, [], SamplerModeOf(op, t), [], 0,
                              start, end - start);
      if op == CUSTOMDATA then ParseCustomData(words, total, start, base)
      else if op == DCL_TEMPS then
        if end - start < 2 then None
        else
          var count := RegisterOperand(TEMP, words[start + 1]).(sourceOffset := start + 1, sourceLength := 1);
          Some(Parsed(base.(operands := [count]), end))
      else
        Some(Parsed(base.(operands := ParseOperands(words, total, end, ExtendedTokens(words, end, start).cursor)), end))
  }
}
