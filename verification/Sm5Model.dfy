/** The SM5 instruction model: operand trees and decoded instructions.
    The C++ scoped enums have the fixed underlying type uint8_t, so any byte is a value of the
    enum; they are bytes here. */
module Sm5Model {
  import opened Words

  // OperandType values the codec branches on, and those of the operands it builds.
  const TEMP: Byte := 0
  const INPUT: Byte := 1
  const OUTPUT: Byte := 2
  const IMMEDIATE32: Byte := 4
  const IMMEDIATE64: Byte := 5
  const SAMPLER: Byte := 6
  const RESOURCE: Byte := 7
  const UAV: Byte := 30

  // NumComponents
  const ZERO_COMPONENTS: Byte := 0
  const ONE_COMPONENT: Byte := 1
  const FOUR_COMPONENTS: Byte := 2

  datatype Representation =
    | Immediate32
    | Immediate64
    | Relative
    | Immediate32PlusRelative
    | Immediate64PlusRelative

  datatype Index = Index(representation: Representation, lo: Option<Word>, hi: Option<Word>, relative: Option<Operand>)

  /** `sourceOffset` and `sourceLength` are parse provenance, not part of the operand's value. */
  datatype Operand = Operand(
    ty: Byte,
    numComponents: Byte,
    componentMode: Word,
    entries: seq<Index>,
    modifier: Byte,
    relative: Option<Operand>,
    sourceOffset: nat,
    sourceLength: nat)

  const EMPTY_OPERAND := Operand(TEMP, FOUR_COMPONENTS, 0, [], 0, None, 0, 0)

  function ImmediateIndex(w: Word): Index {
    Index(Immediate32, Some(w), None, None)
  }

  /** Operand::operator==, which ignores provenance at every depth. */
  predicate SameOperand(a: Operand, b: Operand)
    decreases a
  {
    && a.ty == b.ty
    && a.componentMode == b.componentMode
    && a.numComponents == b.numComponents
    && a.modifier == b.modifier
    && SameIndices(a.entries, b.entries)
    && SameRelative(a.relative, b.relative)
  }

  predicate SameRelative(a: Option<Operand>, b: Option<Operand>)
    decreases a
  {
    match (a, b)
    case (None, None) => true
    case (Some(x), Some(y)) => SameOperand(x, y)
    case _ => false
  }

  /** Operand::Index::operator== on every entry. */
  predicate SameIndices(a: seq<Index>, b: seq<Index>)
    decreases a
  {
    && |a| == |b|
    && (a == [] || (SameIndex(a[0], b[0]) && SameIndices(a[1..], b[1..])))
  }

  predicate SameIndex(a: Index, b: Index)
    decreases a
  {
    && a.representation == b.representation
    && a.lo == b.lo
    && a.hi == b.hi
    && SameRelative(a.relative, b.relative)
  }

  // Opcode values the codec branches on.
  const BREAKC: Word := 3
  const CALLC: Word := 5
  const CONTINUEC: Word := 8
  const DISCARD: Word := 13
  const IF_OP: Word := 31
  const LD: Word := 45
  const LD_MS: Word := 46
  const CUSTOMDATA: Word := 53
  const RESINFO: Word := 61
  const RETC: Word := 63
  const SAMPLE: Word := 69
  const SAMPLE_C: Word := 70
  const SAMPLE_C_LZ: Word := 71
  const SAMPLE_L: Word := 72
  const SAMPLE_D: Word := 73
  const SAMPLE_B: Word := 74
  const DCL_RESOURCE: Word := 88
  const DCL_CONSTANT_BUFFER: Word := 89
  const DCL_SAMPLER: Word := 90
  const DCL_INPUT: Word := 95
  const DCL_INPUT_SGV: Word := 96
  const DCL_INPUT_SIV: Word := 97
  const DCL_INPUT_PS: Word := 98
  const DCL_INPUT_PS_SGV: Word := 99
  const DCL_INPUT_PS_SIV: Word := 100
  const DCL_OUTPUT: Word := 101
  const DCL_OUTPUT_SGV: Word := 102
  const DCL_OUTPUT_SIV: Word := 103
  const DCL_TEMPS: Word := 104
  const DCL_GLOBAL_FLAGS: Word := 106
  const GATHER4: Word := 109
  const GATHER4_C: Word := 126
  const GATHER4_PO: Word := 127
  const GATHER4_PO_C: Word := 128
  const DCL_UAV_TYPED: Word := 156
  const DCL_UAV_RAW: Word := 157
  const DCL_UAV_STRUCTURED: Word := 158
  const DCL_RESOURCE_RAW: Word := 161
  const DCL_RESOURCE_STRUCTURED: Word := 162
  const LD_RAW: Word := 165
  const LD_STRUCTURED: Word := 167
  const SYNC: Word := 190

  predicate UsesTestBoolean(op: Word) {
    op == BREAKC || op == CALLC || op == CONTINUEC || op == DISCARD || op == IF_OP || op == RETC
  }

  /** Declarations with a trailing name token; all six expect two operands. */
  predicate UsesSemanticName(op: Word) {
    || op == DCL_INPUT_SGV || op == DCL_INPUT_SIV || op == DCL_INPUT_PS_SGV || op == DCL_INPUT_PS_SIV
    || op == DCL_OUTPUT_SGV || op == DCL_OUTPUT_SIV
  }

  const EXPECTED_SEMANTIC_OPERANDS := 2

  predicate IsPixelInput(op: Word) { op == DCL_INPUT_PS || op == DCL_INPUT_PS_SGV || op == DCL_INPUT_PS_SIV }

  predicate IsUav(op: Word) { op == DCL_UAV_TYPED || op == DCL_UAV_RAW || op == DCL_UAV_STRUCTURED }

  predicate IsStructuredDeclaration(op: Word) { op == DCL_RESOURCE_STRUCTURED || op == DCL_UAV_STRUCTURED }

  /** A value per component x, y, z, w. */
  datatype PerComponent<T> = PerComponent(x: T, y: T, z: T, w: T)

  const NO_RETURN_TYPES: PerComponent<Option<Byte>> := PerComponent(None, None, None, None)

  datatype Controls = Controls(
    saturate: bool,
    testBoolean: Option<Word>,
    preciseValues: Word,
    resinfoReturnType: Word,
    syncFlags: Word,
    interpolationMode: Option<Word>,
    accessPattern: Option<Byte>,
    accessPatternRaw: Word,
    mode: Option<Byte>,
    resourceDimension: Option<Byte>,
    returnTypes: PerComponent<Option<Byte>>,
    uavFlags: Word,
    structureStride: Word,
    semanticName: Option<Byte>,
    extended: seq<Word>)

  const DEFAULT_CONTROLS :=
    Controls(false, None, 0, 0, 0, None, None, 0, None, None, NO_RETURN_TYPES, 0, 0, None, [])

  /** `length`, `sourceOffset` and `sourceLength` are parse provenance. */
  datatype Instruction = Instruction(
    opcode: Word,
    controls: Controls,
    length: nat,
    operands: seq<Operand>,
    samplerMode: Byte,
    customData: seq<Word>,
    customDataToken: Word,
    sourceOffset: nat,
    sourceLength: nat)
}
