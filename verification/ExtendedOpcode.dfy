/** Extended opcode tokens: the chain each resource-access opcode carries, and its token layouts. */
module ExtendedOpcode {
  import opened Words
  import opened Sm5Model

  const NEXT_BIT: Word := 0x8000_0000
  const RESOURCE_DIM: Word := 2
  const RESOURCE_TYPE: Word := 3

  const TEXTURE_2D: Byte := 3
  const RAW_BUFFER: Byte := 11
  const STRUCTURED_BUFFER: Byte := 12
  const FLOAT: Byte := 5
  const MIXED: Byte := 6

  /** ExtendedChainSpec. `FixedPair` always has four MIXED return types. */
  datatype ChainSpec = NoPair | DeclaredPair | FixedPair(dimension: Byte)

  /** RequiredExtendedChainForOpcode */
  function RequiredChain(op: Word): ChainSpec {
    if op == LD || op == LD_MS || op == RESINFO || op == SAMPLE || op == SAMPLE_B || op == SAMPLE_C
       || op == SAMPLE_C_LZ || op == SAMPLE_D || op == SAMPLE_L || op == GATHER4 || op == GATHER4_C
       || op == GATHER4_PO || op == GATHER4_PO_C then DeclaredPair
    else if op == LD_RAW then FixedPair(RAW_BUFFER)
    else if op == LD_STRUCTURED then FixedPair(STRUCTURED_BUFFER)
    else NoPair
  }

  // ---------------------------------------------------------------- ParseExtendedOpcodeToken

  function ExtensionType(ext: Word): Word { ext & 0x3f }
  predicate AnotherFollows(ext: Word) { ext & NEXT_BIT != 0 }
  function DimensionOf(ext: Word): Byte { ((ext & 0x7c0) >> 6) as bv8 }
  function StrideOf(ext: Word): Word { (ext & 0x007f_f800) >> 11 }

  function TypesOf(ext: Word): PerComponent<Byte> {
    PerComponent(((ext >> 6) & 0xf) as bv8, ((ext >> 10) & 0xf) as bv8, ((ext >> 14) & 0xf) as bv8,
                 ((ext >> 18) & 0xf) as bv8)
  }

  // ---------------------------------------------------------------- the synthesised pair

  function DimensionToken(dimension: Byte, stride: Word): Word {
    RESOURCE_DIM | (((dimension as bv32) << 6) & 0x7c0) | ((stride << 11) & 0x007f_f800) | NEXT_BIT
  }

  function TypesToken(types: PerComponent<Byte>): Word {
    RESOURCE_TYPE | (((types.x as bv32) & 0xf) << 6) | (((types.y as bv32) & 0xf) << 10)
    | (((types.z as bv32) & 0xf) << 14) | (((types.w as bv32) & 0xf) << 18)
  }

  function Nibbles(types: PerComponent<Byte>): PerComponent<Byte> {
    PerComponent(types.x & 0xf, types.y & 0xf, types.z & 0xf, types.w & 0xf)
  }

  lemma DimensionTokenRead(dimension: Byte, stride: Word)
    ensures var ext := DimensionToken(dimension, stride);
            && ExtensionType(ext) == RESOURCE_DIM && AnotherFollows(ext)
            && DimensionOf(ext) == dimension & 0x1f && StrideOf(ext) == stride & 0xfff
  {
  }

  lemma TypesTokenRead(types: PerComponent<Byte>)
    ensures var ext := TypesToken(types);
            ExtensionType(ext) == RESOURCE_TYPE && !AnotherFollows(ext) && TypesOf(ext) == Nibbles(types)
  {
  }

  function OrFloat(ty: Option<Byte>): Byte { if ty.Some? then ty.value else FLOAT }

  function DeclaredTypes(types: PerComponent<Option<Byte>>): PerComponent<Byte> {
    PerComponent(OrFloat(types.x), OrFloat(types.y), OrFloat(types.z), OrFloat(types.w))
  }

  function PairDimension(op: Word, c: Controls): Byte
    requires RequiredChain(op).FixedPair? || c.resourceDimension.Some?
  {
    if RequiredChain(op).FixedPair? then RequiredChain(op).dimension else c.resourceDimension.value
  }

  function PairTypes(op: Word, c: Controls): PerComponent<Byte> {
    if RequiredChain(op).FixedPair? then PerComponent(MIXED, MIXED, MIXED, MIXED) else DeclaredTypes(c.returnTypes)
  }

  /** Instruction::Encode's synthesize_resource_ext. */
  predicate SynthesizesPair(op: Word, c: Controls) {
    && c.extended == []
    && RequiredChain(op) != NoPair
    && (c.resourceDimension.Some? || RequiredChain(op).FixedPair?)
  }

  /** The extended opcode tokens Instruction::Encode emits. */
  function EmittedChain(op: Word, c: Controls): seq<Word> {
    if SynthesizesPair(op, c) then
      [DimensionToken(PairDimension(op, c), c.structureStride), TypesToken(PairTypes(op, c))]
    else c.extended
  }

  // ---------------------------------------------------------------- chains

  /** Every token but the last announces another; the last does not. */
  predicate WellFormedChain(chain: seq<Word>) {
    forall i :: 0 <= i < |chain| ==> AnotherFollows(chain[i]) == (i < |chain| - 1)
  }

  /** A synthesised pair is a well-formed chain announcing the declared dimension (5 bits), stride
      (12 bits) and return types (4 bits each). */
  lemma SynthesizedPair(op: Word, c: Controls)
    requires SynthesizesPair(op, c)
    ensures var chain := EmittedChain(op, c);
            && |chain| == 2 && WellFormedChain(chain)
            && ExtensionType(chain[0]) == RESOURCE_DIM && ExtensionType(chain[1]) == RESOURCE_TYPE
            && DimensionOf(chain[0]) == PairDimension(op, c) & 0x1f
            && StrideOf(chain[0]) == c.structureStride & 0xfff
            && TypesOf(chain[1]) == Nibbles(PairTypes(op, c))
  {
    hide DimensionToken, TypesToken, ExtensionType, DimensionOf, StrideOf, TypesOf, AnotherFollows, Nibbles;
    hide PairDimension, PairTypes, RequiredChain;
    DimensionTokenRead(PairDimension(op, c), c.structureStride);
    TypesTokenRead(PairTypes(op, c));
  }

  // ---------------------------------------------------------------- dcl_resource overrides

  datatype Overrides = Overrides(dimension: Option<Byte>, types: PerComponent<Option<Byte>>)

  const NO_OVERRIDES := Overrides(None, NO_RETURN_TYPES)

  function Present(types: PerComponent<Byte>): PerComponent<Option<Byte>> {
    PerComponent(Some(types.x), Some(types.y), Some(types.z), Some(types.w))
  }

  function Override(o: Overrides, ext: Word): Overrides {
    if ExtensionType(ext) == RESOURCE_DIM then o.(dimension := Some(DimensionOf(ext)))
    else if ExtensionType(ext) == RESOURCE_TYPE then o.(types := Present(TypesOf(ext)))
    else o
  }

  /** EncodeResourceDeclaration's loop over the extended opcode tokens: the last of each kind wins. */
  function ChainOverrides(chain: seq<Word>): Overrides {
    if chain == [] then NO_OVERRIDES else Override(ChainOverrides(chain[..|chain| - 1]), chain[|chain| - 1])
  }

  function OrElse<T>(a: Option<T>, b: Option<T>): Option<T> { if a.Some? then a else b }

  /** The dimension a resource declaration is encoded with. */
  function ResourceDimension(c: Controls): Byte {
    var o := OrElse(ChainOverrides(c.extended).dimension, c.resourceDimension);
    if o.Some? then o.value else TEXTURE_2D
  }

  /** The return types a resource declaration is encoded with. */
  function ResourceTypes(c: Controls): PerComponent<Byte> {
    var o := ChainOverrides(c.extended).types;
    DeclaredTypes(PerComponent(OrElse(o.x, c.returnTypes.x), OrElse(o.y, c.returnTypes.y),
                               OrElse(o.z, c.returnTypes.z), OrElse(o.w, c.returnTypes.w)))
  }
}
