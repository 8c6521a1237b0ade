/** The opcode token: opcode [10:0], opcode-specific controls [23:11], length [30:24], extended [31]. */
module InstructionToken {
  import opened Words
  import opened Sm5Model

  const OPCODE_BITS: Word := 0x7ff
  const CONTROL_BITS: Word := 0x00ff_f800
  const LENGTH_BITS: Word := 0x7f00_0000
  const EXTENDED_BIT: Word := 0x8000_0000

  const SATURATE_BIT: Word := 0x2000
  const TEST_BIT: Word := 0x0004_0000
  const PRECISE_BITS: Word := 0x0078_0000
  const RESINFO_BITS: Word := 0x1800
  const MODE_BITS: Word := 0x7800
  const DIMENSION_BITS: Word := 0xf800
  const ACCESS_BIT: Word := 0x800
  const COHERENCY_BIT: Word := 0x0001_0000
  const COUNTER_BIT: Word := 0x0080_0000

  const MAX_LENGTH := 127

  function OpcodeOf(token: Word): Word { token & OPCODE_BITS }
  predicate IsExtended(token: Word) { token & EXTENDED_BIT != 0 }
  function LengthBitsOf(token: Word): Word { token & LENGTH_BITS }
  function ControlBitsOf(token: Word): Word { token & CONTROL_BITS }

  function LengthField(total: nat): Word { (ToWord(total) << 24) & LENGTH_BITS }

  /** ParseDecodeInstructionLength: a zero length field reads as one. */
  function LengthOf(token: Word): (n: nat)
    ensures n >= 1
  {
    var n := Value((token & LENGTH_BITS) >> 24);
    if n == 0 then 1 else n
  }

  function ExtendedField(ext: bool): Word { if ext then EXTENDED_BIT else 0 }

  // ---------------------------------------------------------------- control fields, as encoded

  function SaturateField(saturate: bool): Word { if saturate then SATURATE_BIT else 0 }

  function TestField(test: Option<Word>): Word {
    match test
    case None => 0
    case Some(v) => (v << 18) & TEST_BIT
  }

  function PreciseField(precise: Word): Word { (precise << 19) & PRECISE_BITS }
  function ResinfoField(returnType: Word): Word { (returnType << 11) & RESINFO_BITS }
  function ModeField(mode: Word): Word { (mode << 11) & MODE_BITS }

  function InterpolationField(op: Word, mode: Option<Word>): Word {
    if IsPixelInput(op) && mode.Some? then ModeField(mode.value) else 0
  }

  function SamplerField(op: Word, mode: Option<Byte>, samplerMode: Byte): Word {
    if op == DCL_SAMPLER then ModeField((if mode.Some? then mode.value else samplerMode) as bv32) else 0
  }

  function GlobalFlagsField(op: Word, flags: Word): Word {
    if op == DCL_GLOBAL_FLAGS then flags & CONTROL_BITS else 0
  }

  function UavField(op: Word, flags: Word): Word {
    if IsUav(op) then (flags & COHERENCY_BIT) | (flags & COUNTER_BIT) else 0
  }

  function Union(a: Word, b: Word, c: Word, d: Word, e: Word, f: Word, g: Word, h: Word): Word {
    a | b | c | d | e | f | g | h
  }

  /** The control bits EncodeInstructionToken0 sets; fields overlap, so this is a genuine OR. */
  function ControlField(op: Word, c: Controls, samplerMode: Byte): Word {
    Union(SaturateField(c.saturate), TestField(c.testBoolean), PreciseField(c.preciseValues),
          ResinfoField(c.resinfoReturnType), InterpolationField(op, c.interpolationMode),
          SamplerField(op, c.mode, samplerMode), GlobalFlagsField(op, c.syncFlags), UavField(op, c.uavFlags))
  }

  function Compose(op: Word, length: Word, ext: Word, control: Word): Word { op | length | ext | control }

  /** EncodeInstructionToken0, for the opcodes Encode passes to it (dcl_resource and
      dcl_constant_buffer have their own encoders). */
  function Token0(i: Instruction, total: nat, ext: bool): Word {
    Compose(OpcodeOf(i.opcode), LengthField(total), ExtendedField(ext),
            ControlField(i.opcode, i.controls, i.samplerMode))
  }

  // ---------------------------------------------------------------- control fields, as parsed

  function TestOf(op: Word, token: Word): Option<Word> {
    if UsesTestBoolean(op) then Some((token & TEST_BIT) >> 18) else None
  }

  function SyncFlagsOf(op: Word, token: Word): Word {
    if op == DCL_GLOBAL_FLAGS then token & CONTROL_BITS else if op == SYNC then token & MODE_BITS else 0
  }

  function ModeOf(token: Word): Byte { ((token & MODE_BITS) >> 11) as bv8 }

  /** The four 4-bit resource return types of a token. */
  function ReturnTypesOf(token: Word): PerComponent<Option<Byte>> {
    PerComponent(Some((token & 0xf) as bv8), Some(((token >> 4) & 0xf) as bv8), Some(((token >> 8) & 0xf) as bv8),
                 Some(((token >> 12) & 0xf) as bv8))
  }

  /** The controls that ParseOpcodeControls and ParseProgramImpl take from the opcode token alone. */
  function TokenControls(op: Word, token: Word): Controls {
    DEFAULT_CONTROLS.(
      saturate := token & SATURATE_BIT != 0,
      testBoolean := TestOf(op, token),
      preciseValues := (token & PRECISE_BITS) >> 19,
      resinfoReturnType := if op == RESINFO then (token & RESINFO_BITS) >> 11 else 0,
      syncFlags := SyncFlagsOf(op, token),
      resourceDimension := if op == DCL_RESOURCE then Some(((token & DIMENSION_BITS) >> 11) as bv8) else None,
      returnTypes := if op == DCL_RESOURCE then ReturnTypesOf(token) else NO_RETURN_TYPES,
      interpolationMode := if IsPixelInput(op) then Some((token & MODE_BITS) >> 11) else None,
      mode := if op == DCL_SAMPLER then Some(ModeOf(token)) else None,
      accessPattern := if op == DCL_CONSTANT_BUFFER then Some(((token & ACCESS_BIT) >> 11) as bv8) else None)
  }

  function SamplerModeOf(op: Word, token: Word): Byte { if op == DCL_SAMPLER then ModeOf(token) else 0 }

  // ---------------------------------------------------------------- which control bits survive

  function TestMask(op: Word): Word { if UsesTestBoolean(op) then TEST_BIT else 0 }
  function ResinfoMask(op: Word): Word { if op == RESINFO then RESINFO_BITS else 0 }
  function InterpolationMask(op: Word): Word { if IsPixelInput(op) then MODE_BITS else 0 }
  function SamplerMask(op: Word): Word { if op == DCL_SAMPLER then MODE_BITS else 0 }
  function GlobalFlagsMask(op: Word): Word { if op == DCL_GLOBAL_FLAGS then CONTROL_BITS else 0 }

  /** The control bits that are both parsed and re-encoded for an opcode. */
  function CarriedBits(op: Word): Word {
    SATURATE_BIT | TestMask(op) | PRECISE_BITS | ResinfoMask(op) | InterpolationMask(op) | SamplerMask(op)
    | GlobalFlagsMask(op)
  }

  /** The control bits a parse followed by an encode loses. */
  function DroppedBits(op: Word): Word { CONTROL_BITS & !CarriedBits(op) }

  function Without(t: Word, bits: Word): Word { t & !bits }

  /** The token with the bits cleared that a parse followed by an encode loses. */
  function WithoutDropped(t: Word): Word { Without(t, DroppedBits(OpcodeOf(t))) }

  lemma SaturateOf(t: Word)
    ensures SaturateField(t & SATURATE_BIT != 0) == t & SATURATE_BIT
  {
  }

  lemma TestOfToken(op: Word, t: Word)
    ensures TestField(TestOf(op, t)) == t & TestMask(op)
  {
    hide UsesTestBoolean;
  }

  lemma PreciseOf(t: Word)
    ensures PreciseField((t & PRECISE_BITS) >> 19) == t & PRECISE_BITS
  {
  }

  lemma ResinfoOf(op: Word, t: Word)
    ensures ResinfoField(if op == RESINFO then (t & RESINFO_BITS) >> 11 else 0) == t & ResinfoMask(op)
  {
  }

  lemma ModeOfToken(t: Word)
    ensures ModeField((t & MODE_BITS) >> 11) == t & MODE_BITS
    ensures ModeField(ModeOf(t) as bv32) == t & MODE_BITS
  {
  }

  lemma InterpolationOf(op: Word, t: Word)
    ensures InterpolationField(op, if IsPixelInput(op) then Some((t & MODE_BITS) >> 11) else None)
         == t & InterpolationMask(op)
  {
    hide IsPixelInput, ModeField;
    ModeOfToken(t);
  }

  lemma SamplerOf(op: Word, t: Word)
    ensures SamplerField(op, if op == DCL_SAMPLER then Some(ModeOf(t)) else None, SamplerModeOf(op, t))
         == t & SamplerMask(op)
  {
    hide ModeField, ModeOf;
    ModeOfToken(t);
  }

  lemma GlobalFlagsOf(op: Word, t: Word)
    ensures GlobalFlagsField(op, SyncFlagsOf(op, t)) == t & GlobalFlagsMask(op)
  {
  }

  lemma MaskUnion(t: Word, a: Word, b: Word, c: Word, d: Word, e: Word, f: Word, g: Word)
    ensures Union(t & a, t & b, t & c, t & d, t & e, t & f, t & g, 0) == t & (a | b | c | d | e | f | g)
  {
  }

  lemma NoUavBits(op: Word)
    ensures UavField(op, 0) == 0
  {
  }

  lemma FieldsOfTokenControls(op: Word, t: Word)
    ensures var c := TokenControls(op, t);
            && SaturateField(c.saturate) == t & SATURATE_BIT
            && TestField(c.testBoolean) == t & TestMask(op)
            && PreciseField(c.preciseValues) == t & PRECISE_BITS
            && ResinfoField(c.resinfoReturnType) == t & ResinfoMask(op)
            && InterpolationField(op, c.interpolationMode) == t & InterpolationMask(op)
            && SamplerField(op, c.mode, SamplerModeOf(op, t)) == t & SamplerMask(op)
            && GlobalFlagsField(op, c.syncFlags) == t & GlobalFlagsMask(op)
            && UavField(op, c.uavFlags) == 0
  {
    hide SaturateField, TestField, PreciseField, ResinfoField, InterpolationField, SamplerField, GlobalFlagsField;
    hide UavField, ModeOf, TestOf, SamplerModeOf, SyncFlagsOf, ReturnTypesOf;
    hide TestMask, ResinfoMask, InterpolationMask, SamplerMask, GlobalFlagsMask;
    SaturateOf(t);
    TestOfToken(op, t);
    PreciseOf(t);
    ResinfoOf(op, t);
    InterpolationOf(op, t);
    SamplerOf(op, t);
    GlobalFlagsOf(op, t);
    NoUavBits(op);
  }

  /** Re-encoding the controls parsed from a token restores exactly the carried bits. */
  lemma ControlFieldOfToken(op: Word, t: Word)
    ensures ControlField(op, TokenControls(op, t), SamplerModeOf(op, t)) == t & CarriedBits(op)
  {
    hide SaturateField, TestField, PreciseField, ResinfoField, InterpolationField, SamplerField, GlobalFlagsField;
    hide UavField, TokenControls, SamplerModeOf;
    hide TestMask, ResinfoMask, InterpolationMask, SamplerMask, GlobalFlagsMask, Union;
    FieldsOfTokenControls(op, t);
    MaskUnion(t, SATURATE_BIT, TestMask(op), PRECISE_BITS, ResinfoMask(op), InterpolationMask(op), SamplerMask(op),
              GlobalFlagsMask(op));
  }

  lemma ComposedBits(op: Word, length: Word, ext: Word, control: Word)
    requires op & !OPCODE_BITS == 0 && length & !LENGTH_BITS == 0 && ext & !EXTENDED_BIT == 0
    requires control & !CONTROL_BITS == 0
    ensures var t := Compose(op, length, ext, control);
            && t & OPCODE_BITS == op && t & LENGTH_BITS == length && t & EXTENDED_BIT == ext
            && t & CONTROL_BITS == control
  {
  }

  lemma ExtendedFieldRead(op: Word, ext: bool, t: Word)
    ensures OpcodeOf(op) & !OPCODE_BITS == 0
    ensures ExtendedField(ext) & !EXTENDED_BIT == 0
    ensures t & EXTENDED_BIT == ExtendedField(ext) ==> IsExtended(t) == ext
  {
  }

  lemma ComposedFields(op: Word, length: Word, ext: bool, control: Word)
    requires length & !LENGTH_BITS == 0 && control & !CONTROL_BITS == 0
    ensures var t := Compose(OpcodeOf(op), length, ExtendedField(ext), control);
            && OpcodeOf(t) == OpcodeOf(op) && LengthBitsOf(t) == length && IsExtended(t) == ext
            && ControlBitsOf(t) == control
  {
    hide Compose, ExtendedField, IsExtended;
    var t := Compose(OpcodeOf(op), length, ExtendedField(ext), control);
    ExtendedFieldRead(op, ext, t);
    ComposedBits(OpcodeOf(op), length, ExtendedField(ext), control);
  }

  lemma FieldwiseEqual(t: Word, u: Word)
    requires OpcodeOf(t) == OpcodeOf(u) && LengthBitsOf(t) == LengthBitsOf(u)
    requires IsExtended(t) == IsExtended(u) && ControlBitsOf(t) == ControlBitsOf(u)
    ensures t == u
  {
  }

  lemma CarriedOnly(t: Word, carried: Word)
    requires carried & !CONTROL_BITS == 0
    ensures ControlBitsOf(t) == t & carried <==> t & (CONTROL_BITS & !carried) == 0
  {
  }

  lemma ShiftedLength(w: Word, t: Word)
    requires w < 128
    ensures ((w << 24) & LENGTH_BITS) >> 24 == w
    ensures (((t & LENGTH_BITS) >> 24) << 24) & LENGTH_BITS == t & LENGTH_BITS
    ensures ((w << 24) & LENGTH_BITS) & !LENGTH_BITS == 0
  {
  }

  lemma LengthFieldMasked(n: nat)
    ensures LengthField(n) & !LENGTH_BITS == 0
  {
    hide ToWord;
  }

  /** A length of 1..127 dwords is read back from the token. */
  lemma LengthFieldRead(n: nat, t: Word)
    requires 1 <= n <= MAX_LENGTH && LengthBitsOf(t) == LengthField(n)
    ensures LengthOf(t) == n
  {
    hide ToWord, Value;
    ValueOfToWord(n);
    SmallWord(ToWord(n));
    ShiftedLength(ToWord(n), t);
  }

  /** The length field is restored unless it was zero (which reads, and re-encodes, as one). */
  lemma LengthFieldOfLength(t: Word)
    ensures LengthField(LengthOf(t)) == LengthBitsOf(t) <==> LengthBitsOf(t) != 0
  {
    hide ToWord, Value;
    var f := (t & LENGTH_BITS) >> 24;
    ToWordOfValue(f);
    ShiftedLength(0, t);
    if t & LENGTH_BITS == 0 {
      assert f == 0;
      SmallToWord();
      assert LengthField(1) == 0x0100_0000;
    } else {
      NonzeroField(t);
      if Value(f) == 0 { SmallToWord(); }
    }
  }

  lemma LengthAtMost(t: Word)
    ensures LengthOf(t) <= MAX_LENGTH
  {
    hide Value;
    SmallField(t);
    SmallValue((t & LENGTH_BITS) >> 24);
  }

  lemma SmallField(t: Word)
    ensures (t & LENGTH_BITS) >> 24 < 128
  {
  }

  lemma NonzeroField(t: Word)
    requires t & LENGTH_BITS != 0
    ensures (t & LENGTH_BITS) >> 24 != 0
  {
  }

  lemma ControlFieldMasked(op: Word, c: Controls, samplerMode: Byte)
    ensures ControlField(op, c, samplerMode) & !CONTROL_BITS == 0
  {
    hide IsPixelInput, IsUav;
  }

  lemma CarriedMasked(op: Word)
    ensures CarriedBits(op) & !CONTROL_BITS == 0
  {
    hide UsesTestBoolean, IsPixelInput;
  }

  /** The fields of an encoded opcode token. */
  lemma Token0Fields(i: Instruction, total: nat, ext: bool)
    ensures var t := Token0(i, total, ext);
            && OpcodeOf(t) == OpcodeOf(i.opcode)
            && LengthBitsOf(t) == LengthField(total)
            && IsExtended(t) == ext
            && ControlBitsOf(t) == ControlField(i.opcode, i.controls, i.samplerMode)
  {
    hide LengthField, ControlField, Compose, OpcodeOf, LengthBitsOf, IsExtended, ControlBitsOf, ExtendedField;
    LengthFieldMasked(total);
    ControlFieldMasked(i.opcode, i.controls, i.samplerMode);
    ComposedFields(i.opcode, LengthField(total), ext, ControlField(i.opcode, i.controls, i.samplerMode));
  }

  /** No bit that a parse followed by an encode would lose is set. */
  predicate NothingDropped(t: Word) { t & DroppedBits(OpcodeOf(t)) == 0 }

  lemma CarriedExactly(t: Word)
    ensures NothingDropped(t) <==> ControlBitsOf(t) == t & CarriedBits(OpcodeOf(t))
  {
    hide CarriedBits, OpcodeOf, ControlBitsOf;
    CarriedMasked(OpcodeOf(t));
    CarriedOnly(t, CarriedBits(OpcodeOf(t)));
  }

  lemma OpcodeIdempotent(t: Word)
    ensures OpcodeOf(OpcodeOf(t)) == OpcodeOf(t)
  {
  }

  /** The exact condition under which a parsed opcode token is re-encoded unchanged. */
  lemma TokenLossless(t: Word, i: Instruction, total: nat, ext: bool)
    requires i.opcode == OpcodeOf(t)
    requires ControlField(i.opcode, i.controls, i.samplerMode) == t & CarriedBits(i.opcode)
    ensures Token0(i, total, ext) == t
       <==> NothingDropped(t) && LengthBitsOf(t) == LengthField(total) && IsExtended(t) == ext
  {
    hide LengthField, ControlField, CarriedBits, Token0, OpcodeOf, LengthBitsOf, IsExtended, ControlBitsOf;
    hide NothingDropped;
    Token0Fields(i, total, ext);
    CarriedExactly(t);
    OpcodeIdempotent(t);
    if NothingDropped(t) && LengthBitsOf(t) == LengthField(total) && IsExtended(t) == ext {
      FieldwiseEqual(t, Token0(i, total, ext));
    }
  }

  lemma KeptOutside(t: Word, dropped: Word)
    ensures dropped & OPCODE_BITS == 0 ==> OpcodeOf(Without(t, dropped)) == OpcodeOf(t)
    ensures dropped & LENGTH_BITS == 0 ==> LengthBitsOf(Without(t, dropped)) == LengthBitsOf(t)
    ensures dropped & EXTENDED_BIT == 0 ==> IsExtended(Without(t, dropped)) == IsExtended(t)
  {
  }

  lemma KeptInside(t: Word, dropped: Word, carried: Word)
    requires dropped == CONTROL_BITS & !carried && carried & !CONTROL_BITS == 0
    ensures ControlBitsOf(Without(t, dropped)) == t & carried
  {
  }

  lemma ControlOnly(dropped: Word, carried: Word)
    requires dropped == CONTROL_BITS & !carried
    ensures dropped & OPCODE_BITS == 0 && dropped & LENGTH_BITS == 0 && dropped & EXTENDED_BIT == 0
  {
  }

  lemma FieldsWithoutDropped(t: Word)
    ensures var u := WithoutDropped(t);
            && OpcodeOf(u) == OpcodeOf(t) && LengthBitsOf(u) == LengthBitsOf(t) && IsExtended(u) == IsExtended(t)
            && ControlBitsOf(u) == t & CarriedBits(OpcodeOf(t))
  {
    hide CarriedBits, OpcodeOf, LengthBitsOf, IsExtended, ControlBitsOf, Without;
    CarriedMasked(OpcodeOf(t));
    ControlOnly(DroppedBits(OpcodeOf(t)), CarriedBits(OpcodeOf(t)));
    KeptOutside(t, DroppedBits(OpcodeOf(t)));
    KeptInside(t, DroppedBits(OpcodeOf(t)), CarriedBits(OpcodeOf(t)));
  }

  lemma SyncDropped(t: Word, op: Word)
    requires op == SYNC
    ensures Without(t, DroppedBits(op)) & MODE_BITS == t & SATURATE_BIT
  {
  }

  /** What is left of the sync flags: bit 13, which is also the saturate flag. */
  lemma SyncFlagsDropped(t: Word)
    requires OpcodeOf(t) == SYNC
    ensures SyncFlagsOf(SYNC, WithoutDropped(t)) == t & SATURATE_BIT
  {
    hide OpcodeOf, Without, DroppedBits;
    SyncDropped(t, OpcodeOf(t));
  }

  /** Where length and extended bit are kept, re-encoding a parsed opcode token clears the dropped bits and
      nothing else. */
  lemma TokenCleared(t: Word, i: Instruction, total: nat, ext: bool)
    requires i.opcode == OpcodeOf(t)
    requires ControlField(i.opcode, i.controls, i.samplerMode) == t & CarriedBits(i.opcode)
    requires LengthBitsOf(t) == LengthField(total) && IsExtended(t) == ext
    ensures Token0(i, total, ext) == WithoutDropped(t)
  {
    hide LengthField, ControlField, CarriedBits, Token0, OpcodeOf, LengthBitsOf, IsExtended, ControlBitsOf;
    hide WithoutDropped;
    Token0Fields(i, total, ext);
    OpcodeIdempotent(t);
    FieldsWithoutDropped(t);
    FieldwiseEqual(WithoutDropped(t), Token0(i, total, ext));
  }
}
