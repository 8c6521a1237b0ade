/** The opcode token's control bits overlap; exactly which controls survive encoding and parsing. */
module ControlsRoundTrip {
  import opened Words
  import opened Sm5Model
  import opened InstructionToken

  /** Each control fits its field, and is present only on the opcodes it is parsed for. */
  predicate NarrowFields(op: Word, test: Option<Word>, precise: Word, resinfo: Word, interpolation: Option<Word>,
                         mode: Option<Byte>, samplerMode: Byte, syncFlags: Word)
  {
    && test.Some? == UsesTestBoolean(op)
    && (test.Some? ==> test.value <= 1)
    && precise < 16
    && resinfo < 4
    && (op != RESINFO ==> resinfo == 0)
    && interpolation.Some? == IsPixelInput(op)
    && (interpolation.Some? ==> interpolation.value < 16)
    && mode.Some? == (op == DCL_SAMPLER)
    && samplerMode == (if mode.Some? then mode.value else 0)
    && samplerMode < 16
    && syncFlags & !CONTROL_BITS == 0
    && (op != DCL_GLOBAL_FLAGS && op != SYNC ==> syncFlags == 0)
  }

  predicate NarrowControls(op: Word, c: Controls, samplerMode: Byte) {
    && NarrowFields(op, c.testBoolean, c.preciseValues, c.resinfoReturnType, c.interpolationMode, c.mode, samplerMode,
                    c.syncFlags)
    // never parsed from a generic instruction
    && c.accessPattern.None? && c.accessPatternRaw == 0 && c.resourceDimension.None?
    && c.returnTypes == NO_RETURN_TYPES && c.uavFlags == 0 && c.structureStride == 0
  }

  /** Controls whose fields overlap say the same about the bits they share. Bit 13 is the saturate flag
      and bit 2 of the interpolation, sampler and sync modes; the global flags cover every control bit.
      Sync flags are parsed but not encoded, so only the shared bit can be set. */
  predicate AgreeingFields(op: Word, saturate: bool, precise: Word, interpolation: Option<Word>, samplerMode: Byte,
                           syncFlags: Word)
  {
    && (op == DCL_SAMPLER ==> saturate == (samplerMode & 4 != 0))
    && (interpolation.Some? ==> saturate == (interpolation.value & 4 != 0))
    && (op == DCL_GLOBAL_FLAGS ==>
          saturate == (syncFlags & SATURATE_BIT != 0) && precise == (syncFlags & PRECISE_BITS) >> 19)
    && (op == SYNC ==> syncFlags == if saturate then SATURATE_BIT else 0)
  }

  predicate AgreesOnSharedBits(op: Word, c: Controls, samplerMode: Byte) {
    AgreeingFields(op, c.saturate, c.preciseValues, c.interpolationMode, samplerMode, c.syncFlags)
  }

  predicate WellFormedControls(op: Word, c: Controls, samplerMode: Byte) {
    NarrowControls(op, c, samplerMode) && AgreesOnSharedBits(op, c, samplerMode)
  }

  predicate HasOwnControls(op: Word) { op == DCL_RESOURCE || op == DCL_CONSTANT_BUFFER }

  /** What parsing keeps of the controls once the extended tokens and the name are set aside. */
  function TokenPart(c: Controls): Controls { c.(extended := [], semanticName := None) }

  // ---------------------------------------------------------------- only well-formed controls come back

  lemma ParsedNarrow(op: Word, t: Word)
    requires !HasOwnControls(op)
    ensures NarrowControls(op, TokenControls(op, t), SamplerModeOf(op, t))
  {
    hide UsesTestBoolean, IsPixelInput;
  }

  lemma ParsedAgree(op: Word, t: Word)
    requires !HasOwnControls(op) && op != SYNC
    ensures AgreesOnSharedBits(op, TokenControls(op, t), SamplerModeOf(op, t))
  {
    hide UsesTestBoolean, IsPixelInput;
  }

  lemma SyncField(c: Controls, samplerMode: Byte, t: Word)
    requires NarrowControls(SYNC, c, samplerMode) && ControlBitsOf(t) == ControlField(SYNC, c, samplerMode)
    ensures t & MODE_BITS == if c.saturate then SATURATE_BIT else 0
  {
  }

  // ---------------------------------------------------------------- all well-formed controls come back

  lemma PlainUnion(a: Word, b: Word, c: Word, d: Word, e: Word, f: Word, g: Word, h: Word, t: Word)
    requires a & !SATURATE_BIT == 0 && b & !TEST_BIT == 0 && c & !PRECISE_BITS == 0 && d & !RESINFO_BITS == 0
    requires h == 0 && t & CONTROL_BITS == Union(a, b, c, d, e, f, g, h)
    ensures e == 0 && f == 0 && g == 0
        ==> t & SATURATE_BIT == a && t & TEST_BIT == b && t & PRECISE_BITS == c && t & RESINFO_BITS == d
  {
  }

  lemma FieldsNarrow(op: Word, c: Controls, samplerMode: Byte)
    requires NarrowControls(op, c, samplerMode)
    ensures SaturateField(c.saturate) & !SATURATE_BIT == 0 && TestField(c.testBoolean) & !TEST_BIT == 0
    ensures PreciseField(c.preciseValues) & !PRECISE_BITS == 0 && ResinfoField(c.resinfoReturnType) & !RESINFO_BITS == 0
    ensures UavField(op, c.uavFlags) == 0
    ensures PreciseField(c.preciseValues) >> 19 == c.preciseValues
    ensures ResinfoField(c.resinfoReturnType) >> 11 == c.resinfoReturnType
    ensures op != RESINFO ==> ResinfoField(c.resinfoReturnType) == 0
    ensures c.testBoolean.Some? ==> TestField(c.testBoolean) >> 18 == c.testBoolean.value
  {
    hide UsesTestBoolean, IsPixelInput;
  }

  /** A token whose control bits read back as the controls they were encoded from. */
  predicate ReadsBack(op: Word, c: Controls, samplerMode: Byte, t: Word) {
    TokenControls(op, t) == TokenPart(c) && SamplerModeOf(op, t) == samplerMode
  }

  lemma PlainReadsBack(op: Word, c: Controls, samplerMode: Byte, t: Word)
    requires WellFormedControls(op, c, samplerMode) && ControlBitsOf(t) == ControlField(op, c, samplerMode)
    requires !HasOwnControls(op) && !IsPixelInput(op) && op != DCL_SAMPLER && op != DCL_GLOBAL_FLAGS && op != SYNC
    ensures ReadsBack(op, c, samplerMode, t)
  {
    hide UsesTestBoolean, IsPixelInput, SaturateField, TestField, PreciseField, ResinfoField, Union;
    FieldsNarrow(op, c, samplerMode);
    PlainUnion(SaturateField(c.saturate), TestField(c.testBoolean), PreciseField(c.preciseValues),
               ResinfoField(c.resinfoReturnType), 0, 0, 0, 0, t);
    SaturateRead(c.saturate, t);
  }

  lemma SaturateRead(saturate: bool, t: Word)
    requires t & SATURATE_BIT == SaturateField(saturate)
    ensures (t & SATURATE_BIT != 0) == saturate
  {
  }

  lemma SyncReadsBack(c: Controls, samplerMode: Byte, t: Word)
    requires WellFormedControls(SYNC, c, samplerMode) && ControlBitsOf(t) == ControlField(SYNC, c, samplerMode)
    ensures ReadsBack(SYNC, c, samplerMode, t)
  {
    hide SaturateField, TestField, PreciseField, ResinfoField, Union;
    FieldsNarrow(SYNC, c, samplerMode);
    PlainUnion(SaturateField(c.saturate), TestField(c.testBoolean), PreciseField(c.preciseValues),
               ResinfoField(c.resinfoReturnType), 0, 0, 0, 0, t);
    SaturateRead(c.saturate, t);
    SyncField(c, samplerMode, t);
  }

  lemma ModalUnion(a: Word, c: Word, m: Word, t: Word)
    requires a & !SATURATE_BIT == 0 && c & !PRECISE_BITS == 0 && m & !MODE_BITS == 0 && m & SATURATE_BIT == a
    requires t & CONTROL_BITS == Union(a, 0, c, 0, m, 0, 0, 0) || t & CONTROL_BITS == Union(a, 0, c, 0, 0, m, 0, 0)
    ensures t & SATURATE_BIT == a && t & PRECISE_BITS == c && t & MODE_BITS == m
  {
  }

  lemma ModeShared(saturate: bool, mode: Word)
    requires mode < 16 && saturate == (mode & 4 != 0)
    ensures ModeField(mode) & SATURATE_BIT == SaturateField(saturate)
    ensures ModeField(mode) & !MODE_BITS == 0 && ModeField(mode) >> 11 == mode
  {
  }

  lemma ModeByte(mode: Byte)
    requires mode < 16
    ensures (mode as bv32) < 16 && (mode & 4 != 0) == ((mode as bv32) & 4 != 0)
    ensures (ModeField(mode as bv32) >> 11) as bv8 == mode
  {
  }

  lemma SamplerReadsBack(c: Controls, samplerMode: Byte, t: Word)
    requires WellFormedControls(DCL_SAMPLER, c, samplerMode)
    requires ControlBitsOf(t) == ControlField(DCL_SAMPLER, c, samplerMode)
    ensures ReadsBack(DCL_SAMPLER, c, samplerMode, t)
  {
    hide SaturateField, TestField, PreciseField, ResinfoField, Union, ModeField;
    FieldsNarrow(DCL_SAMPLER, c, samplerMode);
    ModeByte(samplerMode);
    ModeShared(c.saturate, samplerMode as bv32);
    assert TestField(None) == 0 by { NoTest(); }
    ModalUnion(SaturateField(c.saturate), PreciseField(c.preciseValues), ModeField(samplerMode as bv32), t);
    SaturateRead(c.saturate, t);
  }

  lemma NoTest()
    ensures TestField(None) == 0
  {
  }

  lemma PixelInputReadsBack(op: Word, c: Controls, samplerMode: Byte, t: Word)
    requires IsPixelInput(op) && WellFormedControls(op, c, samplerMode)
    requires ControlBitsOf(t) == ControlField(op, c, samplerMode)
    ensures ReadsBack(op, c, samplerMode, t)
  {
    hide SaturateField, TestField, PreciseField, ResinfoField, Union, ModeField;
    FieldsNarrow(op, c, samplerMode);
    ModeShared(c.saturate, c.interpolationMode.value);
    NoTest();
    ModalUnion(SaturateField(c.saturate), PreciseField(c.preciseValues), ModeField(c.interpolationMode.value), t);
    SaturateRead(c.saturate, t);
  }

  lemma FlagsUnion(a: Word, c: Word, flags: Word, t: Word)
    requires flags & !CONTROL_BITS == 0 && flags & SATURATE_BIT == a && flags & PRECISE_BITS == c
    requires ControlBitsOf(t) == Union(a, 0, c, 0, 0, 0, GlobalFlagsField(DCL_GLOBAL_FLAGS, flags), 0)
    ensures SyncFlagsOf(DCL_GLOBAL_FLAGS, t) == flags && t & SATURATE_BIT == a && t & PRECISE_BITS == c
  {
  }

  lemma FlagsShared(c: Controls, samplerMode: Byte)
    requires WellFormedControls(DCL_GLOBAL_FLAGS, c, samplerMode)
    ensures c.syncFlags & SATURATE_BIT == SaturateField(c.saturate)
    ensures c.syncFlags & PRECISE_BITS == PreciseField(c.preciseValues)
  {
  }

  lemma GlobalFlagsReadsBack(c: Controls, samplerMode: Byte, t: Word)
    requires WellFormedControls(DCL_GLOBAL_FLAGS, c, samplerMode)
    requires ControlBitsOf(t) == ControlField(DCL_GLOBAL_FLAGS, c, samplerMode)
    ensures ReadsBack(DCL_GLOBAL_FLAGS, c, samplerMode, t)
  {
    hide SaturateField, TestField, PreciseField, ResinfoField, Union, ModeField, GlobalFlagsField, SyncFlagsOf;
    hide AgreesOnSharedBits, ControlBitsOf;
    FlagsShared(c, samplerMode);
    FieldsNarrow(DCL_GLOBAL_FLAGS, c, samplerMode);
    NoTest();
    FlagsUnion(SaturateField(c.saturate), PreciseField(c.preciseValues), c.syncFlags, t);
    SaturateRead(c.saturate, t);
  }

  // ---------------------------------------------------------------- main result

  /** Main result: a token carrying an instruction's control bits parses back to the same controls if
      and only if the controls are well formed. */
  lemma ControlsReadBackExactly(op: Word, c: Controls, samplerMode: Byte, t: Word)
    requires !HasOwnControls(op) && ControlBitsOf(t) == ControlField(op, c, samplerMode)
    ensures ReadsBack(op, c, samplerMode, t) <==> WellFormedControls(op, c, samplerMode)
  {
    hide ControlField, ControlBitsOf, IsPixelInput, UsesTestBoolean;
    if WellFormedControls(op, c, samplerMode) {
      hide WellFormedControls, ReadsBack;
      if op == SYNC { SyncReadsBack(c, samplerMode, t); }
      else if op == DCL_SAMPLER { SamplerReadsBack(c, samplerMode, t); }
      else if op == DCL_GLOBAL_FLAGS { GlobalFlagsReadsBack(c, samplerMode, t); }
      else if IsPixelInput(op) { PixelInputReadsBack(op, c, samplerMode, t); }
      else { PlainReadsBack(op, c, samplerMode, t); }
    }
    if ReadsBack(op, c, samplerMode, t) { OnlyWellFormedReadsBack(op, c, samplerMode, t); }
  }

  lemma TokenPartAlike(op: Word, c: Controls, samplerMode: Byte)
    ensures NarrowControls(op, TokenPart(c), samplerMode) == NarrowControls(op, c, samplerMode)
    ensures AgreesOnSharedBits(op, TokenPart(c), samplerMode) == AgreesOnSharedBits(op, c, samplerMode)
  {
    hide NarrowFields, AgreeingFields;
  }

  lemma OnlyWellFormedReadsBack(op: Word, c: Controls, samplerMode: Byte, t: Word)
    requires !HasOwnControls(op) && ControlBitsOf(t) == ControlField(op, c, samplerMode)
    requires ReadsBack(op, c, samplerMode, t)
    ensures WellFormedControls(op, c, samplerMode)
  {
    hide TokenControls, SamplerModeOf, NarrowControls, AgreesOnSharedBits, ControlField, ControlBitsOf, TokenPart;
    TokenPartAlike(op, c, samplerMode);
    ParsedNarrow(op, t);
    if op == SYNC { SyncAgrees(c, samplerMode, t); } else { ParsedAgree(op, t); }
  }

  lemma SyncAgrees(c: Controls, samplerMode: Byte, t: Word)
    requires NarrowControls(SYNC, c, samplerMode) && ControlBitsOf(t) == ControlField(SYNC, c, samplerMode)
    requires ReadsBack(SYNC, c, samplerMode, t)
    ensures AgreesOnSharedBits(SYNC, c, samplerMode)
  {
    hide ControlField, ControlBitsOf, SaturateField, TestField, PreciseField, ResinfoField, UsesTestBoolean;
    SyncField(c, samplerMode, t);
  }
}
