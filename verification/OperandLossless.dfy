/** Re-encoding a parsed operand: exactly which token sequences come back word for word. */
module OperandLossless {
  import opened Words
  import opened Sm5Model
  import opened OperandToken
  import opened OperandCodec

  /** Token bits 22-30 that an operand with this many indices leaves clear: the fields of unused
      dimensions, and the third bit of each representation field. */
  function ReservedBits(dims: nat): Word
    requires dims <= 3
  {
    if dims == 0 then 0x7fc0_0000 else if dims == 1 then 0x7f00_0000 else if dims == 2 then 0x7900_0000 else 0x4900_0000
  }

  predicate NoReservedBits(t: Word, dims: nat)
    requires dims <= 3
  {
    t & ReservedBits(dims) == 0
  }

  predicate CanonicalToken(t: Word) {
    && NoReservedBits(t, DimensionOf(t))
    && (IsImmediateType(TypeOf(t)) ==> DimensionOf(t) == 0)
  }

  /** A single extended token holding a non-zero modifier and nothing else. */
  predicate CanonicalModifier(ext: Word) { ext & !0x3fc0 == MODIFIER_TYPE && ext & 0x3fc0 != 0 }

  /** The operands the compiler emits: reserved bits clear, no indices on immediate operands, no extended
      token other than one non-zero modifier, and no index cut short by the end of the instruction. */
  predicate CanonicalOperand(words: seq<Word>, total: nat, end: nat, cursor: nat)
    requires cursor <= end <= |words|
    decreases end - cursor, 0
  {
    && cursor < end && cursor < total
    && var t := words[cursor];
       && CanonicalToken(t)
       && (IsExtended(t) ==> cursor + 1 < end && CanonicalModifier(words[cursor + 1]))
       && var c1 := if IsExtended(t) then cursor + 2 else cursor + 1;
          CanonicalIndices(words, total, end, c1, t, 0)
  }

  predicate CanonicalIndices(words: seq<Word>, total: nat, end: nat, cursor: nat, token: Word, dim: nat)
    requires cursor <= end <= |words| && dim <= 3
    decreases end - cursor, 4 - dim
  {
    dim >= DimensionOf(token)
    || (&& cursor < end
        && CanonicalIndex(words, total, end, cursor, RepresentationOf(dim, token))
        && CanonicalIndices(words, total, end,
                            ParseIndex(words, total, end, cursor, RepresentationOf(dim, token)).cursor, token, dim + 1))
  }

  predicate CanonicalIndex(words: seq<Word>, total: nat, end: nat, cursor: nat, representation: Representation)
    requires cursor < end <= |words|
    decreases end - cursor, 1
  {
    match representation
    case Immediate32 => true
    case Immediate64 => cursor + 1 < end
    case Relative => CanonicalOperand(words, total, end, cursor)
    case Immediate32PlusRelative => CanonicalOperand(words, total, end, cursor + 1)
    case Immediate64PlusRelative => false
  }

  // ---------------------------------------------------------------- tokens

  lemma RebuiltToken(t: Word, reps: Word)
    requires reps & !0x36c0_0000 == 0
    ensures Token(NumComponentsOf(t), ComponentModeOf(t), TypeOf(t), DimensionOf(t), reps, IsExtended(t)) == t
       <==> t & 0x7fc0_0000 == reps
  {
    hide DimensionOf, DimensionField, TypeOf, TypeField, NumComponentsOf, NumComponentsField, IsExtended, ExtendedField;
    hide Compose;
    FieldsOfToken(t);
    ComposedExactly(t, reps);
  }

  lemma FieldsOfToken(t: Word)
    ensures NumComponentsField(NumComponentsOf(t)) == t & 3
    ensures ComponentModeField(ComponentModeOf(t)) == t & COMPONENT_MODE_BITS
    ensures TypeField(TypeOf(t)) == t & 0x000f_f000
    ensures DimensionField(DimensionOf(t)) == t & 0x0030_0000
    ensures ExtendedField(IsExtended(t)) == t & EXTENDED_BIT
  {
  }

  lemma ComposedExactly(t: Word, reps: Word)
    requires reps & !0x36c0_0000 == 0
    ensures Compose(t & 3, t & COMPONENT_MODE_BITS, t & 0x000f_f000, t & 0x0030_0000, reps, t & EXTENDED_BIT) == t
       <==> t & 0x7fc0_0000 == reps
  {
  }

  /** The representation bits of the first `dims` dimensions. */
  function UsedBits(dims: nat): Word
    requires dims <= 3
  {
    if dims == 0 then 0 else if dims == 1 then 0x00c0_0000 else if dims == 2 then 0x06c0_0000 else 0x36c0_0000
  }

  lemma RepresentationFieldOf(dim: nat, t: Word)
    requires dim < 3
    ensures RepresentationField(dim, RepresentationOf(dim, t))
         == t & (if dim == 0 then 0x00c0_0000 else if dim == 1 then 0x0600_0000 else 0x3000_0000)
  {
  }

  lemma UsedStep(t: Word, dim: nat)
    requires dim < 3
    ensures (t & UsedBits(dim))
            | (t & (if dim == 0 then 0x00c0_0000 else if dim == 1 then 0x0600_0000 else 0x3000_0000))
         == t & UsedBits(dim + 1)
  {
  }

  lemma {:induction false} RepresentationFieldsOf(entries: seq<Index>, k: nat, t: Word)
    requires k <= |entries| && k <= 3
    requires forall i :: 0 <= i < k ==> entries[i].representation == RepresentationOf(i, t)
    ensures RepresentationFields(entries, k) == t & UsedBits(k)
  {
    hide RepresentationField, RepresentationOf, UsedBits;
    if k == 0 {
      NoneUsed(t);
    } else {
      RepresentationFieldsOf(entries, k - 1, t);
      assert entries[k - 1].representation == RepresentationOf(k - 1, t);
      RepresentationFieldOf(k - 1, t);
      UsedStep(t, k - 1);
    }
  }

  lemma NoneUsed(t: Word)
    ensures t & UsedBits(0) == 0
  {
  }

  lemma ReservedClear(t: Word, dims: nat)
    requires dims <= 3
    ensures t & 0x7fc0_0000 == t & UsedBits(dims) <==> t & ReservedBits(dims) == 0
    ensures (t & UsedBits(dims)) & !0x36c0_0000 == 0
  {
  }

  /** The representation fields `dims` dimensions take up in a token. */
  function UsedPart(t: Word, dims: nat): Word
    requires dims <= 3
  {
    t & UsedBits(dims)
  }

  lemma EntriesUsed(entries: seq<Index>, t: Word)
    requires |entries| <= 3 && forall i :: 0 <= i < |entries| ==> RepresentationOf(i, t) == entries[i].representation
    ensures RepresentationFields(entries, |entries|) == UsedPart(t, |entries|)
  {
    hide RepresentationOf, RepresentationFields, UsedBits;
    RepresentationFieldsOf(entries, |entries|, t);
  }

  lemma NothingUsed(entries: seq<Index>, t: Word)
    ensures RepresentationFields(entries, 0) == UsedPart(t, 0) && UsedPart(t, 0) == 0
  {
    hide UsedBits;
    NoneUsed(t);
  }

  lemma UsedRepresentations(o: Operand, t: Word)
    requires o.relative.None?
    requires !IsImmediateType(o.ty) ==>
               |o.entries| <= 3
               && forall i :: 0 <= i < |o.entries| ==> RepresentationOf(i, t) == o.entries[i].representation
    ensures Representations(o) == UsedPart(t, IndexDims(o))
  {
    hide RepresentationOf, RepresentationFields, UsedPart;
    NothingUsed(o.entries, t);
    if !IsImmediateType(o.ty) { EntriesUsed(o.entries, t); }
  }

  lemma ModifierRebuilt(ext: Word)
    ensures CanonicalModifier(ext) ==> IsModifierToken(ext) && !IsExtended(ext) && ModifierOf(ext) != 0
                                       && ModifierToken(ModifierOf(ext)) == ext
    ensures forall m: Byte :: m != 0 && ModifierToken(m) == ext ==> CanonicalModifier(ext)
  {
  }

  // ---------------------------------------------------------------- canonical operands come back

  lemma CanonicalExtension(words: seq<Word>, end: nat, cursor: nat, t: Word)
    requires cursor <= end <= |words|
    requires IsExtended(t) ==> cursor < end && CanonicalModifier(words[cursor])
    ensures var r := ParseExtension(words, end, cursor, t);
            && r.cursor == (if IsExtended(t) then cursor + 1 else cursor)
            && (r.value != 0 <==> IsExtended(t))
            && EncodeModifier(r.value) == words[cursor..r.cursor]
  {
    hide IsModifierToken, ModifierOf, ModifierToken, IsExtended, CanonicalModifier;
    if IsExtended(t) { ModifierRebuilt(words[cursor]); }
  }

  lemma {:induction false} ImmediatesReencoded(words: seq<Word>, end: nat, cursor: nat, count: nat)
    requires cursor <= end <= |words|
    ensures var r := ParseImmediates(words, end, cursor, count); EncodeImmediates(r.value) == words[cursor..r.cursor]
    decreases count
  {
    if count != 0 && cursor != end {
      ImmediatesReencoded(words, end, cursor + 1, count - 1);
      var rest := ParseImmediates(words, end, cursor + 1, count - 1);
      assert ([ImmediateIndex(words[cursor])] + rest.value)[1..] == rest.value;
      assert words[cursor..rest.cursor] == [words[cursor]] + words[cursor + 1..rest.cursor];
    }
  }

  lemma CanonicalTokenParts(t: Word)
    requires CanonicalToken(t)
    ensures Token(NumComponentsOf(t), ComponentModeOf(t), TypeOf(t), DimensionOf(t), UsedPart(t, DimensionOf(t)),
                  IsExtended(t))
         == t
    ensures IsImmediateType(TypeOf(t)) ==> DimensionOf(t) == 0
  {
    hide TypeOf, NumComponentsOf, ComponentModeOf, DimensionOf, IsExtended, Token, UsedBits, ReservedBits;
    ReservedClear(t, DimensionOf(t));
    RebuiltToken(t, UsedPart(t, DimensionOf(t)));
  }

  /** What a canonical token says about the operand parsed from it. */
  lemma CanonicalRebuilt(o: Operand, t: Word)
    requires o.ty == TypeOf(t) && o.numComponents == NumComponentsOf(t) && o.componentMode == ComponentModeOf(t)
    requires o.modifier != 0 <==> IsExtended(t)
    requires o.relative.None? && CanonicalToken(t)
    requires !IsImmediateType(o.ty) ==> |o.entries| == DimensionOf(t)
    requires !IsImmediateType(o.ty) ==>
               forall i :: 0 <= i < |o.entries| ==> o.entries[i].representation == RepresentationOf(i, t)
    ensures EncodeOperandToken0(o) == t
  {
    hide TypeOf, NumComponentsOf, ComponentModeOf, DimensionOf, IsExtended, RepresentationOf, Token, ReservedBits;
    hide UsedPart, Representations, CanonicalToken;
    CanonicalTokenParts(t);
    UsedRepresentations(o, t);
  }

  lemma {:induction false} OperandReencoded(words: seq<Word>, total: nat, end: nat, cursor: nat)
    requires cursor <= end <= |words| && CanonicalOperand(words, total, end, cursor)
    ensures var r := ParseOperand(words, total, end, cursor); EncodeOperand(r.value) == words[cursor..r.cursor]
    decreases end - cursor, 0
  {
    hide TypeOf, NumComponentsOf, ComponentModeOf, DimensionOf, IsExtended, RepresentationOf, EncodeOperandToken0;
    hide CanonicalModifier, EncodeModifier, CanonicalIndices, ParseIndices, ParseImmediates, ParseExtension;
    hide EncodeImmediates, EncodeIndices;
    var t := words[cursor];
    CanonicalExtension(words, end, cursor + 1, t);
    var ext := ParseExtension(words, end, cursor + 1, t);
    var indices := ParseIndices(words, total, end, ext.cursor, t, 0);
    var count := ImmediateCount(TypeOf(t), NumComponentsOf(t));
    var immediates := ParseImmediates(words, end, indices.cursor, count);
    var o := ParseOperand(words, total, end, cursor).value;
    ImmediatesReencoded(words, end, indices.cursor, count);
    IndicesReencoded(words, total, end, ext.cursor, t, 0);
    if IsImmediateType(TypeOf(t)) {
      NoIndices(words, total, end, ext.cursor, t);
      assert o.entries == immediates.value;
    } else {
      NoImmediates(words, end, indices.cursor);
      assert o.entries == indices.value;
      forall i | 0 <= i < |o.entries| ensures o.entries[i].representation == RepresentationOf(i, t) {
        assert o.entries[i].representation == RepresentationOf(0 + i, t);
      }
    }
    CanonicalRebuilt(o, t);
    Concatenated(words, cursor, ext.cursor, immediates.cursor, t);
  }

  lemma Concatenated(words: seq<Word>, a: nat, b: nat, c: nat, t: Word)
    requires a < b <= c <= |words| && t == words[a]
    ensures [t] + words[a + 1..b] + words[b..c] + [] == words[a..c]
  {
  }

  lemma {:induction false} IndicesReencoded(words: seq<Word>, total: nat, end: nat, cursor: nat, token: Word, dim: nat)
    requires cursor <= end <= |words| && dim <= DimensionOf(token)
    requires CanonicalIndices(words, total, end, cursor, token, dim)
    ensures var r := ParseIndices(words, total, end, cursor, token, dim);
            && dim + |r.value| == DimensionOf(token)
            && (forall i :: 0 <= i < |r.value| ==> r.value[i].representation == RepresentationOf(dim + i, token))
            && EncodeIndices(r.value) == words[cursor..r.cursor]
    decreases end - cursor, 4 - dim
  {
    hide DimensionOf, RepresentationOf, CanonicalIndex, ParseIndex, EncodeIndex;
    if dim < DimensionOf(token) {
      var rep := RepresentationOf(dim, token);
      var index := ParseIndex(words, total, end, cursor, rep);
      IndexReencoded(words, total, end, cursor, rep);
      IndicesReencoded(words, total, end, index.cursor, token, dim + 1);
      var rest := ParseIndices(words, total, end, index.cursor, token, dim + 1);
      var all := [index.value] + rest.value;
      assert all[1..] == rest.value;
      assert words[cursor..index.cursor] + words[index.cursor..rest.cursor] == words[cursor..rest.cursor];
      forall i | 0 <= i < |all| ensures all[i].representation == RepresentationOf(dim + i, token) {
        if i > 0 { assert rest.value[i - 1].representation == RepresentationOf(dim + 1 + (i - 1), token); }
      }
    }
  }

  lemma {:induction false} IndexReencoded(words: seq<Word>, total: nat, end: nat, cursor: nat, rep: Representation)
    requires cursor < end <= |words| && CanonicalIndex(words, total, end, cursor, rep)
    ensures var r := ParseIndex(words, total, end, cursor, rep);
            r.value.representation == rep && EncodeIndex(r.value) == words[cursor..r.cursor]
    decreases end - cursor, 1
  {
    hide CanonicalOperand, ParseOperand, EncodeOperand;
    match rep
    case Immediate32 =>
    case Immediate64 =>
    case Relative =>
      OperandReencoded(words, total, end, cursor);
    case Immediate32PlusRelative =>
      OperandReencoded(words, total, end, cursor + 1);
      var sub := ParseOperand(words, total, end, cursor + 1);
      assert words[cursor..sub.cursor] == [words[cursor]] + words[cursor + 1..sub.cursor];
  }

  // ---------------------------------------------------------------- and nothing else does

  lemma {:induction false} ImmediatesLength(words: seq<Word>, end: nat, cursor: nat, count: nat)
    requires cursor <= end <= |words|
    ensures var r := ParseImmediates(words, end, cursor, count); r.cursor == cursor + |EncodeImmediates(r.value)|
    decreases count
  {
    if count != 0 && cursor != end {
      ImmediatesLength(words, end, cursor + 1, count - 1);
      var rest := ParseImmediates(words, end, cursor + 1, count - 1);
      assert ([ImmediateIndex(words[cursor])] + rest.value)[1..] == rest.value;
    }
  }

  lemma {:induction false} ParsedRepresentations(words: seq<Word>, total: nat, end: nat, cursor: nat, token: Word,
                                                 dim: nat)
    requires cursor <= end <= |words| && dim <= 3
    ensures forall i :: 0 <= i < |ParseIndices(words, total, end, cursor, token, dim).value|
              ==> ParseIndices(words, total, end, cursor, token, dim).value[i].representation != Immediate64PlusRelative
    decreases 4 - dim
  {
    hide DimensionOf, RepresentationOf, ParseOperand;
    if dim < DimensionOf(token) && cursor < end {
      var index := ParseIndex(words, total, end, cursor, RepresentationOf(dim, token));
      ParsedRepresentations(words, total, end, index.cursor, token, dim + 1);
    }
  }

  /** A re-encoded token equal to the original announces the representations parsed from it. */
  lemma RebuiltAnnounces(o: Operand, t: Word)
    requires EncodeOperandToken0(o) == t && |o.entries| <= 3 && !IsImmediateType(o.ty)
    requires forall i :: 0 <= i < |o.entries| ==> o.entries[i].representation != Immediate64PlusRelative
    ensures forall i :: 0 <= i < |o.entries| ==> RepresentationOf(i, t) == o.entries[i].representation
  {
    hide RepresentationOf, EncodeOperandToken0;
    forall i | 0 <= i < |o.entries| ensures RepresentationOf(i, t) == o.entries[i].representation {
      EncodedRepresentations(o, i);
    }
  }

  /** If the re-encoded token equals the original, the original was canonical. */
  lemma RebuiltCanonical(o: Operand, t: Word)
    requires o.ty == TypeOf(t) && o.numComponents == NumComponentsOf(t) && o.componentMode == ComponentModeOf(t)
    requires o.relative.None? && EncodeOperandToken0(o) == t
    requires !IsImmediateType(o.ty) ==>
               |o.entries| <= 3
               && forall i :: 0 <= i < |o.entries| ==> o.entries[i].representation != Immediate64PlusRelative
    ensures CanonicalToken(t) && IsExtended(t) == (o.modifier != 0)
    ensures !IsImmediateType(o.ty) ==>
              && DimensionOf(t) == |o.entries|
              && forall i :: 0 <= i < |o.entries| ==> RepresentationOf(i, t) == o.entries[i].representation
  {
    hide TypeOf, NumComponentsOf, ComponentModeOf, DimensionOf, IsExtended, RepresentationOf, ReservedBits;
    hide RepresentationFields, UsedBits, EncodeOperandToken0, Representations;
    EncodedToken(o);
    if !IsImmediateType(o.ty) { RebuiltAnnounces(o, t); }
    UsedRepresentations(o, t);
    TokenAsEncoded(o, t);
    ReservedClear(t, IndexDims(o));
  }

  lemma TokenAsEncoded(o: Operand, t: Word)
    requires o.ty == TypeOf(t) && o.numComponents == NumComponentsOf(t) && o.componentMode == ComponentModeOf(t)
    requires EncodeOperandToken0(o) == t && IndexDims(o) == DimensionOf(t) && IsExtended(t) == (o.modifier != 0)
    ensures t & 0x7fc0_0000 == Representations(o)
  {
    hide TypeOf, NumComponentsOf, ComponentModeOf, DimensionOf, IsExtended, Token, Representations;
    RepresentationsMasked(o);
    RebuiltToken(t, Representations(o));
  }

  lemma EncodedExtension(modifier: Byte, words: seq<Word>, end: nat, cursor: nat, t: Word)
    requires IsExtended(t) == (modifier != 0)
    requires Occurs(EncodeModifier(modifier), words, cursor) && cursor + |EncodeModifier(modifier)| <= end <= |words|
    ensures IsExtended(t) ==> cursor < end && CanonicalModifier(words[cursor])
    ensures |EncodeModifier(modifier)| == if IsExtended(t) then 1 else 0
  {
    hide IsExtended, CanonicalModifier, ModifierToken;
    if modifier != 0 {
      OccursAt(EncodeModifier(modifier), words, cursor, 0);
      ModifierRebuilt(words[cursor]);
    }
  }

  lemma {:induction false} OnlyCanonical(words: seq<Word>, total: nat, end: nat, cursor: nat)
    requires cursor <= end <= |words| && end <= total
    requires Occurs(EncodeOperand(ParseOperand(words, total, end, cursor).value), words, cursor)
    requires cursor + |EncodeOperand(ParseOperand(words, total, end, cursor).value)| <= end
    ensures CanonicalOperand(words, total, end, cursor)
    ensures var r := ParseOperand(words, total, end, cursor); r.cursor == cursor + |EncodeOperand(r.value)|
    decreases end - cursor, 0
  {
    hide TypeOf, NumComponentsOf, ComponentModeOf, DimensionOf, IsExtended, RepresentationOf, EncodeOperandToken0;
    hide CanonicalModifier, EncodeModifier, CanonicalIndices, ParseIndices, ParseImmediates, ParseExtension, Occurs;
    hide EncodeImmediates, EncodeIndices, CanonicalToken, EncodeOperand;
    var t := words[cursor];
    var ext := ParseExtension(words, end, cursor + 1, t);
    var indices := ParseIndices(words, total, end, ext.cursor, t, 0);
    var count := ImmediateCount(TypeOf(t), NumComponentsOf(t));
    var immediates := ParseImmediates(words, end, indices.cursor, count);
    var o := ParseOperand(words, total, end, cursor).value;
    assert o.relative.None? && o.entries == indices.value + immediates.value;
    var payload := EncodedParts(o, words, cursor);
    TokenCount(words, total, end, ext.cursor, t, indices, immediates, count);
    if !IsImmediateType(TypeOf(t)) {
      NoImmediates(words, end, indices.cursor);
      assert o.entries == indices.value;
    }
    RebuiltCanonical(o, t);
    EncodedExtension(o.modifier, words, end, cursor + 1, t);
    CanonicalExtension(words, end, cursor + 1, t);
    if IsImmediateType(TypeOf(t)) {
      ImmediateHasNoDims(t);
      NoIndices(words, total, end, ext.cursor, t);
      assert o.entries == immediates.value;
      ImmediatesLength(words, end, ext.cursor, count);
      NoCanonicalIndices(words, total, end, ext.cursor, t);
    } else {
      forall i | 0 <= i < |indices.value|
        ensures indices.value[i].representation == RepresentationOf(0 + i, t)
      {
        assert o.entries[i].representation == RepresentationOf(i, t);
      }
      IndicesOnlyCanonical(words, total, end, ext.cursor, t, 0);
    }
  }

  lemma TokenCount(words: seq<Word>, total: nat, end: nat, cursor: nat, t: Word, indices: Parsed<seq<Index>>,
                   immediates: Parsed<seq<Index>>, count: nat)
    requires cursor <= end <= |words| && indices == ParseIndices(words, total, end, cursor, t, 0)
    ensures |indices.value| <= 3
    ensures forall i :: 0 <= i < |indices.value| ==> indices.value[i].representation != Immediate64PlusRelative
  {
    hide ParseIndices, DimensionOf;
    ParsedIndicesCount(words, total, end, cursor, t, 0);
    ParsedRepresentations(words, total, end, cursor, t, 0);
  }

  lemma ImmediateHasNoDims(t: Word)
    requires CanonicalToken(t) && IsImmediateType(TypeOf(t))
    ensures DimensionOf(t) == 0
  {
    hide DimensionOf, TypeOf;
  }

  lemma NoCanonicalIndices(words: seq<Word>, total: nat, end: nat, cursor: nat, t: Word)
    requires cursor <= end <= |words| && DimensionOf(t) == 0
    ensures CanonicalIndices(words, total, end, cursor, t, 0)
  {
  }

  lemma {:induction false} IndicesOnlyCanonical(words: seq<Word>, total: nat, end: nat, cursor: nat, token: Word,
                                                dim: nat)
    requires cursor <= end <= |words| && end <= total && dim <= 3
    requires dim + |ParseIndices(words, total, end, cursor, token, dim).value| == DimensionOf(token)
    requires forall i :: 0 <= i < |ParseIndices(words, total, end, cursor, token, dim).value| ==>
               ParseIndices(words, total, end, cursor, token, dim).value[i].representation
               == RepresentationOf(dim + i, token)
    requires Occurs(EncodeIndices(ParseIndices(words, total, end, cursor, token, dim).value), words, cursor)
    requires cursor + |EncodeIndices(ParseIndices(words, total, end, cursor, token, dim).value)| <= end
    ensures CanonicalIndices(words, total, end, cursor, token, dim)
    ensures var r := ParseIndices(words, total, end, cursor, token, dim); r.cursor == cursor + |EncodeIndices(r.value)|
    decreases end - cursor, 4 - dim
  {
    hide DimensionOf, RepresentationOf, CanonicalIndex, ParseIndex, EncodeIndex, Occurs;
    if dim < DimensionOf(token) {
      var rep := RepresentationOf(dim, token);
      var index := ParseIndex(words, total, end, cursor, rep);
      var rest := ParseIndices(words, total, end, index.cursor, token, dim + 1);
      var all := ParseIndices(words, total, end, cursor, token, dim).value;
      assert all == [index.value] + rest.value && all[1..] == rest.value;
      OccursSplit(EncodeIndex(index.value), EncodeIndices(rest.value), words, cursor);
      assert all[0].representation == RepresentationOf(dim + 0, token);
      IndexOnlyCanonical(words, total, end, cursor, rep);
      forall i | 0 <= i < |rest.value| ensures rest.value[i].representation == RepresentationOf(dim + 1 + i, token) {
        assert all[i + 1].representation == RepresentationOf(dim + (i + 1), token);
      }
      IndicesOnlyCanonical(words, total, end, index.cursor, token, dim + 1);
    }
  }

  lemma {:induction false} IndexOnlyCanonical(words: seq<Word>, total: nat, end: nat, cursor: nat, rep: Representation)
    requires cursor < end <= |words| && end <= total && rep != Immediate64PlusRelative
    requires ParseIndex(words, total, end, cursor, rep).value.representation == rep
    requires Occurs(EncodeIndex(ParseIndex(words, total, end, cursor, rep).value), words, cursor)
    requires cursor + |EncodeIndex(ParseIndex(words, total, end, cursor, rep).value)| <= end
    ensures CanonicalIndex(words, total, end, cursor, rep)
    ensures var r := ParseIndex(words, total, end, cursor, rep); r.cursor == cursor + |EncodeIndex(r.value)|
    decreases end - cursor, 1
  {
    hide CanonicalOperand, ParseOperand, EncodeOperand, Occurs;
    match rep
    case Immediate32 =>
    case Immediate64 =>
    case Relative =>
      var sub := ParseOperand(words, total, end, cursor);
      assert EncodeIndex(ParseIndex(words, total, end, cursor, rep).value) == EncodeOperand(sub.value);
      OnlyCanonical(words, total, end, cursor);
    case Immediate32PlusRelative =>
      var sub := ParseOperand(words, total, end, cursor + 1);
      assert EncodeIndex(ParseIndex(words, total, end, cursor, rep).value)
        == [words[cursor]] + EncodeOperand(sub.value);
      OccursSplit([words[cursor]], EncodeOperand(sub.value), words, cursor);
      OnlyCanonical(words, total, end, cursor + 1);
  }

  /** Main result, the converse of OperandCodec.OperandRoundTrip: re-encoding a parsed operand gives
      back exactly the words it was parsed from if and only if those words are canonical. */
  lemma ReencodesExactly(words: seq<Word>, total: nat, end: nat, cursor: nat)
    requires cursor < end <= |words| && end <= total
    ensures var r := ParseOperand(words, total, end, cursor);
            EncodeOperand(r.value) == words[cursor..r.cursor] <==> CanonicalOperand(words, total, end, cursor)
  {
    hide CanonicalOperand, ParseOperand, EncodeOperand;
    var r := ParseOperand(words, total, end, cursor);
    if CanonicalOperand(words, total, end, cursor) {
      OperandReencoded(words, total, end, cursor);
    }
    if EncodeOperand(r.value) == words[cursor..r.cursor] {
      OnlyCanonical(words, total, end, cursor);
    }
  }
}
