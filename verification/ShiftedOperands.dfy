/** Operands never re-encode to themselves one word early. An encoded operand can be one word longer than what it
    was parsed from (an index cut short by the end of the instruction gets an empty relative operand), which could
    make up for a dropped word before it; the words themselves rule that out. */
module ShiftedOperands {
  import opened Words
  import opened Sm5Model
  import opened OperandToken
  import opened OperandCodec
  import OperandLossless

  /** The token an empty operand is encoded as. */
  const EMPTY_TOKEN: Word := 2

  lemma EmptyEncoding()
    ensures EncodeOperand(EMPTY_OPERAND) == [EMPTY_TOKEN]
  {
    hide RepresentationFields;
    assert EncodeOperandToken0(EMPTY_OPERAND) == EMPTY_TOKEN;
  }

  lemma EmptyTokenFields(o: Operand)
    ensures TypeOf(EMPTY_TOKEN) == TEMP && DimensionOf(EMPTY_TOKEN) == 0 && !IsExtended(EMPTY_TOKEN)
    ensures !IsModifierToken(EMPTY_TOKEN)
    ensures o.ty == TypeOf(EMPTY_TOKEN) && o.numComponents == NumComponentsOf(EMPTY_TOKEN) && o.modifier == 0
            && o.componentMode == ComponentModeOf(EMPTY_TOKEN) && o.entries == [] && o.relative.None?
        ==> EncodeOperandToken0(o) == EMPTY_TOKEN
  {
    hide RepresentationFields;
  }

  // ---------------------------------------------------------------- lengths

  lemma OperandLength(o: Operand)
    requires o.relative.None?
    ensures |EncodeOperand(o)| == 1 + |EncodeModifier(o.modifier)|
            + (if IsImmediateType(o.ty) then |EncodeImmediates(o.entries)| else |EncodeIndices(o.entries)|)
  {
    hide EncodeOperandToken0, EncodeModifier, EncodeImmediates, EncodeIndices;
  }

  /** A modifier that is kept is the only extended token. */
  lemma ModifierLength(words: seq<Word>, end: nat, cursor: nat, token: Word)
    requires cursor <= end <= |words|
    ensures var r := ParseExtension(words, end, cursor, token);
            && |EncodeModifier(r.value)| <= r.cursor - cursor
            && (|EncodeModifier(r.value)| == r.cursor - cursor > 0 ==>
                  r.cursor == cursor + 1 && IsModifierToken(words[cursor]))
  {
    hide IsExtended, IsModifierToken, ModifierOf, ModifierToken;
  }

  lemma {:induction false} ImmediatesAppend(a: seq<Index>, b: seq<Index>)
    ensures EncodeImmediates(a + b) == EncodeImmediates(a) + EncodeImmediates(b)
  {
    hide EncodeOptional;
    if a == [] {
      assert a + b == b;
    } else {
      assert (a + b)[1..] == a[1..] + b;
      ImmediatesAppend(a[1..], b);
    }
  }

  lemma FirstImmediate(index: Index, rest: seq<Index>)
    ensures EncodeImmediates([index] + rest)
        == EncodeOptional(index.lo) + EncodeOptional(index.hi) + EncodeImmediates(rest)
  {
    assert ([index] + rest)[1..] == rest;
  }

  lemma FirstIndex(index: Index, rest: seq<Index>)
    ensures EncodeIndices([index] + rest) == EncodeIndex(index) + EncodeIndices(rest)
  {
    hide EncodeIndex;
    assert ([index] + rest)[1..] == rest;
  }

  /** The payload of an immediate operand is no longer than what it was parsed from. */
  lemma {:induction false} ImmediateLength(words: seq<Word>, total: nat, end: nat, cursor: nat, token: Word, dim: nat)
    requires cursor <= end <= |words| && end <= total && dim <= 3
    ensures var r := ParseIndices(words, total, end, cursor, token, dim);
            |EncodeImmediates(r.value)| <= r.cursor - cursor
    decreases 4 - dim
  {
    hide DimensionOf, RepresentationOf, ParseOperand;
    if dim < DimensionOf(token) && cursor < end {
      var index := ParseIndex(words, total, end, cursor, RepresentationOf(dim, token));
      ImmediateLength(words, total, end, index.cursor, token, dim + 1);
      FirstImmediate(index.value, ParseIndices(words, total, end, index.cursor, token, dim + 1).value);
    }
  }

  /** An encoded operand is at most one word longer than what it was parsed from, and only at the very end. */
  lemma {:induction false} OperandGrowth(words: seq<Word>, total: nat, end: nat, cursor: nat)
    requires cursor <= end <= |words| && end <= total
    ensures var r := ParseOperand(words, total, end, cursor);
            && |EncodeOperand(r.value)| <= r.cursor - cursor + 1
            && (|EncodeOperand(r.value)| == r.cursor - cursor + 1 ==> r.cursor == end)
    decreases end - cursor, 0
  {
    hide TypeOf, NumComponentsOf, ComponentModeOf, DimensionOf, IsExtended, RepresentationOf, EncodeOperandToken0;
    hide EncodeModifier, ParseExtension, ParseIndices, ParseImmediates, EncodeImmediates, EncodeIndices, EncodeOperand;
    if cursor == end {
      EmptyEncoding();
    } else {
      var first, last := OperandParts(words, total, end, cursor);
      IndicesGrowth(words, total, end, first, words[cursor], 0);
    }
  }

  /** The lengths an encoded operand is made of, against those it was parsed from: its indices are at [first, last). */
  lemma OperandParts(words: seq<Word>, total: nat, end: nat, cursor: nat) returns (first: nat, last: nat)
    requires cursor < end <= |words| && end <= total
    ensures var r, t := ParseOperand(words, total, end, cursor), words[cursor];
            && cursor < first <= last <= r.cursor
            && ParseExtension(words, end, cursor + 1, t) == Parsed(r.value.modifier, first)
            && r.value.relative.None? && r.value.ty == TypeOf(t)
            && r.value.numComponents == NumComponentsOf(t) && r.value.componentMode == ComponentModeOf(t)
            && |EncodeModifier(r.value.modifier)| <= first - cursor - 1
            && ParseIndices(words, total, end, first, t, 0).cursor == last
            && (if IsImmediateType(r.value.ty) then
                  && |EncodeOperand(r.value)| == 1 + |EncodeModifier(r.value.modifier)|
                     + |EncodeImmediates(r.value.entries)|
                  && |EncodeImmediates(r.value.entries)| <= r.cursor - first
                else
                  && r.cursor == last && r.value.entries == ParseIndices(words, total, end, first, t, 0).value
                  && |EncodeOperand(r.value)| == 1 + |EncodeModifier(r.value.modifier)|
                     + |EncodeIndices(r.value.entries)|)
  {
    hide TypeOf, NumComponentsOf, ComponentModeOf, DimensionOf, IsExtended, RepresentationOf, EncodeOperandToken0;
    hide EncodeModifier, ParseExtension, ParseIndices, ParseImmediates, EncodeImmediates, EncodeIndices, EncodeOperand;
    var t := words[cursor];
    var extension := ParseExtension(words, end, cursor + 1, t);
    var indices := ParseIndices(words, total, end, extension.cursor, t, 0);
    var count := ImmediateCount(TypeOf(t), NumComponentsOf(t));
    var immediates := ParseImmediates(words, end, indices.cursor, count);
    first, last := extension.cursor, indices.cursor;
    var r := ParseOperand(words, total, end, cursor);
    ModifierLength(words, end, cursor + 1, t);
    OperandLength(r.value);
    if IsImmediateType(TypeOf(t)) {
      ImmediateLength(words, total, end, extension.cursor, t, 0);
      OperandLossless.ImmediatesLength(words, end, indices.cursor, count);
      ImmediatesAppend(indices.value, immediates.value);
    } else {
      NoImmediates(words, end, indices.cursor);
      assert indices.value + [] == indices.value;
    }
  }

  lemma {:induction false} IndicesGrowth(words: seq<Word>, total: nat, end: nat, cursor: nat, token: Word, dim: nat)
    requires cursor <= end <= |words| && end <= total && dim <= 3
    ensures var r := ParseIndices(words, total, end, cursor, token, dim);
            && |EncodeIndices(r.value)| <= r.cursor - cursor + 1
            && (|EncodeIndices(r.value)| == r.cursor - cursor + 1 ==> r.cursor == end)
    decreases end - cursor, 4 - dim
  {
    hide DimensionOf, RepresentationOf, ParseIndex, EncodeIndex;
    if dim < DimensionOf(token) && cursor < end {
      var rep := RepresentationOf(dim, token);
      var index := ParseIndex(words, total, end, cursor, rep);
      var rest := ParseIndices(words, total, end, index.cursor, token, dim + 1);
      IndexGrowth(words, total, end, cursor, rep);
      IndicesGrowth(words, total, end, index.cursor, token, dim + 1);
      FirstIndex(index.value, rest.value);
    }
  }

  lemma {:induction false} IndexGrowth(words: seq<Word>, total: nat, end: nat, cursor: nat, rep: Representation)
    requires cursor < end <= |words| && end <= total && rep != Immediate64PlusRelative
    ensures var r := ParseIndex(words, total, end, cursor, rep);
            && |EncodeIndex(r.value)| <= r.cursor - cursor + 1
            && (|EncodeIndex(r.value)| == r.cursor - cursor + 1 ==> r.cursor == end)
    decreases end - cursor, 1
  {
    hide ParseOperand, EncodeOperand;
    if rep == Relative { OperandGrowth(words, total, end, cursor); }
    if rep == Immediate32PlusRelative { OperandGrowth(words, total, end, cursor + 1); }
  }

  // ---------------------------------------------------------------- one word early

  /** Where an operand is repeated one word early and the word before its indices is the empty token, the operand
      is that token. */
  lemma BeforeIndices(words: seq<Word>, total: nat, end: nat, cursor: nat, first: nat)
    requires 0 < cursor < first <= end <= |words| && end <= total
    requires var r := ParseOperand(words, total, end, cursor);
             && r.value.relative.None? && Occurs(EncodeOperand(r.value), words, cursor - 1)
             && ParseExtension(words, end, cursor + 1, words[cursor]) == Parsed(r.value.modifier, first)
             && |EncodeModifier(r.value.modifier)| == first - cursor - 1
    requires words[first - 1] == EMPTY_TOKEN
    ensures words[cursor - 1] == words[cursor] == EMPTY_TOKEN
  {
    hide TypeOf, NumComponentsOf, ComponentModeOf, DimensionOf, IsExtended, RepresentationOf, EncodeOperandToken0;
    hide EncodeModifier, ParseIndices, ParseImmediates, EncodeImmediates, EncodeIndices, EncodeOperand, Occurs;
    hide ParseExtension, IsModifierToken;
    var o := ParseOperand(words, total, end, cursor).value;
    EmptyTokenFields(o);
    ModifierLength(words, end, cursor + 1, words[cursor]);
    assert first == cursor + 1;
    assert o.modifier == 0 && ImmediateCount(TypeOf(EMPTY_TOKEN), NumComponentsOf(EMPTY_TOKEN)) == 0
      by { NoModifier(o); }
    NoIndices(words, total, end, first, EMPTY_TOKEN);
    NoImmediates(words, end, first);
    TokenFirst(o, words, cursor - 1);
  }

  lemma NoModifier(o: Operand)
    requires |EncodeModifier(o.modifier)| == 0
    ensures o.modifier == 0
  {
  }

  /** An index repeated one word early carries the empty token from its last word to the word before it. */
  lemma {:induction false} IndexShift(words: seq<Word>, total: nat, end: nat, cursor: nat, rep: Representation)
    requires 0 < cursor < end <= |words| && end <= total && rep != Immediate64PlusRelative
    requires var r := ParseIndex(words, total, end, cursor, rep);
             && r.cursor < end && |EncodeIndex(r.value)| == r.cursor - cursor
             && Occurs(EncodeIndex(r.value), words, cursor - 1) && words[r.cursor - 1] == EMPTY_TOKEN
    ensures words[cursor - 1] == EMPTY_TOKEN
    decreases end - cursor, 1
  {
    hide ParseOperand, EncodeOperand, Occurs;
    var encoded := EncodeIndex(ParseIndex(words, total, end, cursor, rep).value);
    if encoded != [] { OccursAt(encoded, words, cursor - 1, 0); }
    match rep
    case Immediate32 =>
    case Immediate64 =>
      if encoded != [] { OccursAt(encoded, words, cursor - 1, 1); }
    case Relative =>
      assert encoded == EncodeOperand(ParseOperand(words, total, end, cursor).value);
      OperandShift(words, total, end, cursor);
    case Immediate32PlusRelative =>
      var sub := EncodeOperand(ParseOperand(words, total, end, cursor + 1).value);
      assert encoded == [words[cursor]] + sub;
      OccursSplit([words[cursor]], sub, words, cursor - 1);
      OperandShift(words, total, end, cursor + 1);
  }

  lemma {:induction false} IndicesShift(words: seq<Word>, total: nat, end: nat, cursor: nat, token: Word, dim: nat)
    requires 0 < cursor <= end <= |words| && end <= total && dim <= 3
    requires var r := ParseIndices(words, total, end, cursor, token, dim);
             && r.cursor < end && |EncodeIndices(r.value)| == r.cursor - cursor
             && Occurs(EncodeIndices(r.value), words, cursor - 1) && words[r.cursor - 1] == EMPTY_TOKEN
    ensures words[cursor - 1] == EMPTY_TOKEN
    decreases end - cursor, 4 - dim
  {
    hide DimensionOf, RepresentationOf, ParseIndex, EncodeIndex, EncodeIndices, Occurs;
    if dim < DimensionOf(token) && cursor < end {
      var rep := RepresentationOf(dim, token);
      var index := ParseIndex(words, total, end, cursor, rep);
      var rest := ParseIndices(words, total, end, index.cursor, token, dim + 1);
      FirstIndex(index.value, rest.value);
      IndexGrowth(words, total, end, cursor, rep);
      IndicesGrowth(words, total, end, index.cursor, token, dim + 1);
      OccursSplit(EncodeIndex(index.value), EncodeIndices(rest.value), words, cursor - 1);
      IndicesShift(words, total, end, index.cursor, token, dim + 1);
      IndexShift(words, total, end, cursor, rep);
    }
  }

  lemma {:induction false} RawShift(words: seq<Word>, end: nat, cursor: nat, count: nat)
    requires 0 < cursor <= end <= |words|
    requires var r := ParseImmediates(words, end, cursor, count);
             Occurs(EncodeImmediates(r.value), words, cursor - 1) && words[r.cursor - 1] == EMPTY_TOKEN
    ensures words[cursor - 1] == EMPTY_TOKEN
    decreases count
  {
    hide Occurs;
    if count != 0 && cursor != end {
      var rest := ParseImmediates(words, end, cursor + 1, count - 1);
      FirstImmediate(ImmediateIndex(words[cursor]), rest.value);
      assert [words[cursor]] + [] + EncodeImmediates(rest.value) == [words[cursor]] + EncodeImmediates(rest.value);
      OccursSplit([words[cursor]], EncodeImmediates(rest.value), words, cursor - 1);
      OccursAt([words[cursor]], words, cursor - 1, 0);
      RawShift(words, end, cursor + 1, count - 1);
    }
  }

  /** The same for indices parsed on an immediate operand, which are written without their relative operands. */
  lemma {:induction false} ImmediateShift(words: seq<Word>, total: nat, end: nat, cursor: nat, token: Word, dim: nat)
    requires 0 < cursor <= end <= |words| && end <= total && dim <= 3
    requires var r := ParseIndices(words, total, end, cursor, token, dim);
             && |EncodeImmediates(r.value)| == r.cursor - cursor
             && Occurs(EncodeImmediates(r.value), words, cursor - 1) && words[r.cursor - 1] == EMPTY_TOKEN
    ensures words[cursor - 1] == EMPTY_TOKEN
    decreases 4 - dim
  {
    hide DimensionOf, RepresentationOf, ParseOperand, EncodeImmediates, Occurs;
    if dim < DimensionOf(token) && cursor < end {
      var index := ParseIndex(words, total, end, cursor, RepresentationOf(dim, token));
      var rest := ParseIndices(words, total, end, index.cursor, token, dim + 1);
      var first := EncodeOptional(index.value.lo) + EncodeOptional(index.value.hi);
      FirstImmediate(index.value, rest.value);
      ImmediateLength(words, total, end, index.cursor, token, dim + 1);
      OccursSplit(first, EncodeImmediates(rest.value), words, cursor - 1);
      ImmediateShift(words, total, end, index.cursor, token, dim + 1);
      forall k | 0 <= k < |first| ensures words[cursor - 1 + k] == first[k] { OccursAt(first, words, cursor - 1, k); }
    }
  }

  lemma ImmediatePayloadShift(words: seq<Word>, total: nat, end: nat, cursor: nat, token: Word, count: nat)
    requires 0 < cursor <= end <= |words| && end <= total
    requires var indices := ParseIndices(words, total, end, cursor, token, 0);
             var r := ParseImmediates(words, end, indices.cursor, count);
             && |EncodeImmediates(indices.value + r.value)| == r.cursor - cursor
             && Occurs(EncodeImmediates(indices.value + r.value), words, cursor - 1)
             && words[r.cursor - 1] == EMPTY_TOKEN
    ensures words[cursor - 1] == EMPTY_TOKEN
  {
    hide DimensionOf, RepresentationOf, ParseIndices, ParseImmediates, EncodeImmediates, Occurs;
    var indices := ParseIndices(words, total, end, cursor, token, 0);
    var r := ParseImmediates(words, end, indices.cursor, count);
    ImmediatesAppend(indices.value, r.value);
    ImmediateLength(words, total, end, cursor, token, 0);
    OperandLossless.ImmediatesLength(words, end, indices.cursor, count);
    OccursSplit(EncodeImmediates(indices.value), EncodeImmediates(r.value), words, cursor - 1);
    RawShift(words, end, indices.cursor, count);
    ImmediateShift(words, total, end, cursor, token, 0);
  }

  lemma {:induction false} OperandShift(words: seq<Word>, total: nat, end: nat, cursor: nat)
    requires 0 < cursor < end <= |words| && end <= total
    requires var r := ParseOperand(words, total, end, cursor);
             && r.cursor < end && |EncodeOperand(r.value)| == r.cursor - cursor
             && Occurs(EncodeOperand(r.value), words, cursor - 1) && words[r.cursor - 1] == EMPTY_TOKEN
    ensures words[cursor - 1] == EMPTY_TOKEN
    decreases end - cursor, 0
  {
    hide TypeOf, NumComponentsOf, ComponentModeOf, DimensionOf, IsExtended, RepresentationOf, EncodeOperandToken0;
    hide EncodeModifier, ParseExtension, ParseIndices, ParseImmediates, EncodeImmediates, EncodeIndices, EncodeOperand;
    hide Occurs;
    var r := ParseOperand(words, total, end, cursor);
    var first, last := OperandParts(words, total, end, cursor);
    var payload := EncodedParts(r.value, words, cursor - 1);
    if IsImmediateType(r.value.ty) {
      ImmediatePayloadShift(words, total, end, first, words[cursor],
                            ImmediateCount(r.value.ty, r.value.numComponents));
    } else {
      IndicesGrowth(words, total, end, first, words[cursor], 0);
      IndicesShift(words, total, end, first, words[cursor], 0);
    }
    BeforeIndices(words, total, end, cursor, first);
  }

  /** Indices that have grown and are repeated one word early carry the empty token to the word before them. */
  lemma {:induction false} IndicesGrownShift(words: seq<Word>, total: nat, end: nat, cursor: nat, token: Word, dim: nat)
    requires 0 < cursor <= end <= |words| && end <= total && dim <= 3
    requires var r := ParseIndices(words, total, end, cursor, token, dim);
             && |EncodeIndices(r.value)| == r.cursor - cursor + 1 && Occurs(EncodeIndices(r.value), words, cursor - 1)
    ensures words[cursor - 1] == EMPTY_TOKEN && dim < DimensionOf(token)
    decreases end - cursor, 4 - dim
  {
    hide DimensionOf, RepresentationOf, ParseIndex, EncodeIndex, Occurs;
    if dim < DimensionOf(token) && cursor < end {
      var rep := RepresentationOf(dim, token);
      var index := ParseIndex(words, total, end, cursor, rep);
      var rest := ParseIndices(words, total, end, index.cursor, token, dim + 1);
      FirstIndex(index.value, rest.value);
      IndexGrowth(words, total, end, cursor, rep);
      IndicesGrowth(words, total, end, index.cursor, token, dim + 1);
      OccursSplit(EncodeIndex(index.value), EncodeIndices(rest.value), words, cursor - 1);
      if |EncodeIndex(index.value)| == index.cursor - cursor + 1 {
        IndexGrownShift(words, total, end, cursor, rep);
      } else {
        IndicesGrownShift(words, total, end, index.cursor, token, dim + 1);
        IndexShift(words, total, end, cursor, rep);
      }
    }
  }

  lemma {:induction false} IndexGrownShift(words: seq<Word>, total: nat, end: nat, cursor: nat, rep: Representation)
    requires 0 < cursor < end <= |words| && end <= total && rep != Immediate64PlusRelative
    requires var r := ParseIndex(words, total, end, cursor, rep);
             && |EncodeIndex(r.value)| == r.cursor - cursor + 1 && Occurs(EncodeIndex(r.value), words, cursor - 1)
    ensures words[cursor - 1] == EMPTY_TOKEN
    decreases end - cursor, 1
  {
    hide ParseOperand, EncodeOperand, Occurs;
    if rep == Relative {
      assert EncodeIndex(ParseIndex(words, total, end, cursor, rep).value)
          == EncodeOperand(ParseOperand(words, total, end, cursor).value);
      GrownNeverShifted(words, total, end, cursor);
    } else if rep == Immediate32PlusRelative {
      var r := ParseOperand(words, total, end, cursor + 1);
      var sub := EncodeOperand(r.value);
      assert EncodeIndex(ParseIndex(words, total, end, cursor, rep).value) == [words[cursor]] + sub;
      OccursSplit([words[cursor]], sub, words, cursor - 1);
      OccursAt([words[cursor]], words, cursor - 1, 0);
      if cursor + 1 < end {
        GrownNeverShifted(words, total, end, cursor + 1);
      } else {
        CutShort(words, total, end);
        OccursAt(sub, words, cursor, 0);
      }
    }
  }

  lemma CutShort(words: seq<Word>, total: nat, end: nat)
    requires end <= |words|
    ensures EncodeOperand(ParseOperand(words, total, end, end).value) == [EMPTY_TOKEN]
  {
    hide EncodeOperand;
    EmptyEncoding();
  }

  /** An operand that has grown is never repeated one word early. */
  lemma {:induction false} GrownNeverShifted(words: seq<Word>, total: nat, end: nat, cursor: nat)
    requires 0 < cursor < end <= |words| && end <= total
    ensures var r := ParseOperand(words, total, end, cursor);
            |EncodeOperand(r.value)| == r.cursor - cursor + 1 ==> !Occurs(EncodeOperand(r.value), words, cursor - 1)
    decreases end - cursor, 0
  {
    hide TypeOf, NumComponentsOf, ComponentModeOf, DimensionOf, IsExtended, RepresentationOf, EncodeOperandToken0;
    hide EncodeModifier, ParseExtension, ParseIndices, ParseImmediates, EncodeImmediates, EncodeIndices, EncodeOperand;
    hide Occurs, IsModifierToken;
    var r := ParseOperand(words, total, end, cursor);
    if |EncodeOperand(r.value)| == r.cursor - cursor + 1 && Occurs(EncodeOperand(r.value), words, cursor - 1) {
      var first, last := OperandParts(words, total, end, cursor);
      var payload := EncodedParts(r.value, words, cursor - 1);
      IndicesGrowth(words, total, end, first, words[cursor], 0);
      IndicesGrownShift(words, total, end, first, words[cursor], 0);
      BeforeIndices(words, total, end, cursor, first);
      EmptyTokenFields(r.value);
      assert false;
    }
  }
}
