/** Operands at the very end of their instruction, and exactly which operands come back. There, an Immediate32
    operand may hold fewer entries than its component count says: nothing follows that could be read for them. */
module OperandAtEnd {
  import opened Words
  import opened Sm5Model
  import opened OperandToken
  import opened OperandCodec
  import opened ShiftedOperands

  /** The operands that come back when nothing follows them. */
  predicate WellFormedAtEnd(o: Operand)
    decreases o
  {
    && o.numComponents < 4
    && o.componentMode & !COMPONENT_MODE_BITS == 0
    && o.relative.None?
    && (if IsImmediateType(o.ty) then
          && |o.entries| <= ImmediateCount(o.ty, o.numComponents)
          && (forall i :: 0 <= i < |o.entries| ==> IsImmediateEntry(o.entries[i]))
        else
          |o.entries| <= 3 && WellFormedIndicesAtEnd(o.entries))
  }

  /** Only the last index is at the end. */
  predicate WellFormedIndicesAtEnd(entries: seq<Index>)
    decreases entries
  {
    entries == []
    || (if |entries| == 1 then WellFormedIndexAtEnd(entries[0])
        else WellFormedIndex(entries[0]) && WellFormedIndicesAtEnd(entries[1..]))
  }

  predicate WellFormedIndexAtEnd(index: Index)
    decreases index
  {
    match index.representation
    case Relative => index.lo.None? && index.hi.None? && WellFormedRelativeAtEnd(index.relative)
    case Immediate32PlusRelative => index.lo.Some? && index.hi.None? && WellFormedRelativeAtEnd(index.relative)
    case _ => WellFormedIndex(index)
  }

  predicate WellFormedRelativeAtEnd(relative: Option<Operand>)
    decreases relative
  {
    match relative
    case None => false
    case Some(o) => WellFormedAtEnd(o)
  }

  // ---------------------------------------------------------------- they come back

  lemma FieldsAtEnd(o: Operand)
    requires WellFormedAtEnd(o)
    ensures o.numComponents & 3 == o.numComponents && o.componentMode & COMPONENT_MODE_BITS == o.componentMode
  {
  }

  lemma {:induction false} CodesAtEnd(entries: seq<Index>, dim: nat)
    requires WellFormedIndicesAtEnd(entries) && dim < |entries|
    ensures entries[dim].representation != Immediate64PlusRelative
  {
    if dim > 0 { CodesAtEnd(entries[1..], dim - 1); }
  }

  lemma RepresentationsAtEnd(o: Operand)
    requires WellFormedAtEnd(o) && !IsImmediateType(o.ty)
    ensures forall i :: 0 <= i < |o.entries|
              ==> RepresentationOf(0 + i, EncodeOperandToken0(o)) == o.entries[i].representation
  {
    hide EncodeOperandToken0, RepresentationOf;
    forall i | 0 <= i < |o.entries|
      ensures RepresentationOf(i, EncodeOperandToken0(o)) == o.entries[i].representation
    {
      CodesAtEnd(o.entries, i);
      EncodedRepresentations(o, i);
    }
  }

  /** Immediates are read until the count or the end is reached. */
  lemma {:induction false} ImmediatesAtEnd(entries: seq<Index>, words: seq<Word>, end: nat, cursor: nat, count: nat)
    requires forall i :: 0 <= i < |entries| ==> IsImmediateEntry(entries[i])
    requires |entries| <= count && Occurs(EncodeImmediates(entries), words, cursor)
    requires cursor + |EncodeImmediates(entries)| == end <= |words|
    ensures var r := ParseImmediates(words, end, cursor, count); r.cursor == end && SameIndices(entries, r.value)
  {
    if entries != [] {
      var first := EncodeOptional(entries[0].lo);
      assert EncodeImmediates(entries) == first + EncodeImmediates(entries[1..]);
      OccursSplit(first, EncodeImmediates(entries[1..]), words, cursor);
      OccursAt(first, words, cursor, 0);
      ImmediatesAtEnd(entries[1..], words, end, cursor + 1, count - 1);
      var rest := ParseImmediates(words, end, cursor + 1, count - 1);
      assert ([ImmediateIndex(words[cursor])] + rest.value)[1..] == rest.value;
    }
  }

  /** Main result: an operand that ends its instruction comes back when it is well formed there. */
  lemma {:induction false} OperandAtEndRoundTrip(o: Operand, words: seq<Word>, total: nat, end: nat, cursor: nat)
    requires WellFormedAtEnd(o) && Occurs(EncodeOperand(o), words, cursor)
    requires cursor + |EncodeOperand(o)| == end <= |words| && end <= total
    ensures var r := ParseOperand(words, total, end, cursor); r.cursor == end && SameOperand(o, r.value)
    decreases o
  {
    hide TypeOf, NumComponentsOf, ComponentModeOf, DimensionOf, IsExtended, RepresentationOf, EncodeOperandToken0;
    hide Occurs, ParseExtension, ParseImmediates, ParseIndices, EncodeImmediates, EncodeIndices, WellFormedIndicesAtEnd;
    hide IsImmediateEntry, EncodeModifier, SameIndices, EncodeOperand;
    var token := EncodeOperandToken0(o);
    var payload := EncodedParts(o, words, cursor);
    OperandCodec.EncodedToken(o);
    FieldsAtEnd(o);
    ExtensionRoundTrip(o.modifier, token, words, end, cursor + 1);
    var c1 := cursor + 1 + |EncodeModifier(o.modifier)|;
    if IsImmediateType(o.ty) {
      var count := ImmediateCount(o.ty, o.numComponents);
      ImmediatesAtEnd(o.entries, words, end, c1, count);
      var immediates := ParseImmediates(words, end, c1, count);
      NoIndices(words, total, end, c1, token);
      assert [] + immediates.value == immediates.value;
    } else {
      RepresentationsAtEnd(o);
      IndicesAtEndRoundTrip(o.entries, words, total, end, c1, token, 0);
      var indices := ParseIndices(words, total, end, c1, token, 0);
      NoImmediates(words, end, indices.cursor);
      assert indices.value + [] == indices.value;
    }
  }

  lemma {:induction false} IndicesAtEndRoundTrip(entries: seq<Index>, words: seq<Word>, total: nat, end: nat,
                                                 cursor: nat, token: Word, dim: nat)
    requires WellFormedIndicesAtEnd(entries) && Occurs(EncodeIndices(entries), words, cursor)
    requires cursor + |EncodeIndices(entries)| == end <= |words| && end <= total
    requires dim + |entries| == DimensionOf(token) <= 3
    requires forall i :: 0 <= i < |entries| ==> RepresentationOf(dim + i, token) == entries[i].representation
    ensures var r := ParseIndices(words, total, end, cursor, token, dim);
            r.cursor == end && SameIndices(entries, r.value)
    decreases entries
  {
    hide DimensionOf, RepresentationOf, Occurs, EncodeIndex, ParseIndex, SameIndex, WellFormedIndex,
         WellFormedIndexAtEnd;
    if entries != [] {
      var first := EncodeIndex(entries[0]);
      OccursSplit(first, EncodeIndices(entries[1..]), words, cursor);
      if |entries| == 1 {
        IndexAtEndRoundTrip(entries[0], words, total, end, cursor);
      } else {
        IndexRoundTrip(entries[0], words, total, end, cursor);
      }
      assert RepresentationOf(dim + 0, token) == entries[0].representation;
      forall i | 0 <= i < |entries[1..]|
        ensures RepresentationOf(dim + 1 + i, token) == entries[1..][i].representation
      {
        assert RepresentationOf(dim + (i + 1), token) == entries[i + 1].representation;
      }
      IndicesAtEndRoundTrip(entries[1..], words, total, end, cursor + |first|, token, dim + 1);
      var rest := ParseIndices(words, total, end, cursor + |first|, token, dim + 1);
      var index := ParseIndex(words, total, end, cursor, entries[0].representation);
      assert ([index.value] + rest.value)[1..] == rest.value;
    }
  }

  lemma {:induction false} IndexAtEndRoundTrip(index: Index, words: seq<Word>, total: nat, end: nat, cursor: nat)
    requires WellFormedIndexAtEnd(index) && Occurs(EncodeIndex(index), words, cursor)
    requires cursor + |EncodeIndex(index)| == end <= |words| && end <= total
    ensures cursor < end
    ensures var r := ParseIndex(words, total, end, cursor, index.representation);
            r.cursor == end && SameIndex(index, r.value)
    decreases index
  {
    hide EncodeOperand, ParseOperand, SameOperand, WellFormedAtEnd;
    var lo, rel := EncodeOptional(index.lo), EncodeRelative(index.relative);
    if index.representation == Relative {
      assert EncodeIndex(index) == rel;
      OperandAtEndRoundTrip(index.relative.value, words, total, end, cursor);
    } else if index.representation == Immediate32PlusRelative {
      assert EncodeIndex(index) == lo + rel;
      OccursSplit(lo, rel, words, cursor);
      OccursAt(lo, words, cursor, 0);
      OperandAtEndRoundTrip(index.relative.value, words, total, end, cursor + 1);
    } else {
      IndexRoundTrip(index, words, total, end, cursor);
    }
  }

  // ---------------------------------------------------------------- and no other

  lemma {:induction false} OnlyAtEnd(o: Operand, words: seq<Word>, total: nat, end: nat, cursor: nat)
    requires Occurs(EncodeOperand(o), words, cursor)
    requires cursor + |EncodeOperand(o)| == end <= |words| && end <= total
    requires SameOperand(o, ParseOperand(words, total, end, cursor).value)
    ensures WellFormedAtEnd(o)
    decreases o
  {
    hide TypeOf, NumComponentsOf, ComponentModeOf, DimensionOf, IsExtended, RepresentationOf, EncodeOperandToken0;
    hide Occurs, ParseExtension, ParseImmediates, ParseIndices, EncodeImmediates, EncodeIndices, WellFormedIndicesAtEnd;
    hide EncodeModifier, SameIndices, EncodeOperand, IsImmediateEntry;
    ScalarFields(o, words, total, end, cursor);
    var payload := EncodedParts(o, words, cursor);
    var token := EncodeOperandToken0(o);
    OperandCodec.EncodedToken(o);
    ExtensionRoundTrip(o.modifier, token, words, end, cursor + 1);
    var c1 := cursor + 1 + |EncodeModifier(o.modifier)|;
    var indices := ParseIndices(words, total, end, c1, token, 0);
    var immediates := ParseImmediates(words, end, indices.cursor, ImmediateCount(o.ty, o.numComponents));
    assert SameIndices(o.entries, indices.value + immediates.value);
    if IsImmediateType(o.ty) {
      NoIndices(words, total, end, c1, token);
      assert indices.value + immediates.value == immediates.value;
      ParsedImmediates(words, end, c1, ImmediateCount(o.ty, o.numComponents));
      SameImmediates(o.entries, immediates.value);
      SameLength(o.entries, immediates.value);
    } else {
      NoImmediates(words, end, indices.cursor);
      assert indices.value + immediates.value == indices.value;
      SameLength(o.entries, indices.value);
      ParsedIndicesCount(words, total, end, c1, token, 0);
      forall i | 0 <= i < |o.entries|
        ensures RepresentationOf(0 + i, token) == Carried(o.entries[i].representation)
      {
        EncodedRepresentations(o, i);
      }
      IndicesOnlyAtEnd(o.entries, words, total, end, c1, token, 0);
    }
  }

  lemma {:induction false} IndicesOnlyAtEnd(entries: seq<Index>, words: seq<Word>, total: nat, end: nat,
                                            cursor: nat, token: Word, dim: nat)
    requires Occurs(EncodeIndices(entries), words, cursor)
    requires cursor + |EncodeIndices(entries)| == end <= |words| && end <= total
    requires dim + |entries| == DimensionOf(token) <= 3
    requires forall i :: 0 <= i < |entries| ==> RepresentationOf(dim + i, token) == Carried(entries[i].representation)
    requires SameIndices(entries, ParseIndices(words, total, end, cursor, token, dim).value)
    ensures WellFormedIndicesAtEnd(entries)
    decreases entries
  {
    hide DimensionOf, RepresentationOf, Occurs, EncodeIndex, ParseIndex, SameIndex, WellFormedIndex,
         WellFormedIndexAtEnd;
    hide Carried;
    if entries != [] {
      var first := EncodeIndex(entries[0]);
      OccursSplit(first, EncodeIndices(entries[1..]), words, cursor);
      assert RepresentationOf(dim + 0, token) == Carried(entries[0].representation);
      var index := ParseIndex(words, total, end, cursor, Carried(entries[0].representation));
      var rest := ParseIndices(words, total, end, index.cursor, token, dim + 1);
      assert ([index.value] + rest.value)[1..] == rest.value;
      if |entries| == 1 {
        assert EncodeIndices(entries[1..]) == [];
        IndexOnlyAtEnd(entries[0], words, total, end, cursor);
      } else {
        RestNotEmpty(entries, words, total, end, cursor, token, dim);
        IndexOnlyWellFormed(entries[0], words, total, end, cursor);
        NotCode4(entries[0]);
        IndexRoundTrip(entries[0], words, total, end, cursor);
        forall i | 0 <= i < |entries[1..]|
          ensures RepresentationOf(dim + 1 + i, token) == Carried(entries[1..][i].representation)
        {
          assert RepresentationOf(dim + (i + 1), token) == Carried(entries[i + 1].representation);
        }
        IndicesOnlyAtEnd(entries[1..], words, total, end, cursor + |first|, token, dim + 1);
      }
    }
  }

  /** Between the first of several indices that come back and the end there are words for the others. */
  lemma RestNotEmpty(entries: seq<Index>, words: seq<Word>, total: nat, end: nat, cursor: nat, token: Word, dim: nat)
    requires cursor < end <= |words| && end <= total && |entries| >= 2 && dim + |entries| == DimensionOf(token) <= 3
    requires RepresentationOf(dim, token) == Carried(entries[0].representation)
    requires SameIndices(entries, ParseIndices(words, total, end, cursor, token, dim).value)
    ensures cursor + |EncodeIndex(entries[0])| < end
  {
    hide DimensionOf, RepresentationOf, EncodeIndex, ParseIndex, SameIndex, Carried;
    var rep := RepresentationOf(dim, token);
    var index := ParseIndex(words, total, end, cursor, rep);
    var rest := ParseIndices(words, total, end, index.cursor, token, dim + 1);
    assert ([index.value] + rest.value)[1..] == rest.value;
    SameLength(entries[1..], rest.value);
    SameIndexEncodeAlike(entries[0], index.value);
    IndexGrowth(words, total, end, cursor, rep);
  }

  lemma {:induction false} IndexOnlyAtEnd(index: Index, words: seq<Word>, total: nat, end: nat, cursor: nat)
    requires cursor < end && Occurs(EncodeIndex(index), words, cursor)
    requires cursor + |EncodeIndex(index)| == end <= |words| && end <= total
    requires SameIndex(index, ParseIndex(words, total, end, cursor, Carried(index.representation)).value)
    ensures WellFormedIndexAtEnd(index)
    decreases index
  {
    hide Occurs, EncodeOperand, ParseOperand, SameOperand, WellFormedAtEnd;
    var lo, rel := EncodeOptional(index.lo), EncodeRelative(index.relative);
    if index.representation == Relative {
      assert EncodeIndex(index) == rel;
      OnlyAtEnd(index.relative.value, words, total, end, cursor);
    } else if index.representation == Immediate32PlusRelative {
      assert EncodeIndex(index) == lo + rel;
      OccursSplit(lo, rel, words, cursor);
      OnlyAtEnd(index.relative.value, words, total, end, cursor + 1);
    }
  }

  /** Main result: ParseOperand gives an encoded operand back, consuming exactly its words, if and only if the
      operand is well formed, or well formed at the end when it ends its instruction. */
  lemma RoundTripExactly(o: Operand, words: seq<Word>, total: nat, end: nat, cursor: nat)
    requires Occurs(EncodeOperand(o), words, cursor)
    requires cursor + |EncodeOperand(o)| <= end <= |words| && end <= total
    ensures var r := ParseOperand(words, total, end, cursor);
            (r.cursor == cursor + |EncodeOperand(o)| && SameOperand(o, r.value))
            <==> (if cursor + |EncodeOperand(o)| == end then WellFormedAtEnd(o) else WellFormed(o))
  {
    hide EncodeOperand, ParseOperand, SameOperand, WellFormed, WellFormedAtEnd, Occurs;
    if cursor + |EncodeOperand(o)| == end {
      if WellFormedAtEnd(o) { OperandAtEndRoundTrip(o, words, total, end, cursor); }
      if SameOperand(o, ParseOperand(words, total, end, cursor).value) { OnlyAtEnd(o, words, total, end, cursor); }
    } else {
      if WellFormed(o) { OperandRoundTrip(o, words, total, end, cursor); }
      if SameOperand(o, ParseOperand(words, total, end, cursor).value) { OnlyWellFormed(o, words, total, end, cursor); }
    }
  }
}
