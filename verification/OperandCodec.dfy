/** Operand::Encode and ParseOperand, and the round trip between them. */
module OperandCodec {
  import opened Words
  import opened Sm5Model
  import opened OperandToken

  // ---------------------------------------------------------------- encoding

  predicate IsImmediateType(ty: Byte) { ty == IMMEDIATE32 || ty == IMMEDIATE64 }

  function IndexDims(o: Operand): (n: nat)
    ensures n <= 3 && (o.entries != [] ==> n <= |o.entries|)
  {
    if IsImmediateType(o.ty) then 0
    else if o.entries != [] then if |o.entries| < 3 then |o.entries| else 3
    else if o.relative.Some? then 1
    else 0
  }

  /** The representation of a top-level relative operand is written to dimension 1 (the code passes the
      dimension count D3D10_SB_OPERAND_INDEX_1D where the macro takes a dimension number). */
  function Representations(o: Operand): Word {
    if o.entries != [] then RepresentationFields(o.entries, IndexDims(o))
    else if o.relative.Some? then RepresentationField(1, Relative)
    else 0
  }

  function EncodeOperandToken0(o: Operand): Word {
    Token(o.numComponents, o.componentMode, o.ty, IndexDims(o), Representations(o), o.modifier != 0)
  }

  function EncodeOptional(w: Option<Word>): seq<Word> {
    match w
    case None => []
    case Some(v) => [v]
  }

  function EncodeImmediates(entries: seq<Index>): seq<Word> {
    if entries == [] then []
    else EncodeOptional(entries[0].lo) + EncodeOptional(entries[0].hi) + EncodeImmediates(entries[1..])
  }

  function EncodeModifier(modifier: Byte): seq<Word> {
    if modifier != 0 then [ModifierToken(modifier)] else []
  }

  function EncodeOperand(o: Operand): (s: seq<Word>)
    ensures |s| >= 1
    decreases o
  {
    [EncodeOperandToken0(o)]
    + EncodeModifier(o.modifier)
    + (if IsImmediateType(o.ty) then EncodeImmediates(o.entries) else EncodeIndices(o.entries))
    + (if o.entries == [] then EncodeRelative(o.relative) else [])
  }

  function EncodeIndices(entries: seq<Index>): seq<Word>
    decreases entries
  {
    if entries == [] then [] else EncodeIndex(entries[0]) + EncodeIndices(entries[1..])
  }

  function EncodeIndex(index: Index): seq<Word>
    decreases index
  {
    (match index.representation
     case Immediate32 => EncodeOptional(index.lo)
     case Immediate64 => EncodeOptional(index.lo) + EncodeOptional(index.hi)
     case Immediate32PlusRelative => EncodeOptional(index.lo)
     case Immediate64PlusRelative => EncodeOptional(index.lo) + EncodeOptional(index.hi)
     case Relative => [])
    + EncodeRelative(index.relative)
  }

  function EncodeRelative(relative: Option<Operand>): seq<Word>
    decreases relative
  {
    match relative
    case None => []
    case Some(o) => EncodeOperand(o)
  }

  // ---------------------------------------------------------------- parsing

  datatype Parsed<T> = Parsed(value: T, cursor: nat)

  /** Skips the chain of further extended operand tokens after `ext`. */
  function SkipExtended(words: seq<Word>, end: nat, cursor: nat, ext: Word): (c: nat)
    requires cursor <= end <= |words|
    ensures cursor <= c <= end
    decreases end - cursor
  {
    if IsExtended(ext) && cursor < end then SkipExtended(words, end, cursor + 1, words[cursor]) else cursor
  }

  function ParseExtension(words: seq<Word>, end: nat, cursor: nat, token: Word): (r: Parsed<Byte>)
    requires cursor <= end <= |words|
    ensures cursor <= r.cursor <= end
  {
    if IsExtended(token) && cursor < end then
      var ext := words[cursor];
      Parsed(if IsModifierToken(ext) then ModifierOf(ext) else 0, SkipExtended(words, end, cursor + 1, ext))
    else
      Parsed(0, cursor)
  }

  function ImmediateCount(ty: Byte, numComponents: Byte): nat {
    if ty != IMMEDIATE32 then 0 else if numComponents == ONE_COMPONENT then 1 else 4
  }

  function ParseImmediates(words: seq<Word>, end: nat, cursor: nat, count: nat): (r: Parsed<seq<Index>>)
    requires cursor <= end <= |words|
    ensures cursor <= r.cursor <= end
    decreases count
  {
    if count == 0 || cursor == end then Parsed([], cursor)
    else
      var rest := ParseImmediates(words, end, cursor + 1, count - 1);
      Parsed([ImmediateIndex(words[cursor])] + rest.value, rest.cursor)
  }

  /** ParseOperand. `total` is the dword count of the program, `end` the end of the instruction. */
  function ParseOperand(words: seq<Word>, total: nat, end: nat, cursor: nat): (r: Parsed<Operand>)
    requires cursor <= end <= |words|
    ensures cursor <= r.cursor <= end
    ensures cursor < end && cursor < total ==> cursor < r.cursor
    ensures r.value.sourceLength == r.cursor - cursor
    decreases end - cursor, 0
  {
    if cursor >= total || cursor >= end then Parsed(EMPTY_OPERAND, cursor)
    else
      var token := words[cursor];
      var extension := ParseExtension(words, end, cursor + 1, token);
      var indices := ParseIndices(words, total, end, extension.cursor, token, 0);
      var immediates :=
        ParseImmediates(words, end, indices.cursor, ImmediateCount(TypeOf(token), NumComponentsOf(token)));
      Parsed(
        Operand(TypeOf(token), NumComponentsOf(token), ComponentModeOf(token), indices.value + immediates.value,
                extension.value, None, cursor, immediates.cursor - cursor),
        immediates.cursor)
  }

  function ParseIndices(words: seq<Word>, total: nat, end: nat, cursor: nat, token: Word, dim: nat)
    : (r: Parsed<seq<Index>>)
    requires cursor <= end <= |words| && dim <= 3
    ensures cursor <= r.cursor <= end
    decreases end - cursor, 4 - dim
  {
    if dim >= DimensionOf(token) || cursor >= end then Parsed([], cursor)
    else
      var index := ParseIndex(words, total, end, cursor, RepresentationOf(dim, token));
      var rest := ParseIndices(words, total, end, index.cursor, token, dim + 1);
      Parsed([index.value] + rest.value, rest.cursor)
  }

  function ParseIndex(words: seq<Word>, total: nat, end: nat, cursor: nat, representation: Representation)
    : (r: Parsed<Index>)
    requires cursor < end <= |words|
    ensures cursor <= r.cursor <= end
    decreases end - cursor, 1
  {
    match representation
    case Immediate32 => Parsed(ImmediateIndex(words[cursor]), cursor + 1)
    case Immediate64 =>
      if cursor + 1 < end then
        Parsed(Index(Immediate64, Some(words[cursor]), Some(words[cursor + 1]), None), cursor + 2)
      else
        Parsed(Index(Immediate32, None, None, None), cursor)
    case Relative =>
      var sub := ParseOperand(words, total, end, cursor);
      Parsed(Index(Relative, None, None, Some(sub.value)), sub.cursor)
    case Immediate32PlusRelative =>
      var sub := ParseOperand(words, total, end, cursor + 1);
      Parsed(Index(Immediate32PlusRelative, Some(words[cursor]), None, Some(sub.value)), sub.cursor)
    case Immediate64PlusRelative =>
      if cursor + 1 < end then
        var sub := ParseOperand(words, total, end, cursor + 2);
        Parsed(Index(Immediate64PlusRelative, Some(words[cursor]), Some(words[cursor + 1]), Some(sub.value)),
               sub.cursor)
      else
        var sub := ParseOperand(words, total, end, cursor);
        Parsed(Index(Immediate64PlusRelative, None, None, Some(sub.value)), sub.cursor)
  }

  // ---------------------------------------------------------------- what the token format can carry

  /** The operands the format can carry, exactly: component-mode bits in place, two-bit component
      count, no top-level relative operand, immediates only on Immediate32 operands and as many as
      the component count says, at most three indices, each with the parts its representation needs. */
  predicate WellFormed(o: Operand)
    decreases o
  {
    && o.numComponents < 4
    && o.componentMode & !COMPONENT_MODE_BITS == 0
    && o.relative.None?
    && (if IsImmediateType(o.ty) then
          && |o.entries| == ImmediateCount(o.ty, o.numComponents)
          && (forall i :: 0 <= i < |o.entries| ==> IsImmediateEntry(o.entries[i]))
        else
          |o.entries| <= 3 && WellFormedIndices(o.entries))
  }

  predicate IsImmediateEntry(index: Index) {
    index.representation == Immediate32 && index.lo.Some? && index.hi.None? && index.relative.None?
  }

  predicate WellFormedIndices(entries: seq<Index>)
    decreases entries
  {
    entries == [] || (WellFormedIndex(entries[0]) && WellFormedIndices(entries[1..]))
  }

  predicate WellFormedIndex(index: Index)
    decreases index
  {
    match index.representation
    case Immediate32 => IsImmediateEntry(index)
    case Immediate64 => index.lo.Some? && index.hi.Some? && index.relative.None?
    case Relative => index.lo.None? && index.hi.None? && WellFormedRelative(index.relative)
    case Immediate32PlusRelative => index.lo.Some? && index.hi.None? && WellFormedRelative(index.relative)
    case Immediate64PlusRelative => false
  }

  predicate WellFormedRelative(relative: Option<Operand>)
    decreases relative
  {
    match relative
    case None => false
    case Some(o) => WellFormed(o)
  }

  /** `part` occurs in `words` at position `at`. */
  predicate Occurs(part: seq<Word>, words: seq<Word>, at: nat) {
    at + |part| <= |words| && words[at..at + |part|] == part
  }

  lemma OccursSplit(a: seq<Word>, b: seq<Word>, words: seq<Word>, at: nat)
    requires Occurs(a + b, words, at)
    ensures Occurs(a, words, at) && Occurs(b, words, at + |a|)
  {
    var s := words[at..at + |a + b|];
    assert s[..|a|] == a && s[|a|..] == b;
  }

  lemma OccursAt(part: seq<Word>, words: seq<Word>, at: nat, i: nat)
    requires Occurs(part, words, at) && i < |part|
    ensures words[at + i] == part[i]
  {
    assert words[at..at + |part|][i] == part[i];
  }

  // ---------------------------------------------------------------- round trip

  lemma RepresentationsMasked(o: Operand)
    ensures Representations(o) & !0x36c0_0000 == 0
  {
    if o.entries != [] { RepresentationFieldsMasked(o.entries, IndexDims(o)); }
  }

  /** The fields ParseOperand reads from an encoded operand's token. */
  lemma EncodedToken(o: Operand)
    ensures var t := EncodeOperandToken0(o);
            && NumComponentsOf(t) == o.numComponents & 3
            && ComponentModeOf(t) == o.componentMode & COMPONENT_MODE_BITS
            && TypeOf(t) == o.ty
            && DimensionOf(t) == IndexDims(o)
            && IsExtended(t) == (o.modifier != 0)
            && t & 0x36c0_0000 == Representations(o)
  {
    hide NumComponentsOf, ComponentModeOf, TypeOf, DimensionOf, IsExtended, Token, Representations, IndexDims;
    RepresentationsMasked(o);
    TokenFields(o.numComponents, o.componentMode, o.ty, IndexDims(o), Representations(o), o.modifier != 0);
  }

  lemma WellFormedFields(o: Operand)
    requires WellFormed(o)
    ensures o.numComponents & 3 == o.numComponents && o.componentMode & COMPONENT_MODE_BITS == o.componentMode
  {
  }

  lemma NoCode4(entries: seq<Index>, dim: nat)
    requires WellFormedIndices(entries) && dim < |entries|
    ensures entries[dim].representation != Immediate64PlusRelative
  {
    if dim > 0 { NoCode4(entries[1..], dim - 1); }
  }

  lemma WellFormedRepresentations(o: Operand)
    requires WellFormed(o) && !IsImmediateType(o.ty)
    ensures forall i :: 0 <= i < |o.entries|
              ==> RepresentationOf(0 + i, EncodeOperandToken0(o)) == o.entries[i].representation
  {
    hide EncodeOperandToken0, RepresentationOf;
    forall i | 0 <= i < |o.entries|
      ensures RepresentationOf(i, EncodeOperandToken0(o)) == o.entries[i].representation
    {
      NoCode4(o.entries, i);
      EncodedRepresentations(o, i);
    }
  }

  /** The representations an encoded, non-immediate operand's token announces. */
  lemma EncodedRepresentations(o: Operand, dim: nat)
    requires !IsImmediateType(o.ty) && |o.entries| <= 3 && dim < |o.entries|
    ensures RepresentationOf(dim, EncodeOperandToken0(o))
         == (if o.entries[dim].representation == Immediate64PlusRelative then Immediate32
             else o.entries[dim].representation)
  {
    hide EncodeOperandToken0, RepresentationOf, RepresentationFields;
    EncodedToken(o);
    RepresentationFieldsRead(o.entries, |o.entries|, dim, EncodeOperandToken0(o));
  }

  /** Main result: for every operand the format can carry, at any relative-index depth and whatever
      words follow, ParseOperand on the encoding returns an equal operand and advances the cursor by
      exactly the encoded length. */
  lemma {:induction false} OperandRoundTrip(o: Operand, words: seq<Word>, total: nat, end: nat, cursor: nat)
    requires WellFormed(o) && Occurs(EncodeOperand(o), words, cursor)
    requires cursor + |EncodeOperand(o)| <= end <= |words| && end <= total
    ensures var r := ParseOperand(words, total, end, cursor);
            r.cursor == cursor + |EncodeOperand(o)| && SameOperand(o, r.value) && r.value.sourceOffset == cursor
    decreases o
  {
    hide TypeOf, NumComponentsOf, ComponentModeOf, DimensionOf, IsExtended, RepresentationOf, EncodeOperandToken0;
    hide Occurs, ParseExtension, ParseImmediates, ParseIndices, EncodeImmediates, EncodeIndices, WellFormedIndices;
    hide IsImmediateEntry, EncodeModifier, SameIndices, EncodeOperand;
    var token := EncodeOperandToken0(o);
    var ext := EncodeModifier(o.modifier);
    var payload := EncodedParts(o, words, cursor);
    EncodedToken(o);
    WellFormedFields(o);
    ExtensionRoundTrip(o.modifier, token, words, end, cursor + 1);
    var c1 := cursor + 1 + |ext|;
    if IsImmediateType(o.ty) {
      ImmediatesRoundTrip(o.entries, words, end, c1);
      var immediates := ParseImmediates(words, end, c1, |o.entries|);
      NoIndices(words, total, end, c1, token);
      assert [] + immediates.value == immediates.value;
    } else {
      WellFormedRepresentations(o);
      IndicesRoundTrip(o.entries, words, total, end, c1, token, 0);
      var indices := ParseIndices(words, total, end, c1, token, 0);
      NoImmediates(words, end, indices.cursor);
      assert indices.value + [] == indices.value;
    }
  }

  /** Where the parts of an encoded operand lie. */
  lemma EncodedParts(o: Operand, words: seq<Word>, cursor: nat) returns (payload: seq<Word>)
    requires o.relative.None? && Occurs(EncodeOperand(o), words, cursor)
    ensures payload == if IsImmediateType(o.ty) then EncodeImmediates(o.entries) else EncodeIndices(o.entries)
    ensures |EncodeOperand(o)| == 1 + |EncodeModifier(o.modifier)| + |payload|
    ensures cursor < |words| && words[cursor] == EncodeOperandToken0(o)
    ensures Occurs(EncodeModifier(o.modifier), words, cursor + 1)
    ensures Occurs(payload, words, cursor + 1 + |EncodeModifier(o.modifier)|)
  {
    hide EncodeOperandToken0, EncodeImmediates, EncodeIndices, EncodeModifier;
    payload := if IsImmediateType(o.ty) then EncodeImmediates(o.entries) else EncodeIndices(o.entries);
    var token := EncodeOperandToken0(o);
    var ext := EncodeModifier(o.modifier);
    assert EncodeOperand(o) == [token] + (ext + payload);
    OccursSplit([token], ext + payload, words, cursor);
    OccursSplit(ext, payload, words, cursor + 1);
    OccursAt([token], words, cursor, 0);
  }

  lemma ExtensionRoundTrip(modifier: Byte, token: Word, words: seq<Word>, end: nat, cursor: nat)
    requires IsExtended(token) == (modifier != 0)
    requires Occurs(EncodeModifier(modifier), words, cursor) && cursor + |EncodeModifier(modifier)| <= end <= |words|
    ensures ParseExtension(words, end, cursor, token) == Parsed(modifier, cursor + |EncodeModifier(modifier)|)
  {
    hide IsExtended, ModifierToken, ModifierOf, IsModifierToken;
    if modifier != 0 {
      OccursAt(EncodeModifier(modifier), words, cursor, 0);
      ModifierTokenFields(modifier);
    }
  }

  lemma NoIndices(words: seq<Word>, total: nat, end: nat, cursor: nat, token: Word)
    requires cursor <= end <= |words| && DimensionOf(token) == 0
    ensures ParseIndices(words, total, end, cursor, token, 0) == Parsed([], cursor)
  {
  }

  lemma NoImmediates(words: seq<Word>, end: nat, cursor: nat)
    requires cursor <= end <= |words|
    ensures ParseImmediates(words, end, cursor, 0) == Parsed([], cursor)
  {
  }

  lemma {:induction false} IndicesRoundTrip(entries: seq<Index>, words: seq<Word>, total: nat, end: nat, cursor: nat,
                                            token: Word, dim: nat)
    requires WellFormedIndices(entries) && Occurs(EncodeIndices(entries), words, cursor)
    requires cursor + |EncodeIndices(entries)| <= end <= |words| && end <= total
    requires dim + |entries| == DimensionOf(token) <= 3
    requires forall i :: 0 <= i < |entries| ==> RepresentationOf(dim + i, token) == entries[i].representation
    ensures var r := ParseIndices(words, total, end, cursor, token, dim);
            r.cursor == cursor + |EncodeIndices(entries)| && SameIndices(entries, r.value)
    decreases entries
  {
    hide DimensionOf, RepresentationOf, Occurs, EncodeIndex, ParseIndex, SameIndex, WellFormedIndex;
    hide EncodeOperand, ParseOperand, SameOperand, WellFormed;
    if entries != [] {
      var first := EncodeIndex(entries[0]);
      OccursSplit(first, EncodeIndices(entries[1..]), words, cursor);
      IndexRoundTrip(entries[0], words, total, end, cursor);
      assert RepresentationOf(dim + 0, token) == entries[0].representation;
      forall i | 0 <= i < |entries[1..]|
        ensures RepresentationOf(dim + 1 + i, token) == entries[1..][i].representation
      {
        assert RepresentationOf(dim + (i + 1), token) == entries[i + 1].representation;
      }
      IndicesRoundTrip(entries[1..], words, total, end, cursor + |first|, token, dim + 1);
      var rest := ParseIndices(words, total, end, cursor + |first|, token, dim + 1);
      var index := ParseIndex(words, total, end, cursor, entries[0].representation);
      assert ([index.value] + rest.value)[1..] == rest.value;
    }
  }

  lemma {:induction false} IndexRoundTrip(index: Index, words: seq<Word>, total: nat, end: nat, cursor: nat)
    requires WellFormedIndex(index) && Occurs(EncodeIndex(index), words, cursor)
    requires cursor + |EncodeIndex(index)| <= end <= |words| && end <= total
    ensures cursor < end
    ensures var r := ParseIndex(words, total, end, cursor, index.representation);
            r.cursor == cursor + |EncodeIndex(index)| && SameIndex(index, r.value)
    decreases index
  {
    hide EncodeOperand, ParseOperand, SameOperand, WellFormed;
    var lo, hi, rel := EncodeOptional(index.lo), EncodeOptional(index.hi), EncodeRelative(index.relative);
    match index.representation
    case Immediate32 =>
      assert EncodeIndex(index) == lo;
      OccursAt(lo, words, cursor, 0);
    case Immediate64 =>
      assert EncodeIndex(index) == lo + hi;
      OccursAt(lo + hi, words, cursor, 0);
      OccursAt(lo + hi, words, cursor, 1);
    case Relative =>
      assert EncodeIndex(index) == rel;
      OperandRoundTrip(index.relative.value, words, total, end, cursor);
    case Immediate32PlusRelative =>
      assert EncodeIndex(index) == lo + rel;
      OccursSplit(lo, rel, words, cursor);
      OccursAt(lo, words, cursor, 0);
      OperandRoundTrip(index.relative.value, words, total, end, cursor + 1);
  }

  lemma {:induction false} ImmediatesRoundTrip(entries: seq<Index>, words: seq<Word>, end: nat, cursor: nat)
    requires forall i :: 0 <= i < |entries| ==> IsImmediateEntry(entries[i])
    requires Occurs(EncodeImmediates(entries), words, cursor)
    requires cursor + |EncodeImmediates(entries)| <= end <= |words|
    ensures var r := ParseImmediates(words, end, cursor, |entries|);
            r.cursor == cursor + |EncodeImmediates(entries)| && SameIndices(entries, r.value)
  {
    if entries != [] {
      var first := EncodeOptional(entries[0].lo);
      assert EncodeImmediates(entries) == first + EncodeImmediates(entries[1..]);
      OccursSplit(first, EncodeImmediates(entries[1..]), words, cursor);
      OccursAt(first, words, cursor, 0);
      ImmediatesRoundTrip(entries[1..], words, end, cursor + 1);
      var rest := ParseImmediates(words, end, cursor + 1, |entries| - 1);
      assert ([ImmediateIndex(words[cursor])] + rest.value)[1..] == rest.value;
    }
  }

  // ---------------------------------------------------------------- nothing else round-trips

  lemma {:induction false} ParsedImmediates(words: seq<Word>, end: nat, cursor: nat, count: nat)
    requires cursor <= end <= |words|
    ensures var r := ParseImmediates(words, end, cursor, count);
            && |r.value| == r.cursor - cursor && |r.value| <= count && (r.cursor < end ==> |r.value| == count)
            && (forall i :: 0 <= i < |r.value| ==> IsImmediateEntry(r.value[i]))
    decreases count
  {
    if count != 0 && cursor != end { ParsedImmediates(words, end, cursor + 1, count - 1); }
  }

  lemma {:induction false} SameImmediates(a: seq<Index>, b: seq<Index>)
    requires SameIndices(a, b) && forall i :: 0 <= i < |b| ==> IsImmediateEntry(b[i])
    ensures forall i :: 0 <= i < |a| ==> IsImmediateEntry(a[i])
    ensures |EncodeImmediates(a)| == |a|
  {
    if a != [] {
      assert IsImmediateEntry(b[0]) && SameIndex(a[0], b[0]) && SameRelative(a[0].relative, b[0].relative);
      forall i | 0 <= i < |b[1..]| ensures IsImmediateEntry(b[1..][i]) { assert b[1..][i] == b[i + 1]; }
      SameImmediates(a[1..], b[1..]);
      forall i | 0 <= i < |a| ensures IsImmediateEntry(a[i]) {
        if i > 0 { assert a[i] == a[1..][i - 1]; }
      }
    }
  }

  lemma {:induction false} ParsedIndicesCount(words: seq<Word>, total: nat, end: nat, cursor: nat, token: Word,
                                              dim: nat)
    requires cursor <= end <= |words| && dim <= DimensionOf(token)
    ensures dim + |ParseIndices(words, total, end, cursor, token, dim).value| <= DimensionOf(token)
    decreases 4 - dim
  {
    hide DimensionOf, RepresentationOf, ParseIndex;
    if dim < DimensionOf(token) && cursor < end {
      var index := ParseIndex(words, total, end, cursor, RepresentationOf(dim, token));
      ParsedIndicesCount(words, total, end, index.cursor, token, dim + 1);
    }
  }

  lemma TokenFirst(o: Operand, words: seq<Word>, cursor: nat)
    requires Occurs(EncodeOperand(o), words, cursor)
    ensures cursor < |words| && words[cursor] == EncodeOperandToken0(o)
  {
    hide EncodeOperandToken0, EncodeImmediates, EncodeIndices, EncodeModifier;
    OccursAt(EncodeOperand(o), words, cursor, 0);
  }

  lemma NarrowFields(o: Operand)
    requires o.numComponents == o.numComponents & 3 && o.componentMode == o.componentMode & COMPONENT_MODE_BITS
    ensures o.numComponents < 4 && o.componentMode & !COMPONENT_MODE_BITS == 0
  {
  }

  /** The scalar fields that parsing gives back agree with the original only inside the format's limits. */
  lemma ScalarFields(o: Operand, words: seq<Word>, total: nat, end: nat, cursor: nat)
    requires Occurs(EncodeOperand(o), words, cursor)
    requires cursor + |EncodeOperand(o)| <= end <= |words| && end <= total
    requires SameOperand(o, ParseOperand(words, total, end, cursor).value)
    ensures o.numComponents < 4 && o.componentMode & !COMPONENT_MODE_BITS == 0 && o.relative.None?
  {
    hide TypeOf, NumComponentsOf, ComponentModeOf, DimensionOf, IsExtended, EncodeOperandToken0, Occurs;
    hide ParseExtension, ParseImmediates, ParseIndices, EncodeOperand, SameIndices;
    TokenFirst(o, words, cursor);
    EncodedToken(o);
    NarrowFields(o);
  }

  /** If parsing an encoding (followed by at least one more word of the instruction) gives the
      operand back, the operand was one the format can carry. */
  lemma {:induction false} OnlyWellFormed(o: Operand, words: seq<Word>, total: nat, end: nat, cursor: nat)
    requires Occurs(EncodeOperand(o), words, cursor)
    requires cursor + |EncodeOperand(o)| < end <= |words| && end <= total
    requires SameOperand(o, ParseOperand(words, total, end, cursor).value)
    ensures WellFormed(o)
    decreases o
  {
    hide TypeOf, NumComponentsOf, ComponentModeOf, DimensionOf, IsExtended, RepresentationOf, EncodeOperandToken0;
    hide Occurs, ParseExtension, ParseImmediates, ParseIndices, EncodeImmediates, EncodeIndices, WellFormedIndices;
    hide EncodeModifier, SameIndices, EncodeOperand, IsImmediateEntry;
    ScalarFields(o, words, total, end, cursor);
    var payload := EncodedParts(o, words, cursor);
    var token := EncodeOperandToken0(o);
    EncodedToken(o);
    ExtensionRoundTrip(o.modifier, token, words, end, cursor + 1);
    var c1 := cursor + 1 + |EncodeModifier(o.modifier)|;
    var indices := ParseIndices(words, total, end, c1, token, 0);
    var immediates := ParseImmediates(words, end, indices.cursor, ImmediateCount(o.ty, o.numComponents));
    assert SameIndices(o.entries, indices.value + immediates.value);
    if IsImmediateType(o.ty) {
      NoIndices(words, total, end, c1, token);
      assert indices.value + immediates.value == immediates.value;
      ParsedImmediates(words, end, c1, ImmediateCount(o.ty, o.numComponents));
      SameImmediates(o.entries, immediates.value);
      SameLength(o.entries, immediates.value);
    } else {
      NoImmediates(words, end, indices.cursor);
      assert indices.value + immediates.value == indices.value;
      SameLength(o.entries, indices.value);
      ParsedIndicesCount(words, total, end, c1, token, 0);
      forall i | 0 <= i < |o.entries|
        ensures RepresentationOf(0 + i, token) == Carried(o.entries[i].representation)
      {
        EncodedRepresentations(o, i);
      }
      IndicesOnlyWellFormed(o.entries, words, total, end, c1, token, 0);
    }
  }

  lemma SameLength(a: seq<Index>, b: seq<Index>)
    requires SameIndices(a, b)
    ensures |a| == |b|
  {
  }

  /** What a representation reads back as. */
  function Carried(r: Representation): Representation {
    if r == Immediate64PlusRelative then Immediate32 else r
  }

  lemma {:induction false} IndicesOnlyWellFormed(entries: seq<Index>, words: seq<Word>, total: nat, end: nat,
                                                 cursor: nat, token: Word, dim: nat)
    requires Occurs(EncodeIndices(entries), words, cursor)
    requires cursor + |EncodeIndices(entries)| < end <= |words| && end <= total
    requires dim + |entries| == DimensionOf(token) <= 3
    requires forall i :: 0 <= i < |entries| ==> RepresentationOf(dim + i, token) == Carried(entries[i].representation)
    requires SameIndices(entries, ParseIndices(words, total, end, cursor, token, dim).value)
    ensures WellFormedIndices(entries)
    decreases entries
  {
    hide DimensionOf, RepresentationOf, Occurs, EncodeIndex, ParseIndex, SameIndex, WellFormedIndex;
    hide EncodeOperand, ParseOperand, SameOperand, WellFormed;
    if entries != [] {
      var first := EncodeIndex(entries[0]);
      OccursSplit(first, EncodeIndices(entries[1..]), words, cursor);
      assert RepresentationOf(dim + 0, token) == Carried(entries[0].representation);
      var index := ParseIndex(words, total, end, cursor, Carried(entries[0].representation));
      var rest := ParseIndices(words, total, end, index.cursor, token, dim + 1);
      assert ([index.value] + rest.value)[1..] == rest.value;
      IndexOnlyWellFormed(entries[0], words, total, end, cursor);
      NotCode4(entries[0]);
      IndexRoundTrip(entries[0], words, total, end, cursor);
      forall i | 0 <= i < |entries[1..]|
        ensures RepresentationOf(dim + 1 + i, token) == Carried(entries[1..][i].representation)
      {
        assert RepresentationOf(dim + (i + 1), token) == Carried(entries[i + 1].representation);
      }
      IndicesOnlyWellFormed(entries[1..], words, total, end, cursor + |first|, token, dim + 1);
    }
  }

  lemma NotCode4(index: Index)
    requires WellFormedIndex(index)
    ensures Carried(index.representation) == index.representation
  {
  }

  lemma {:induction false} IndexOnlyWellFormed(index: Index, words: seq<Word>, total: nat, end: nat, cursor: nat)
    requires Occurs(EncodeIndex(index), words, cursor)
    requires cursor + |EncodeIndex(index)| < end <= |words| && end <= total
    requires SameIndex(index, ParseIndex(words, total, end, cursor, Carried(index.representation)).value)
    ensures WellFormedIndex(index)
    decreases index
  {
    hide Occurs, EncodeOperand, ParseOperand, SameOperand, WellFormed;
    var lo, rel := EncodeOptional(index.lo), EncodeRelative(index.relative);
    match index.representation
    case Immediate32 =>
    case Immediate64 =>
    case Immediate64PlusRelative =>
    case Relative =>
      assert EncodeIndex(index) == rel;
      OnlyWellFormed(index.relative.value, words, total, end, cursor);
    case Immediate32PlusRelative =>
      assert EncodeIndex(index) == lo + rel;
      OccursSplit(lo, rel, words, cursor);
      OnlyWellFormed(index.relative.value, words, total, end, cursor + 1);
  }

  // ---------------------------------------------------------------- equality and encoding

  /** Operands equal under operator== encode to the same words. */
  lemma {:induction false} SameOperandsEncodeAlike(a: Operand, b: Operand)
    requires SameOperand(a, b)
    ensures EncodeOperand(a) == EncodeOperand(b)
    decreases a
  {
    hide ModifierToken, Token, RepresentationField;
    SameIndicesEncodeAlike(a.entries, b.entries);
    SameTokens(a, b);
    if a.relative.Some? { SameOperandsEncodeAlike(a.relative.value, b.relative.value); }
  }

  lemma SameTokens(a: Operand, b: Operand)
    requires SameOperand(a, b)
    ensures EncodeOperandToken0(a) == EncodeOperandToken0(b)
  {
    hide Token, RepresentationField, RepresentationFields;
    SameLength(a.entries, b.entries);
    if a.entries != [] { SameRepresentations(a.entries, b.entries, IndexDims(a)); }
  }

  lemma {:induction false} SameRepresentationAt(a: seq<Index>, b: seq<Index>, i: nat)
    requires SameIndices(a, b) && i < |a|
    ensures i < |b| && a[i].representation == b[i].representation
  {
    if i > 0 { SameRepresentationAt(a[1..], b[1..], i - 1); }
  }

  lemma {:induction false} SameRepresentations(a: seq<Index>, b: seq<Index>, k: nat)
    requires SameIndices(a, b) && k <= |a| && k <= 3
    ensures k <= |b| && RepresentationFields(a, k) == RepresentationFields(b, k)
  {
    hide RepresentationField, SameIndices;
    SameLength(a, b);
    if k > 0 {
      SameRepresentationAt(a, b, k - 1);
      SameRepresentations(a, b, k - 1);
    }
  }

  lemma {:induction false} SameIndicesEncodeAlike(a: seq<Index>, b: seq<Index>)
    requires SameIndices(a, b)
    ensures EncodeIndices(a) == EncodeIndices(b) && EncodeImmediates(a) == EncodeImmediates(b)
    decreases a
  {
    hide EncodeIndex, SameRelative;
    if a != [] {
      assert SameIndex(a[0], b[0]);
      SameIndexEncodeAlike(a[0], b[0]);
      SameIndicesEncodeAlike(a[1..], b[1..]);
    }
  }

  lemma {:induction false} SameIndexEncodeAlike(a: Index, b: Index)
    requires SameIndex(a, b)
    ensures EncodeIndex(a) == EncodeIndex(b)
    decreases a
  {
    hide EncodeOperand, SameOperand;
    assert SameRelative(a.relative, b.relative);
    if a.relative.Some? { SameOperandsEncodeAlike(a.relative.value, b.relative.value); }
  }
}
