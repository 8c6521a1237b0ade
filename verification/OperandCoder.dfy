/** The imperative codec: the loops of EncodeOperandToken0, Operand::Encode, Operand::Index::Encode and
    ParseOperand, each proved against its specification function in OperandCodec. */
module OperandCoder {
  import opened Words
  import opened Sm5Model
  import opened OperandToken
  import opened OperandCodec

  method Token0(o: Operand) returns (token0: Word)
    ensures token0 == EncodeOperandToken0(o)
  {
    hide Representations, Token, NumComponentsField, ComponentModeField, TypeField, DimensionField, ExtendedField;
    var indexDims := 0;
    if o.ty == IMMEDIATE32 || o.ty == IMMEDIATE64 {
      indexDims := 0;
    } else if o.entries != [] {
      indexDims := if |o.entries| < 3 then |o.entries| else 3;
    } else if o.relative.Some? {
      indexDims := 1;
    }
    token0 := NumComponentsField(o.numComponents);
    token0 := token0 | ComponentModeField(o.componentMode);
    token0 := token0 | TypeField(o.ty);
    token0 := token0 | DimensionField(indexDims);
    token0 := OrIndexFields(token0, o, indexDims);
    token0 := OrExtendedBit(token0, o.modifier != 0);
    Composed(o.numComponents, o.componentMode, o.ty, indexDims, Representations(o), o.modifier != 0);
  }

  method OrIndexFields(base: Word, o: Operand, indexDims: nat) returns (token0: Word)
    requires indexDims == IndexDims(o)
    ensures token0 == base | Representations(o)
  {
    hide RepresentationField, RepresentationFields;
    token0 := base;
    OrZero(base);
    if o.entries != [] {
      token0 := OrRepresentations(base, o.entries, indexDims);
    } else if o.relative.Some? {
      token0 := base | RepresentationField(1, Relative);
    }
  }

  method OrExtendedBit(base: Word, ext: bool) returns (token0: Word)
    ensures token0 == base | ExtendedField(ext)
  {
    token0 := base;
    if ext { token0 := token0 | EXTENDED_BIT; }
  }

  lemma Composed(numComponents: Byte, mode: Word, ty: Byte, dims: nat, reps: Word, ext: bool)
    requires dims <= 3
    ensures Token(numComponents, mode, ty, dims, reps, ext)
         == (NumComponentsField(numComponents) | ComponentModeField(mode) | TypeField(ty) | DimensionField(dims))
            | reps | ExtendedField(ext)
  {
    hide NumComponentsField, ComponentModeField, TypeField, DimensionField, ExtendedField;
  }

  method OrRepresentations(base: Word, entries: seq<Index>, indexDims: nat) returns (token0: Word)
    requires indexDims <= 3 && indexDims <= |entries|
    ensures token0 == base | RepresentationFields(entries, indexDims)
  {
    hide RepresentationField;
    token0 := base;
    OrZero(base);
    for dim := 0 to indexDims
      invariant token0 == base | RepresentationFields(entries, dim)
    {
      OrAssociates(base, RepresentationFields(entries, dim), RepresentationField(dim, entries[dim].representation));
      token0 := token0 | RepresentationField(dim, entries[dim].representation);
    }
  }

  lemma OrZero(a: Word)
    ensures a | 0 == a
  {
  }

  lemma OrAssociates(a: Word, b: Word, c: Word)
    ensures (a | b) | c == a | (b | c)
  {
  }

  /** Pushes the words that are present. */
  method PresentWords(lo: Option<Word>, hi: Option<Word>) returns (tokens: seq<Word>)
    ensures tokens == EncodeOptional(lo) + EncodeOptional(hi)
  {
    tokens := [];
    if lo.Some? { tokens := tokens + [lo.value]; }
    if hi.Some? { tokens := tokens + [hi.value]; }
  }

  method EncodeIndexWords(index: Index) returns (encoded: seq<Word>)
    ensures encoded == EncodeIndex(index)
    decreases index
  {
    hide EncodeOperand;
    encoded := [];
    match index.representation {
      case Immediate32 | Immediate32PlusRelative =>
        encoded := PresentWords(index.lo, None);
      case Immediate64 | Immediate64PlusRelative =>
        encoded := PresentWords(index.lo, index.hi);
      case Relative =>
    }
    if index.relative.Some? {
      var rel := Encode(index.relative.value);
      encoded := encoded + rel;
    }
  }

  method Encode(o: Operand) returns (encoded: seq<Word>)
    ensures encoded == EncodeOperand(o)
    decreases o
  {
    hide EncodeOperandToken0, ModifierToken, EncodeIndices, EncodeImmediates;
    var token0 := Token0(o);
    var ext: seq<Word> := [];
    if o.modifier != 0 { ext := [ModifierToken(o.modifier)]; }
    var payload: seq<Word> := [];
    if IsImmediateType(o.ty) {
      payload := EncodeImmediateWords(o.entries);
    } else {
      payload := EncodeIndexList(o.entries);
    }
    var rel: seq<Word> := [];
    if o.relative.Some? && o.entries == [] { rel := Encode(o.relative.value); }
    encoded := [token0] + ext + payload + rel;
  }

  method EncodeImmediateWords(entries: seq<Index>) returns (encoded: seq<Word>)
    ensures encoded == EncodeImmediates(entries)
  {
    hide EncodeOptional;
    encoded := [];
    for i := 0 to |entries|
      invariant encoded + EncodeImmediates(entries[i..]) == EncodeImmediates(entries)
    {
      var index := entries[i];
      ghost var rest := EncodeImmediates(entries[i..][1..]);
      assert entries[i..][1..] == entries[i + 1..];
      var tokens := PresentWords(index.lo, index.hi);
      assert encoded + (tokens + rest) == encoded + tokens + rest;
      encoded := encoded + tokens;
    }
  }

  method EncodeIndexList(entries: seq<Index>) returns (encoded: seq<Word>)
    ensures encoded == EncodeIndices(entries)
    decreases entries
  {
    hide EncodeIndex;
    encoded := [];
    for i := 0 to |entries|
      invariant encoded + EncodeIndices(entries[i..]) == EncodeIndices(entries)
    {
      ghost var rest := EncodeIndices(entries[i..][1..]);
      assert entries[i..][1..] == entries[i + 1..];
      var tokens := EncodeIndexWords(entries[i]);
      assert encoded + (tokens + rest) == encoded + tokens + rest;
      encoded := encoded + tokens;
    }
  }

  /** ParseOperand; the C++ passes the cursor by reference, so the advanced cursor is a result. */
  method Parse(words: seq<Word>, total: nat, end: nat, start: nat) returns (operand: Operand, cursor: nat)
    requires start <= end <= |words|
    ensures Parsed(operand, cursor) == ParseOperand(words, total, end, start)
    decreases end - start, 0
  {
    hide TypeOf, NumComponentsOf, ComponentModeOf, DimensionOf, IsExtended, RepresentationOf;
    hide IsModifierToken, ModifierOf;
    cursor := start;
    if cursor >= total || cursor >= end {
      operand := EMPTY_OPERAND;
      return;
    }
    var token := words[cursor];
    var modifier: Byte;
    modifier, cursor := ParseExtensionTokens(words, end, cursor + 1, token);
    var entries, immediates: seq<Index>;
    entries, cursor := ParseIndexEntries(words, total, end, cursor, token);
    var count := ImmediateCount(TypeOf(token), NumComponentsOf(token));
    immediates, cursor := ParseImmediateEntries(words, end, cursor, count);
    operand := Operand(TypeOf(token), NumComponentsOf(token), ComponentModeOf(token), entries + immediates, modifier,
                       None, start, cursor - start);
  }

  /** ParseOperand's extended tokens: a modifier is taken from the first, the rest are skipped. */
  method ParseExtensionTokens(words: seq<Word>, end: nat, start: nat, token: Word) returns (modifier: Byte, cursor: nat)
    requires start <= end <= |words|
    ensures Parsed(modifier, cursor) == ParseExtension(words, end, start, token)
  {
    hide IsExtended, IsModifierToken, ModifierOf;
    modifier, cursor := 0, start;
    if IsExtended(token) && cursor < end {
      var ext := words[cursor];
      if IsModifierToken(ext) { modifier := ModifierOf(ext); }
      cursor := cursor + 1;
      ghost var chain := SkipExtended(words, end, cursor, ext);
      while IsExtended(ext) && cursor < end
        invariant cursor <= end
        invariant SkipExtended(words, end, cursor, ext) == chain
      {
        ext := words[cursor];
        cursor := cursor + 1;
      }
    }
  }

  /** ParseOperand's loop over the immediate dwords. */
  method ParseImmediateEntries(words: seq<Word>, end: nat, start: nat, count: nat)
    returns (entries: seq<Index>, cursor: nat)
    requires start <= end <= |words|
    ensures Parsed(entries, cursor) == ParseImmediates(words, end, start, count)
  {
    entries, cursor := [], start;
    var i := 0;
    ghost var all := ParseImmediates(words, end, start, count);
    while i < count && cursor < end
      invariant i <= count && start <= cursor <= end
      invariant entries + ParseImmediates(words, end, cursor, count - i).value == all.value
      invariant ParseImmediates(words, end, cursor, count - i).cursor == all.cursor
    {
      var next := ImmediateIndex(words[cursor]);
      ghost var rest := ParseImmediates(words, end, cursor + 1, count - (i + 1));
      assert entries + ([next] + rest.value) == entries + [next] + rest.value;
      entries := entries + [next];
      cursor := cursor + 1;
      i := i + 1;
    }
    assert entries + [] == entries;
  }

  /** ParseOperand's loop over the index dimensions. */
  method ParseIndexEntries(words: seq<Word>, total: nat, end: nat, start: nat, token: Word)
    returns (entries: seq<Index>, cursor: nat)
    requires start <= end <= |words|
    ensures Parsed(entries, cursor) == ParseIndices(words, total, end, start, token, 0)
    decreases end - start, 5
  {
    hide DimensionOf, RepresentationOf, ParseOperand;
    entries, cursor := [], start;
    var dim := 0;
    ghost var all := ParseIndices(words, total, end, start, token, 0);
    while dim < DimensionOf(token) && dim < 3 && cursor < end
      invariant dim <= 3 && start <= cursor <= end
      invariant entries + ParseIndices(words, total, end, cursor, token, dim).value == all.value
      invariant ParseIndices(words, total, end, cursor, token, dim).cursor == all.cursor
      decreases 3 - dim
    {
      var representation := RepresentationOf(dim, token);
      ghost var index := ParseIndex(words, total, end, cursor, representation);
      ghost var rest := ParseIndices(words, total, end, index.cursor, token, dim + 1);
      assert entries + ([index.value] + rest.value) == entries + [index.value] + rest.value;
      if representation == Immediate32 {
        entries := entries + [ImmediateIndex(words[cursor])];
        cursor := cursor + 1;
      } else if representation == Immediate64 && cursor + 1 < end {
        entries := entries + [Index(Immediate64, Some(words[cursor]), Some(words[cursor + 1]), None)];
        cursor := cursor + 2;
      } else if representation == Relative || representation == Immediate32PlusRelative {
        var lo: Option<Word> := None;
        if representation == Immediate32PlusRelative {
          lo := Some(words[cursor]);
          cursor := cursor + 1;
        }
        var rel: Operand;
        rel, cursor := Parse(words, total, end, cursor);
        entries := entries + [Index(representation, lo, None, Some(rel))];
      } else {
        entries := entries + [Index(Immediate32, None, None, None)];
      }
      dim := dim + 1;
    }
    assert entries + [] == entries;
  }
}
