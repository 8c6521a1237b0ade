/** Bit fields of the operand token and of the extended operand token
    (D3D11 Tokenized Program Format). */
module OperandToken {
  import opened Words
  import opened Sm5Model

  const COMPONENT_MODE_BITS: Word := 0xffc
  const EXTENDED_BIT: Word := 0x8000_0000
  const MODIFIER_TYPE: Word := 1

  function NumComponentsOf(token: Word): Byte { (token & 3) as bv8 }
  function ComponentModeOf(token: Word): Word { token & COMPONENT_MODE_BITS }
  function TypeOf(token: Word): Byte { ((token & 0x000f_f000) >> 12) as bv8 }
  predicate IsExtended(token: Word) { token & EXTENDED_BIT != 0 }

  /** The 2-bit index-dimension field. */
  function DimensionOf(token: Word): (n: nat)
    ensures n <= 3
  {
    var field := (token & 0x0030_0000) >> 20;
    if field == 0 then 0 else if field == 1 then 1 else if field == 2 then 2 else 3
  }

  function NumComponentsField(numComponents: Byte): Word { (numComponents as bv32) & 3 }
  function ComponentModeField(mode: Word): Word { mode & COMPONENT_MODE_BITS }
  function TypeField(ty: Byte): Word { ((ty as bv32) << 12) & 0x000f_f000 }
  function ExtendedField(ext: bool): Word { if ext then EXTENDED_BIT else 0 }

  function DimensionField(dims: nat): Word
    requires dims <= 3
  {
    var field: Word := if dims == 0 then 0 else if dims == 1 then 1 else if dims == 2 then 2 else 3;
    (field << 20) & 0x0030_0000
  }

  function RepresentationCode(r: Representation): Word {
    match r
    case Immediate32 => 0
    case Immediate64 => 1
    case Relative => 2
    case Immediate32PlusRelative => 3
    case Immediate64PlusRelative => 4
  }

  /** The format reserves three bits per dimension, but the encode and decode macros mask two. */
  function RepresentationField(dim: nat, r: Representation): Word
    requires dim < 3
  {
    if dim == 0 then (RepresentationCode(r) << 22) & 0x00c0_0000
    else if dim == 1 then (RepresentationCode(r) << 25) & 0x0600_0000
    else (RepresentationCode(r) << 28) & 0x3000_0000
  }

  /** A 2-bit field, so code 4 (Immediate64PlusRelative) is never read back. */
  function RepresentationOf(dim: nat, token: Word): (r: Representation)
    requires dim < 3
    ensures r != Immediate64PlusRelative
  {
    var field := if dim == 0 then (token & 0x00c0_0000) >> 22
                 else if dim == 1 then (token & 0x0600_0000) >> 25
                 else (token & 0x3000_0000) >> 28;
    if field == 0 then Immediate32
    else if field == 1 then Immediate64
    else if field == 2 then Relative
    else Immediate32PlusRelative
  }

  /** ENCODE_D3D10_SB_EXTENDED_OPERAND_MODIFIER */
  function ModifierToken(modifier: Byte): Word {
    (((modifier as bv32) << 6) & 0x3fc0) | MODIFIER_TYPE
  }

  predicate IsModifierToken(ext: Word) { ext & 0x3f == MODIFIER_TYPE }
  function ModifierOf(ext: Word): Byte { ((ext & 0x3fc0) >> 6) as bv8 }

  lemma ModifierTokenFields(modifier: Byte)
    ensures var ext := ModifierToken(modifier);
            IsModifierToken(ext) && ModifierOf(ext) == modifier && !IsExtended(ext)
  {
  }

  /** The representation fields of the first `k` entries. */
  function RepresentationFields(entries: seq<Index>, k: nat): Word
    requires k <= |entries| && k <= 3
  {
    if k == 0 then 0
    else RepresentationFields(entries, k - 1) | RepresentationField(k - 1, entries[k - 1].representation)
  }

  /** The bitwise union of the operand token's fields. */
  function Compose(n: Word, m: Word, y: Word, d: Word, r: Word, e: Word): Word {
    n | m | y | d | r | e
  }

  lemma DisjointFields(n: Word, m: Word, y: Word, d: Word, r: Word, e: Word)
    requires n & !3 == 0 && m & !COMPONENT_MODE_BITS == 0 && y & !0x000f_f000 == 0
    requires d & !0x0030_0000 == 0 && r & !0x36c0_0000 == 0 && e & !EXTENDED_BIT == 0
    ensures var t := Compose(n, m, y, d, r, e);
            && t & 3 == n && t & COMPONENT_MODE_BITS == m && t & 0x000f_f000 == y
            && t & 0x0030_0000 == d && t & 0x36c0_0000 == r && t & EXTENDED_BIT == e
  {
  }

  lemma FieldsMasked(numComponents: Byte, mode: Word, ty: Byte, dims: nat, ext: bool)
    requires dims <= 3
    ensures NumComponentsField(numComponents) & !3 == 0
    ensures ComponentModeField(mode) & !COMPONENT_MODE_BITS == 0
    ensures TypeField(ty) & !0x000f_f000 == 0
    ensures DimensionField(dims) & !0x0030_0000 == 0
    ensures ExtendedField(ext) & !EXTENDED_BIT == 0
  {
  }

  lemma FieldsRead(numComponents: Byte, mode: Word, ty: Byte, dims: nat, ext: bool, token: Word)
    requires dims <= 3
    ensures token & 3 == NumComponentsField(numComponents) ==> NumComponentsOf(token) == numComponents & 3
    ensures token & 0x000f_f000 == TypeField(ty) ==> TypeOf(token) == ty
    ensures token & 0x0030_0000 == DimensionField(dims) ==> DimensionOf(token) == dims
    ensures token & EXTENDED_BIT == ExtendedField(ext) ==> IsExtended(token) == ext
  {
  }

  /** EncodeOperandToken0, given the representation fields. */
  function Token(numComponents: Byte, mode: Word, ty: Byte, dims: nat, reps: Word, ext: bool): Word
    requires dims <= 3
  {
    Compose(NumComponentsField(numComponents), ComponentModeField(mode), TypeField(ty), DimensionField(dims), reps,
            ExtendedField(ext))
  }

  /** Reading back a composed token: every field but the number of components (two bits) and the
      component mode (ten bits) survives whatever its value. */
  lemma TokenFields(numComponents: Byte, mode: Word, ty: Byte, dims: nat, reps: Word, ext: bool)
    requires dims <= 3 && reps & !0x36c0_0000 == 0
    ensures var t := Token(numComponents, mode, ty, dims, reps, ext);
            && NumComponentsOf(t) == numComponents & 3
            && ComponentModeOf(t) == mode & COMPONENT_MODE_BITS
            && TypeOf(t) == ty
            && DimensionOf(t) == dims
            && IsExtended(t) == ext
            && t & 0x36c0_0000 == reps
  {
    hide NumComponentsField, TypeField, DimensionField, ExtendedField;
    hide NumComponentsOf, TypeOf, DimensionOf, IsExtended, Compose;
    FieldsMasked(numComponents, mode, ty, dims, ext);
    DisjointFields(NumComponentsField(numComponents), ComponentModeField(mode), TypeField(ty), DimensionField(dims),
                   reps, ExtendedField(ext));
    FieldsRead(numComponents, mode, ty, dims, ext, Token(numComponents, mode, ty, dims, reps, ext));
  }

  lemma RepresentationFieldsMasked(entries: seq<Index>, k: nat)
    requires k <= |entries| && k <= 3
    ensures RepresentationFields(entries, k) & !0x36c0_0000 == 0
  {
  }

  /** Every dimension's representation is read back, except that code 4 reads back as 0. */
  lemma RepresentationFieldsRead(entries: seq<Index>, k: nat, dim: nat, token: Word)
    requires dim < k <= |entries| && k <= 3
    requires token & 0x36c0_0000 == RepresentationFields(entries, k)
    ensures RepresentationOf(dim, token)
         == (if entries[dim].representation == Immediate64PlusRelative then Immediate32
             else entries[dim].representation)
  {
    var r0 := RepresentationField(0, entries[0].representation);
    assert RepresentationFields(entries, 1) == r0;
    if k >= 2 {
      var r1 := RepresentationField(1, entries[1].representation);
      assert RepresentationFields(entries, 2) == r0 | r1;
      if k == 3 {
        var r2 := RepresentationField(2, entries[2].representation);
        assert RepresentationFields(entries, 3) == r0 | r1 | r2;
      }
    }
  }
}
