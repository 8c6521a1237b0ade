/** HLSL constant-buffer packing of recipe-declared fields. */
module CBufferLayout {
  import opened Words

  const ROW_BYTES := 16

  datatype ComponentType = F32 | U32 | I32 | OtherComponent

  /** A parsed default value; array entries that are not numbers are None. */
  datatype Default =
    | NoDefault
    | BoolDefault(value: bool)
    | NumberDefault(number: real)
    | ArrayDefault(entries: seq<Option<real>>)
    | OtherDefault

  datatype FieldData = FieldData(name: string, ty: ComponentType, width: nat, offset: Option<nat>, default: Default)

  datatype Field = Field(name: string, ty: ComponentType, width: nat, offset: nat, defaults: seq<real>)

  datatype Layout = Layout(typeName: string, size: nat, fields: seq<Field>)

  datatype Error =
    | EmptyName
    | DuplicateName
    | UnsupportedType
    | UnsupportedWidth
    | MisalignedOffset
    | OutOfOrder
    | StraddlesRow
    | BadDefault
    | SizeTooSmall

  datatype Result<T> = Ok(value: T) | Err(error: Error)

  /** AlignUp to a row. */
  function AlignRow(value: nat): nat { Wrap(value + 15) / 16 * 16 }

  function WidthOf(d: FieldData): nat { if d.width == 0 then 1 else d.width }

  /** Four bytes a component. */
  function Bytes(width: nat): nat { 4 * width }

  predicate Aligned(offset: nat) { offset % 4 == 0 }

  predicate Straddles(offset: nat, bytes: nat) { offset % 16 + bytes > 16 }

  predicate Named(fields: seq<Field>, name: string) { exists i :: 0 <= i < |fields| && fields[i].name == name }

  /** Where a field goes after `cursor`. */
  function PlaceField(d: FieldData, cursor: nat): Result<nat> {
    var bytes := Bytes(WidthOf(d));
    if d.offset.Some? && !Aligned(d.offset.value) then Err(MisalignedOffset)
    else if d.offset.Some? && d.offset.value < cursor then Err(OutOfOrder)
    else
      var offset := if d.offset.Some? then d.offset.value
                    else if Straddles(cursor, bytes) then AlignRow(cursor)
                    else cursor;
      if Straddles(offset, bytes) then Err(StraddlesRow) else Ok(offset)
  }

  function Repeated(width: nat, x: real): seq<real> { seq(width, i => x) }

  function Numbers(entries: seq<Option<real>>): (r: seq<real>)
    requires forall e <- entries :: e.Some?
    ensures |r| == |entries|
  {
    seq(|entries|, i requires 0 <= i < |entries| => entries[i].value)
  }

  /** One value per component: a bool or a number for all of them, or a list of exactly as many numbers. */
  function DefaultValues(default: Default, width: nat): Result<seq<real>> {
    match default
    case NoDefault => Ok([])
    case BoolDefault(b) => Ok(Repeated(width, if b then 1.0 else 0.0))
    case NumberDefault(x) => Ok(Repeated(width, x))
    case ArrayDefault(entries) =>
      if (forall e <- entries :: e.Some?) && |entries| == width then Ok(Numbers(entries)) else Err(BadDefault)
    case OtherDefault => Err(BadDefault)
  }

  function BuildField(d: FieldData, fields: seq<Field>, cursor: nat): Result<Field> {
    if d.name == "" then Err(EmptyName)
    else if Named(fields, d.name) then Err(DuplicateName)
    else if d.ty == OtherComponent then Err(UnsupportedType)
    else if WidthOf(d) > 4 then Err(UnsupportedWidth)
    else
      match PlaceField(d, cursor)
      case Err(e) => Err(e)
      case Ok(offset) =>
        match DefaultValues(d.default, WidthOf(d))
        case Err(e) => Err(e)
        case Ok(values) => Ok(Field(d.name, d.ty, WidthOf(d), offset, values))
  }

  datatype Placed = Placed(fields: seq<Field>, cursor: nat)

  /** The first `n` fields, in order. */
  function BuildFields(data: seq<FieldData>, n: nat): Result<Placed>
    requires n <= |data|
  {
    if n == 0 then Ok(Placed([], 0))
    else
      match BuildFields(data, n - 1)
      case Err(e) => Err(e)
      case Ok(placed) =>
        match BuildField(data[n - 1], placed.fields, placed.cursor)
        case Err(e) => Err(e)
        case Ok(f) => Ok(Placed(placed.fields + [f], Wrap(f.offset + Bytes(f.width))))
  }

  function SizeOf(declaredSize: nat, cursor: nat): Result<nat> {
    if declaredSize != 0 && declaredSize < cursor then Err(SizeTooSmall)
    else if declaredSize != 0 then Ok(declaredSize)
    else Ok(if AlignRow(cursor) < ROW_BYTES then ROW_BYTES else AlignRow(cursor))
  }

  /** BuildCBufferLayout */
  function Build(handle: string, typeName: string, declaredSize: nat, data: seq<FieldData>): Result<Layout> {
    match BuildFields(data, |data|)
    case Err(e) => Err(e)
    case Ok(placed) =>
      match SizeOf(declaredSize, placed.cursor)
      case Err(e) => Err(e)
      case Ok(size) => Ok(Layout(if typeName == "" then handle else typeName, size, placed.fields))
  }

  method FindField(fields: seq<Field>, name: string) returns (found: bool)
    ensures found == Named(fields, name)
  {
    for i := 0 to |fields|
      invariant forall k :: 0 <= k < i ==> fields[k].name != name
    {
      if fields[i].name == name { return true; }
    }
    found := false;
  }

  /** One turn of BuildCBufferLayout's loop. */
  method BuildOne(d: FieldData, fields: seq<Field>, cursor: nat) returns (r: Result<Field>)
    ensures r == BuildField(d, fields, cursor)
  {
    hide Named, DefaultValues, Straddles, AlignRow;
    var width := WidthOf(d);
    if d.name == "" { return Err(EmptyName); }
    var duplicate := FindField(fields, d.name);
    if duplicate { return Err(DuplicateName); }
    if d.ty == OtherComponent { return Err(UnsupportedType); }
    if width > 4 { return Err(UnsupportedWidth); }
    var bytes := Bytes(width);
    var offset := cursor;
    if d.offset.Some? {
      offset := d.offset.value;
      if !Aligned(offset) { return Err(MisalignedOffset); }
      if offset < cursor { return Err(OutOfOrder); }
    } else if Straddles(offset, bytes) {
      offset := AlignRow(offset);
    }
    if Straddles(offset, bytes) { return Err(StraddlesRow); }
    var values := DefaultValues(d.default, width);
    if values.Err? { return Err(values.error); }
    r := Ok(Field(d.name, d.ty, width, offset, values.value));
  }

  method BuildCBufferLayout(handle: string, typeName: string, declaredSize: nat, data: seq<FieldData>)
    returns (r: Result<Layout>)
    ensures r == Build(handle, typeName, declaredSize, data)
  {
    hide BuildField, AlignRow;
    var fields, cursor := [], 0;
    for n := 0 to |data|
      invariant BuildFields(data, n) == Ok(Placed(fields, cursor))
    {
      FailsAtOnce(data, n + 1);
      var field := BuildOne(data[n], fields, cursor);
      if field.Err? { return Err(field.error); }
      fields := fields + [field.value];
      cursor := Wrap(field.value.offset + Bytes(field.value.width));
    }
    if declaredSize != 0 && declaredSize < cursor { return Err(SizeTooSmall); }
    var packed := AlignRow(cursor);
    if packed < ROW_BYTES { packed := ROW_BYTES; }
    var size := if declaredSize != 0 then declaredSize else packed;
    r := Ok(Layout(if typeName == "" then handle else typeName, size, fields));
  }

  lemma {:induction false} FailsAtOnce(data: seq<FieldData>, n: nat)
    requires n <= |data|
    ensures BuildFields(data, n).Err? ==> BuildFields(data, |data|) == BuildFields(data, n)
    decreases |data| - n
  {
    hide BuildField;
    if n < |data| { FailsAtOnce(data, n + 1); }
  }

  // ---------------------------------------------------------------- what packing promises

  function EndOf(f: Field): nat { f.offset + Bytes(f.width) }

  /** Distinct names; ascending, disjoint, 4-aligned, within one row, within the size. */
  predicate Legal(l: Layout) {
    && (forall i, j :: 0 <= i < j < |l.fields| ==> l.fields[i].name != l.fields[j].name)
    && (forall i :: 0 <= i < |l.fields| ==> LegalField(l.fields[i]) && EndOf(l.fields[i]) <= l.size)
    && (forall i, j :: 0 <= i < j < |l.fields| ==> EndOf(l.fields[i]) <= l.fields[j].offset)
  }

  predicate LegalField(f: Field) {
    && f.name != "" && f.ty != OtherComponent && 1 <= f.width <= 4
    && Aligned(f.offset) && !Straddles(f.offset, Bytes(f.width))
  }

  // The packing without 32-bit wrap-around: where the declared fields really have to go.

  function RoundUp(n: nat): nat { (n + 15) / 16 * 16 }

  function IdealOffset(d: FieldData, cursor: nat): nat {
    if d.offset.Some? then d.offset.value
    else if Straddles(cursor, Bytes(WidthOf(d))) then RoundUp(cursor)
    else cursor
  }

  function IdealCursor(data: seq<FieldData>, n: nat): nat
    requires n <= |data|
  {
    if n == 0 then 0 else IdealOffset(data[n - 1], IdealCursor(data, n - 1)) + Bytes(WidthOf(data[n - 1]))
  }

  /** The fields end below 4 GiB, and so does the row the default size rounds up to. */
  predicate Fits(declaredSize: nat, data: seq<FieldData>) {
    && (forall n :: 0 <= n <= |data| ==> IdealCursor(data, n) < WORD_LIMIT)
    && (declaredSize == 0 ==> IdealCursor(data, |data|) <= WORD_LIMIT - ROW_BYTES)
  }

  predicate WordFields(data: seq<FieldData>) { forall d <- data :: d.offset.Some? ==> d.offset.value < WORD_LIMIT }

  /** Where an accepted field is, wrapped or not. */
  lemma PlaceShape(d: FieldData, cursor: nat)
    requires PlaceField(d, cursor).Ok? && Aligned(cursor) && cursor < WORD_LIMIT
    requires d.offset.Some? ==> d.offset.value < WORD_LIMIT
    ensures var o := PlaceField(d, cursor).value;
            && o < WORD_LIMIT && Aligned(o) && !Straddles(o, Bytes(WidthOf(d)))
            && (o == IdealOffset(d, cursor) || (o == 0 && cursor > WORD_LIMIT - ROW_BYTES))
            && (d.offset.Some? ==> o == d.offset.value >= cursor)
  {
    hide AlignRow, Straddles, Aligned, RoundUp, Bytes;
    AlignRowShape(cursor);
  }

  /** What every accepted field is. */
  lemma FieldShape(d: FieldData, fields: seq<Field>, cursor: nat)
    requires BuildField(d, fields, cursor).Ok? && Aligned(cursor) && cursor < WORD_LIMIT
    requires d.offset.Some? ==> d.offset.value < WORD_LIMIT
    ensures var f := BuildField(d, fields, cursor).value;
            && LegalField(f) && f.name == d.name && f.width == WidthOf(d) && f.offset < WORD_LIMIT
            && !Named(fields, f.name)
            && (f.offset == IdealOffset(d, cursor) || (f.offset == 0 && cursor > WORD_LIMIT - ROW_BYTES))
            && EndOf(f) <= WORD_LIMIT && Aligned(EndOf(f))
  {
    hide DefaultValues, Named, PlaceField, IdealOffset, Straddles, Aligned, Bytes;
    PlaceShape(d, cursor);
    var f := BuildField(d, fields, cursor).value;
    RowEnd(f.offset, f.width);
  }

  lemma WrapOnce(n: nat)
    requires WORD_LIMIT <= n < WORD_LIMIT + ROW_BYTES
    ensures Wrap(n) == n - WORD_LIMIT
  {
  }

  lemma AlignRowShape(cursor: nat)
    requires cursor < WORD_LIMIT
    ensures Aligned(AlignRow(cursor)) && AlignRow(cursor) < WORD_LIMIT
    ensures cursor <= WORD_LIMIT - ROW_BYTES ==> AlignRow(cursor) == RoundUp(cursor)
    ensures cursor > WORD_LIMIT - ROW_BYTES ==> AlignRow(cursor) == 0
  {
    hide Wrap;
    if cursor > WORD_LIMIT - ROW_BYTES { WrapOnce(cursor + 15); }
    var q := Wrap(cursor + 15) / 16;
    assert AlignRow(cursor) == 4 * (4 * q);
  }

  lemma RoundUpShape(cursor: nat)
    ensures cursor <= RoundUp(cursor) < cursor + ROW_BYTES && RoundUp(cursor) % 16 == 0
    ensures cursor > WORD_LIMIT - ROW_BYTES ==> RoundUp(cursor) >= WORD_LIMIT
  {
  }

  lemma RowEnd(offset: nat, width: nat)
    requires Aligned(offset) && !Straddles(offset, Bytes(width)) && offset < WORD_LIMIT
    ensures offset + Bytes(width) <= WORD_LIMIT && Aligned(offset + Bytes(width))
  {
  }

  lemma {:induction false} FieldsShape(data: seq<FieldData>, n: nat)
    requires n <= |data| && BuildFields(data, n).Ok? && WordFields(data)
    ensures var p := BuildFields(data, n).value;
            && |p.fields| == n && Aligned(p.cursor) && p.cursor < WORD_LIMIT
            && (forall i :: 0 <= i < n ==> LegalField(p.fields[i]) && EndOf(p.fields[i]) <= WORD_LIMIT)
            && (forall i, j :: 0 <= i < j < n ==> p.fields[i].name != p.fields[j].name)
            && (n > 0 ==> p.cursor == Wrap(EndOf(p.fields[n - 1])))
  {
    hide LegalField, BuildField, Aligned, Wrap;
    if n == 0 {
      WrapAligned(0);
    } else {
      FieldsShape(data, n - 1);
      var before := BuildFields(data, n - 1).value;
      assert data[n - 1] in data;
      FieldShape(data[n - 1], before.fields, before.cursor);
      WrapAligned(EndOf(BuildField(data[n - 1], before.fields, before.cursor).value));
    }
  }

  lemma WrapAligned(end: nat)
    requires end <= WORD_LIMIT
    ensures Aligned(end) ==> Aligned(Wrap(end))
    ensures Aligned(0)
  {
  }

  /** A field placed where it belongs after `cursor`, leaving the cursor at `next`. */
  predicate OnTrack(d: FieldData, cursor: nat, next: nat, f: Field) {
    f.offset == IdealOffset(d, cursor) >= cursor && f.width == WidthOf(d) && EndOf(f) == next
  }

  /** While the ideal cursor stays below 2^32, the code places every field where it belongs. */
  lemma {:induction false} Tracks(data: seq<FieldData>, n: nat)
    requires n <= |data| && BuildFields(data, n).Ok? && WordFields(data)
    requires forall k :: 0 <= k <= n ==> IdealCursor(data, k) < WORD_LIMIT
    ensures var p := BuildFields(data, n).value;
            && p.cursor == IdealCursor(data, n) && |p.fields| == n
            && forall i :: 0 <= i < n ==> OnTrack(data[i], IdealCursor(data, i), IdealCursor(data, i + 1), p.fields[i])
  {
    hide BuildField, LegalField, OnTrack, Wrap, Aligned;
    if n > 0 {
      Tracks(data, n - 1);
      FieldsShape(data, n - 1);
      var before := BuildFields(data, n - 1).value;
      assert IdealCursor(data, n) < WORD_LIMIT;
      PlacedIdeally(data[n - 1], before.fields, before.cursor);
      LastOnTrack(data, n, BuildField(data[n - 1], before.fields, before.cursor).value);
    }
  }

  lemma LastOnTrack(data: seq<FieldData>, n: nat, f: Field)
    requires 0 < n <= |data| && f.width == WidthOf(data[n - 1])
    requires f.offset == IdealOffset(data[n - 1], IdealCursor(data, n - 1)) >= IdealCursor(data, n - 1)
    ensures OnTrack(data[n - 1], IdealCursor(data, n - 1), IdealCursor(data, n), f) && EndOf(f) == IdealCursor(data, n)
  {
    hide IdealOffset;
  }

  lemma PlacedIdeally(d: FieldData, fields: seq<Field>, cursor: nat)
    requires BuildField(d, fields, cursor).Ok? && Aligned(cursor) && cursor < WORD_LIMIT
    requires IdealOffset(d, cursor) + Bytes(WidthOf(d)) < WORD_LIMIT
    ensures var f := BuildField(d, fields, cursor).value;
            f.offset == IdealOffset(d, cursor) >= cursor && f.width == WidthOf(d)
  {
    hide DefaultValues, Named, Straddles, AlignRow, Aligned, Bytes;
    RoundUpShape(cursor);
    AlignRowShape(cursor);
  }

  lemma {:induction false} IdealGrows(data: seq<FieldData>, i: nat, j: nat)
    requires i <= j <= |data|
    requires forall k :: i <= k < j ==> IdealOffset(data[k], IdealCursor(data, k)) >= IdealCursor(data, k)
    ensures IdealCursor(data, i) <= IdealCursor(data, j)
    decreases j
  {
    hide IdealOffset;
    if i < j { IdealGrows(data, i, j - 1); }
  }

  /** An accepted layout whose fields end below 2^32 is legal. */
  lemma FittingIsLegal(handle: string, typeName: string, declaredSize: nat, data: seq<FieldData>)
    requires Build(handle, typeName, declaredSize, data).Ok? && WordFields(data) && Fits(declaredSize, data)
    ensures Legal(Build(handle, typeName, declaredSize, data).value)
  {
    hide LegalField, IdealOffset, IdealCursor, BuildFields;
    var l := Build(handle, typeName, declaredSize, data).value;
    var n := |data|;
    Tracks(data, n);
    FieldsShape(data, n);
    assert IdealCursor(data, n) < WORD_LIMIT;
    AlignRowShape(IdealCursor(data, n));
    forall k | 0 <= k < n
      ensures IdealOffset(data[k], IdealCursor(data, k)) >= IdealCursor(data, k)
      ensures l.fields[k].offset >= IdealCursor(data, k) && EndOf(l.fields[k]) == IdealCursor(data, k + 1)
    {
      assert OnTrack(data[k], IdealCursor(data, k), IdealCursor(data, k + 1), l.fields[k]);
    }
    forall i, j | 0 <= i < j <= n ensures EndOf(l.fields[i]) <= IdealCursor(data, j) {
      IdealGrows(data, i + 1, j);
    }
  }

  /** At the first field that reaches 2^32 the code's offset wraps to zero, or its cursor does. */
  lemma Overflows(data: seq<FieldData>, n: nat)
    requires n < |data| && BuildFields(data, n + 1).Ok? && WordFields(data)
    requires (forall k :: 0 <= k <= n ==> IdealCursor(data, k) < WORD_LIMIT) && IdealCursor(data, n + 1) >= WORD_LIMIT
    ensures var fields := BuildFields(data, n + 1).value.fields;
            |fields| == n + 1 && (EndOf(fields[n]) == WORD_LIMIT || (fields[n].offset == 0 && n > 0))
  {
    hide BuildField, LegalField, IdealOffset;
    Tracks(data, n);
    FieldsShape(data, n);
    var before := BuildFields(data, n).value;
    assert data[n] in data;
    FieldShape(data[n], before.fields, before.cursor);
  }

  lemma {:induction false} PrefixFields(data: seq<FieldData>, k: nat, n: nat)
    requires k <= n <= |data| && BuildFields(data, n).Ok?
    ensures |BuildFields(data, n).value.fields| == n
    ensures BuildFields(data, k).Ok? && BuildFields(data, k).value.fields == BuildFields(data, n).value.fields[..k]
    decreases n
  {
    hide BuildField;
    if n > 0 {
      PrefixFields(data, if k < n then k else n - 1, n - 1);
    }
  }

  /** A legal layout's fields were placed without wrap-around. */
  lemma {:induction false} LegalNeverOverflows(handle: string, typeName: string, declaredSize: nat,
                                               data: seq<FieldData>, n: nat)
    requires Build(handle, typeName, declaredSize, data).Ok? && WordFields(data) && declaredSize < WORD_LIMIT
    requires Legal(Build(handle, typeName, declaredSize, data).value) && n <= |data|
    ensures forall k :: 0 <= k <= n ==> IdealCursor(data, k) < WORD_LIMIT
  {
    hide BuildFields, LegalField, IdealOffset;
    if n > 0 {
      LegalNeverOverflows(handle, typeName, declaredSize, data, n - 1);
      var l := Build(handle, typeName, declaredSize, data).value;
      PrefixFields(data, n, |data|);
      PrefixFields(data, n, n);
      assert l.fields[..n][n - 1] == l.fields[n - 1];
      if IdealCursor(data, n) >= WORD_LIMIT {
        Overflows(data, n - 1);
        assert EndOf(l.fields[n - 1]) <= l.size < WORD_LIMIT;
        assert EndOf(l.fields[0]) <= l.fields[n - 1].offset;
        assert LegalField(l.fields[0]);
        FieldNotEmpty(l.fields[0]);
      }
    }
  }

  lemma FieldNotEmpty(f: Field)
    requires LegalField(f)
    ensures EndOf(f) > f.offset
  {
  }

  /** Main result: an accepted layout has distinct, ascending, disjoint, 4-aligned fields, none straddling a
      row and all inside the size, if and only if no 32-bit cursor overflows while packing it. */
  lemma PackingExactly(handle: string, typeName: string, declaredSize: nat, data: seq<FieldData>)
    requires Build(handle, typeName, declaredSize, data).Ok? && WordFields(data) && declaredSize < WORD_LIMIT
    ensures Legal(Build(handle, typeName, declaredSize, data).value) <==> Fits(declaredSize, data)
  {
    hide BuildFields, LegalField, IdealOffset, IdealCursor;
    var l := Build(handle, typeName, declaredSize, data).value;
    if Fits(declaredSize, data) { FittingIsLegal(handle, typeName, declaredSize, data); }
    if Legal(l) {
      var n := |data|;
      LegalNeverOverflows(handle, typeName, declaredSize, data, n);
      Tracks(data, n);
      if declaredSize == 0 && n > 0 {
        AlignRowShape(IdealCursor(data, n));
        assert EndOf(l.fields[n - 1]) == IdealCursor(data, n);
        assert EndOf(l.fields[n - 1]) <= l.size;
      }
      if n == 0 { NoCursor(data); }
    }
  }

  lemma NoCursor(data: seq<FieldData>)
    ensures IdealCursor(data, 0) == 0
  {
  }

  predicate LegalOffset(offset: nat, bytes: nat) { Aligned(offset) && !Straddles(offset, bytes) }

  /** Main result: packing is greedy. Each field without an offset takes the least legal offset after its
      predecessor. */
  lemma PackingGreedy(handle: string, typeName: string, declaredSize: nat, data: seq<FieldData>, i: nat, other: nat)
    requires Build(handle, typeName, declaredSize, data).Ok? && WordFields(data) && Fits(declaredSize, data)
    requires i < |data| && data[i].offset.None? && LegalOffset(other, Bytes(WidthOf(data[i])))
    ensures var fields := Build(handle, typeName, declaredSize, data).value.fields;
            && |fields| == |data|
            && (other >= (if i == 0 then 0 else EndOf(fields[i - 1])) ==> fields[i].offset <= other)
  {
    hide BuildFields, LegalOffset, IdealCursor, IdealOffset;
    Tracks(data, |data|);
    NoCursor(data);
    var fields := Build(handle, typeName, declaredSize, data).value.fields;
    assert OnTrack(data[i], IdealCursor(data, i), IdealCursor(data, i + 1), fields[i]);
    if i > 0 { assert OnTrack(data[i - 1], IdealCursor(data, i - 1), IdealCursor(data, i), fields[i - 1]); }
    if other >= IdealCursor(data, i) { LeastOffset(data[i], IdealCursor(data, i), other); }
  }

  /** Main result: the default size is the least positive multiple of a row that covers the fields. */
  lemma DefaultSizeLeast(handle: string, typeName: string, data: seq<FieldData>, other: nat)
    requires Build(handle, typeName, 0, data).Ok? && WordFields(data) && Fits(0, data)
    ensures var l := Build(handle, typeName, 0, data).value;
            && l.size % 16 == 0 && l.size > 0 && (forall f <- l.fields :: EndOf(f) <= l.size)
            && (other % 16 == 0 && other > 0 && (forall f <- l.fields :: EndOf(f) <= other) ==> l.size <= other)
  {
    hide BuildFields, IdealCursor, AlignRow, RoundUp;
    var n, l := |data|, Build(handle, typeName, 0, data).value;
    Tracks(data, n);
    NoCursor(data);
    AlignRowShape(IdealCursor(data, n));
    RoundUpShape(IdealCursor(data, n));
    FittingIsLegal(handle, typeName, 0, data);
    if n > 0 {
      assert l.fields[n - 1] in l.fields;
      if other % 16 == 0 && other >= IdealCursor(data, n) { LeastRow(IdealCursor(data, n), other); }
    }
  }

  lemma LeastOffset(d: FieldData, cursor: nat, other: nat)
    requires d.offset.None? && LegalOffset(other, Bytes(WidthOf(d))) && other >= cursor
    ensures IdealOffset(d, cursor) <= other
  {
    hide RoundUp, Bytes;
    RoundUpShape(cursor);
    if Straddles(cursor, Bytes(WidthOf(d))) { NextRow(cursor, other, Bytes(WidthOf(d))); }
  }

  /** Past a cursor that leaves too little of its row, every legal offset is in a later row. */
  lemma NextRow(cursor: nat, other: nat, bytes: nat)
    requires Straddles(cursor, bytes) && !Straddles(other, bytes) && other >= cursor
    ensures RoundUp(cursor) <= other
  {
    assert other % 16 < cursor % 16;
    assert other / 16 >= cursor / 16 + 1;
  }

  lemma LeastRow(cursor: nat, other: nat)
    requires other % 16 == 0 && other >= cursor
    ensures RoundUp(cursor) <= other
  {
  }

  /** Without the bound a layout can be accepted that overlaps: the cursor wraps to zero after the first field. */
  lemma OverflowAccepted()
    ensures var data := [FieldData("a", F32, 1, Some(0xffff_fffc), NoDefault), FieldData("b", F32, 1, None, NoDefault)];
            var fields := [Field("a", F32, 1, 0xffff_fffc, []), Field("b", F32, 1, 0, [])];
            Build("cb", "", 0, data) == Ok(Layout("cb", ROW_BYTES, fields))
  {
    var data := [FieldData("a", F32, 1, Some(0xffff_fffc), NoDefault), FieldData("b", F32, 1, None, NoDefault)];
    var a, b := Field("a", F32, 1, 0xffff_fffc, []), Field("b", F32, 1, 0, []);
    assert BuildFields(data, 0) == Ok(Placed([], 0));
    assert BuildField(data[0], [], 0) == Ok(a);
    assert Wrap(EndOf(a)) == 0;
    assert [] + [a] == [a] && [a] + [b] == [a, b];
    assert BuildFields(data, 1) == Ok(Placed([a], 0));
    assert [a][0].name != "b" by { assert "a"[0] != "b"[0]; }
    assert BuildField(data[1], [a], 0) == Ok(b);
    assert BuildFields(data, 2) == Ok(Placed([a, b], 4));
  }
}
