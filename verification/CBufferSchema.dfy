/** The DXIL struct built from a constant-buffer layout: padding elements, field elements and annotations. */
module CBufferSchema {
  import opened Words
  import opened CBufferLayout

  datatype SchemaField = SchemaField(name: string, ty: ComponentType, vectorSize: nat, offset: nat)

  datatype Schema = Schema(typeName: string, size: nat, fields: seq<SchemaField>)

  /** The schema AddResourceStep makes of a layout. */
  function SchemaOf(l: Layout): (s: Schema)
    ensures |s.fields| == |l.fields|
  {
    Schema(l.typeName, l.size,
           seq(|l.fields|, i requires 0 <= i < |l.fields| =>
             SchemaField(l.fields[i].name, l.fields[i].ty, l.fields[i].width, l.fields[i].offset)))
  }

  function FieldSize(f: SchemaField): nat { Bytes(f.vectorSize) }

  predicate ValidField(f: SchemaField, size: nat) {
    f.name != "" && f.ty != OtherComponent && 1 <= f.vectorSize <= 4 && Wrap(f.offset + FieldSize(f)) <= size
  }

  predicate ValidSchema(s: Schema) {
    && s.typeName != "" && s.size != 0
    && (forall i :: 0 <= i < |s.fields| ==> ValidField(s.fields[i], s.size))
    && (forall i :: 0 < i < |s.fields| ==> s.fields[i - 1].offset <= s.fields[i].offset)
  }

  method ValidateCBufferSchema(s: Schema) returns (valid: bool)
    ensures valid == ValidSchema(s)
  {
    if s.typeName == "" { return false; }
    if s.size == 0 { return false; }
    var previous, havePrevious := 0, false;
    for i := 0 to |s.fields|
      invariant havePrevious == (i > 0) && (i > 0 ==> previous == s.fields[i - 1].offset)
      invariant forall k :: 0 <= k < i ==> ValidField(s.fields[k], s.size)
      invariant forall k :: 0 < k < i ==> s.fields[k - 1].offset <= s.fields[k].offset
    {
      var f := s.fields[i];
      if f.name == "" { return false; }
      if f.ty == OtherComponent { return false; }
      if f.vectorSize < 1 || f.vectorSize > 4 { return false; }
      if Wrap(f.offset + FieldSize(f)) > s.size { return false; }
      if havePrevious && f.offset < previous { return false; }
      previous, havePrevious := f.offset, true;
    }
    valid := true;
  }

  // ---------------------------------------------------------------- elements

  /** A struct element: an i32 or i8 of padding (field mapping -1), or a field. */
  datatype Element = PaddingWord | PaddingByte | FieldElement(index: nat, size: nat)

  function SizeOfElement(e: Element): nat {
    match e
    case PaddingWord => 4
    case PaddingByte => 1
    case FieldElement(_, size) => size
  }

  /** The bytes the first `n` elements take. */
  function Sum(elements: seq<Element>, n: nat): nat
    requires n <= |elements|
  {
    if n == 0 then 0 else Sum(elements, n - 1) + SizeOfElement(elements[n - 1])
  }

  function Repeat(e: Element, n: nat): (s: seq<Element>)
    ensures |s| == n && forall k :: 0 <= k < n ==> s[k] == e
  {
    seq(n, k => e)
  }

  /** push_padding: words, then single bytes. */
  function Padding(size: nat): seq<Element> { Repeat(PaddingWord, size / 4) + Repeat(PaddingByte, size % 4) }

  datatype Built = Built(elements: seq<Element>, cur: nat)

  function PadTo(b: Built, offset: nat): Built {
    if offset > b.cur then Built(b.elements + Padding(offset - b.cur), offset) else b
  }

  /** The elements for the first `n` fields; `cur` is an unsigned. */
  function FieldElements(fields: seq<SchemaField>, n: nat): Built
    requires n <= |fields|
  {
    if n == 0 then Built([], 0)
    else
      var padded := PadTo(FieldElements(fields, n - 1), fields[n - 1].offset);
      Built(padded.elements + [FieldElement(n - 1, FieldSize(fields[n - 1]))],
            Wrap(padded.cur + FieldSize(fields[n - 1])))
  }

  /** BuildCBufferSchemaLayout */
  function SchemaElements(s: Schema): seq<Element> { PadTo(FieldElements(s.fields, |s.fields|), s.size).elements }

  method PushPadding(elements: seq<Element>, size: nat) returns (padded: seq<Element>)
    ensures padded == elements + Padding(size)
  {
    padded := elements;
    for p := 0 to size / 4
      invariant padded == elements + Repeat(PaddingWord, p)
    {
      padded := padded + [PaddingWord];
    }
    for p := 0 to size % 4
      invariant padded == elements + Repeat(PaddingWord, size / 4) + Repeat(PaddingByte, p)
    {
      padded := padded + [PaddingByte];
    }
    assert padded == elements + Padding(size);
  }

  method BuildCBufferSchemaLayout(s: Schema) returns (elements: seq<Element>)
    ensures elements == SchemaElements(s)
  {
    hide Padding, FieldSize;
    elements := [];
    var cur: nat := 0;
    for i := 0 to |s.fields|
      invariant Built(elements, cur) == FieldElements(s.fields, i)
    {
      var f := s.fields[i];
      if f.offset > cur {
        elements := PushPadding(elements, f.offset - cur);
        cur := f.offset;
      }
      elements := elements + [FieldElement(i, FieldSize(f))];
      cur := Wrap(cur + FieldSize(f));
    }
    if s.size > cur { elements := PushPadding(elements, s.size - cur); }
  }

  // ---------------------------------------------------------------- annotation

  datatype Annotated = Annotated(offsets: seq<nat>, cur: nat)

  /** MaybeAnnotateCBufferType: the offset annotated on each of the first `n` elements. */
  function Annotations(fields: seq<SchemaField>, elements: seq<Element>, n: nat): (a: Annotated)
    requires n <= |elements| && forall e <- elements :: e.FieldElement? ==> e.index < |fields|
    ensures |a.offsets| == n
  {
    if n == 0 then Annotated([], 0)
    else
      var a := Annotations(fields, elements, n - 1);
      var e := elements[n - 1];
      match e
      case FieldElement(index, size) =>
        assert e in elements;
        Annotated(a.offsets + [fields[index].offset], Wrap(fields[index].offset + FieldSize(fields[index])))
      case _ => Annotated(a.offsets + [a.cur], Wrap(a.cur + SizeOfElement(e)))
  }

  method AnnotateCBufferType(fields: seq<SchemaField>, elements: seq<Element>) returns (offsets: seq<nat>)
    requires forall e <- elements :: e.FieldElement? ==> e.index < |fields|
    ensures offsets == Annotations(fields, elements, |elements|).offsets
  {
    offsets := [];
    var current: nat := 0;
    for k := 0 to |elements|
      invariant Annotated(offsets, current) == Annotations(fields, elements, k)
    {
      var e := elements[k];
      assert e in elements;
      if !e.FieldElement? {
        offsets := offsets + [current];
        current := Wrap(current + SizeOfElement(e));
      } else {
        offsets := offsets + [fields[e.index].offset];
        current := Wrap(fields[e.index].offset + FieldSize(fields[e.index]));
      }
    }
  }

  // ---------------------------------------------------------------- main results

  /** What a legal layout makes of its schema: ascending, disjoint fields inside a size of 32 bits. */
  predicate Packed(s: Schema) {
    && s.size < WORD_LIMIT
    && (forall i :: 0 <= i < |s.fields| ==> s.fields[i].offset + FieldSize(s.fields[i]) <= s.size)
    && (forall i, j :: 0 <= i < j < |s.fields| ==> s.fields[i].offset + FieldSize(s.fields[i]) <= s.fields[j].offset)
  }

  /** Main result: the schema of every layout packed without overflow is accepted. */
  lemma LegalSchemaValid(l: Layout)
    requires Legal(l) && l.size < WORD_LIMIT && l.typeName != "" && l.size != 0
    ensures ValidSchema(SchemaOf(l)) && Packed(SchemaOf(l))
  {
    hide Wrap;
    forall i | 0 <= i < |l.fields| ensures ValidField(SchemaOf(l).fields[i], l.size) { assert LegalField(l.fields[i]); }
  }

  lemma {:induction false} SumAppend(a: seq<Element>, b: seq<Element>, n: nat)
    requires n <= |b|
    ensures Sum(a + b, |a| + n) == Sum(a, |a|) + Sum(b, n)
  {
    hide SizeOfElement;
    if n == 0 { SumPrefix(a + b, a, |a|); } else { SumAppend(a, b, n - 1); }
  }

  lemma {:induction false} SumPrefix(a: seq<Element>, b: seq<Element>, n: nat)
    requires n <= |a| && n <= |b| && forall k :: 0 <= k < n ==> a[k] == b[k]
    ensures Sum(a, n) == Sum(b, n)
  {
    hide SizeOfElement;
    if n > 0 { SumPrefix(a, b, n - 1); }
  }

  lemma {:induction false} SumRepeat(e: Element, n: nat, k: nat)
    requires k <= n
    ensures Sum(Repeat(e, n), k) == k * SizeOfElement(e)
  {
    hide SizeOfElement;
    if k > 0 {
      SumRepeat(e, n, k - 1);
      assert k * SizeOfElement(e) == (k - 1) * SizeOfElement(e) + SizeOfElement(e);
    }
  }

  lemma SumPadding(size: nat)
    ensures Sum(Padding(size), |Padding(size)|) == size
    ensures forall e <- Padding(size) :: !e.FieldElement?
  {
    var words, bytes := Repeat(PaddingWord, size / 4), Repeat(PaddingByte, size % 4);
    SumRepeat(PaddingWord, size / 4, size / 4);
    SumRepeat(PaddingByte, size % 4, size % 4);
    SumAppend(words, bytes, |bytes|);
    SumPrefix(words + bytes, words, |words|);
  }

  /** The elements that stand for fields, in order. */
  function FieldIndices(elements: seq<Element>): seq<nat> {
    if elements == [] then []
    else
      var n := |elements| - 1;
      FieldIndices(elements[..n]) + (if elements[n].FieldElement? then [elements[n].index] else [])
  }

  function UpTo(n: nat): seq<nat> { seq(n, i => i) }

  lemma {:induction false} IndicesAppend(a: seq<Element>, b: seq<Element>)
    requires forall e <- b :: !e.FieldElement?
    ensures FieldIndices(a + b) == FieldIndices(a)
  {
    if b == [] {
      assert a + b == a;
    } else {
      var n := |b| - 1;
      assert (a + b)[..|a + b| - 1] == a + b[..n];
      assert b[n] in b;
      IndicesAppend(a, b[..n]);
    }
  }

  /** Every field element is a field, of that field's size, at that field's offset. */
  predicate InPlace(fields: seq<SchemaField>, elements: seq<Element>) {
    forall k :: 0 <= k < |elements| && elements[k].FieldElement? ==>
      && elements[k].index < |fields|
      && elements[k].size == FieldSize(fields[elements[k].index])
      && Sum(elements, k) == fields[elements[k].index].offset
  }

  lemma PaddedTo(fields: seq<SchemaField>, b: Built, offset: nat)
    requires b.cur == Sum(b.elements, |b.elements|) <= offset && InPlace(fields, b.elements)
    ensures var p := PadTo(b, offset);
            && p.cur == offset == Sum(p.elements, |p.elements|) && InPlace(fields, p.elements)
            && FieldIndices(p.elements) == FieldIndices(b.elements)
  {
    hide SizeOfElement, Padding, FieldSize;
    if offset > b.cur {
      var padding := Padding(offset - b.cur);
      var all := b.elements + padding;
      SumPadding(offset - b.cur);
      SumAppend(b.elements, padding, |padding|);
      IndicesAppend(b.elements, padding);
      forall k | |b.elements| <= k < |all| ensures !all[k].FieldElement? { assert all[k] in padding; }
      forall k | 0 <= k < |b.elements| ensures Sum(all, k) == Sum(b.elements, k) { SumPrefix(all, b.elements, k); }
    }
  }

  lemma {:induction false} FieldsInPlace(s: Schema, n: nat)
    requires Packed(s) && n <= |s.fields|
    ensures var b := FieldElements(s.fields, n);
            && b.cur == Sum(b.elements, |b.elements|) && InPlace(s.fields, b.elements)
            && FieldIndices(b.elements) == UpTo(n)
            && b.cur == (if n == 0 then 0 else s.fields[n - 1].offset + FieldSize(s.fields[n - 1]))
  {
    hide SizeOfElement, PadTo, FieldSize, FieldIndices, InPlace, Packed, Wrap, Sum;
    if n == 0 {
      NoIndices(s.fields);
    } else {
      FieldsInPlace(s, n - 1);
      PackedStep(s, n - 1);
      var f := s.fields[n - 1];
      var before := FieldElements(s.fields, n - 1);
      PaddedTo(s.fields, before, f.offset);
      FieldAppended(s.fields, PadTo(before, f.offset), n - 1);
      assert UpTo(n - 1) + [n - 1] == UpTo(n);
    }
  }

  lemma PackedStep(s: Schema, i: nat)
    requires Packed(s) && i < |s.fields|
    ensures s.fields[i].offset + FieldSize(s.fields[i]) < WORD_LIMIT
    ensures i > 0 ==> s.fields[i - 1].offset + FieldSize(s.fields[i - 1]) <= s.fields[i].offset
  {
  }

  lemma NoIndices(fields: seq<SchemaField>)
    ensures FieldIndices([]) == UpTo(0) && Sum([], 0) == 0 && InPlace(fields, [])
  {
  }

  lemma FieldAppended(fields: seq<SchemaField>, b: Built, i: nat)
    requires i < |fields| && b.cur == Sum(b.elements, |b.elements|) == fields[i].offset && InPlace(fields, b.elements)
    ensures var e := FieldElement(i, FieldSize(fields[i]));
            var all := b.elements + [e];
            && Sum(all, |all|) == b.cur + FieldSize(fields[i]) && InPlace(fields, all)
            && FieldIndices(all) == FieldIndices(b.elements) + [i]
  {
    hide FieldSize;
    var e := FieldElement(i, FieldSize(fields[i]));
    var all := b.elements + [e];
    assert all[..|all| - 1] == b.elements;
    forall k | 0 <= k <= |b.elements| ensures Sum(all, k) == Sum(b.elements, k) { SumPrefix(all, b.elements, k); }
    forall k | 0 <= k < |all| && all[k].FieldElement?
      ensures && all[k].index < |fields| && all[k].size == FieldSize(fields[all[k].index])
              && Sum(all, k) == fields[all[k].index].offset
    {
    }
  }

  /** The elements tile the struct: their sizes sum to its size, every field appears once and in order, and what
      precedes a field is exactly its offset. */
  predicate Tiles(s: Schema) {
    var elements := SchemaElements(s);
    Sum(elements, |elements|) == s.size && FieldIndices(elements) == UpTo(|s.fields|) && InPlace(s.fields, elements)
  }

  /** Main result: what ascends and is disjoint is tiled by padding and fields. */
  lemma PaddingTiles(s: Schema)
    requires Packed(s)
    ensures Tiles(s)
  {
    hide FieldSize, InPlace, FieldIndices, Padding, Sum;
    var n := |s.fields|;
    FieldsInPlace(s, n);
    PaddedTo(s.fields, FieldElements(s.fields, n), s.size);
  }

  lemma {:induction false} SumGrows(elements: seq<Element>, i: nat, j: nat)
    requires i <= j <= |elements|
    ensures Sum(elements, i) <= Sum(elements, j)
    decreases j
  {
    if i < j { SumGrows(elements, i, j - 1); }
  }

  lemma ElementsAreFields(s: Schema)
    requires Packed(s)
    ensures forall e <- SchemaElements(s) :: e.FieldElement? ==> e.index < |s.fields|
  {
    hide SchemaElements, Sum, FieldSize;
    PaddingTiles(s);
  }

  /** The annotation loop's running offset is the sum of the sizes so far. */
  lemma {:induction false} AnnotationsExact(s: Schema, n: nat)
    requires Packed(s) && n <= |SchemaElements(s)|
    requires forall e <- SchemaElements(s) :: e.FieldElement? ==> e.index < |s.fields|
    ensures var a := Annotations(s.fields, SchemaElements(s), n);
            && a.cur == Sum(SchemaElements(s), n)
            && forall k :: 0 <= k < n ==> a.offsets[k] == Sum(SchemaElements(s), k)
  {
    hide SchemaElements, FieldSize, Wrap, SizeOfElement;
    if n > 0 {
      AnnotationsExact(s, n - 1);
      AnnotationStep(s, n - 1);
    }
  }

  lemma AnnotationStep(s: Schema, k: nat)
    requires Packed(s) && k < |SchemaElements(s)|
    ensures Sum(SchemaElements(s), k + 1) == Sum(SchemaElements(s), k) + SizeOfElement(SchemaElements(s)[k])
    ensures Sum(SchemaElements(s), k + 1) < WORD_LIMIT
    ensures SchemaElements(s)[k].FieldElement? ==>
              && SchemaElements(s)[k].index < |s.fields|
              && s.fields[SchemaElements(s)[k].index].offset == Sum(SchemaElements(s), k)
              && SizeOfElement(SchemaElements(s)[k]) == FieldSize(s.fields[SchemaElements(s)[k].index])
  {
    hide SchemaElements, FieldSize;
    PaddingTiles(s);
    SumGrows(SchemaElements(s), k + 1, |SchemaElements(s)|);
  }

  /** Main result: the offset annotated on every element is the sum of the sizes before it. */
  lemma AnnotatedOffsets(s: Schema)
    requires Packed(s)
    ensures forall e <- SchemaElements(s) :: e.FieldElement? ==> e.index < |s.fields|
    ensures forall k :: 0 <= k < |SchemaElements(s)| ==>
              Annotations(s.fields, SchemaElements(s), |SchemaElements(s)|).offsets[k] == Sum(SchemaElements(s), k)
  {
    hide SchemaElements, Annotations, Sum, Packed;
    ElementsAreFields(s);
    AnnotationsExact(s, |SchemaElements(s)|);
  }

  /** Fields that lie in place among the first `n` elements are ascending, disjoint and inside their sum. */
  lemma {:induction false} InPlaceApart(fields: seq<SchemaField>, elements: seq<Element>, n: nat, m: nat)
    requires n <= |elements| && m <= |fields| && InPlace(fields, elements) && FieldIndices(elements[..n]) == UpTo(m)
    ensures forall i :: 0 <= i < m ==> fields[i].offset + FieldSize(fields[i]) <= Sum(elements, n)
    ensures forall i, j :: 0 <= i < j < m ==> fields[i].offset + FieldSize(fields[i]) <= fields[j].offset
  {
    hide FieldSize;
    if n > 0 {
      var before, last := FieldIndices(elements[..n - 1]), elements[n - 1];
      assert elements[..n][..n - 1] == elements[..n - 1];
      if last.FieldElement? {
        assert before + [last.index] == UpTo(m) && m > 0;
        assert before == UpTo(m)[..m - 1] == UpTo(m - 1) && last.index == UpTo(m)[m - 1] == m - 1;
        InPlaceApart(fields, elements, n - 1, m - 1);
      } else {
        assert before + [] == before;
        InPlaceApart(fields, elements, n - 1, m);
      }
    } else {
      assert |UpTo(m)| == m;
    }
  }

  /** Whatever tiles is packed legally: nothing but the fields' order, places and extents matters to the struct. */
  lemma TiledLegal(handle: string, typeName: string, declaredSize: nat, data: seq<FieldData>)
    requires Build(handle, typeName, declaredSize, data).Ok? && WordFields(data)
    requires Tiles(SchemaOf(Build(handle, typeName, declaredSize, data).value))
    ensures Legal(Build(handle, typeName, declaredSize, data).value)
  {
    hide BuildFields, LegalField, FieldIndices, InPlace, SchemaElements, Sum;
    var l := Build(handle, typeName, declaredSize, data).value;
    var s := SchemaOf(l);
    var elements := SchemaElements(s);
    FieldsShape(data, |data|);
    assert elements[..|elements|] == elements;
    InPlaceApart(s.fields, elements, |elements|, |s.fields|);
    forall i | 0 <= i < |l.fields| ensures EndOf(l.fields[i]) == s.fields[i].offset + FieldSize(s.fields[i]) {}
  }

  /** Main result, from the declared fields to the struct: the elements of an accepted layout tile the struct if
      and only if no 32-bit cursor overflows while packing it; the schema is then valid exactly when it has a
      name. */
  lemma AcceptedTiles(handle: string, typeName: string, declaredSize: nat, data: seq<FieldData>)
    requires Build(handle, typeName, declaredSize, data).Ok? && WordFields(data) && declaredSize < WORD_LIMIT
    ensures var s := SchemaOf(Build(handle, typeName, declaredSize, data).value);
            && (Tiles(s) <==> Fits(declaredSize, data))
            && (Fits(declaredSize, data) ==> Packed(s) && (ValidSchema(s) <==> typeName != "" || handle != ""))
  {
    hide Legal, Packed, Tiles, ValidSchema, Fits, BuildFields;
    var l := Build(handle, typeName, declaredSize, data).value;
    PackingExactly(handle, typeName, declaredSize, data);
    if Tiles(SchemaOf(l)) { TiledLegal(handle, typeName, declaredSize, data); }
    if Fits(declaredSize, data) {
      SizeIsWord(handle, typeName, declaredSize, data);
      var named := l.(typeName := "name");
      SameLegal(l, named);
      LegalSchemaValid(named);
      SameValid(SchemaOf(l), SchemaOf(named));
      SamePacked(SchemaOf(l), SchemaOf(named));
      PaddingTiles(SchemaOf(l));
    }
  }

  /** A layout and a schema that are both accepted although the elements do not tile the struct: a field that
      ends at 2^32 wraps the cursor, so the default size is one row. */
  lemma OverflowNotTiled()
    ensures var data := [FieldData("a", F32, 1, Some(0xffff_fffc), NoDefault)];
            && Build("cb", "", 0, data) == Ok(Layout("cb", ROW_BYTES, [Field("a", F32, 1, 0xffff_fffc, [])]))
            && ValidSchema(SchemaOf(Build("cb", "", 0, data).value))
            && !Tiles(SchemaOf(Build("cb", "", 0, data).value))
  {
    hide Tiles;
    var data := [FieldData("a", F32, 1, Some(0xffff_fffc), NoDefault)];
    var a := Field("a", F32, 1, 0xffff_fffc, []);
    assert BuildFields(data, 0) == Ok(Placed([], 0));
    assert BuildField(data[0], [], 0) == Ok(a);
    assert Wrap(EndOf(a)) == 0 && [] + [a] == [a];
    assert BuildFields(data, 1) == Ok(Placed([a], 0));
    assert IdealCursor(data, 0) == 0 && IdealCursor(data, 1) == WORD_LIMIT;
    AcceptedTiles("cb", "", 0, data);
  }

  lemma SizeIsWord(handle: string, typeName: string, declaredSize: nat, data: seq<FieldData>)
    requires Build(handle, typeName, declaredSize, data).Ok? && declaredSize < WORD_LIMIT
    ensures 0 < Build(handle, typeName, declaredSize, data).value.size < WORD_LIMIT
  {
    hide BuildFields;
  }

  lemma SameLegal(l: Layout, named: Layout)
    requires named == l.(typeName := named.typeName) && Legal(l)
    ensures Legal(named)
  {
  }

  lemma SameValid(s: Schema, named: Schema)
    requires s.size == named.size && s.fields == named.fields && ValidSchema(named)
    ensures ValidSchema(s) <==> s.typeName != ""
  {
    hide ValidField;
  }

  lemma SamePacked(s: Schema, named: Schema)
    requires s.size == named.size && s.fields == named.fields && Packed(named)
    ensures Packed(s)
  {
  }
}
