/** Extending a D3D12 root signature with DXP's descriptor tables, and finding them again. */
module RootSignature {
  import opened Words
  import opened Descriptors

  const UNBOUNDED: nat := 0xffff_ffff
  const UINT64_LIMIT: nat := 0xffff_ffff_ffff_ffff
  const MAX_DWORDS := 64
  const ALL_STAGES: nat := 0x7fff_ffff

  datatype RegisterClass = NoClass | T | U | S | B

  function ClassOf(ty: DescriptorType): RegisterClass {
    match ty
    case Sampler => S
    case ConstantBuffer => B
    case ShaderResourceView | BufferShaderResourceView | AccelerationStructure => T
    case UnorderedAccessView | BufferUnorderedAccessView => U
    case OtherType => NoClass
  }

  /** api::descriptor_range; `count` is a uint32_t, UNBOUNDED for an unbounded range. */
  datatype Range = Range(binding: nat, register: nat, space: nat, count: nat, visibility: nat, ty: DescriptorType,
                         staticSamplers: bool)

  predicate WordRange(r: Range) { r.register < WORD_LIMIT && r.count < WORD_LIMIT }

  datatype Param =
    | PushConstants(count: nat, register: nat, space: nat, visibility: nat)
    | PushDescriptors(range: Range)
    | DescriptorTable(ranges: seq<Range>)                            // or push_descriptors_with_ranges
    | StaticSamplerTable(ranges: seq<Range>, pushed: bool)           // pushed: push_descriptors_with_static_samplers
    | OtherParam

  predicate WordParam(p: Param) {
    match p
    case PushConstants(count, register, _, _) => count < WORD_LIMIT && register < WORD_LIMIT
    case PushDescriptors(range) => WordRange(range)
    case DescriptorTable(ranges) => forall r <- ranges :: WordRange(r)
    case StaticSamplerTable(ranges, _) => forall r <- ranges :: WordRange(r)
    case OtherParam => true
  }

  /** The injection settings. */
  datatype Injection = Injection(space: nat, srvBase: nat, srvCount: nat, uavBase: nat, uavCount: nat, samplerBase: nat,
                                 samplerCount: nat)

  function Injected(base: nat, count: nat, space: nat, ty: DescriptorType): seq<Range> {
    if count != 0 then [Range(0, base, space, count, ALL_STAGES, ty, false)] else []
  }

  function InjectedRanges(l: Injection): seq<Range> {
    Injected(l.srvBase, l.srvCount, l.space, ShaderResourceView)
    + Injected(l.uavBase, l.uavCount, l.space, UnorderedAccessView)
    + Injected(l.samplerBase, l.samplerCount, l.space, Sampler)
  }

  predicate WordInjection(l: Injection) {
    && l.srvBase < WORD_LIMIT && l.uavBase < WORD_LIMIT && l.samplerBase < WORD_LIMIT
    && l.srvCount < WORD_LIMIT && l.uavCount < WORD_LIMIT && l.samplerCount < WORD_LIMIT
  }

  // ---------------------------------------------------------------- overlap

  function End(r: Range): nat { if r.count == UNBOUNDED then UINT64_LIMIT else r.register + r.count }

  predicate Overlaps(a: Range, b: Range) {
    && ClassOf(a.ty) == ClassOf(b.ty) && a.space == b.space && a.count != 0 && b.count != 0
    && a.register < End(b) && b.register < End(a)
  }

  /** The registers of a range. An unbounded range takes every register from its first. */
  predicate Covers(r: Range, c: RegisterClass, space: nat, register: nat) {
    && ClassOf(r.ty) == c && r.space == space && r.count != 0
    && r.register <= register && (r.count == UNBOUNDED || register < r.register + r.count)
  }

  /** Overlaps is exactly sharing a register, unbounded ranges included. */
  lemma OverlapsExactly(a: Range, b: Range)
    requires WordRange(a) && WordRange(b)
    ensures Overlaps(a, b)
       <==> exists register ::
              Covers(a, ClassOf(a.ty), a.space, register) && Covers(b, ClassOf(a.ty), a.space, register)
  {
    if Overlaps(a, b) {
      var register := if a.register < b.register then b.register else a.register;
      assert Covers(a, ClassOf(a.ty), a.space, register) && Covers(b, ClassOf(a.ty), a.space, register);
    }
  }

  // ---------------------------------------------------------------- OnCreatePipelineLayout

  /** The ranges of a game parameter that are checked against the injected ones. */
  function RangesOf(p: Param): seq<Range> {
    match p
    case PushConstants(_, register, space, visibility) =>
      [Range(0, register, space, 1, visibility, ConstantBuffer, false)]
    case PushDescriptors(range) => [range]
    case DescriptorTable(ranges) => ranges
    case StaticSamplerTable(ranges, _) => ranges
    case OtherParam => []
  }

  predicate OverlapsAny(ranges: seq<Range>, injected: seq<Range>) {
    exists i, j :: 0 <= i < |ranges| && 0 <= j < |injected| && Overlaps(ranges[i], injected[j])
  }

  predicate IsRootDescriptor(r: Range) {
    && r.count == 1 && r.binding == 0
    && (r.ty == ConstantBuffer || r.ty == BufferShaderResourceView || r.ty == BufferUnorderedAccessView
        || r.ty == AccelerationStructure)
  }

  predicate StaticOnly(p: Param) {
    && p.StaticSamplerTable? && p.pushed && p.ranges != []
    && forall r <- p.ranges :: r.ty == Sampler && r.staticSamplers
  }

  /** A parameter's root signature cost: tables 1, root descriptors 2, constants 1 each; parameters of static
      samplers only become no root parameter. */
  function Cost(p: Param): nat {
    match p
    case PushConstants(count, _, _, _) => count
    case PushDescriptors(range) => if range.count == 0 then 0 else if IsRootDescriptor(range) then 2 else 1
    case DescriptorTable(ranges) => if ranges == [] then 0 else 1
    case StaticSamplerTable(ranges, _) => if StaticOnly(p) || ranges == [] then 0 else 1
    case OtherParam => 0
  }

  function TotalCost(params: seq<Param>): nat {
    if params == [] then 0 else TotalCost(params[..|params| - 1]) + Cost(params[|params| - 1])
  }

  /** The first parameter of static samplers only, or the end. */
  function InsertAt(params: seq<Param>): (at: nat)
    ensures at <= |params|
    ensures forall i :: 0 <= i < at ==> !StaticOnly(params[i])
    ensures at < |params| ==> StaticOnly(params[at])
  {
    if params == [] || StaticOnly(params[0]) then 0 else 1 + InsertAt(params[1..])
  }

  function AsParams(ranges: seq<Range>): (p: seq<Param>)
    ensures |p| == |ranges| && forall i :: 0 <= i < |p| ==> p[i] == PushDescriptors(ranges[i])
  {
    seq(|ranges|, i requires 0 <= i < |ranges| => PushDescriptors(ranges[i]))
  }

  function Extended(params: seq<Param>, injected: seq<Range>): seq<Param> {
    params[..InsertAt(params)] + AsParams(injected) + params[InsertAt(params)..]
  }

  predicate Clashes(params: seq<Param>, injected: seq<Range>) {
    exists i :: 0 <= i < |params| && OverlapsAny(RangesOf(params[i]), injected)
  }

  /** The extended parameters, or None when the layout is left alone. The cost is summed in a uint32_t. */
  function ExtendLayout(params: seq<Param>, l: Injection): Option<seq<Param>> {
    var injected := InjectedRanges(l);
    if params == [] || injected == [] then None
    else if Clashes(params, injected) || TotalCost(params) % WORD_LIMIT + |injected| > MAX_DWORDS then None
    else Some(Extended(params, injected))
  }

  /** OnCreatePipelineLayout, once it has decided to inject. */
  method OnCreatePipelineLayout(params: seq<Param>, l: Injection) returns (modified: Option<seq<Param>>)
    ensures modified == ExtendLayout(params, l)
  {
    hide Cost, RangesOf, StaticOnly;
    var injected := InjectedRanges(l);
    if params == [] || injected == [] { return None; }
    var dwords, insertAt, overlap := 0, |params|, false;
    for i := 0 to |params|
      invariant dwords == TotalCost(params[..i]) % WORD_LIMIT
      invariant insertAt == if InsertAt(params) < i then InsertAt(params) else |params|
      invariant overlap == Clashes(params[..i], injected)
    {
      assert params[..i + 1][..i] == params[..i];
      FirstStaticOnly(params, i);
      if StaticOnly(params[i]) && i < insertAt { insertAt := i; }
      AddModulo(TotalCost(params[..i]), Cost(params[i]));
      dwords := (dwords + Cost(params[i])) % WORD_LIMIT;
      var clash := AnyOverlap(RangesOf(params[i]), injected);
      ClashesAppend(params[..i], params[i], injected);
      assert params[..i + 1] == params[..i] + [params[i]];
      overlap := overlap || clash;
    }
    assert params[..|params|] == params;
    if overlap || dwords + |injected| > MAX_DWORDS { return None; }
    modified := Some(params[..insertAt] + AsParams(injected) + params[insertAt..]);
  }

  method AnyOverlap(ranges: seq<Range>, injected: seq<Range>) returns (overlap: bool)
    ensures overlap == OverlapsAny(ranges, injected)
  {
    hide Overlaps;
    overlap := false;
    for i := 0 to |ranges|
      invariant overlap == OverlapsAny(ranges[..i], injected)
    {
      for j := 0 to |injected|
        invariant overlap
               == (OverlapsAny(ranges[..i], injected) || exists k :: 0 <= k < j && Overlaps(ranges[i], injected[k]))
      {
        overlap := overlap || Overlaps(ranges[i], injected[j]);
      }
      assert forall k, j :: 0 <= k <= i && 0 <= j < |injected| ==>
        Overlaps(ranges[..i + 1][k], injected[j]) == Overlaps(if k < i then ranges[..i][k] else ranges[i], injected[j]);
    }
    assert ranges[..|ranges|] == ranges;
  }

  lemma AddModulo(a: nat, b: nat)
    ensures (a % WORD_LIMIT + b) % WORD_LIMIT == (a + b) % WORD_LIMIT
  {
    assert a == a % WORD_LIMIT + WORD_LIMIT * (a / WORD_LIMIT);
  }

  lemma FirstStaticOnly(params: seq<Param>, i: nat)
    requires i < |params|
    ensures InsertAt(params) < i ==> InsertAt(params) < |params|
    ensures InsertAt(params) >= i && StaticOnly(params[i]) ==> InsertAt(params) == i
    ensures InsertAt(params) == i ==> StaticOnly(params[i])
  {
    hide StaticOnly;
  }

  lemma ClashesAppend(params: seq<Param>, p: Param, injected: seq<Range>)
    ensures Clashes(params + [p], injected) <==> Clashes(params, injected) || OverlapsAny(RangesOf(p), injected)
  {
    hide OverlapsAny, RangesOf;
    var all := params + [p];
    if Clashes(params, injected) {
      var i :| 0 <= i < |params| && OverlapsAny(RangesOf(params[i]), injected);
      assert all[i] == params[i];
    }
    if OverlapsAny(RangesOf(p), injected) { assert all[|params|] == p; }
  }

  // ---------------------------------------------------------------- OnInitPipelineLayout

  predicate Matches(p: Param, ours: Range) {
    && p.PushDescriptors?
    && p.range.register == ours.register && p.range.space == ours.space && p.range.count == ours.count
    && p.range.ty == ours.ty && p.range.visibility == ours.visibility
  }

  predicate MatchesType(p: Param, injected: seq<Range>, ty: DescriptorType) {
    exists k :: 0 <= k < |injected| && injected[k].ty == ty && Matches(p, injected[k])
  }

  /** The last of the first `n` parameters that is an injected one of a type, or -1. */
  function Find(params: seq<Param>, injected: seq<Range>, ty: DescriptorType, n: nat): int
    requires n <= |params|
  {
    if n == 0 then -1 else if MatchesType(params[n - 1], injected, ty) then n - 1 else Find(params, injected, ty, n - 1)
  }

  /** LayoutInjection: the parameter indices of the injected tables, or -1. */
  method OnInitPipelineLayout(params: seq<Param>, l: Injection) returns (srv: int, uav: int, sampler: int)
    ensures srv == Find(params, InjectedRanges(l), ShaderResourceView, |params|)
    ensures uav == Find(params, InjectedRanges(l), UnorderedAccessView, |params|)
    ensures sampler == Find(params, InjectedRanges(l), Sampler, |params|)
  {
    hide Matches;
    srv, uav, sampler := -1, -1, -1;
    var injected := InjectedRanges(l);
    for i := 0 to |params|
      invariant srv == Find(params, injected, ShaderResourceView, i)
      invariant uav == Find(params, injected, UnorderedAccessView, i)
      invariant sampler == Find(params, injected, Sampler, i)
    {
      var before := (srv, uav, sampler);
      for k := 0 to |injected|
        invariant srv == if MatchesType(params[i], injected[..k], ShaderResourceView) then i else before.0
        invariant uav == if MatchesType(params[i], injected[..k], UnorderedAccessView) then i else before.1
        invariant sampler == if MatchesType(params[i], injected[..k], Sampler) then i else before.2
      {
        var ours := injected[k];
        MatchesAppend(params[i], injected, k, ShaderResourceView);
        MatchesAppend(params[i], injected, k, UnorderedAccessView);
        MatchesAppend(params[i], injected, k, Sampler);
        if Matches(params[i], ours) {
          if ours.ty == ShaderResourceView { srv := i; }
          if ours.ty == UnorderedAccessView { uav := i; }
          if ours.ty == Sampler { sampler := i; }
        }
      }
      assert injected[..|injected|] == injected;
    }
  }

  lemma MatchesAppend(p: Param, injected: seq<Range>, k: nat, ty: DescriptorType)
    requires k < |injected|
    ensures MatchesType(p, injected[..k + 1], ty)
       <==> MatchesType(p, injected[..k], ty) || (injected[k].ty == ty && Matches(p, injected[k]))
  {
    hide Matches;
    var before, all := injected[..k], injected[..k + 1];
    assert forall j :: 0 <= j < k ==> all[j] == before[j];
    assert all[k] == injected[k];
  }

  // ---------------------------------------------------------------- main results

  lemma {:induction false} CostAppend(params: seq<Param>, more: seq<Param>)
    ensures TotalCost(params + more) == TotalCost(params) + TotalCost(more)
  {
    hide Cost;
    if more == [] {
      assert params + more == params;
    } else {
      var n := |more| - 1;
      assert (params + more)[..|params + more| - 1] == params + more[..n];
      CostAppend(params, more[..n]);
    }
  }

  lemma {:induction false} InjectedCost(injected: seq<Range>)
    requires forall r <- injected :: r.count != 0 && !IsRootDescriptor(r)
    ensures TotalCost(AsParams(injected)) == |injected|
  {
    if injected != [] {
      var n := |injected| - 1;
      InjectedCost(injected[..n]);
      assert AsParams(injected)[..n] == AsParams(injected[..n]);
      assert injected[n] in injected;
    }
  }

  lemma InjectedPlain(l: Injection)
    ensures forall r <- InjectedRanges(l) :: r.count != 0 && !IsRootDescriptor(r) && r.space == l.space
    ensures WordInjection(l) ==> forall r <- InjectedRanges(l) :: WordRange(r)
    ensures forall i, j :: 0 <= i < j < |InjectedRanges(l)| ==> InjectedRanges(l)[i].ty != InjectedRanges(l)[j].ty
  {
  }

  /** The cost of the extended layout is the game's plus one per injected table. */
  lemma ExtendedCost(params: seq<Param>, l: Injection)
    ensures TotalCost(Extended(params, InjectedRanges(l))) == TotalCost(params) + |InjectedRanges(l)|
  {
    hide Cost, InsertAt;
    var injected, at := InjectedRanges(l), InsertAt(params);
    InjectedPlain(l);
    InjectedCost(injected);
    CostAppend(params[..at], AsParams(injected));
    CostAppend(params[..at] + AsParams(injected), params[at..]);
    CostAppend(params[..at], params[at..]);
    assert params[..at] + params[at..] == params;
  }

  /** Main result: where the cost fits a uint32_t, a layout is extended exactly when nothing it binds shares a
      register with the injected ranges and the extended layout costs at most 64 DWORDs. And an extended layout
      keeps to the limit exactly when the cost fits: every cost that wraps and is accepted is over it. */
  lemma ExtendedExactly(params: seq<Param>, l: Injection)
    ensures TotalCost(params) < WORD_LIMIT ==>
              (ExtendLayout(params, l).Some?
               <==> && params != [] && InjectedRanges(l) != [] && !Clashes(params, InjectedRanges(l))
                    && TotalCost(Extended(params, InjectedRanges(l))) <= MAX_DWORDS)
    ensures ExtendLayout(params, l).Some? ==>
              (TotalCost(Extended(params, InjectedRanges(l))) <= MAX_DWORDS <==> TotalCost(params) < WORD_LIMIT)
  {
    hide TotalCost, Clashes, Extended, InjectedRanges;
    ExtendedCost(params, l);
  }

  /** A layout far over the limit that is extended, because the sum wraps to zero. */
  lemma CostWraps()
    ensures var params := [PushConstants(0xffff_ffff, 0, 0, 0), PushConstants(1, 1, 0, 0)];
            var l := Injection(7, 0, 1, 0, 0, 0, 0);
            ExtendLayout(params, l).Some? && TotalCost(Extended(params, InjectedRanges(l))) > MAX_DWORDS
  {
    var params := [PushConstants(0xffff_ffff, 0, 0, 0), PushConstants(1, 1, 0, 0)];
    var l := Injection(7, 0, 1, 0, 0, 0, 0);
    ExtendedCost(params, l);
    assert params[..1] == [params[0]] && params[..1][..0] == [];
    assert TotalCost(params[..1]) == 0xffff_ffff;
    assert TotalCost(params) == WORD_LIMIT;
  }

  lemma NoClash(params: seq<Param>, injected: seq<Range>, i: nat, a: Range, b: Range)
    requires !Clashes(params, injected) && i < |params| && a in RangesOf(params[i]) && b in injected
    ensures !Overlaps(a, b)
  {
    hide Overlaps, RangesOf;
    var j :| 0 <= j < |RangesOf(params[i])| && RangesOf(params[i])[j] == a;
    var k :| 0 <= k < |injected| && injected[k] == b;
    assert !OverlapsAny(RangesOf(params[i]), injected);
  }

  lemma NotShared(a: Range, b: Range, c: RegisterClass, space: nat, register: nat)
    requires WordRange(a) && WordRange(b) && !Overlaps(a, b)
    ensures !(Covers(a, c, space, register) && Covers(b, c, space, register))
  {
    OverlapsExactly(a, b);
  }

  lemma GameRangeWord(p: Param, r: Range)
    requires WordParam(p) && r in RangesOf(p)
    ensures WordRange(r)
  {
  }

  /** Main result: no register of an injected range is bound by the game, and dropping the injected
      parameters gives the game's back in their order. */
  lemma ExtendedSound(params: seq<Param>, l: Injection)
    requires ExtendLayout(params, l).Some? && WordInjection(l) && forall p <- params :: WordParam(p)
    ensures var m, at, n := ExtendLayout(params, l).value, InsertAt(params), |InjectedRanges(l)|;
            && |m| == |params| + n
            && m[..at] + m[at + n..] == params && m[at..at + n] == AsParams(InjectedRanges(l))
    ensures forall i, a, b, c, space, register ::
              0 <= i < |params| && a in RangesOf(params[i]) && b in InjectedRanges(l)
              ==> !(Covers(a, c, space, register) && Covers(b, c, space, register))
  {
    hide InjectedRanges, Covers, Overlaps, WordRange, WordInjection, Clashes, RangesOf, TotalCost, WordParam;
    InjectedPlain(l);
    forall i, a, b, c, space, register |
      0 <= i < |params| && a in RangesOf(params[i]) && b in InjectedRanges(l)
      ensures !(Covers(a, c, space, register) && Covers(b, c, space, register))
    {
      assert params[i] in params;
      GameRangeWord(params[i], a);
      NoClash(params, InjectedRanges(l), i, a, b);
      NotShared(a, b, c, space, register);
    }
  }

  /** A game parameter that looked injected would have been rejected as overlapping. */
  lemma NoGameMatch(params: seq<Param>, l: Injection, i: nat, ours: Range)
    requires ExtendLayout(params, l).Some? && WordInjection(l) && i < |params| && ours in InjectedRanges(l)
    ensures !Matches(params[i], ours)
  {
    hide InjectedRanges, Clashes, TotalCost, WordInjection;
    InjectedPlain(l);
    if params[i].PushDescriptors? { NoClash(params, InjectedRanges(l), i, params[i].range, ours); }
  }

  // Where each injected table goes, when injected from `at` on.
  function SrvPlace(l: Injection, at: nat): int { if l.srvCount != 0 then at else -1 }
  function UavPlace(l: Injection, at: nat): int {
    if l.uavCount != 0 then at + (if l.srvCount != 0 then 1 else 0) else -1
  }
  function SamplerPlace(l: Injection, at: nat): int {
    if l.samplerCount != 0 then at + (if l.srvCount != 0 then 1 else 0) + (if l.uavCount != 0 then 1 else 0) else -1
  }

  function Place(l: Injection, ty: DescriptorType, at: nat): int
    requires ty == ShaderResourceView || ty == UnorderedAccessView || ty == Sampler
  {
    if ty == ShaderResourceView then SrvPlace(l, at) else if ty == UnorderedAccessView then UavPlace(l, at)
    else SamplerPlace(l, at)
  }

  lemma PlaceOfType(l: Injection, ty: DescriptorType, at: nat, k: nat)
    requires (ty == ShaderResourceView || ty == UnorderedAccessView || ty == Sampler) && k < |InjectedRanges(l)|
    ensures InjectedRanges(l)[k].ty == ty <==> at + k == Place(l, ty, at)
    ensures Place(l, ty, at) == -1 || at <= Place(l, ty, at) < at + |InjectedRanges(l)|
  {
  }

  /** In the extended layout exactly one parameter, the injected one, looks like the injected table of a type. */
  lemma MatchesOnlyInjected(params: seq<Param>, l: Injection, ty: DescriptorType, j: nat)
    requires ty == ShaderResourceView || ty == UnorderedAccessView || ty == Sampler
    requires ExtendLayout(params, l).Some? && WordInjection(l) && j < |ExtendLayout(params, l).value|
    ensures MatchesType(ExtendLayout(params, l).value[j], InjectedRanges(l), ty)
       <==> j == Place(l, ty, InsertAt(params))
  {
    hide Clashes, TotalCost, WordInjection, InsertAt, SrvPlace, UavPlace, SamplerPlace, InjectedRanges;
    var m, at, injected := ExtendLayout(params, l).value, InsertAt(params), InjectedRanges(l);
    var n := |injected|;
    PlaceOfType(l, ty, at, 0);
    if at <= j < at + n {
      assert m[j] == PushDescriptors(injected[j - at]);
      PlaceOfType(l, ty, at, j - at);
      if injected[j - at].ty == ty { assert Matches(m[j], injected[j - at]); }
    } else {
      var i := if j < at then j else j - n;
      assert m[j] == params[i];
      forall k | 0 <= k < n ensures !Matches(m[j], injected[k]) {
        assert injected[k] in injected;
        NoGameMatch(params, l, i, injected[k]);
      }
    }
  }

  lemma {:induction false} FindOnly(params: seq<Param>, injected: seq<Range>, ty: DescriptorType, n: nat, place: int)
    requires n <= |params| && forall j :: 0 <= j < |params| ==> (MatchesType(params[j], injected, ty) <==> j == place)
    ensures Find(params, injected, ty, n) == if 0 <= place < n then place else -1
  {
    hide MatchesType;
    if n > 0 { FindOnly(params, injected, ty, n - 1, place); }
  }

  /** Main result: on an extended layout OnInitPipelineLayout finds exactly the injected positions. */
  lemma FindsInjected(params: seq<Param>, l: Injection, ty: DescriptorType)
    requires ty == ShaderResourceView || ty == UnorderedAccessView || ty == Sampler
    requires ExtendLayout(params, l).Some? && WordInjection(l)
    ensures var m := ExtendLayout(params, l).value;
            Find(m, InjectedRanges(l), ty, |m|) == Place(l, ty, InsertAt(params))
  {
    hide Clashes, TotalCost, WordInjection, InsertAt, SrvPlace, UavPlace, SamplerPlace, InjectedRanges, MatchesType;
    var m, injected := ExtendLayout(params, l).value, InjectedRanges(l);
    forall j | 0 <= j < |m| ensures MatchesType(m[j], injected, ty) <==> j == Place(l, ty, InsertAt(params)) {
      MatchesOnlyInjected(params, l, ty, j);
    }
    PlaceOfType(l, ty, InsertAt(params), 0);
    FindOnly(m, injected, ty, |m|, Place(l, ty, InsertAt(params)));
  }

  // ---------------------------------------------------------------- root parameter indices

  /** The root parameters among the first `n` parameters: static samplers become none. */
  function RootIndex(params: seq<Param>, n: nat): nat
    requires n <= |params|
  {
    if n == 0 then 0 else RootIndex(params, n - 1) + if StaticOnly(params[n - 1]) then 0 else 1
  }

  function NewPosition(params: seq<Param>, l: Injection, i: nat): nat {
    if i < InsertAt(params) then i else i + |InjectedRanges(l)|
  }

  lemma {:induction false} RootIndexShift(params: seq<Param>, l: Injection, i: nat)
    requires i <= |params|
    ensures var m := Extended(params, InjectedRanges(l));
            && NewPosition(params, l, i) <= |m|
            && RootIndex(m, NewPosition(params, l, i))
            == RootIndex(params, i) + if i < InsertAt(params) then 0 else |InjectedRanges(l)|
    decreases i
  {
    hide StaticOnly, InjectedRanges, InsertAt;
    var m, at, n := Extended(params, InjectedRanges(l)), InsertAt(params), |InjectedRanges(l)|;
    if i < at {
      RootIndexPrefix(params, m, i);
    } else if i == at {
      RootIndexPrefix(params, m, at);
      RootIndexInjected(params, l, n);
    } else {
      RootIndexShift(params, l, i - 1);
      assert m[i - 1 + n] == params[i - 1];
    }
  }

  lemma {:induction false} RootIndexPrefix(a: seq<Param>, b: seq<Param>, n: nat)
    requires n <= |a| && n <= |b| && a[..n] == b[..n]
    ensures RootIndex(a, n) == RootIndex(b, n)
  {
    hide StaticOnly;
    if n > 0 {
      assert a[n - 1] == a[..n][n - 1] == b[..n][n - 1] == b[n - 1];
      assert a[..n - 1] == a[..n][..n - 1] && b[..n - 1] == b[..n][..n - 1];
      RootIndexPrefix(a, b, n - 1);
    }
  }

  lemma {:induction false} RootIndexInjected(params: seq<Param>, l: Injection, k: nat)
    requires k <= |InjectedRanges(l)|
    ensures var m := Extended(params, InjectedRanges(l));
            RootIndex(m, InsertAt(params) + k) == RootIndex(m, InsertAt(params)) + k
  {
    hide InjectedRanges, InsertAt;
    if k > 0 {
      RootIndexInjected(params, l, k - 1);
      var m := Extended(params, InjectedRanges(l));
      assert m[InsertAt(params) + k - 1] == PushDescriptors(InjectedRanges(l)[k - 1]);
    }
  }

  predicate RootIndicesKept(params: seq<Param>, l: Injection) {
    forall i :: 0 <= i < |params| && !StaticOnly(params[i]) ==>
      && NewPosition(params, l, i) <= |Extended(params, InjectedRanges(l))|
      && RootIndex(Extended(params, InjectedRanges(l)), NewPosition(params, l, i)) == RootIndex(params, i)
  }

  /** Main result: the game's root parameters keep their indices exactly when nothing but static samplers
      follows the first parameter of static samplers. */
  lemma RootIndicesStableExactly(params: seq<Param>, l: Injection)
    requires InjectedRanges(l) != []
    ensures RootIndicesKept(params, l)
       <==> forall i :: InsertAt(params) <= i < |params| ==> StaticOnly(params[i])
  {
    hide StaticOnly, InjectedRanges, Extended, NewPosition, RootIndex;
    forall i | 0 <= i < |params|
      ensures NewPosition(params, l, i) <= |Extended(params, InjectedRanges(l))|
      ensures RootIndex(Extended(params, InjectedRanges(l)), NewPosition(params, l, i))
           == RootIndex(params, i) + if i < InsertAt(params) then 0 else |InjectedRanges(l)|
    {
      RootIndexShift(params, l, i);
    }
  }
}
