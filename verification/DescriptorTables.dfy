/** Packing resolved bindings into one descriptor table per injected root parameter. */
module DescriptorTables {
  import opened Descriptors

  /** A binding of a replacement, with the handle it was declared under. */
  datatype DrawBinding = DrawBinding(param: nat, slot: nat, ty: DescriptorType, stage: nat, handle: string)

  datatype Push = Push(param: nat, ty: DescriptorType, descriptors: seq<nat>)

  predicate AtMost(a: DrawBinding, b: DrawBinding) { a.param < b.param || (a.param == b.param && a.slot <= b.slot) }

  /** The order BuildBindings sorts into. */
  predicate Sorted(bindings: seq<DrawBinding>) {
    forall i, j :: 0 <= i < j < |bindings| ==> AtMost(bindings[i], bindings[j])
  }

  // ---------------------------------------------------------------- the duplicate check of BuildBindings

  predicate SamePlace(a: DrawBinding, b: DrawBinding) {
    a.param == b.param && a.slot == b.slot && a.ty == b.ty && a.stage == b.stage
  }

  /** What the loop looks for: neighbours of one register with different handles. */
  predicate CheckPasses(bindings: seq<DrawBinding>) {
    forall i :: 0 < i < |bindings| ==>
      !(SamePlace(bindings[i - 1], bindings[i]) && bindings[i - 1].handle != bindings[i].handle)
  }

  /** What it is for: no register was given two handles. */
  predicate NoClash(bindings: seq<DrawBinding>) {
    forall i, j :: 0 <= i < j < |bindings| && SamePlace(bindings[i], bindings[j]) ==>
      bindings[i].handle == bindings[j].handle
  }

  /** The bindings of one register lie next to each other. */
  predicate Grouped(bindings: seq<DrawBinding>) {
    forall i, k, j :: 0 <= i < k < j < |bindings| && SamePlace(bindings[i], bindings[j]) ==>
      SamePlace(bindings[i], bindings[k])
  }

  method CheckDuplicates(bindings: seq<DrawBinding>) returns (ok: bool)
    ensures ok == CheckPasses(bindings)
  {
    var i := 1;
    while i < |bindings|
      invariant forall k :: 0 < k < i && k < |bindings| ==>
                  !(SamePlace(bindings[k - 1], bindings[k]) && bindings[k - 1].handle != bindings[k].handle)
    {
      if SamePlace(bindings[i - 1], bindings[i]) && bindings[i - 1].handle != bindings[i].handle { return false; }
      i := i + 1;
    }
    ok := true;
  }

  /** The same registers under other handles. */
  function WithHandles(bindings: seq<DrawBinding>, handles: seq<string>): (r: seq<DrawBinding>)
    requires |handles| == |bindings|
    ensures |r| == |bindings| && forall i :: 0 <= i < |r| ==> r[i] == bindings[i].(handle := handles[i])
  {
    seq(|bindings|, i requires 0 <= i < |bindings| => bindings[i].(handle := handles[i]))
  }

  /** Neighbours agree along a group, so its ends do. */
  lemma {:induction false} NeighboursSuffice(bindings: seq<DrawBinding>, i: nat, j: nat)
    requires Grouped(bindings) && CheckPasses(bindings) && i <= j < |bindings| && SamePlace(bindings[i], bindings[j])
    ensures bindings[i].handle == bindings[j].handle
    decreases j
  {
    if i < j {
      assert i < j - 1 ==> SamePlace(bindings[i], bindings[j - 1]);
      assert SamePlace(bindings[j - 1], bindings[j]);
      NeighboursSuffice(bindings, i, j - 1);
    }
  }

  /** Where a register's bindings are interrupted. */
  lemma {:induction false} GroupBreaks(bindings: seq<DrawBinding>, i: nat, k: nat) returns (first: nat)
    requires i < k < |bindings| && !SamePlace(bindings[i], bindings[k])
    ensures i < first <= k && SamePlace(bindings[i], bindings[first - 1]) && !SamePlace(bindings[i], bindings[first])
    decreases k
  {
    if k == i + 1 || SamePlace(bindings[i], bindings[k - 1]) {
      first := k;
    } else {
      first := GroupBreaks(bindings, i, k - 1);
    }
  }

  lemma SplitPasses(named: seq<DrawBinding>, first: nat)
    requires 0 < first < |named| && !SamePlace(named[first - 1], named[first])
    requires forall n :: 0 <= n < |named| ==> named[n].handle == if n < first then "a" else "b"
    ensures CheckPasses(named)
  {
    hide SamePlace;
    forall n | 0 < n < |named| ensures !(SamePlace(named[n - 1], named[n]) && named[n - 1].handle != named[n].handle) {
      assert n < first || n == first || n - 1 >= first;
    }
  }

  lemma SplitClashes(named: seq<DrawBinding>, i: nat, first: nat, j: nat)
    requires i < first <= j < |named| && SamePlace(named[i], named[j])
    requires forall n :: 0 <= n < |named| ==> named[n].handle == if n < first then "a" else "b"
    ensures !NoClash(named)
  {
    hide SamePlace;
    assert "a"[0] != "b"[0];
    assert named[i].handle == "a" && named[j].handle == "b";
  }

  /** One handle up to the interruption and another from there on get past the check and clash. */
  lemma CheckDefeated(bindings: seq<DrawBinding>) returns (handles: seq<string>)
    requires !Grouped(bindings)
    ensures |handles| == |bindings|
    ensures CheckPasses(WithHandles(bindings, handles)) && !NoClash(WithHandles(bindings, handles))
  {
    hide CheckPasses, NoClash;
    var i, k, j :| 0 <= i < k < j < |bindings| && SamePlace(bindings[i], bindings[j])
                   && !SamePlace(bindings[i], bindings[k]);
    var first := GroupBreaks(bindings, i, k);
    handles := seq(|bindings|, n => if n < first then "a" else "b");
    var named := WithHandles(bindings, handles);
    SplitPasses(named, first);
    SplitClashes(named, i, first, j);
  }

  /** Main result: comparing neighbours finds every clash, whatever the handles, if and only if the bindings of
      each register lie next to each other. */
  lemma CheckSoundExactly(bindings: seq<DrawBinding>)
    ensures Grouped(bindings)
       <==> forall handles: seq<string> :: |handles| == |bindings| ==>
              (CheckPasses(WithHandles(bindings, handles)) <==> NoClash(WithHandles(bindings, handles)))
  {
    if Grouped(bindings) {
      forall handles: seq<string> | |handles| == |bindings|
        ensures CheckPasses(WithHandles(bindings, handles)) <==> NoClash(WithHandles(bindings, handles))
      {
        GroupedDecides(WithHandles(bindings, handles), bindings);
      }
    } else {
      var handles := CheckDefeated(bindings);
    }
  }

  lemma GroupedDecides(named: seq<DrawBinding>, bindings: seq<DrawBinding>)
    requires Grouped(bindings) && |named| == |bindings|
    requires forall i :: 0 <= i < |named| ==> named[i] == bindings[i].(handle := named[i].handle)
    ensures CheckPasses(named) <==> NoClash(named)
  {
    assert Grouped(named) by {
      forall i, k, j | 0 <= i < k < j < |named| && SamePlace(named[i], named[j]) ensures SamePlace(named[i], named[k]) {
        assert SamePlace(bindings[i], bindings[j]);
        assert SamePlace(bindings[i], bindings[k]);
      }
    }
    if CheckPasses(named) {
      forall i, j | 0 <= i < j < |named| && SamePlace(named[i], named[j]) ensures named[i].handle == named[j].handle {
        NeighboursSuffice(named, i, j);
      }
    }
  }

  /** On D3D12 type and stage follow from the parameter, so sorting groups the registers. */
  lemma SortedGroups(bindings: seq<DrawBinding>)
    requires Sorted(bindings)
    requires forall a, b :: 0 <= a < |bindings| && 0 <= b < |bindings| && bindings[a].param == bindings[b].param
               ==> bindings[a].ty == bindings[b].ty && bindings[a].stage == bindings[b].stage
    ensures Grouped(bindings)
  {
    forall i, k, j | 0 <= i < k < j < |bindings| && SamePlace(bindings[i], bindings[j])
      ensures SamePlace(bindings[i], bindings[k])
    {
      assert AtMost(bindings[i], bindings[k]) && AtMost(bindings[k], bindings[j]);
    }
  }

  /** On D3D11 every parameter is 0 and the types mix: two textures at one register, with a sampler sorted
      between them, get past the check. */
  lemma ClashMissed()
    ensures var bindings := [DrawBinding(0, 0, ShaderResourceView, 0, "a"), DrawBinding(0, 0, Sampler, 0, "s"),
                             DrawBinding(0, 0, ShaderResourceView, 0, "b")];
            Sorted(bindings) && CheckPasses(bindings) && !NoClash(bindings)
  {
    var bindings := [DrawBinding(0, 0, ShaderResourceView, 0, "a"), DrawBinding(0, 0, Sampler, 0, "s"),
                     DrawBinding(0, 0, ShaderResourceView, 0, "b")];
    assert "a"[0] != "b"[0];
    assert SamePlace(bindings[0], bindings[2]) && bindings[0].handle != bindings[2].handle;
  }

  // ---------------------------------------------------------------- PushD3D12

  /** One past the last binding of the group that starts at `begin`. */
  function GroupEnd(bindings: seq<DrawBinding>, begin: nat, from: nat): (end: nat)
    requires begin < |bindings| && begin <= from <= |bindings|
    ensures from <= end <= |bindings|
    ensures forall k :: from <= k < end ==> bindings[k].param == bindings[begin].param
    ensures end < |bindings| ==> bindings[end].param != bindings[begin].param
    decreases |bindings| - from
  {
    if from < |bindings| && bindings[from].param == bindings[begin].param then GroupEnd(bindings, begin, from + 1)
    else from
  }

  function Zeros(n: nat): (s: seq<nat>)
    ensures |s| == n && forall k :: 0 <= k < n ==> s[k] == 0
  {
    seq(n, i => 0)
  }

  /** A table of `size` with the values of bindings `begin` to `end` written at their slots, in order. */
  function Written(bindings: seq<DrawBinding>, values: seq<nat>, begin: nat, end: nat, size: nat): (s: seq<nat>)
    requires begin <= end <= |bindings| == |values|
    requires forall k :: begin <= k < end ==> bindings[k].slot < size
    ensures |s| == size
  {
    if begin == end then Zeros(size)
    else Written(bindings, values, begin, end - 1, size)[bindings[end - 1].slot := values[end - 1]]
  }

  /** std::ranges::replace of zero. */
  function Fill(s: seq<nat>, filler: nat): (r: seq<nat>)
    ensures |r| == |s| && forall k :: 0 <= k < |s| ==> r[k] == if s[k] == 0 then filler else s[k]
  {
    seq(|s|, k requires 0 <= k < |s| => if s[k] == 0 then filler else s[k])
  }

  function TableSize(bindings: seq<DrawBinding>, end: nat): nat
    requires 0 < end <= |bindings|
  {
    bindings[end - 1].slot + 1
  }

  lemma SlotsInTable(bindings: seq<DrawBinding>, begin: nat, end: nat)
    requires Sorted(bindings) && begin < end <= |bindings|
    requires forall k :: begin <= k < end ==> bindings[k].param == bindings[begin].param
    ensures forall k :: begin <= k < end ==> bindings[k].slot < TableSize(bindings, end)
  {
    forall k | begin <= k < end ensures bindings[k].slot < TableSize(bindings, end) {
      if k < end - 1 { assert AtMost(bindings[k], bindings[end - 1]); }
    }
  }

  /** The table of one group. */
  function Table(bindings: seq<DrawBinding>, values: seq<nat>, begin: nat, end: nat): (s: seq<nat>)
    requires Sorted(bindings) && begin < end <= |bindings| == |values|
    requires forall k :: begin <= k < end ==> bindings[k].param == bindings[begin].param
    ensures |s| == TableSize(bindings, end)
  {
    SlotsInTable(bindings, begin, end);
    var written := Written(bindings, values, begin, end, TableSize(bindings, end));
    Fill(written, written[bindings[begin].slot])
  }

  /** The pushes for the bindings from `begin` on. */
  function Pushes(bindings: seq<DrawBinding>, values: seq<nat>, begin: nat): seq<Push>
    requires Sorted(bindings) && begin <= |bindings| == |values|
    decreases |bindings| - begin
  {
    if begin == |bindings| then []
    else
      var end := GroupEnd(bindings, begin, begin + 1);
      [Push(bindings[begin].param, bindings[begin].ty, Table(bindings, values, begin, end))]
      + Pushes(bindings, values, end)
  }

  /** PushD3D12: one push per root parameter, in ascending order, and with non-zero values each covers its group. */
  method PushD3D12(bindings: seq<DrawBinding>, values: seq<nat>) returns (pushes: seq<Push>)
    requires Sorted(bindings) && |values| == |bindings|
    ensures pushes == Pushes(bindings, values, 0)
    ensures forall i :: 0 < i < |pushes| ==> pushes[i - 1].param < pushes[i].param
    ensures 0 !in values ==> PushesGroups(bindings, values, 0, pushes)
  {
    hide Table, Sorted, PushesGroups;
    pushes := [];
    var begin := 0;
    while begin < |bindings|
      invariant begin <= |bindings|
      invariant pushes + Pushes(bindings, values, begin) == Pushes(bindings, values, 0)
    {
      var end := begin + 1;
      while end < |bindings| && bindings[end].param == bindings[begin].param
        invariant begin < end <= |bindings|
        invariant GroupEnd(bindings, begin, end) == GroupEnd(bindings, begin, begin + 1)
      {
        end := end + 1;
      }
      var descriptors := FillTable(bindings, values, begin, end);
      ghost var rest := Pushes(bindings, values, end);
      var push := Push(bindings[begin].param, bindings[begin].ty, descriptors);
      assert pushes + ([push] + rest) == pushes + [push] + rest;
      pushes := pushes + [push];
      begin := end;
    }
    assert pushes + [] == pushes;
    PushedOnce(bindings, values);
  }

  lemma PushedOnce(bindings: seq<DrawBinding>, values: seq<nat>)
    requires Sorted(bindings) && |values| == |bindings|
    ensures var pushes := Pushes(bindings, values, 0);
            && (forall i :: 0 < i < |pushes| ==> pushes[i - 1].param < pushes[i].param)
            && (0 !in values ==> PushesGroups(bindings, values, 0, pushes))
  {
    hide Pushes, PushesGroups, Sorted;
    var pushes := Pushes(bindings, values, 0);
    forall i | 0 < i < |pushes| ensures pushes[i - 1].param < pushes[i].param { ParamsAscend(bindings, values, 0, i); }
    if 0 !in values { PushesFaithful(bindings, values, 0); }
  }

  method FillTable(bindings: seq<DrawBinding>, values: seq<nat>, begin: nat, end: nat) returns (descriptors: seq<nat>)
    requires Sorted(bindings) && begin < end <= |bindings| == |values|
    requires forall k :: begin <= k < end ==> bindings[k].param == bindings[begin].param
    ensures descriptors == Table(bindings, values, begin, end)
  {
    SlotsInTable(bindings, begin, end);
    var size := bindings[end - 1].slot + 1;
    var buffer := new nat[size](k => 0);
    assert buffer[..] == Zeros(size);
    for i := begin to end
      invariant buffer[..] == Written(bindings, values, begin, i, size)
    {
      buffer[bindings[i].slot] := values[i];
    }
    var filler := buffer[bindings[begin].slot];
    ghost var written := buffer[..];
    for k := 0 to size
      invariant forall j :: 0 <= j < k ==> buffer[j] == if written[j] == 0 then filler else written[j]
      invariant forall j :: k <= j < size ==> buffer[j] == written[j]
    {
      if buffer[k] == 0 { buffer[k] := filler; }
    }
    descriptors := buffer[..];
  }

  // ---------------------------------------------------------------- main results

  /** The last binding of [begin, end) at a slot, if any. */
  function LastAt(bindings: seq<DrawBinding>, begin: nat, end: nat, slot: nat): (k: int)
    requires begin <= end <= |bindings|
    ensures k == -1 || begin <= k < end
    ensures k >= 0 ==> bindings[k].slot == slot && forall j :: k < j < end ==> bindings[j].slot != slot
    ensures k == -1 ==> forall j :: begin <= j < end ==> bindings[j].slot != slot
  {
    if begin == end then -1
    else if bindings[end - 1].slot == slot then end - 1
    else LastAt(bindings, begin, end - 1, slot)
  }

  lemma {:induction false} WrittenAt(bindings: seq<DrawBinding>, values: seq<nat>, begin: nat, end: nat, size: nat,
                                     slot: nat)
    requires begin <= end <= |bindings| == |values| && slot < size
    requires forall k :: begin <= k < end ==> bindings[k].slot < size
    ensures var last := LastAt(bindings, begin, end, slot);
            Written(bindings, values, begin, end, size)[slot] == if last == -1 then 0 else values[last]
    decreases end
  {
    if begin < end { WrittenAt(bindings, values, begin, end - 1, size, slot); }
  }

  /** What a table holds: at each bound slot the last value bound there, in each gap a value of the group, and
      nowhere zero. */
  predicate Faithful(bindings: seq<DrawBinding>, values: seq<nat>, begin: nat, end: nat, descriptors: seq<nat>)
    requires begin < end <= |bindings| == |values|
  {
    && |descriptors| == TableSize(bindings, end)
    && (forall k :: begin <= k < end ==>
          bindings[k].slot < |descriptors| && LastAt(bindings, begin, end, bindings[k].slot) >= 0
          && descriptors[bindings[k].slot] == values[LastAt(bindings, begin, end, bindings[k].slot)])
    && (forall s :: 0 <= s < |descriptors| ==>
          descriptors[s] != 0 && exists k :: begin <= k < end && descriptors[s] == values[k])
  }

  lemma TableFaithful(bindings: seq<DrawBinding>, values: seq<nat>, begin: nat, end: nat)
    requires Sorted(bindings) && begin < end <= |bindings| == |values| && 0 !in values
    requires forall k :: begin <= k < end ==> bindings[k].param == bindings[begin].param
    ensures Faithful(bindings, values, begin, end, Table(bindings, values, begin, end))
  {
    hide LastAt, Sorted;
    SlotsInTable(bindings, begin, end);
    var size := TableSize(bindings, end);
    forall slot | 0 <= slot < size
      ensures var last := LastAt(bindings, begin, end, slot);
              Written(bindings, values, begin, end, size)[slot] == if last == -1 then 0 else values[last]
    {
      WrittenAt(bindings, values, begin, end, size, slot);
    }
    forall k | begin <= k < end ensures LastAt(bindings, begin, end, bindings[k].slot) >= 0 {
      assert bindings[k].slot == bindings[k].slot;
    }
    assert LastAt(bindings, begin, end, bindings[begin].slot) >= 0;
  }

  /** The groups of bindings: each push covers one, they follow each other, and their parameters ascend. */
  ghost predicate PushesGroups(bindings: seq<DrawBinding>, values: seq<nat>, begin: nat, pushes: seq<Push>)
    requires Sorted(bindings) && begin <= |bindings| == |values|
    decreases |bindings| - begin
  {
    if begin == |bindings| then pushes == []
    else
      var end := GroupEnd(bindings, begin, begin + 1);
      && pushes != []
      && pushes[0].param == bindings[begin].param
      && Faithful(bindings, values, begin, end, pushes[0].descriptors)
      && PushesGroups(bindings, values, end, pushes[1..])
  }

  /** Main result: each push is the table of one group. No entry is zero, and every gap repeats a value of the
      same group, so a copied table holds no garbage. */
  lemma {:induction false} PushesFaithful(bindings: seq<DrawBinding>, values: seq<nat>, begin: nat)
    requires Sorted(bindings) && begin <= |bindings| == |values| && 0 !in values
    ensures PushesGroups(bindings, values, begin, Pushes(bindings, values, begin))
    decreases |bindings| - begin
  {
    hide Sorted, Table, Faithful;
    if begin < |bindings| {
      var end := GroupEnd(bindings, begin, begin + 1);
      TableFaithful(bindings, values, begin, end);
      PushesFaithful(bindings, values, end);
      var pushes := Pushes(bindings, values, begin);
      assert pushes[1..] == Pushes(bindings, values, end);
    }
  }

  lemma {:induction false} ParamsAscend(bindings: seq<DrawBinding>, values: seq<nat>, begin: nat, i: nat)
    requires Sorted(bindings) && begin <= |bindings| == |values| && i < |Pushes(bindings, values, begin)|
    ensures begin < |bindings| && Pushes(bindings, values, begin)[i].param >= bindings[begin].param
    ensures i > 0 ==> Pushes(bindings, values, begin)[i].param > Pushes(bindings, values, begin)[i - 1].param
    decreases |bindings| - begin
  {
    hide Table;
    var end := GroupEnd(bindings, begin, begin + 1);
    if i > 0 {
      ParamsAscend(bindings, values, end, i - 1);
      assert AtMost(bindings[begin], bindings[end]);
    }
  }

  lemma BeyondGroup(bindings: seq<DrawBinding>, begin: nat, m: nat)
    requires Sorted(bindings) && begin < m < |bindings| && GroupEnd(bindings, begin, begin + 1) <= m
    ensures bindings[m].param > bindings[begin].param
  {
    var end := GroupEnd(bindings, begin, begin + 1);
    assert AtMost(bindings[begin], bindings[end]) && (end == m || AtMost(bindings[end], bindings[m]));
  }

  /** `value` is the value of the last binding from `k` on with the same parameter and slot. */
  predicate LastValue(bindings: seq<DrawBinding>, values: seq<nat>, k: nat, value: nat)
    requires k < |bindings| == |values|
  {
    exists last :: k <= last < |bindings| && values[last] == value
      && bindings[last].param == bindings[k].param && bindings[last].slot == bindings[k].slot
      && forall m :: last < m < |bindings| && bindings[m].param == bindings[k].param ==>
           bindings[m].slot != bindings[k].slot
  }

  /** Main result: PushD3D12 makes exactly one push for each root parameter that has a binding, and every
      binding's value is at its slot of its parameter's table: the last of them, where several share a slot. */
  lemma {:induction false} EveryBindingPushed(bindings: seq<DrawBinding>, values: seq<nat>, begin: nat, k: nat)
    returns (i: nat)
    requires Sorted(bindings) && begin <= k < |bindings| == |values| && 0 !in values
    ensures var pushes := Pushes(bindings, values, begin);
            && i < |pushes| && pushes[i].param == bindings[k].param
            && (forall j :: 0 <= j < |pushes| && pushes[j].param == bindings[k].param ==> j == i)
            && bindings[k].slot < |pushes[i].descriptors|
            && LastValue(bindings, values, k, pushes[i].descriptors[bindings[k].slot])
    decreases |bindings| - begin
  {
    hide Table, Faithful, LastAt, LastValue;
    var end := GroupEnd(bindings, begin, begin + 1);
    var pushes, rest := Pushes(bindings, values, begin), Pushes(bindings, values, end);
    assert pushes[1..] == rest;
    if k < end {
      i := 0;
      InGroup(bindings, values, begin, end, k);
      forall j | 0 < j < |pushes| ensures pushes[j].param != bindings[k].param {
        ParamsAscend(bindings, values, end, j - 1);
        BeyondGroup(bindings, begin, end);
      }
    } else {
      var before := EveryBindingPushed(bindings, values, end, k);
      i := before + 1;
      BeyondGroup(bindings, begin, k);
    }
  }

  lemma InGroup(bindings: seq<DrawBinding>, values: seq<nat>, begin: nat, end: nat, k: nat)
    requires Sorted(bindings) && begin <= k < end <= |bindings| == |values| && 0 !in values
    requires begin < end && end == GroupEnd(bindings, begin, begin + 1)
    requires forall j :: begin <= j < end ==> bindings[j].param == bindings[begin].param
    ensures var table := Table(bindings, values, begin, end);
            bindings[k].slot < |table| && LastValue(bindings, values, k, table[bindings[k].slot])
  {
    hide Table, LastAt, GroupEnd, Sorted;
    TableFaithful(bindings, values, begin, end);
    var last := LastAt(bindings, begin, end, bindings[k].slot);
    assert last >= k;
    forall m | end <= m < |bindings| ensures bindings[m].param != bindings[k].param { BeyondGroup(bindings, begin, m); }
  }
}
