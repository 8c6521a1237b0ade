/** The D3D11 draw path as a state machine: the game's calls, DXP's draw-time overrides, and what keeps
    the game's bindings recoverable. */
module DrawState {
  import opened Words
  import opened Descriptors
  import opened SavedBindings

  /** A resolved binding of a replacement. */
  datatype Binding = Binding(stage: Stage, ty: DescriptorType, slot: nat)

  /** What BuildBindings accepts on D3D11: three types, and unordered access views of compute shaders only. */
  predicate Supported(b: Binding) {
    b.ty == Sampler || b.ty == ShaderResourceView || (b.ty == UnorderedAccessView && b.stage == Compute)
  }

  datatype Replacement = Replacement(pipeline: nat, original: nat, bindings: seq<Binding>)

  /** The replacement for the pipeline the game bound last; `swapped` when it is bound in its place. */
  datatype Pending = Pending(replacement: Option<Replacement>, swapped: bool)

  const NOTHING_PENDING := Pending(None, false)

  datatype SwapAction = NoSwap | BindReplacement | BindOriginal

  function NextSwapAction(ready: bool, swapped: bool): (SwapAction, bool) {
    if ready == swapped then (NoSwap, swapped)
    else (if ready then BindReplacement else BindOriginal, ready)
  }

  /** `bound` and `pipeline` are what the context has; `game` and `gamePipeline` what the game bound last.
      Absent keys stand for nothing bound. `acquired` and `released` count COM references. */
  datatype State = State(
    entries: seq<Entry>,
    bound: map<SlotKey, nat>,
    pipeline: map<Stage, nat>,
    pending: map<Stage, Pending>,
    acquired: multiset<nat>,
    released: multiset<nat>,
    game: map<SlotKey, nat>,
    gamePipeline: map<Stage, nat>)

  const INITIAL := State([], map[], map[], map[], multiset{}, multiset{}, map[], map[])

  function Look<K>(m: map<K, nat>, k: K): nat { if k in m then m[k] else 0 }

  function PendingAt(m: map<Stage, Pending>, stage: Stage): Pending { if stage in m then m[stage] else NOTHING_PENDING }

  /** The slot that GetD3D11Binding reads and SetD3D11Binding writes: for an unordered access view it is the
      compute shader's, whatever the stage. */
  function DeviceKey(stage: Stage, ty: DescriptorType, slot: nat): SlotKey {
    if ty == Sampler then SlotKey(stage, SamplerClass, slot)
    else if ty == UnorderedAccessView then SlotKey(Compute, UavClass, slot)
    else SlotKey(stage, SrvClass, slot)
  }

  function KeyOf(b: Binding): SlotKey { SlotKey(b.stage, SlotClassOf(b.ty), b.slot) }

  /** Why graphics unordered access views have to be rejected: of the three types, exactly the supported bindings
      are saved from, and restored to, the slot that is pushed into. */
  lemma SavesItsOwnSlot(b: Binding)
    requires b.ty == Sampler || b.ty == ShaderResourceView || b.ty == UnorderedAccessView
    ensures DeviceKey(b.stage, b.ty, b.slot) == KeyOf(b) <==> Supported(b)
  {
  }

  /** One reference. */
  function Reference(binding: nat): multiset<nat> { if binding != 0 then multiset{binding} else multiset{} }

  /** The references a list of entries holds. */
  function Held(entries: seq<Entry>): multiset<nat> {
    if entries == [] then multiset{} else Held(entries[..|entries| - 1]) + Reference(entries[|entries| - 1].saved)
  }

  // ---------------------------------------------------------------- the steps

  /** SaveOnce followed by push_descriptors. */
  function Push(s: State, b: Binding, value: nat): State {
    var current := Look(s.bound, DeviceKey(b.stage, b.ty, b.slot));
    var pushed := s.bound[KeyOf(b) := value];
    if Contains(s.entries, KeyOf(b)) then s.(bound := pushed)
    else s.(entries := s.entries + [Entry(KeyOf(b), b.ty, current)], bound := pushed,
            acquired := s.acquired + Reference(current))
  }

  function PushAll(s: State, bindings: seq<Binding>, values: seq<nat>, n: nat): State
    requires n <= |bindings| && n <= |values|
  {
    if n == 0 then s else Push(PushAll(s, bindings, values, n - 1), bindings[n - 1], values[n - 1])
  }

  /** ApplySwap */
  function Swap(s: State, stage: Stage, r: Replacement, ready: bool): State {
    var next := NextSwapAction(ready, PendingAt(s.pending, stage).swapped);
    s.(pending := s.pending[stage := Pending(Some(r), next.1)],
       pipeline := match next.0
                   case NoSwap => s.pipeline
                   case BindReplacement => s.pipeline[stage := r.pipeline]
                   case BindOriginal => s.pipeline[stage := r.original])
  }

  /** ResolveBindings: a provider with nothing to bind gives 0. */
  predicate Ready(enabled: bool, r: Replacement, values: map<Stage, seq<nat>>, stage: Stage) {
    enabled && stage in values && |values[stage]| == |r.bindings| && 0 !in values[stage]
  }

  function DrawStage(s: State, enabled: bool, stage: Stage, values: map<Stage, seq<nat>>): State {
    var pending := PendingAt(s.pending, stage);
    if pending.replacement.None? then s
    else
      var r := pending.replacement.value;
      var ready := Ready(enabled, r, values, stage);
      var swapped := Swap(s, stage, r, ready);
      if ready then PushAll(swapped, r.bindings, values[stage], |r.bindings|) else swapped
  }

  function DrawStages(s: State, enabled: bool, stages: seq<Stage>, values: map<Stage, seq<nat>>, n: nat): State
    requires n <= |stages|
  {
    if n == 0 then s else DrawStage(DrawStages(s, enabled, stages, values, n - 1), enabled, stages[n - 1], values)
  }

  /** The slots bindings push into, and the value each ends up with. */
  function Pushes(bindings: seq<Binding>, values: seq<nat>, n: nat): map<SlotKey, nat>
    requires n <= |bindings| && n <= |values|
  {
    if n == 0 then map[] else Pushes(bindings, values, n - 1)[KeyOf(bindings[n - 1]) := values[n - 1]]
  }

  function StagePushes(pending: map<Stage, Pending>, enabled: bool, stage: Stage, values: map<Stage, seq<nat>>)
    : map<SlotKey, nat>
  {
    var p := PendingAt(pending, stage);
    if p.replacement.Some? && Ready(enabled, p.replacement.value, values, stage) then
      Pushes(p.replacement.value.bindings, values[stage], |p.replacement.value.bindings|)
    else map[]
  }

  /** Everything a draw pushes. */
  function Used(pending: map<Stage, Pending>, enabled: bool, stages: seq<Stage>, values: map<Stage, seq<nat>>, n: nat)
    : map<SlotKey, nat>
    requires n <= |stages|
  {
    if n == 0 then map[]
    else Used(pending, enabled, stages, values, n - 1) + StagePushes(pending, enabled, stages[n - 1], values)
  }

  /** SetD3D11Binding on every entry in turn. */
  function BindBack(bound: map<SlotKey, nat>, entries: seq<Entry>): map<SlotKey, nat> {
    if entries == [] then bound
    else
      var e := entries[|entries| - 1];
      BindBack(bound, entries[..|entries| - 1])[DeviceKey(e.key.stage, e.ty, e.key.slot) := e.saved]
  }

  /** RestoreUnused: binds back and releases the entries on which `p` holds. */
  function Restore(s: State, p: Entry -> bool): State {
    var removed := Select(s.entries, p, true);
    s.(entries := Select(s.entries, p, false), bound := BindBack(s.bound, removed),
       released := s.released + Held(removed))
  }

  function Unused(used: map<SlotKey, nat>): Entry -> bool { (e: Entry) => e.key !in used }

  function Every(): Entry -> bool { (e: Entry) => true }

  /** HandleDraw on D3D11, before the game's own draw. */
  function Draw(s: State, enabled: bool, stages: seq<Stage>, values: map<Stage, seq<nat>>): State {
    Restore(DrawStages(s, enabled, stages, values, |stages|),
            Unused(Used(s.pending, enabled, stages, values, |stages|)))
  }

  function Written(stages: set<Stage>, slotClass: SlotClass, first: nat, count: nat): Entry -> bool {
    (e: Entry) => IsWritten(e.key, stages, slotClass, first, count)
  }

  /** The game binds `values` to consecutive slots of a class in some stages. */
  function Overwrite(m: map<SlotKey, nat>, stages: set<Stage>, slotClass: SlotClass, first: nat, values: seq<nat>)
    : map<SlotKey, nat>
  {
    if values == [] then m
    else
      var n := |values| - 1;
      Overwrite(m, stages, slotClass, first, values[..n])
      + map stage | stage in stages :: SlotKey(stage, slotClass, first + n) := values[n]
  }

  /** The game's call, then OnPushDescriptors: the game's binding wins and the saved one is released. */
  function GameBind(s: State, stages: set<Stage>, ty: DescriptorType, first: nat, values: seq<nat>): State {
    var p := Written(stages, SlotClassOf(ty), first, |values|);
    s.(bound := Overwrite(s.bound, stages, SlotClassOf(ty), first, values),
       game := Overwrite(s.game, stages, SlotClassOf(ty), first, values),
       entries := Select(s.entries, p, false),
       released := s.released + Held(Select(s.entries, p, true)))
  }

  /** The game's pipeline bind, then OnBindPipeline, which found `replacement` for it. */
  function GameBindPipeline(s: State, stage: Stage, pipeline: nat, replacement: Option<Replacement>): State {
    s.(pipeline := s.pipeline[stage := pipeline],
       gamePipeline := s.gamePipeline[stage := pipeline],
       pending := s.pending[stage := if replacement.None? then NOTHING_PENDING
                                     else Pending(replacement, replacement.value.pipeline == pipeline)])
  }

  /** FinishCommandList(FALSE) clears the context, then OnResetCommandList releases without restoring. */
  function ClearContext(s: State): State {
    s.(entries := [], released := s.released + Held(s.entries), bound := map[], game := map[], pipeline := map[],
       gamePipeline := map[], pending := map[])
  }

  datatype Event =
    | GameBinds(stages: set<Stage>, ty: DescriptorType, first: nat, values: seq<nat>)
    | GameBindsPipeline(stage: Stage, pipeline: nat, replacement: Option<Replacement>)
    | Draws(enabled: bool, drawn: seq<Stage>, resolved: map<Stage, seq<nat>>)
    | Ends  // present on the immediate context, or close of a deferred one
    | Resets

  function Step(s: State, e: Event): State {
    match e
    case GameBinds(stages, ty, first, values) => GameBind(s, stages, ty, first, values)
    case GameBindsPipeline(stage, pipeline, replacement) => GameBindPipeline(s, stage, pipeline, replacement)
    case Draws(enabled, stages, values) => Draw(s, enabled, stages, values)
    case Ends => Restore(s, Every())
    case Resets => ClearContext(s)
  }

  predicate WellFormedReplacement(r: Replacement) {
    r.pipeline != r.original && forall b <- r.bindings :: Supported(b)
  }

  /** What the runtime guarantees of events: a replacement found for a pipeline is that pipeline's, or the
      game re-bound the replacement itself. */
  predicate WellFormedEvent(e: Event) {
    e.GameBindsPipeline? && e.replacement.Some? ==>
      && WellFormedReplacement(e.replacement.value)
      && (e.pipeline == e.replacement.value.original || e.pipeline == e.replacement.value.pipeline)
  }

  function Run(s: State, events: seq<Event>): State {
    if events == [] then s else Step(Run(s, events[..|events| - 1]), events[|events| - 1])
  }

  // ---------------------------------------------------------------- the invariant

  /** A saved slot holds exactly what the game last bound there. */
  predicate Faithful(s: State, e: Entry) {
    DeviceKey(e.key.stage, e.ty, e.key.slot) == e.key && e.saved == Look(s.game, e.key)
  }

  /** The slots DXP has not displaced have the game's binding. */
  ghost predicate SlotsRecoverable(s: State) {
    && Distinct(s.entries)
    && (forall e <- s.entries :: Faithful(s, e))
    && (forall k: SlotKey :: !Contains(s.entries, k) ==> Look(s.bound, k) == Look(s.game, k))
  }

  /** Every saved reference is held or was released, once. */
  predicate Balanced(s: State) { s.acquired == s.released + Held(s.entries) }

  /** A stage has the game's pipeline, or a replacement known to stand in for it. */
  predicate PipelineRecoverable(s: State, stage: Stage) {
    var p := PendingAt(s.pending, stage);
    match p.replacement
    case None => Look(s.pipeline, stage) == Look(s.gamePipeline, stage) && !p.swapped
    case Some(r) =>
      && WellFormedReplacement(r)
      && Look(s.pipeline, stage) == (if p.swapped then r.pipeline else r.original)
      && (Look(s.gamePipeline, stage) == r.original || Look(s.gamePipeline, stage) == r.pipeline)
  }

  ghost predicate Valid(s: State) {
    SlotsRecoverable(s) && Balanced(s) && forall stage: Stage :: PipelineRecoverable(s, stage)
  }

  // ---------------------------------------------------------------- entries

  lemma {:induction false} HeldSplit(entries: seq<Entry>, p: Entry -> bool)
    ensures Held(entries) == Held(Select(entries, p, true)) + Held(Select(entries, p, false))
  {
    hide Reference;
    if entries != [] {
      var before, last := entries[..|entries| - 1], entries[|entries| - 1];
      HeldSplit(before, p);
      SelectLast(entries, p, true);
      SelectLast(entries, p, false);
      HeldAppend(Select(before, p, p(last)), last);
    }
  }

  lemma SelectLast(entries: seq<Entry>, p: Entry -> bool, value: bool)
    requires entries != []
    ensures var before, last := entries[..|entries| - 1], entries[|entries| - 1];
            Select(entries, p, value)
            == if p(last) == value then Select(before, p, value) + [last] else Select(before, p, value)
  {
  }

  lemma HeldAppend(entries: seq<Entry>, e: Entry)
    ensures Held(entries + [e]) == Held(entries) + Reference(e.saved)
  {
    assert (entries + [e])[..|entries|] == entries;
  }

  lemma SelectedKeys(entries: seq<Entry>, p: Entry -> bool, value: bool, k: SlotKey)
    ensures Contains(Select(entries, p, value), k) <==> exists e <- entries :: e.key == k && p(e) == value
  {
    var r := Select(entries, p, value);
    if Contains(r, k) {
      var i :| 0 <= i < |r| && r[i].key == k;
      Selected(entries, p, value, r[i]);
      assert r[i] in entries && r[i].key == k && p(r[i]) == value;
    }
    if e :| e in entries && e.key == k && p(e) == value {
      Selected(entries, p, value, e);
      var i :| 0 <= i < |r| && r[i] == e;
    }
  }

  /** Binding distinct entries back sets exactly their slots. */
  lemma {:induction false} BoundBack(bound: map<SlotKey, nat>, entries: seq<Entry>, game: map<SlotKey, nat>, k: SlotKey)
    requires forall e <- entries :: DeviceKey(e.key.stage, e.ty, e.key.slot) == e.key && e.saved == Look(game, e.key)
    ensures Look(BindBack(bound, entries), k) == if Contains(entries, k) then Look(game, k) else Look(bound, k)
  {
    if entries != [] {
      var n := |entries| - 1;
      assert entries == entries[..n] + [entries[n]];
      BoundBack(bound, entries[..n], game, k);
      ContainsAppend(entries[..n], entries[n], k);
    }
  }

  lemma ContainsAppend(entries: seq<Entry>, e: Entry, k: SlotKey)
    ensures Contains(entries + [e], k) <==> Contains(entries, k) || e.key == k
  {
    var all := entries + [e];
    if Contains(entries, k) {
      var i :| 0 <= i < |entries| && entries[i].key == k;
      assert all[i].key == k;
    }
    if e.key == k { assert all[|entries|].key == k; }
  }

  // ---------------------------------------------------------------- each step keeps the invariant

  /** Restoring puts the game's binding back in the slots restored, and touches no other. */
  lemma RestoreKeeps(s: State, p: Entry -> bool)
    requires Distinct(s.entries) && Balanced(s) && forall e <- s.entries :: Faithful(s, e)
    ensures var r := Restore(s, p);
            && Distinct(r.entries) && Balanced(r) && r.game == s.game
            && (forall e <- r.entries :: Faithful(r, e) && e in s.entries && !p(e))
            && forall k: SlotKey :: Look(r.bound, k)
                 == if exists e <- s.entries :: e.key == k && p(e) then Look(s.game, k) else Look(s.bound, k)
  {
    hide Held, Reference, DeviceKey, BindBack;
    var removed := Select(s.entries, p, true);
    SelectedDistinct(s.entries, p, false);
    HeldSplit(s.entries, p);
    forall e | e in s.entries ensures (e in removed ==> p(e)) && (e in Select(s.entries, p, false) ==> !p(e)) {
      Selected(s.entries, p, true, e);
      Selected(s.entries, p, false, e);
    }
    forall e | e in Select(s.entries, p, false) ensures e in s.entries { Selected(s.entries, p, false, e); }
    forall e | e in removed ensures e in s.entries { Selected(s.entries, p, true, e); }
    forall k: SlotKey
      ensures Look(BindBack(s.bound, removed), k)
           == if exists e <- s.entries :: e.key == k && p(e) then Look(s.game, k) else Look(s.bound, k)
    {
      BoundBack(s.bound, removed, s.game, k);
      SelectedKeys(s.entries, p, true, k);
    }
  }

  /** Pushing leaves the game's view alone, saves the slot, and shows the pushed value there. */
  lemma PushKeeps(s: State, b: Binding, value: nat)
    requires Supported(b) && Distinct(s.entries) && Balanced(s) && (forall e <- s.entries :: Faithful(s, e))
    requires !Contains(s.entries, KeyOf(b)) ==> Look(s.bound, KeyOf(b)) == Look(s.game, KeyOf(b))
    ensures var r := Push(s, b, value);
            && Distinct(r.entries) && Balanced(r) && r.game == s.game && (forall e <- r.entries :: Faithful(r, e))
            && r.pending == s.pending && r.pipeline == s.pipeline && r.gamePipeline == s.gamePipeline
            && forall k: SlotKey ::
                 && Look(r.bound, k) == (if k == KeyOf(b) then value else Look(s.bound, k))
                 && (Contains(r.entries, k) <==> Contains(s.entries, k) || k == KeyOf(b))
  {
    hide Reference;
    var r := Push(s, b, value);
    assert DeviceKey(b.stage, b.ty, b.slot) == KeyOf(b);
    if !Contains(s.entries, KeyOf(b)) {
      var e := Entry(KeyOf(b), b.ty, Look(s.bound, KeyOf(b)));
      assert r.entries == s.entries + [e];
      HeldAppend(s.entries, e);
      forall k: SlotKey ensures Contains(r.entries, k) <==> Contains(s.entries, k) || k == KeyOf(b) {
        ContainsAppend(s.entries, e, k);
      }
    }
  }

  /** What a run of pushes has done so far. */
  ghost predicate PushedSince(s: State, r: State, pushed: map<SlotKey, nat>) {
    && Distinct(r.entries) && Balanced(r) && r.game == s.game && r.gamePipeline == s.gamePipeline
    && (forall e <- r.entries :: Faithful(r, e))
    && (forall k: SlotKey ::
          && Look(r.bound, k) == (if k in pushed then pushed[k] else Look(s.bound, k))
          && (Contains(r.entries, k) <==> Contains(s.entries, k) || k in pushed))
  }

  lemma {:induction false} PushAllKeeps(s: State, bindings: seq<Binding>, values: seq<nat>, n: nat)
    requires n <= |bindings| && n <= |values| && SlotsRecoverable(s) && Balanced(s)
    requires forall b <- bindings :: Supported(b)
    ensures var r := PushAll(s, bindings, values, n);
            PushedSince(s, r, Pushes(bindings, values, n)) && r.pending == s.pending && r.pipeline == s.pipeline
  {
    hide Balanced, Faithful, Push, KeyOf, Distinct, Contains, Look;
    if n > 0 {
      PushAllKeeps(s, bindings, values, n - 1);
      PushKeeps(PushAll(s, bindings, values, n - 1), bindings[n - 1], values[n - 1]);
    }
  }

  lemma PushedRecoverable(s: State, r: State, pushed: map<SlotKey, nat>)
    requires SlotsRecoverable(s) && PushedSince(s, r, pushed)
    ensures SlotsRecoverable(r)
  {
    hide Faithful, Contains, Look, Distinct;
  }

  lemma PushedTwice(s: State, r: State, t: State, first: map<SlotKey, nat>, second: map<SlotKey, nat>)
    requires PushedSince(s, r, first) && PushedSince(r, t, second)
    ensures PushedSince(s, t, first + second)
  {
    hide Faithful, Contains, Look, Distinct;
  }

  /** The replacements waiting on each stage are the same; only which one is bound may differ. */
  predicate SameReplacements(a: map<Stage, Pending>, b: map<Stage, Pending>) {
    forall stage: Stage :: PendingAt(a, stage).replacement == PendingAt(b, stage).replacement
  }

  /** The pipeline a stage has after a draw that runs `n` stages. */
  function DrawnPipeline(s: State, enabled: bool, stages: seq<Stage>, values: map<Stage, seq<nat>>, n: nat,
                         stage: Stage): nat
    requires n <= |stages|
  {
    var p := PendingAt(s.pending, stage);
    if stage !in stages[..n] || p.replacement.None? then Look(s.pipeline, stage)
    else if Ready(enabled, p.replacement.value, values, stage) then p.replacement.value.pipeline
    else p.replacement.value.original
  }

  lemma SwapSlots(s: State, stage: Stage, r: Replacement, ready: bool)
    requires SlotsRecoverable(s) && Balanced(s)
    ensures var t := Swap(s, stage, r, ready); SlotsRecoverable(t) && Balanced(t) && PushedSince(s, t, map[])
  {
    hide Distinct, Contains, Look, Held, NextSwapAction;
    var t := Swap(s, stage, r, ready);
    forall e <- t.entries ensures Faithful(t, e) { assert Faithful(s, e); }
  }

  lemma SwapPipeline(s: State, stage: Stage, ready: bool, st: Stage)
    requires PendingAt(s.pending, stage).replacement.Some?
    requires PipelineRecoverable(s, stage) && PipelineRecoverable(s, st)
    ensures var r := PendingAt(s.pending, stage).replacement.value;
            var t := Swap(s, stage, r, ready);
            && PipelineRecoverable(t, st)
            && PendingAt(t.pending, st).replacement == PendingAt(s.pending, st).replacement
            && Look(t.pipeline, st)
               == if st != stage then Look(s.pipeline, st) else if ready then r.pipeline else r.original
  {
    hide WellFormedReplacement;
  }

  lemma SwapKeeps(s: State, stage: Stage, ready: bool)
    requires Valid(s) && PendingAt(s.pending, stage).replacement.Some?
    ensures var r := PendingAt(s.pending, stage).replacement.value;
            var t := Swap(s, stage, r, ready);
            && Valid(t) && SameReplacements(s.pending, t.pending) && PushedSince(s, t, map[])
            && forall st: Stage ::
                 Look(t.pipeline, st)
                 == if st != stage then Look(s.pipeline, st) else if ready then r.pipeline else r.original
  {
    hide SlotsRecoverable, Swap, PipelineRecoverable, Look, Balanced, PendingAt, PushedSince;
    var r := PendingAt(s.pending, stage).replacement.value;
    SwapSlots(s, stage, r, ready);
    forall st: Stage { SwapPipeline(s, stage, ready, st); }
  }

  lemma DrawStageKeeps(s: State, enabled: bool, stage: Stage, values: map<Stage, seq<nat>>)
    requires Valid(s)
    ensures var r := DrawStage(s, enabled, stage, values);
            && PushedSince(s, r, StagePushes(s.pending, enabled, stage, values))
            && SameReplacements(s.pending, r.pending)
            && (forall st: Stage :: PipelineRecoverable(r, st))
            && (forall st: Stage :: Look(r.pipeline, st) == DrawnPipeline(s, enabled, [stage], values, 1, st))
  {
    hide SlotsRecoverable, Swap, PipelineRecoverable, Look, Balanced, PushAll, Pushes, SameReplacements, PushedSince;
    hide PendingAt;
    assert [stage][..1] == [stage];
    if PendingAt(s.pending, stage).replacement.None? {
      NothingPushed(s);
      NothingDrawn(s, enabled, [stage], values);
    } else {
      var r := PendingAt(s.pending, stage).replacement.value;
      var ready := Ready(enabled, r, values, stage);
      SwapKeeps(s, stage, ready);
      if ready { ReadyStage(s, enabled, stage, values, r); }
    }
  }

  lemma ReadyStage(s: State, enabled: bool, stage: Stage, values: map<Stage, seq<nat>>, r: Replacement)
    requires Valid(s) && PendingAt(s.pending, stage).replacement == Some(r) && Ready(enabled, r, values, stage)
    ensures var swapped := Swap(s, stage, r, true);
            var t := PushAll(swapped, r.bindings, values[stage], |r.bindings|);
            && PushedSince(s, t, Pushes(r.bindings, values[stage], |r.bindings|))
            && t.pending == swapped.pending && t.pipeline == swapped.pipeline
            && (forall st: Stage :: PipelineRecoverable(t, st))
  {
    hide SlotsRecoverable, Swap, PipelineRecoverable, Look, Balanced, PushAll, Pushes, SameReplacements, PendingAt;
    hide Distinct, Contains, Faithful;
    var swapped := Swap(s, stage, r, true);
    var pushed := Pushes(r.bindings, values[stage], |r.bindings|);
    SwapKeeps(s, stage, true);
    SupportedBindings(s, stage);
    PushAllKeeps(swapped, r.bindings, values[stage], |r.bindings|);
    var t := PushAll(swapped, r.bindings, values[stage], |r.bindings|);
    PushedTwice(s, swapped, t, map[], pushed);
    assert map[] + pushed == pushed;
    forall st: Stage ensures PipelineRecoverable(t, st) { SamePipelines(swapped, t, st); }
  }

  lemma SupportedBindings(s: State, stage: Stage)
    requires PipelineRecoverable(s, stage) && PendingAt(s.pending, stage).replacement.Some?
    ensures forall b <- PendingAt(s.pending, stage).replacement.value.bindings :: Supported(b)
  {
  }

  lemma {:induction false} DrawStagesKeep(s: State, enabled: bool, stages: seq<Stage>, values: map<Stage, seq<nat>>,
                                          n: nat)
    requires Valid(s) && n <= |stages|
    ensures var r := DrawStages(s, enabled, stages, values, n);
            && Valid(r)
            && PushedSince(s, r, Used(s.pending, enabled, stages, values, n))
            && SameReplacements(s.pending, r.pending)
            && (forall st: Stage :: Look(r.pipeline, st) == DrawnPipeline(s, enabled, stages, values, n, st))
  {
    hide PipelineRecoverable, DrawStage, StagePushes, SlotsRecoverable, DrawnPipeline, Look, SameReplacements;
    if n == 0 {
      NothingPushed(s);
      NothingDrawn(s, enabled, stages, values);
    } else {
      DrawStagesKeep(s, enabled, stages, values, n - 1);
      var r := DrawStages(s, enabled, stages, values, n - 1);
      var stage := stages[n - 1];
      DrawStageKeeps(r, enabled, stage, values);
      var t := DrawStage(r, enabled, stage, values);
      SameStagePushes(s.pending, r.pending, enabled, stage, values);
      PushedRecoverable(r, t, StagePushes(r.pending, enabled, stage, values));
      PushedTwice(s, r, t, Used(s.pending, enabled, stages, values, n - 1),
                  StagePushes(s.pending, enabled, stage, values));
      SameTwice(s.pending, r.pending, t.pending);
      DrawnStep(s, r, t, enabled, stages, values, n);
    }
  }

  lemma NothingDrawn(s: State, enabled: bool, stages: seq<Stage>, values: map<Stage, seq<nat>>)
    ensures SameReplacements(s.pending, s.pending)
    ensures forall st: Stage :: Look(s.pipeline, st) == DrawnPipeline(s, enabled, stages, values, 0, st)
  {
  }

  lemma SameTwice(a: map<Stage, Pending>, b: map<Stage, Pending>, c: map<Stage, Pending>)
    requires SameReplacements(a, b) && SameReplacements(b, c)
    ensures SameReplacements(a, c)
  {
    hide PendingAt;
  }

  lemma DrawnStep(s: State, r: State, t: State, enabled: bool, stages: seq<Stage>, values: map<Stage, seq<nat>>, n: nat)
    requires 0 < n <= |stages| && SameReplacements(s.pending, r.pending)
    requires forall st: Stage :: Look(r.pipeline, st) == DrawnPipeline(s, enabled, stages, values, n - 1, st)
    requires forall st: Stage :: Look(t.pipeline, st) == DrawnPipeline(r, enabled, [stages[n - 1]], values, 1, st)
    ensures forall st: Stage :: Look(t.pipeline, st) == DrawnPipeline(s, enabled, stages, values, n, st)
  {
    hide Look, Ready, PendingAt;
    assert stages[..n] == stages[..n - 1] + [stages[n - 1]] && [stages[n - 1]][..1] == [stages[n - 1]];
    forall st: Stage ensures Look(t.pipeline, st) == DrawnPipeline(s, enabled, stages, values, n, st) {
      assert PendingAt(s.pending, st).replacement == PendingAt(r.pending, st).replacement;
    }
  }

  lemma NothingPushed(s: State)
    requires Valid(s)
    ensures PushedSince(s, s, map[])
  {
  }

  lemma SameStagePushes(a: map<Stage, Pending>, b: map<Stage, Pending>, enabled: bool, stage: Stage,
                        values: map<Stage, seq<nat>>)
    requires SameReplacements(a, b)
    ensures StagePushes(a, enabled, stage, values) == StagePushes(b, enabled, stage, values)
  {
    hide Ready;
    assert PendingAt(a, stage).replacement == PendingAt(b, stage).replacement;
  }

  /** Main result: each draw sees DXP's descriptor on the slots its ready replacements use and the game's
      binding everywhere else; exactly the used slots stay saved; and each drawn stage has the replacement
      when it is ready and the game's pipeline when it is not. */
  lemma DrawSees(s: State, enabled: bool, stages: seq<Stage>, values: map<Stage, seq<nat>>)
    requires Valid(s)
    ensures var r := Draw(s, enabled, stages, values);
            var used := Used(s.pending, enabled, stages, values, |stages|);
            && Valid(r) && r.game == s.game && r.gamePipeline == s.gamePipeline
            && (forall k: SlotKey ::
                  && Look(r.bound, k) == (if k in used then used[k] else Look(s.game, k))
                  && (Contains(r.entries, k) <==> k in used))
            && (forall st: Stage :: Look(r.pipeline, st) == DrawnPipeline(s, enabled, stages, values, |stages|, st))
  {
    hide PipelineRecoverable, DrawStages, Used, Faithful, Distinct, Balanced;
    DrawStagesKeep(s, enabled, stages, values, |stages|);
    var d := DrawStages(s, enabled, stages, values, |stages|);
    var used := Used(s.pending, enabled, stages, values, |stages|);
    RestoreKeeps(d, Unused(used));
    var r := Restore(d, Unused(used));
    forall k: SlotKey ensures Contains(r.entries, k) <==> k in used {
      SelectedKeys(d.entries, Unused(used), false, k);
      if k in used {
        var i :| 0 <= i < |d.entries| && d.entries[i].key == k;
        assert d.entries[i] in d.entries && !Unused(used)(d.entries[i]);
      }
    }
    forall k: SlotKey ensures Look(r.bound, k) == (if k in used then used[k] else Look(s.game, k)) {
      if k !in used && Contains(s.entries, k) {
        var i :| 0 <= i < |d.entries| && d.entries[i].key == k;
        assert d.entries[i] in d.entries && Unused(used)(d.entries[i]);
      }
    }
    forall st: Stage ensures PipelineRecoverable(r, st) { SamePipelines(d, r, st); }
  }

  lemma SamePipelines(a: State, b: State, st: Stage)
    requires PipelineRecoverable(a, st)
    requires a.pending == b.pending && a.pipeline == b.pipeline && a.gamePipeline == b.gamePipeline
    ensures PipelineRecoverable(b, st)
  {
  }

  lemma {:induction false} NoneLeft(entries: seq<Entry>, p: Entry -> bool)
    requires forall e <- entries :: p(e)
    ensures Select(entries, p, false) == []
  {
    if entries != [] {
      NoneLeft(entries[..|entries| - 1], p);
      assert entries[|entries| - 1] in entries;
    }
  }

  /** Main result: present and close leave every slot with the game's binding, and every saved reference
      released exactly once. */
  lemma EndsRestore(s: State)
    requires Valid(s)
    ensures var r := Step(s, Ends);
            && Valid(r) && r.entries == [] && r.acquired == r.released
            && (forall k: SlotKey :: Look(r.bound, k) == Look(r.game, k))
  {
    hide PipelineRecoverable, Faithful, Distinct;
    RestoreKeeps(s, Every());
    var r := Restore(s, Every());
    NoneLeft(s.entries, Every());
    forall k: SlotKey ensures Look(r.bound, k) == Look(r.game, k) {
      if Contains(s.entries, k) {
        var i :| 0 <= i < |s.entries| && s.entries[i].key == k;
        assert s.entries[i] in s.entries && Every()(s.entries[i]);
      }
    }
    forall st: Stage ensures PipelineRecoverable(r, st) { SamePipelines(s, r, st); }
  }

  lemma {:induction false} Overwritten(m: map<SlotKey, nat>, stages: set<Stage>, slotClass: SlotClass, first: nat,
                                       values: seq<nat>, k: SlotKey)
    ensures Look(Overwrite(m, stages, slotClass, first, values), k)
         == if IsWritten(k, stages, slotClass, first, |values|) then values[k.slot - first] else Look(m, k)
  {
    if values != [] {
      var n := |values| - 1;
      Overwritten(m, stages, slotClass, first, values[..n], k);
      var last := map stage | stage in stages :: SlotKey(stage, slotClass, first + n) := values[n];
      if k.stage in stages && k.slotClass == slotClass && k.slot == first + n {
        assert SlotKey(k.stage, slotClass, first + n) in last;
        assert k in last;
      }
    }
  }

  lemma GameBindEntries(s: State, p: Entry -> bool, r: State)
    requires SlotsRecoverable(s) && Balanced(s)
    requires r.entries == Select(s.entries, p, false) && r.acquired == s.acquired
    requires r.released == s.released + Held(Select(s.entries, p, true))
    requires forall e <- s.entries :: !p(e) ==> Look(r.game, e.key) == Look(s.game, e.key)
    ensures Distinct(r.entries) && Balanced(r) && forall e <- r.entries :: Faithful(r, e)
  {
    hide Look, Held, Distinct, DeviceKey;
    SelectedDistinct(s.entries, p, false);
    HeldSplit(s.entries, p);
    forall e | e in r.entries ensures Faithful(r, e) {
      Selected(s.entries, p, false, e);
      assert Faithful(s, e);
    }
  }

  lemma GameBindSlot(s: State, stages: set<Stage>, ty: DescriptorType, first: nat, values: seq<nat>, k: SlotKey)
    requires SlotsRecoverable(s) && !Contains(GameBind(s, stages, ty, first, values).entries, k)
    ensures var r := GameBind(s, stages, ty, first, values); Look(r.bound, k) == Look(r.game, k)
  {
    hide Look, Distinct, Held, Overwrite, SlotClassOf;
    var p := Written(stages, SlotClassOf(ty), first, |values|);
    Overwritten(s.game, stages, SlotClassOf(ty), first, values, k);
    Overwritten(s.bound, stages, SlotClassOf(ty), first, values, k);
    SelectedKeys(s.entries, p, false, k);
    if Contains(s.entries, k) {
      var i :| 0 <= i < |s.entries| && s.entries[i].key == k;
      assert s.entries[i] in s.entries && p(s.entries[i]);
    }
  }

  /** The game's own binds win: the slots written hold what the game wrote and are no longer saved, their saved
      references are released, and every other slot and entry stays as it was. */
  lemma GameBindKeeps(s: State, stages: set<Stage>, ty: DescriptorType, first: nat, values: seq<nat>)
    requires Valid(s)
    ensures var r := GameBind(s, stages, ty, first, values);
            && Valid(r)
            && r.acquired == s.acquired && s.released + Held(s.entries) == r.released + Held(r.entries)
            && (forall e ::
                  e in r.entries <==> e in s.entries && !IsWritten(e.key, stages, SlotClassOf(ty), first, |values|))
            && (forall k: SlotKey ::
                  Look(r.bound, k)
                  == if IsWritten(k, stages, SlotClassOf(ty), first, |values|) then values[k.slot - first]
                     else Look(s.bound, k))
  {
    hide PipelineRecoverable, Overwrite, Contains, Look, Held, Distinct, Faithful, SlotClassOf;
    var p := Written(stages, SlotClassOf(ty), first, |values|);
    var r := GameBind(s, stages, ty, first, values);
    forall e <- s.entries | !p(e) ensures Look(r.game, e.key) == Look(s.game, e.key) {
      Overwritten(s.game, stages, SlotClassOf(ty), first, values, e.key);
    }
    GameBindEntries(s, p, r);
    forall k: SlotKey | !Contains(r.entries, k) ensures Look(r.bound, k) == Look(r.game, k) {
      GameBindSlot(s, stages, ty, first, values, k);
    }
    HeldSplit(s.entries, p);
    forall e ensures e in r.entries <==> e in s.entries && !IsWritten(e.key, stages, SlotClassOf(ty), first, |values|) {
      Selected(s.entries, p, false, e);
    }
    forall k: SlotKey
      ensures Look(r.bound, k) == if IsWritten(k, stages, SlotClassOf(ty), first, |values|) then values[k.slot - first]
                                  else Look(s.bound, k)
    {
      Overwritten(s.bound, stages, SlotClassOf(ty), first, values, k);
    }
    forall st: Stage ensures PipelineRecoverable(r, st) { SamePipelines(s, r, st); }
  }

  lemma GameBindPipelineStage(s: State, stage: Stage, pipeline: nat, replacement: Option<Replacement>, st: Stage)
    requires PipelineRecoverable(s, st) && WellFormedEvent(GameBindsPipeline(stage, pipeline, replacement))
    ensures PipelineRecoverable(GameBindPipeline(s, stage, pipeline, replacement), st)
  {
    hide WellFormedReplacement;
  }

  lemma GameBindPipelineKeeps(s: State, stage: Stage, pipeline: nat, replacement: Option<Replacement>)
    requires Valid(s) && WellFormedEvent(GameBindsPipeline(stage, pipeline, replacement))
    ensures Valid(GameBindPipeline(s, stage, pipeline, replacement))
  {
    hide PipelineRecoverable, Contains, Look, Held, Distinct, WellFormedEvent, DeviceKey;
    var r := GameBindPipeline(s, stage, pipeline, replacement);
    forall k <- r.entries ensures Faithful(r, k) { assert Faithful(s, k); }
    forall st: Stage ensures PipelineRecoverable(r, st) { GameBindPipelineStage(s, stage, pipeline, replacement, st); }
  }

  lemma ClearContextKeeps(s: State)
    requires Valid(s)
    ensures Valid(ClearContext(s)) && ClearContext(s).acquired == ClearContext(s).released
  {
    hide Contains;
  }

  lemma StepKeeps(s: State, e: Event)
    requires Valid(s) && WellFormedEvent(e)
    ensures Valid(Step(s, e))
  {
    hide Valid, Draw, GameBind, Restore, ClearContext, GameBindPipeline, WellFormedEvent;
    match e
    case GameBinds(stages, ty, first, values) => GameBindKeeps(s, stages, ty, first, values);
    case GameBindsPipeline(stage, pipeline, replacement) => GameBindPipelineKeeps(s, stage, pipeline, replacement);
    case Draws(enabled, stages, values) => DrawSees(s, enabled, stages, values);
    case Ends => EndsRestore(s);
    case Resets => ClearContextKeeps(s);
  }

  /** Main result: over every run of game binds, draws, presents, closes and resets, a saved slot holds
      exactly what the game last bound there, every other slot has the game's binding, no saved reference
      is lost or released twice, and every stage has the game's pipeline or its known stand-in. */
  lemma {:induction false} RunKeeps(events: seq<Event>)
    requires forall e <- events :: WellFormedEvent(e)
    ensures Valid(Run(INITIAL, events))
  {
    hide Valid, Step, WellFormedEvent;
    if events == [] {
      InitialValid();
    } else {
      RunKeeps(events[..|events| - 1]);
      assert WellFormedEvent(events[|events| - 1]);
      StepKeeps(Run(INITIAL, events[..|events| - 1]), events[|events| - 1]);
    }
  }

  lemma InitialValid()
    ensures Valid(INITIAL)
  {
  }
}
