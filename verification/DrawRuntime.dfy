/** The command-list state the runtime updates in place, each event handler proved against its step. */
module DrawRuntime {
  import opened Words
  import opened Descriptors
  import opened SavedBindings
  import opened DrawState

  class CommandList {
    const saved: SavedSlots
    /** The D3D11 context, and the count of COM references taken and given back. */
    var bound: map<SlotKey, nat>
    var pipeline: map<Stage, nat>
    var pending: map<Stage, Pending>
    var acquired: multiset<nat>
    var released: multiset<nat>
    /** What the game bound last. */
    ghost var game: map<SlotKey, nat>
    ghost var gamePipeline: map<Stage, nat>

    ghost function Abs(): State
      reads this, saved
    {
      State(saved.entries, bound, pipeline, pending, acquired, released, game, gamePipeline)
    }

    constructor ()
      ensures fresh(saved) && Abs() == INITIAL
    {
      saved := new SavedSlots();
      bound, pipeline, pending := map[], map[], map[];
      acquired, released := multiset{}, multiset{};
      game, gamePipeline := map[], map[];
    }

    /** RestoreUnused with RestoreAndRelease. */
    method RestoreEntries(p: Entry -> bool)
      modifies this, saved
      ensures Abs() == Restore(old(Abs()), p)
    {
      hide DeviceKey, Reference;
      var removed := saved.EraseIf(p);
      for i := 0 to |removed|
        invariant saved.entries == Select(old(saved.entries), p, false)
        invariant bound == BindBack(old(bound), removed[..i]) && released == old(released) + Held(removed[..i])
        invariant unchanged(`pipeline, `pending, `acquired, `game, `gamePipeline)
      {
        var e := removed[i];
        assert removed[..i + 1][..i] == removed[..i];
        bound := bound[DeviceKey(e.key.stage, e.ty, e.key.slot) := e.saved];
        released := released + Reference(e.saved);
      }
      assert removed[..|removed|] == removed;
    }

    method ReleaseEntries(removed: seq<Entry>)
      modifies this`released
      ensures released == old(released) + Held(removed)
    {
      hide Reference;
      for i := 0 to |removed|
        invariant released == old(released) + Held(removed[..i])
      {
        assert removed[..i + 1][..i] == removed[..i];
        released := released + Reference(removed[i].saved);
      }
      assert removed[..|removed|] == removed;
    }

    /** OnPushDescriptors, which runs after the game's own call. */
    method OnPushDescriptors(stages: set<Stage>, ty: DescriptorType, first: nat, values: seq<nat>)
      modifies this, saved
      ensures Abs() == GameBind(old(Abs()), stages, ty, first, values)
    {
      hide Overwrite, Held;
      bound := Overwrite(bound, stages, SlotClassOf(ty), first, values);
      game := Overwrite(game, stages, SlotClassOf(ty), first, values);
      var removed := saved.EraseIf(Written(stages, SlotClassOf(ty), first, |values|));
      ReleaseEntries(removed);
    }

    /** OnPresent and OnCloseCommandList */
    method RestoreAllSlots()
      modifies this, saved
      ensures Abs() == Step(old(Abs()), Ends)
    {
      RestoreEntries(Every());
    }

    /** OnResetCommandList, after FinishCommandList(FALSE) cleared the context. */
    method OnResetCommandList()
      modifies this, saved
      ensures Abs() == ClearContext(old(Abs()))
    {
      hide Held;
      ReleaseEntries(saved.entries);
      saved.entries := [];
      bound, game, pipeline, gamePipeline, pending := map[], map[], map[], map[], map[];
    }

    /** OnBindPipeline, after the game's own call. */
    method OnBindPipeline(stage: Stage, handle: nat, replacement: Option<Replacement>)
      modifies this
      ensures Abs() == GameBindPipeline(old(Abs()), stage, handle, replacement)
    {
      pipeline := pipeline[stage := handle];
      gamePipeline := gamePipeline[stage := handle];
      if replacement.Some? {
        var swapped := replacement.value.pipeline == handle;
        pending := pending[stage := Pending(replacement, swapped)];
      } else {
        pending := pending[stage := NOTHING_PENDING];
      }
    }

    method ApplySwap(stage: Stage, r: Replacement, ready: bool)
      modifies this
      ensures Abs() == Swap(old(Abs()), stage, r, ready)
    {
      var action, swapped := NextSwapAction(ready, PendingAt(pending, stage).swapped).0,
                             NextSwapAction(ready, PendingAt(pending, stage).swapped).1;
      pending := pending[stage := Pending(Some(r), swapped)];
      match action {
        case BindReplacement => pipeline := pipeline[stage := r.pipeline];
        case BindOriginal => pipeline := pipeline[stage := r.original];
        case NoSwap =>
      }
    }

    /** SaveOnce, then push_descriptors. */
    method SaveAndPush(b: Binding, value: nat)
      modifies this, saved
      ensures Abs() == Push(old(Abs()), b, value)
    {
      hide DeviceKey;
      var current := Look(bound, DeviceKey(b.stage, b.ty, b.slot));
      var taken := saved.SaveOnce(KeyOf(b), b.ty, current);
      if taken { acquired := acquired + Reference(current); }
      bound := bound[KeyOf(b) := value];
    }

    /** One stage of HandleDraw's loop; `pushed` are the slots it used. */
    method HandleStage(enabled: bool, stage: Stage, values: map<Stage, seq<nat>>) returns (pushed: map<SlotKey, nat>)
      modifies this, saved
      ensures Abs() == DrawStage(old(Abs()), enabled, stage, values)
      ensures pushed == StagePushes(old(pending), enabled, stage, values)
      ensures SameReplacements(old(pending), pending)
    {
      hide Push, Swap, PendingAt, KeyOf, SameReplacements;
      pushed := map[];
      ghost var s := Abs();
      var replacement := PendingAt(pending, stage).replacement;
      if replacement.None? {
        Reflexive(pending);
        return;
      }
      var r := replacement.value;
      var ready := Ready(enabled, r, values, stage);
      ApplySwap(stage, r, ready);
      SwapReplacements(s, stage, r, ready);
      if ready {
        pushed := PushBindings(r.bindings, values[stage]);
        PushedPending(Swap(s, stage, r, ready), r.bindings, values[stage], |r.bindings|);
      }
    }

    /** HandleDraw on D3D11: the draw itself stays the game's. */
    method HandleDraw(enabled: bool, stages: seq<Stage>, values: map<Stage, seq<nat>>)
      modifies this, saved
      ensures Abs() == Draw(old(Abs()), enabled, stages, values)
    {
      hide DrawStage, StagePushes, Restore, SameReplacements;
      var used: map<SlotKey, nat> := map[];
      ghost var before := Abs();
      Reflexive(pending);
      for i := 0 to |stages|
        invariant Abs() == DrawStages(before, enabled, stages, values, i)
        invariant used == Used(before.pending, enabled, stages, values, i)
        invariant SameReplacements(before.pending, pending)
      {
        ghost var last := pending;
        SameStagePushes(before.pending, pending, enabled, stages[i], values);
        var pushed := HandleStage(enabled, stages[i], values);
        SameTwice(before.pending, last, pending);
        used := used + pushed;
      }
      RestoreEntries(Unused(used));
    }

    method PushBindings(bindings: seq<Binding>, values: seq<nat>) returns (pushed: map<SlotKey, nat>)
      requires |values| == |bindings|
      modifies this, saved
      ensures Abs() == PushAll(old(Abs()), bindings, values, |bindings|)
      ensures pushed == Pushes(bindings, values, |bindings|)
    {
      hide Push, KeyOf;
      pushed := map[];
      for i := 0 to |bindings|
        invariant Abs() == PushAll(old(Abs()), bindings, values, i) && pushed == Pushes(bindings, values, i)
      {
        SaveAndPush(bindings[i], values[i]);
        pushed := pushed[KeyOf(bindings[i]) := values[i]];
      }
    }
  }

  lemma Reflexive(pending: map<Stage, Pending>)
    ensures SameReplacements(pending, pending)
  {
  }

  lemma SwapReplacements(s: State, stage: Stage, r: Replacement, ready: bool)
    requires PendingAt(s.pending, stage).replacement == Some(r)
    ensures SameReplacements(s.pending, Swap(s, stage, r, ready).pending)
  {
  }

  lemma {:induction false} PushedPending(s: State, bindings: seq<Binding>, values: seq<nat>, n: nat)
    requires n <= |bindings| && n <= |values|
    ensures PushAll(s, bindings, values, n).pending == s.pending
  {
    hide KeyOf, DeviceKey, Reference, Contains;
    if n > 0 { PushedPending(s, bindings, values, n - 1); }
  }
}
