/** The draw path's bookkeeping of D3D11 slots: which game bindings DXP has displaced. */
module SavedBindings {
  import opened Descriptors

  datatype Stage = Vertex | Hull | Domain | Geometry | Pixel | Compute

  /** Register class of a descriptor type, as D3D11 slots see it. */
  datatype SlotClass = OtherClass | SrvClass | UavClass | SamplerClass

  function SlotClassOf(ty: DescriptorType): SlotClass {
    match ty
    case Sampler => SamplerClass
    case ShaderResourceView | BufferShaderResourceView => SrvClass
    case UnorderedAccessView | BufferUnorderedAccessView => UavClass
    case _ => OtherClass
  }

  datatype SlotKey = SlotKey(stage: Stage, slotClass: SlotClass, slot: nat)

  /** `saved` is the game's binding: a COM reference, or 0 when nothing was bound. */
  datatype Entry = Entry(key: SlotKey, ty: DescriptorType, saved: nat)

  predicate Contains(entries: seq<Entry>, key: SlotKey) { exists i :: 0 <= i < |entries| && entries[i].key == key }

  predicate Distinct(entries: seq<Entry>) {
    forall i, j :: 0 <= i < j < |entries| ==> entries[i].key != entries[j].key
  }

  /** The entries on which `p` has the given value, in order (std::erase_if keeps the order of the rest). */
  function Select(entries: seq<Entry>, p: Entry -> bool, value: bool): seq<Entry> {
    if entries == [] then []
    else
      var n := |entries| - 1;
      Select(entries[..n], p, value) + (if p(entries[n]) == value then [entries[n]] else [])
  }

  lemma {:induction false} Selected(entries: seq<Entry>, p: Entry -> bool, value: bool, e: Entry)
    ensures e in Select(entries, p, value) <==> e in entries && p(e) == value
  {
    if entries != [] {
      var n := |entries| - 1;
      Selected(entries[..n], p, value, e);
      assert entries == entries[..n] + [entries[n]];
    }
  }

  lemma {:induction false} SelectedDistinct(entries: seq<Entry>, p: Entry -> bool, value: bool)
    requires Distinct(entries)
    ensures Distinct(Select(entries, p, value))
  {
    if entries != [] {
      var n := |entries| - 1;
      SelectedDistinct(entries[..n], p, value);
      var rest := Select(entries[..n], p, value);
      forall k | 0 <= k < |rest| ensures rest[k].key != entries[n].key {
        Selected(entries[..n], p, value, rest[k]);
        var j :| 0 <= j < n && entries[j] == rest[k];
      }
    }
  }

  /** The slots [first, first + count) of a class in some stages. */
  predicate IsWritten(key: SlotKey, stages: set<Stage>, slotClass: SlotClass, first: nat, count: nat) {
    key.stage in stages && key.slotClass == slotClass && first <= key.slot < first + count
  }

  class SavedSlots {
    var entries: seq<Entry>

    constructor ()
      ensures entries == []
    {
      entries := [];
    }

    method Holds(key: SlotKey) returns (found: bool)
      ensures found == Contains(entries, key)
    {
      found := false;
      for i := 0 to |entries|
        invariant found == Contains(entries[..i], key)
      {
        if entries[i].key == key { found := true; }
        assert entries[..i + 1] == entries[..i] + [entries[i]];
      }
      assert entries[..|entries|] == entries;
    }

    /** Keeps the first save of a slot; `taken` says whether the binding was saved. */
    method SaveOnce(key: SlotKey, ty: DescriptorType, saved: nat) returns (taken: bool)
      modifies this
      ensures taken == !Contains(old(entries), key)
      ensures entries == if taken then old(entries) + [Entry(key, ty, saved)] else old(entries)
    {
      var found := Holds(key);
      taken := !found;
      if taken { entries := entries + [Entry(key, ty, saved)]; }
    }

    /** std::erase_if: removes the entries on which `p` holds, and hands them out in order. */
    method EraseIf(p: Entry -> bool) returns (removed: seq<Entry>)
      modifies this
      ensures entries == Select(old(entries), p, false) && removed == Select(old(entries), p, true)
    {
      var kept := [];
      removed := [];
      for i := 0 to |entries|
        invariant entries == old(entries)
        invariant kept == Select(entries[..i], p, false) && removed == Select(entries[..i], p, true)
      {
        assert entries[..i + 1][..i] == entries[..i];
        if p(entries[i]) { removed := removed + [entries[i]]; } else { kept := kept + [entries[i]]; }
      }
      assert entries[..|entries|] == entries;
      entries := kept;
    }
  }
}
