/** Register allocation for added declarations: AllocateBindPoint and the Add*Declaration family. */
module BindPoints {
  import opened Words
  import opened Sm5Model
  import opened InstructionCodec

  // ---------------------------------------------------------------- AllocateBindPoint

  /** The first free slot from `candidate` up; None when every one up to 2^32 - 1 is taken. */
  function FreeAtOrAbove(occupied: set<nat>, candidate: nat): (r: Option<nat>)
    requires candidate < WORD_LIMIT
    ensures r.Some? ==> candidate <= r.value < WORD_LIMIT && r.value !in occupied
    ensures r.Some? ==> forall k :: candidate <= k < r.value ==> k in occupied
    ensures r.None? ==> forall k :: candidate <= k < WORD_LIMIT ==> k in occupied
    decreases WORD_LIMIT - candidate
  {
    if candidate !in occupied then Some(candidate)
    else if candidate == WORD_LIMIT - 1 then None
    else FreeAtOrAbove(occupied, candidate + 1)
  }

  /** The first free slot from `candidate` down. */
  function FreeAtOrBelow(occupied: set<nat>, candidate: nat): (r: Option<nat>)
    ensures r.Some? ==> r.value <= candidate && r.value !in occupied
    ensures r.Some? ==> forall k :: r.value < k <= candidate ==> k in occupied
    ensures r.None? ==> forall k :: 0 <= k <= candidate ==> k in occupied
  {
    if candidate !in occupied then Some(candidate)
    else if candidate == 0 then None
    else FreeAtOrBelow(occupied, candidate - 1)
  }

  function Allocate(occupied: set<nat>, auto: bool, requested: nat, reverse: bool): Option<nat>
    requires requested < WORD_LIMIT
  {
    if !auto then if requested in occupied then None else Some(requested)
    else if reverse then FreeAtOrBelow(occupied, requested)
    else FreeAtOrAbove(occupied, requested)
  }

  /** Main result: with auto-bind the slot is the lowest free one at or above the request (the highest at or
      below it in reverse), and allocation fails only when all of those are taken. */
  method AllocateBindPoint(occupied: set<nat>, auto: bool, requested: nat, reverse: bool) returns (r: Option<nat>)
    requires requested < WORD_LIMIT
    ensures r == Allocate(occupied, auto, requested, reverse)
    ensures !auto ==> r == if requested in occupied then None else Some(requested)
    ensures r.Some? ==> r.value !in occupied && r.value < WORD_LIMIT
    ensures auto && !reverse && r.Some? ==>
              r.value >= requested && forall k :: requested <= k < r.value ==> k in occupied
    ensures auto && !reverse && r.None? ==> forall k :: requested <= k < WORD_LIMIT ==> k in occupied
    ensures auto && reverse && r.Some? ==>
              r.value <= requested && forall k :: r.value < k <= requested ==> k in occupied
    ensures auto && reverse && r.None? ==> forall k :: 0 <= k <= requested ==> k in occupied
  {
    if !auto {
      if requested in occupied { return None; }
      return Some(requested);
    }
    var candidate: nat := requested;
    while candidate in occupied
      invariant candidate < WORD_LIMIT
      invariant Allocate(occupied, auto, candidate, reverse) == Allocate(occupied, auto, requested, reverse)
      invariant if reverse then candidate <= requested else candidate >= requested
      invariant forall k :: (if reverse then candidate < k <= requested else requested <= k < candidate) ==>
                  k in occupied
      decreases if reverse then candidate else WORD_LIMIT - candidate
    {
      if reverse {
        if candidate == 0 { return None; }
        candidate := candidate - 1;
      } else {
        if candidate == WORD_LIMIT - 1 { return None; }
        candidate := candidate + 1;
      }
    }
    r := Some(candidate);
  }

  // ---------------------------------------------------------------- register families

  datatype Family = Resources | Samplers | Uavs | Inputs | Outputs

  /** The opcodes whose registers Add*Declaration scans for a family. */
  predicate InFamily(f: Family, op: Word) {
    match f
    case Resources => op == DCL_RESOURCE || op == DCL_RESOURCE_RAW || op == DCL_RESOURCE_STRUCTURED
    case Samplers => op == DCL_SAMPLER
    case Uavs => op == DCL_UAV_TYPED || op == DCL_UAV_RAW || op == DCL_UAV_STRUCTURED
    case Inputs => op == DCL_INPUT || op == DCL_INPUT_PS || op == DCL_INPUT_PS_SIV || op == DCL_INPUT_PS_SGV
    case Outputs => op == DCL_OUTPUT || op == DCL_OUTPUT_SIV || op == DCL_OUTPUT_SGV
  }

  predicate Declares(i: Instruction, f: Family) {
    InFamily(f, i.opcode) && i.operands != [] && i.operands[0].entries != []
  }

  function RegisterOf(i: Instruction): nat
    requires i.operands != [] && i.operands[0].entries != []
  {
    Value(FirstRegister(i.operands[0]))
  }

  function Occupied(instructions: seq<Instruction>, f: Family): set<nat> {
    set k | 0 <= k < |instructions| && Declares(instructions[k], f) :: RegisterOf(instructions[k])
  }

  predicate Distinct(instructions: seq<Instruction>, f: Family) {
    forall i, j :: 0 <= i < j < |instructions| && Declares(instructions[i], f) && Declares(instructions[j], f)
      ==> RegisterOf(instructions[i]) != RegisterOf(instructions[j])
  }

  // ---------------------------------------------------------------- declarations

  datatype UavKind = TypedUav | RawUav | StructuredUav

  datatype Kind = Texture | RawResource | StructuredResource | SamplerKind | Uav(uav: UavKind) | Input | Output

  function FamilyOf(k: Kind): Family {
    match k
    case Texture | RawResource | StructuredResource => Resources
    case SamplerKind => Samplers
    case Uav(_) => Uavs
    case Input => Inputs
    case Output => Outputs
  }

  function OpcodeOfKind(k: Kind): Word {
    match k
    case Texture => DCL_RESOURCE
    case RawResource => DCL_RESOURCE_RAW
    case StructuredResource => DCL_RESOURCE_STRUCTURED
    case SamplerKind => DCL_SAMPLER
    case Uav(TypedUav) => DCL_UAV_TYPED
    case Uav(RawUav) => DCL_UAV_RAW
    case Uav(StructuredUav) => DCL_UAV_STRUCTURED
    case Input => DCL_INPUT_PS
    case Output => DCL_OUTPUT
  }

  const MASK_ALL: Word := 0xf0

  /** The Make*Operand functions. */
  function DeclaredOperand(k: Kind, register: Word): Operand {
    match k
    case Input => RegisterOperand(INPUT, register).(numComponents := FOUR_COMPONENTS, componentMode := MASK_ALL)
    case Output => RegisterOperand(OUTPUT, register).(numComponents := FOUR_COMPONENTS, componentMode := MASK_ALL)
    case SamplerKind => RegisterOperand(SAMPLER, register)
    case Uav(_) => RegisterOperand(UAV, register)
    case _ => RegisterOperand(RESOURCE, register)
  }

  /** A requested declaration; `controls` and `samplerMode` are what its Build*Declaration sets from it. */
  datatype Decl = Decl(kind: Kind, register: Option<nat>, reverse: bool, controls: Controls, samplerMode: Byte)

  function BuildDeclaration(d: Decl, register: nat): Instruction {
    Instruction(OpcodeOfKind(d.kind), d.controls, 0, [DeclaredOperand(d.kind, ToWord(register))], d.samplerMode, [], 0,
                0, 0)
  }

  /** The opcode a declaration is inserted after: UAVs of every kind go after the typed ones. */
  function AnchorOf(k: Kind): Word { if k.Uav? then DCL_UAV_TYPED else OpcodeOfKind(k) }

  /** Inputs and outputs go after the last scanned declaration, the others after the last of one opcode. */
  predicate Anchors(i: Instruction, k: Kind) {
    if k == Input || k == Output then Declares(i, FamilyOf(k)) else i.opcode == AnchorOf(k)
  }

  /** One past the last anchor among the first `n` instructions. */
  function InsertIndex(instructions: seq<Instruction>, k: Kind, n: nat): (at: nat)
    requires n <= |instructions|
    ensures at <= n
  {
    if n == 0 then 0 else if Anchors(instructions[n - 1], k) then n else InsertIndex(instructions, k, n - 1)
  }

  function Requested(d: Decl, maxBindPoint: nat): nat {
    if d.register.Some? then d.register.value else if d.reverse then maxBindPoint else 0
  }

  /** Add*Declaration: the instructions with the declaration, and its register; None leaves them alone. */
  function Add(instructions: seq<Instruction>, d: Decl, maxBindPoint: nat): Option<(seq<Instruction>, nat)>
    requires Requested(d, maxBindPoint) < WORD_LIMIT
  {
    var occupied := Occupied(instructions, FamilyOf(d.kind));
    match Allocate(occupied, d.register.None?, Requested(d, maxBindPoint), d.reverse)
    case None => None
    case Some(register) =>
      var at := InsertIndex(instructions, d.kind, |instructions|);
      Some((instructions[..at] + [BuildDeclaration(d, register)] + instructions[at..], register))
  }

  class ShaderProgram {
    var instructions: seq<Instruction>

    constructor (initial: seq<Instruction>)
      ensures instructions == initial
    {
      instructions := initial;
    }

    method CollectOccupied(f: Family) returns (occupied: set<nat>)
      ensures occupied == Occupied(instructions, f)
    {
      hide InFamily, Value, FirstRegister;
      occupied := {};
      for k := 0 to |instructions|
        invariant occupied == Occupied(instructions[..k], f)
      {
        OccupiedAppend(instructions, f, k);
        var i := instructions[k];
        if Declares(i, f) { occupied := occupied + {RegisterOf(i)}; }
      }
      assert instructions[..|instructions|] == instructions;
    }

    method FindInsertIndex(k: Kind) returns (at: nat)
      ensures at == InsertIndex(instructions, k, |instructions|)
    {
      hide Anchors;
      at := 0;
      for i := 0 to |instructions|
        invariant at == InsertIndex(instructions, k, i)
      {
        if Anchors(instructions[i], k) { at := i + 1; }
      }
    }

    /** The Add*Declaration methods. */
    method AddDeclaration(d: Decl, maxBindPoint: nat) returns (register: Option<nat>)
      requires Requested(d, maxBindPoint) < WORD_LIMIT
      modifies this
      ensures var r := Add(old(instructions), d, maxBindPoint);
              && instructions == (if r.Some? then r.value.0 else old(instructions))
              && register == if r.Some? then Some(r.value.1) else None
    {
      hide Anchors, InFamily, Value, FirstRegister, OpcodeOfKind, DeclaredOperand, ToWord;
      var occupied := CollectOccupied(FamilyOf(d.kind));
      register := AllocateBindPoint(occupied, d.register.None?, Requested(d, maxBindPoint), d.reverse);
      if register.None? { return; }
      var at := FindInsertIndex(d.kind);
      instructions := instructions[..at] + [BuildDeclaration(d, register.value)] + instructions[at..];
    }
  }

  lemma OccupiedAppend(instructions: seq<Instruction>, f: Family, k: nat)
    requires k < |instructions|
    ensures Occupied(instructions[..k + 1], f)
         == Occupied(instructions[..k], f)
            + (if Declares(instructions[k], f) then {RegisterOf(instructions[k])} else {})
  {
    hide InFamily, Value, FirstRegister;
    var longer, shorter := instructions[..k + 1], instructions[..k];
    forall r | r in Occupied(shorter, f) ensures r in Occupied(longer, f) {
      var j :| 0 <= j < k && Declares(shorter[j], f) && RegisterOf(shorter[j]) == r;
      assert longer[j] == shorter[j];
    }
    forall r | r in Occupied(longer, f) && !(Declares(instructions[k], f) && r == RegisterOf(instructions[k]))
      ensures r in Occupied(shorter, f)
    {
      var j :| 0 <= j <= k && Declares(longer[j], f) && RegisterOf(longer[j]) == r;
      assert shorter[j] == longer[j];
    }
    if Declares(instructions[k], f) { assert longer[k] == instructions[k]; }
  }

  // ---------------------------------------------------------------- main results

  lemma BuiltRegister(d: Decl, register: nat)
    requires register < WORD_LIMIT
    ensures var i := BuildDeclaration(d, register);
            && Declares(i, FamilyOf(d.kind)) && RegisterOf(i) == register
            && forall f: Family :: f != FamilyOf(d.kind) ==> !Declares(i, f)
  {
    hide ToWord, Value;
    ValueOfToWord(register);
  }

  /** Main result: an addition puts its declaration among the old instructions, which stay in order, and
      keeps every scanned register family pairwise distinct. */
  lemma AddKeeps(instructions: seq<Instruction>, d: Decl, maxBindPoint: nat, f: Family)
    requires Requested(d, maxBindPoint) < WORD_LIMIT && Add(instructions, d, maxBindPoint).Some?
    ensures var r := Add(instructions, d, maxBindPoint).value;
            var at := InsertIndex(instructions, d.kind, |instructions|);
            && r.1 !in Occupied(instructions, FamilyOf(d.kind))
            && |r.0| == |instructions| + 1 && r.0[..at] + r.0[at + 1..] == instructions
            && Declares(r.0[at], FamilyOf(d.kind)) && RegisterOf(r.0[at]) == r.1
    ensures Distinct(instructions, f) ==> Distinct(Add(instructions, d, maxBindPoint).value.0, f)
  {
    hide InFamily, Value, FirstRegister, BuildDeclaration, Anchors;
    var r := Add(instructions, d, maxBindPoint).value;
    var at := InsertIndex(instructions, d.kind, |instructions|);
    BuiltRegister(d, r.1);
    var built := BuildDeclaration(d, r.1);
    forall k | 0 <= k < |instructions| && Declares(built, f) && Declares(instructions[k], f)
      ensures RegisterOf(instructions[k]) != RegisterOf(built)
    {
      assert RegisterOf(instructions[k]) in Occupied(instructions, f);
    }
    if Distinct(instructions, f) { InsertedDistinct(instructions, built, at, f); }
  }

  lemma InsertedDistinct(instructions: seq<Instruction>, built: Instruction, at: nat, f: Family)
    requires at <= |instructions| && Distinct(instructions, f)
    requires forall k :: 0 <= k < |instructions| && Declares(built, f) && Declares(instructions[k], f)
               ==> RegisterOf(instructions[k]) != RegisterOf(built)
    ensures Distinct(instructions[..at] + [built] + instructions[at..], f)
  {
    hide Declares, RegisterOf;
    var all := instructions[..at] + [built] + instructions[at..];
    assert forall k :: 0 <= k < |all| ==>
      all[k] == if k < at then instructions[k] else if k == at then built else instructions[k - 1];
  }

  /** A run of additions; those that fail leave the instructions alone. */
  function AddAll(instructions: seq<Instruction>, decls: seq<Decl>, maxBindPoint: nat): seq<Instruction>
    requires forall d <- decls :: Requested(d, maxBindPoint) < WORD_LIMIT
    decreases |decls|
  {
    if decls == [] then instructions
    else
      var d := decls[0];
      assert d in decls;
      var r := Add(instructions, d, maxBindPoint);
      AddAll(if r.Some? then r.value.0 else instructions, decls[1..], maxBindPoint)
  }

  /** The old instructions, in order, are what remains when some are left out. */
  predicate Subsequence<T(==)>(a: seq<T>, b: seq<T>) {
    a == [] || (b != [] && ((a[0] == b[0] && Subsequence(a[1..], b[1..])) || Subsequence(a, b[1..])))
  }

  lemma {:induction false} SubsequenceOfItself<T>(a: seq<T>)
    ensures Subsequence(a, a)
  {
    if a != [] { SubsequenceOfItself(a[1..]); }
  }

  lemma {:induction false} SubsequenceInsert<T>(a: seq<T>, b: seq<T>, at: nat, x: T)
    requires at <= |b| && Subsequence(a, b)
    ensures Subsequence(a, b[..at] + [x] + b[at..])
    decreases |b|
  {
    var all := b[..at] + [x] + b[at..];
    if a != [] {
      if at == 0 {
        assert all[1..] == b;
      } else {
        assert all[1..] == b[1..][..at - 1] + [x] + b[1..][at - 1..];
        if a[0] == b[0] && Subsequence(a[1..], b[1..]) { SubsequenceInsert(a[1..], b[1..], at - 1, x); }
        else { SubsequenceInsert(a, b[1..], at - 1, x); }
      }
    }
  }

  /** Main result: any sequence of additions keeps every register family pairwise distinct and the original
      instructions in order. */
  lemma {:induction false} AddAllKeeps(original: seq<Instruction>, instructions: seq<Instruction>, decls: seq<Decl>,
                                       maxBindPoint: nat, f: Family)
    requires forall d <- decls :: Requested(d, maxBindPoint) < WORD_LIMIT
    requires Distinct(instructions, f) && Subsequence(original, instructions)
    ensures var r := AddAll(instructions, decls, maxBindPoint); Distinct(r, f) && Subsequence(original, r)
    decreases |decls|
  {
    hide Distinct, InFamily, Value, FirstRegister, BuildDeclaration, Anchors, Subsequence, Allocate;
    if decls != [] {
      var d := decls[0];
      var r := Add(instructions, d, maxBindPoint);
      if r.Some? {
        AddKeeps(instructions, d, maxBindPoint, f);
        SubsequenceInsert(original, instructions, InsertIndex(instructions, d.kind, |instructions|),
                          BuildDeclaration(d, r.value.1));
      }
      AddAllKeeps(original, if r.Some? then r.value.0 else instructions, decls[1..], maxBindPoint, f);
    }
  }
}
