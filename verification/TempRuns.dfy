/** Temp registers added above the shader's own and the template pool, and the dcl_temps that covers them. */
module TempRuns {
  import opened Words
  import opened Sm5Model
  import opened InstructionCodec

  const MAX_TEMPS: nat := 256

  lemma WrapSum(a: nat, b: nat)
    ensures Wrap(Wrap(a) + b) == Wrap(a + b) && Wrap(a + Wrap(b)) == Wrap(a + b)
  {
    assert a == a % WORD_LIMIT + WORD_LIMIT * (a / WORD_LIMIT);
    assert b == b % WORD_LIMIT + WORD_LIMIT * (b / WORD_LIMIT);
  }

  // ---------------------------------------------------------------- runs

  /** The registers before run `n`, unbounded. */
  function Before(counts: seq<nat>, n: nat): nat
    requires n <= |counts|
  {
    if n == 0 then 0 else Before(counts, n - 1) + counts[n - 1]
  }

  /** Where each of the first `n` runs starts, and the running offset. */
  function Starts(base: nat, counts: seq<nat>, n: nat): (seq<nat>, nat)
    requires n <= |counts|
  {
    if n == 0 then ([], 0)
    else
      var before := Starts(base, counts, n - 1);
      (before.0 + [Wrap(base + before.1)], Wrap(before.1 + counts[n - 1]))
  }

  datatype Added = Added(starts: seq<nat>, tempCount: nat, declared: nat, overBudget: bool)

  /** The temps of an AddResourceStep: `pool` template registers sit between the shader's and the added ones. */
  function AddTemps(tempCount: nat, pool: nat, counts: seq<nat>): Added {
    var runs := Starts(Wrap(tempCount + pool), counts, |counts|);
    var newCount := Wrap(tempCount + runs.1);
    var total := Wrap(newCount + pool);
    Added(runs.0, newCount, total, total > MAX_TEMPS)
  }

  method AllocateTemps(tempCount: nat, pool: nat, counts: seq<nat>) returns (r: Added)
    ensures r == AddTemps(tempCount, pool, counts)
  {
    var tempBase := Wrap(tempCount + pool);
    var starts: seq<nat>, offset: nat := [], 0;
    for k := 0 to |counts|
      invariant (starts, offset) == Starts(tempBase, counts, k)
    {
      starts := starts + [Wrap(tempBase + offset)];
      offset := Wrap(offset + counts[k]);
    }
    var newCount := Wrap(tempCount + offset);
    var total := Wrap(newCount + pool);
    r := Added(starts, newCount, total, total > MAX_TEMPS);
  }

  lemma {:induction false} StartsAt(base: nat, counts: seq<nat>, n: nat)
    requires n <= |counts|
    ensures var r := Starts(base, counts, n);
            && |r.0| == n && r.1 == Wrap(Before(counts, n))
            && forall k :: 0 <= k < n ==> r.0[k] == Wrap(base + Before(counts, k))
  {
    hide Wrap;
    if n == 0 {
      assert Wrap(0) == 0;
    } else {
      StartsAt(base, counts, n - 1);
      WrapSum(base, Before(counts, n - 1));
      WrapSum(Before(counts, n - 1), counts[n - 1]);
    }
  }

  lemma {:induction false} BeforeGrows(counts: seq<nat>, i: nat, j: nat)
    requires i <= j <= |counts|
    ensures Before(counts, i) <= Before(counts, j)
    ensures i < j ==> Before(counts, i) + counts[i] <= Before(counts, j)
    decreases j
  {
    if i < j { BeforeGrows(counts, i, j - 1); }
  }

  lemma Declared(tempCount: nat, pool: nat, counts: seq<nat>)
    ensures var r := AddTemps(tempCount, pool, counts);
            && |r.starts| == |counts|
            && r.declared == Wrap(tempCount + pool + Before(counts, |counts|))
            && forall k :: 0 <= k < |counts| ==> r.starts[k] == Wrap(tempCount + pool + Before(counts, k))
  {
    hide Wrap;
    var n := |counts|;
    StartsAt(Wrap(tempCount + pool), counts, n);
    WrapSum(tempCount, Before(counts, n));
    WrapSum(tempCount + Before(counts, n), pool);
    forall k | 0 <= k < n
      ensures Wrap(Wrap(tempCount + pool) + Before(counts, k)) == Wrap(tempCount + pool + Before(counts, k))
    {
      WrapSum(tempCount + pool, Before(counts, k));
    }
  }

  /** Every non-empty run lies above the shader's and the pool's registers and below the declared count. */
  predicate Covered(tempCount: nat, pool: nat, counts: seq<nat>, r: Added)
    requires |r.starts| == |counts|
  {
    forall k :: 0 <= k < |counts| && counts[k] > 0 ==>
      tempCount + pool <= r.starts[k] && r.starts[k] + counts[k] <= r.declared
  }

  predicate Disjoint(counts: seq<nat>, r: Added)
    requires |r.starts| == |counts|
  {
    forall i, j :: 0 <= i < j < |counts| ==> r.starts[i] + counts[i] <= r.starts[j]
  }

  /** The run in which the register count crosses 2^32. */
  lemma {:induction false} Crossing(base: nat, counts: seq<nat>, n: nat) returns (k: nat)
    requires n <= |counts| && base < WORD_LIMIT <= base + Before(counts, n)
    ensures k < n && counts[k] > 0 && base + Before(counts, k) < WORD_LIMIT <= base + Before(counts, k) + counts[k]
  {
    if base + Before(counts, n - 1) < WORD_LIMIT { k := n - 1; } else { k := Crossing(base, counts, n - 1); }
  }

  /** Main result: the added runs are disjoint, lie above the shader's temps and the pool, and are covered by
      the declared count exactly when the register count does not overflow 32 bits. */
  lemma RunsCoveredExactly(tempCount: nat, pool: nat, counts: seq<nat>)
    requires exists k :: 0 <= k < |counts| && counts[k] > 0
    ensures |AddTemps(tempCount, pool, counts).starts| == |counts|
    ensures Covered(tempCount, pool, counts, AddTemps(tempCount, pool, counts))
       <==> tempCount + pool + Before(counts, |counts|) < WORD_LIMIT
    ensures tempCount + pool + Before(counts, |counts|) < WORD_LIMIT
        ==> Disjoint(counts, AddTemps(tempCount, pool, counts))
  {
    hide AddTemps, Before;
    var n, r, base := |counts|, AddTemps(tempCount, pool, counts), tempCount + pool;
    Declared(tempCount, pool, counts);
    if base + Before(counts, n) < WORD_LIMIT {
      forall k | 0 <= k < n ensures r.starts[k] == base + Before(counts, k) && r.starts[k] + counts[k] <= r.declared {
        BeforeGrows(counts, k, n);
      }
      forall i, j | 0 <= i < j < n ensures r.starts[i] + counts[i] <= r.starts[j] { BeforeGrows(counts, i, j); }
    } else if base >= WORD_LIMIT {
      var k :| 0 <= k < n && counts[k] > 0;
      assert r.starts[k] < base;
    } else {
      var k := Crossing(base, counts, n);
      assert r.starts[k] + counts[k] > r.declared;
    }
  }

  // ---------------------------------------------------------------- dcl_temps

  const DCL_STREAM: Word := 143

  /** OpcodeIsDeclaration */
  predicate IsDeclaration(op: Word) {
    (DCL_RESOURCE <= op <= DCL_GLOBAL_FLAGS) || (DCL_STREAM <= op <= DCL_RESOURCE_STRUCTURED)
  }

  /** BuildTempDeclaration */
  function BuildTempDeclaration(count: nat): Instruction {
    Instruction(DCL_TEMPS, DEFAULT_CONTROLS, 2, [RegisterOperand(TEMP, ToWord(count))], 0, [], 0, 0, 0)
  }

  /** The first dcl_temps, or the number of instructions. */
  function FirstTemps(instructions: seq<Instruction>): (at: nat)
    ensures at <= |instructions|
    ensures at < |instructions| ==> instructions[at].opcode == DCL_TEMPS
    ensures forall k :: 0 <= k < at ==> instructions[k].opcode != DCL_TEMPS
  {
    if instructions == [] || instructions[0].opcode == DCL_TEMPS then 0 else 1 + FirstTemps(instructions[1..])
  }

  /** One past the last declaration among the first `n` instructions. */
  function AfterDeclarations(instructions: seq<Instruction>, n: nat): (at: nat)
    requires n <= |instructions|
    ensures at <= n
  {
    if n == 0 then 0
    else if IsDeclaration(instructions[n - 1].opcode) then n
    else AfterDeclarations(instructions, n - 1)
  }

  /** EnsureTempDeclaration for a declared count. */
  function EnsureTemps(instructions: seq<Instruction>, count: nat): seq<Instruction> {
    if count == 0 then instructions
    else
      var first := FirstTemps(instructions);
      var built := BuildTempDeclaration(count);
      if first < |instructions| then instructions[first := built]
      else
        var at := AfterDeclarations(instructions, |instructions|);
        instructions[..at] + [built] + instructions[at..]
  }

  method EnsureTempDeclaration(instructions: seq<Instruction>, tempCount: nat, pool: nat) returns (r: seq<Instruction>)
    ensures r == EnsureTemps(instructions, Wrap(tempCount + pool))
  {
    hide BuildTempDeclaration, IsDeclaration;
    r := instructions;
    var count := Wrap(tempCount + pool);
    if count == 0 { return; }
    var i := 0;
    while i < |instructions| && instructions[i].opcode != DCL_TEMPS
      invariant i <= |instructions| && forall k :: 0 <= k < i ==> instructions[k].opcode != DCL_TEMPS
    {
      i := i + 1;
    }
    assert i == FirstTemps(instructions);
    if i < |instructions| { return instructions[i := BuildTempDeclaration(count)]; }
    var at := 0;
    for k := 0 to |instructions|
      invariant at == AfterDeclarations(instructions, k)
    {
      if IsDeclaration(instructions[k].opcode) { at := k + 1; }
    }
    r := instructions[..at] + [BuildTempDeclaration(count)] + instructions[at..];
  }

  /** The temps a program declares: the count of its first dcl_temps. */
  function DeclaredTemps(instructions: seq<Instruction>): nat {
    var at := FirstTemps(instructions);
    if at == |instructions| || instructions[at].operands == [] || instructions[at].operands[0].entries == [] then 0
    else Value(FirstRegister(instructions[at].operands[0]))
  }

  lemma FirstTempsAt(instructions: seq<Instruction>, at: nat)
    requires at < |instructions| && instructions[at].opcode == DCL_TEMPS
    requires forall k :: 0 <= k < at ==> instructions[k].opcode != DCL_TEMPS
    ensures FirstTemps(instructions) == at
  {
  }

  lemma BuiltCount(count: nat)
    requires count < WORD_LIMIT
    ensures var i := BuildTempDeclaration(count);
            && i.opcode == DCL_TEMPS && i.operands != [] && i.operands[0].entries != []
            && Value(FirstRegister(i.operands[0])) == count
  {
    hide ToWord, Value;
    ValueOfToWord(count);
  }

  /** Either `r` is the old instructions with one more, or with a dcl_temps replaced. */
  predicate OnlyTempsChanged(instructions: seq<Instruction>, r: seq<Instruction>, at: nat) {
    && at < |r|
    && (r[..at] + r[at + 1..] == instructions
        || (at < |instructions| && r == instructions[at := r[at]] && instructions[at].opcode == DCL_TEMPS))
  }

  /** Main result: afterwards the program declares exactly the requested count, and no other instruction has
      changed or moved relative to the rest. */
  lemma EnsuredTemps(instructions: seq<Instruction>, count: nat)
    requires 0 < count < WORD_LIMIT
    ensures var r := EnsureTemps(instructions, count);
            DeclaredTemps(r) == count && OnlyTempsChanged(instructions, r, FirstTemps(r))
  {
    hide Value, IsDeclaration, BuildTempDeclaration, FirstRegister, FirstTemps;
    var r, first := EnsureTemps(instructions, count), FirstTemps(instructions);
    BuiltCount(count);
    var at := if first < |instructions| then first else AfterDeclarations(instructions, |instructions|);
    assert r[at] == BuildTempDeclaration(count);
    FirstTempsAt(r, at);
    if first == |instructions| { assert r[..at] + r[at + 1..] == instructions; }
  }
}
