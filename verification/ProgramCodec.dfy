/** Whole programs: SerializeBitcode, ParseProgramImpl, and the round trips between them. */
module ProgramCodec {
  import opened Words
  import opened Sm5Model
  import opened InstructionToken
  import opened OperandCodec
  import opened InstructionCodec
  import opened InstructionLossless
  import opened InstructionRoundTrip
  import opened NormalInstructions
  import InstructionCoder

  /** The parts of ShaderProgram the bitcode carries. */
  datatype Program = Program(programType: Word, major: Word, minor: Word, instructions: seq<Instruction>)

  function VersionToken(programType: Word, major: Word, minor: Word): Word {
    ((programType << 16) & 0xffff_0000) | ((major << 4) & 0xf0) | (minor & 0xf)
  }

  function ProgramTypeOf(version: Word): Word { (version & 0xffff_0000) >> 16 }
  function MajorOf(version: Word): Word { (version & 0xf0) >> 4 }
  function MinorOf(version: Word): Word { version & 0xf }

  function EncodeInstructions(instructions: seq<Instruction>): seq<Word> {
    if instructions == [] then [] else EncodeInstruction(instructions[0]) + EncodeInstructions(instructions[1..])
  }

  /** SerializeBitcode, as words. */
  function SerializeWords(p: Program): (s: seq<Word>)
    ensures |s| >= 2
  {
    var body := EncodeInstructions(p.instructions);
    [VersionToken(p.programType, p.major, p.minor), ToWord(2 + |body|)] + body
  }

  /** The instructions from `cursor` to `total`, or None when one does not fit. */
  function ParseInstructions(words: seq<Word>, total: nat, cursor: nat): Option<seq<Instruction>>
    requires total <= |words|
    decreases total - cursor
  {
    if cursor >= total then Some([])
    else
      var first := ParseInstruction(words, total, cursor);
      if first.None? then None
      else
        var rest := ParseInstructions(words, total, first.value.cursor);
        if rest.None? then None else Some([first.value.value] + rest.value)
  }

  /** The dword count of a program: the smaller of its length token and the data. */
  function TotalOf(words: seq<Word>): (total: nat)
    requires |words| >= 2
    ensures total <= |words|
  {
    if Value(words[1]) < |words| then Value(words[1]) else |words|
  }

  /** ParseProgram on the whole dwords of its data. */
  function ParseProgram(words: seq<Word>): Option<Program> {
    if |words| < 2 then None
    else
      var instructions := ParseInstructions(words, TotalOf(words), 2);
      if instructions.None? then None
      else Some(Program(ProgramTypeOf(words[0]), MajorOf(words[0]), MinorOf(words[0]), instructions.value))
  }

  // ---------------------------------------------------------------- the imperative forms

  method Serialize(p: Program) returns (words: seq<Word>)
    ensures words == SerializeWords(p)
  {
    hide EncodeInstruction, VersionToken, ToWord;
    words := [VersionToken(p.programType, p.major, p.minor), 0];
    ghost var body: seq<Word> := [];
    for k := 0 to |p.instructions|
      invariant words == [VersionToken(p.programType, p.major, p.minor), 0] + body
      invariant body + EncodeInstructions(p.instructions[k..]) == EncodeInstructions(p.instructions)
    {
      ghost var rest := EncodeInstructions(p.instructions[k..][1..]);
      assert p.instructions[k..][1..] == p.instructions[k + 1..];
      var encoded := InstructionCoder.Encode(p.instructions[k]);
      assert body + (encoded + rest) == body + encoded + rest;
      body := body + encoded;
      words := words + encoded;
    }
    assert body + [] == body;
    words := words[1 := ToWord(|words|)];
  }

  method Parse(words: seq<Word>) returns (program: Option<Program>)
    ensures program == ParseProgram(words)
  {
    hide ParseInstruction, Value, ProgramTypeOf, MajorOf, MinorOf;
    if |words| < 2 { return None; }
    var total := TotalOf(words);
    var cursor, instructions := 2, [];
    ghost var all := ParseInstructions(words, total, 2);
    assert all.Some? ==> [] + all.value == all.value;
    while cursor < total
      invariant var rest := ParseInstructions(words, total, cursor);
                all == if rest.None? then None else Some(instructions + rest.value)
    {
      var next := InstructionCoder.ParseOne(words, total, cursor);
      if next.None? { return None; }
      ghost var rest := ParseInstructions(words, total, next.value.cursor);
      if rest.Some? {
        assert instructions + ([next.value.value] + rest.value) == instructions + [next.value.value] + rest.value;
      }
      instructions := instructions + [next.value.value];
      cursor := next.value.cursor;
    }
    assert instructions + [] == instructions;
    program := Some(Program(ProgramTypeOf(words[0]), MajorOf(words[0]), MinorOf(words[0]), instructions));
  }

  // ---------------------------------------------------------------- parsing an encoded program

  predicate WellFormedInstructions(instructions: seq<Instruction>) {
    forall k :: 0 <= k < |instructions| ==> WellFormedInstruction(instructions[k])
  }

  /** The programs that come back from their own words. */
  predicate WellFormedProgram(p: Program) {
    && p.programType < 0x1_0000 && p.major < 16 && p.minor < 16
    && WellFormedInstructions(p.instructions)
    && 2 + |EncodeInstructions(p.instructions)| < WORD_LIMIT
  }

  predicate SameInstructions(a: seq<Instruction>, b: seq<Instruction>) {
    |a| == |b| && forall k :: 0 <= k < |a| ==> SameInstruction(a[k], b[k]) && b[k].length == |EncodeInstruction(a[k])|
  }

  lemma VersionTokenRead(programType: Word, major: Word, minor: Word)
    requires programType < 0x1_0000 && major < 16 && minor < 16
    ensures var v := VersionToken(programType, major, minor);
            ProgramTypeOf(v) == programType && MajorOf(v) == major && MinorOf(v) == minor
  {
  }

  lemma NonEmptyEncoding(i: Instruction)
    requires WellFormedInstruction(i)
    ensures EncodeInstruction(i) != []
  {
    hide WellFormed, WellFormedPlain, EncodeOperand, Token0, TokenControls;
  }

  lemma {:induction false} InstructionsRoundTrip(instructions: seq<Instruction>, words: seq<Word>, total: nat,
                                                 cursor: nat)
    requires WellFormedInstructions(instructions) && Occurs(EncodeInstructions(instructions), words, cursor)
    requires cursor + |EncodeInstructions(instructions)| == total <= |words|
    ensures var r := ParseInstructions(words, total, cursor);
            r.Some? && SameInstructions(instructions, r.value)
  {
    hide EncodeInstruction, ParseInstruction, SameInstruction, WellFormedInstruction, Occurs;
    if instructions != [] {
      var first := EncodeInstruction(instructions[0]);
      OccursSplit(first, EncodeInstructions(instructions[1..]), words, cursor);
      assert WellFormedInstruction(instructions[0]);
      NonEmptyEncoding(instructions[0]);
      RoundTrip(instructions[0], words, total, cursor);
      InstructionsRoundTrip(instructions[1..], words, total, cursor + |first|);
      var rest := ParseInstructions(words, total, cursor + |first|).value;
      var p := ParseInstruction(words, total, cursor).value.value;
      forall k | 0 <= k < |instructions|
        ensures SameInstruction(instructions[k], ([p] + rest)[k])
             && ([p] + rest)[k].length == |EncodeInstruction(instructions[k])|
      {
        if k > 0 { assert SameInstruction(instructions[1..][k - 1], rest[k - 1]); }
      }
    }
  }

  /** Main result: for every well-formed program, parsing the words SerializeBitcode emits, whatever
      follows them, succeeds and gives back the version fields and the instructions, each with its
      length set to the number of words it encodes to. */
  lemma ProgramRoundTrip(p: Program, rest: seq<Word>)
    requires WellFormedProgram(p)
    ensures var q := ParseProgram(SerializeWords(p) + rest);
            && q.Some?
            && q.value.programType == p.programType && q.value.major == p.major && q.value.minor == p.minor
            && SameInstructions(p.instructions, q.value.instructions)
  {
    hide EncodeInstruction, ParseInstruction, SameInstruction, WellFormedInstruction, VersionToken;
    hide ProgramTypeOf, MajorOf, MinorOf, ToWord, Value;
    var words := SerializeWords(p) + rest;
    var body := EncodeInstructions(p.instructions);
    VersionTokenRead(p.programType, p.major, p.minor);
    ValueOfToWord(2 + |body|);
    assert words[2..2 + |body|] == body;
    InstructionsRoundTrip(p.instructions, words, 2 + |body|, 2);
  }

  // ---------------------------------------------------------------- encoding is stable

  /** Normal instructions, and declarations that encode to nothing because they have no register. */
  predicate AllNormal(instructions: seq<Instruction>) {
    forall k :: 0 <= k < |instructions| ==> Normal(instructions[k]) || EncodeInstruction(instructions[k]) == []
  }

  /** The programs whose words are stable: resource declarations, synthesised tokens and strides included. */
  predicate NormalProgram(p: Program) {
    AllNormal(p.instructions) && 2 + |EncodeInstructions(p.instructions)| < WORD_LIMIT
  }

  lemma WellFormedProgramNormal(p: Program)
    requires WellFormedProgram(p)
    ensures NormalProgram(p)
  {
    hide WellFormedInstruction, Normal, EncodeInstructions, EncodeInstruction;
    forall k | 0 <= k < |p.instructions| ensures Normal(p.instructions[k]) {
      assert WellFormedInstruction(p.instructions[k]);
      WellFormedNormal(p.instructions[k]);
    }
  }

  lemma {:induction false} InstructionsReencoded(instructions: seq<Instruction>, words: seq<Word>, total: nat,
                                                 cursor: nat)
    requires AllNormal(instructions) && Occurs(EncodeInstructions(instructions), words, cursor)
    requires cursor + |EncodeInstructions(instructions)| == total <= |words|
    ensures var r := ParseInstructions(words, total, cursor);
            r.Some? && EncodeInstructions(r.value) == EncodeInstructions(instructions)
  {
    hide EncodeInstruction, ParseInstruction, Normal, Occurs;
    if instructions != [] {
      var first := EncodeInstruction(instructions[0]);
      OccursSplit(first, EncodeInstructions(instructions[1..]), words, cursor);
      InstructionsReencoded(instructions[1..], words, total, cursor + |first|);
      if first != [] {
        assert Normal(instructions[0]);
        NormalReencodes(instructions[0], words, total, cursor);
        var rest := ParseInstructions(words, total, cursor + |first|).value;
        var p := ParseInstruction(words, total, cursor).value.value;
        assert ([p] + rest)[1..] == rest;
      }
    }
  }

  lemma VersionTokenStable(programType: Word, major: Word, minor: Word)
    ensures var v := VersionToken(programType, major, minor);
            VersionToken(ProgramTypeOf(v), MajorOf(v), MinorOf(v)) == v
  {
  }

  /** Main result: serialising, parsing and serialising again gives the same words, whatever follows them, for
      every program of normal instructions. */
  lemma SerializeStable(p: Program, rest: seq<Word>)
    requires NormalProgram(p)
    ensures ParseProgram(SerializeWords(p) + rest).Some?
    ensures SerializeWords(ParseProgram(SerializeWords(p) + rest).value) == SerializeWords(p)
  {
    hide AllNormal, VersionToken, ProgramTypeOf, MajorOf, MinorOf, ToWord, Value, EncodeInstructions;
    hide ParseInstructions;
    var words := SerializeWords(p) + rest;
    var body := EncodeInstructions(p.instructions);
    VersionTokenStable(p.programType, p.major, p.minor);
    ValueOfToWord(2 + |body|);
    assert words[2..2 + |body|] == body;
    InstructionsReencoded(p.instructions, words, 2 + |body|, 2);
  }

  // ---------------------------------------------------------------- parsing tiles the stream

  /** The instructions' windows lie end to end from `from` to `to`. */
  predicate Tile(instructions: seq<Instruction>, from: nat, to: nat) {
    if instructions == [] then from == to
    else
      && instructions[0].sourceOffset == from && instructions[0].sourceLength > 0
      && Tile(instructions[1..], from + instructions[0].sourceLength, to)
  }

  predicate OperandsTile(operands: seq<Operand>, from: nat, to: nat) {
    if operands == [] then from == to
    else
      && operands[0].sourceOffset == from && operands[0].sourceLength > 0
      && OperandsTile(operands[1..], from + operands[0].sourceLength, to)
  }

  lemma {:induction false} ParsedOperandsTile(words: seq<Word>, total: nat, end: nat, cursor: nat)
    requires cursor <= end <= total <= |words|
    ensures OperandsTile(ParseOperands(words, total, end, cursor), cursor, end)
    decreases end - cursor
  {
    hide ParseOperand, ParseOperands;
    if cursor == end {
      NoOperands(words, total, end);
    } else {
      ParseOperandsStep(words, total, end, cursor);
      OperandWindow(words, total, end, cursor);
      ParsedOperandsTile(words, total, end, ParseOperand(words, total, end, cursor).cursor);
    }
  }

  lemma OperandWindow(words: seq<Word>, total: nat, end: nat, cursor: nat)
    requires cursor < end <= total <= |words|
    ensures var r := ParseOperand(words, total, end, cursor);
            r.value.sourceOffset == cursor && r.value.sourceLength == r.cursor - cursor > 0
  {
    hide ParseExtension, ParseIndices, ParseImmediates;
  }

  /** A parsed instruction's window, and its operands' windows inside it. */
  lemma InstructionWindow(words: seq<Word>, total: nat, start: nat)
    requires start < total <= |words| && ParseInstruction(words, total, start).Some?
    ensures var r := ParseInstruction(words, total, start).value;
            && r.value.sourceOffset == start && r.value.sourceLength == r.value.length == r.cursor - start
            && (r.value.opcode != CUSTOMDATA && r.value.opcode != DCL_TEMPS ==>
                  OperandsTile(r.value.operands, start + 1 + |r.value.controls.extended|, r.cursor))
  {
    hide OpcodeOf, LengthOf, TokenControls, SamplerModeOf, ParseOperands, OperandsTile, NameOf, ReturnTypesOf, Value;
    hide ExtendedTokens, UsesSemanticName;
    var r := ParseInstruction(words, total, start).value;
    var end := start + LengthOf(words[start]);
    if r.value.opcode != CUSTOMDATA && r.value.opcode != DCL_TEMPS {
      ParsedOperandsTile(words, total, end, ExtendedTokens(words, end, start).cursor);
    }
  }

  /** Main result: on success the instructions' windows partition the words after the header, and inside
      every ordinary instruction the operands' windows partition the words after the opcode tokens. */
  lemma {:induction false} ParsedTile(words: seq<Word>, total: nat, cursor: nat)
    requires cursor <= total <= |words| && ParseInstructions(words, total, cursor).Some?
    ensures var r := ParseInstructions(words, total, cursor).value;
            && Tile(r, cursor, total)
            && forall k :: 0 <= k < |r| && r[k].opcode != CUSTOMDATA && r[k].opcode != DCL_TEMPS ==>
                 OperandsTile(r[k].operands, r[k].sourceOffset + 1 + |r[k].controls.extended|,
                              r[k].sourceOffset + r[k].sourceLength)
    decreases total - cursor
  {
    hide ParseInstruction, OperandsTile;
    if cursor < total {
      var first := ParseInstruction(words, total, cursor).value;
      InstructionWindow(words, total, cursor);
      ParsedTile(words, total, first.cursor);
      var rest := ParseInstructions(words, total, first.cursor).value;
      var all := [first.value] + rest;
      assert all[1..] == rest;
      forall k | 0 <= k < |all| && all[k].opcode != CUSTOMDATA && all[k].opcode != DCL_TEMPS
        ensures OperandsTile(all[k].operands, all[k].sourceOffset + 1 + |all[k].controls.extended|,
                             all[k].sourceOffset + all[k].sourceLength)
      {
        if k > 0 { assert all[k] == rest[k - 1]; }
      }
    }
  }
}
