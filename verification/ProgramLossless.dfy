/** Programs that serialise back to exactly the words they were parsed from. */
module ProgramLossless {
  import opened Words
  import opened Sm5Model
  import opened InstructionToken
  import opened OperandCodec
  import opened InstructionCodec
  import opened DeclarationLossless
  import opened NormalInstructions
  import opened ProgramCodec

  // ---------------------------------------------------------------- byte-identical programs

  predicate CanonicalInstructions(words: seq<Word>, total: nat, cursor: nat)
    requires total <= |words|
    decreases total - cursor
  {
    cursor >= total
    || (&& ParseInstruction(words, total, cursor).Some?
        && CanonicalInstruction(words, total, cursor, ParseInstruction(words, total, cursor).value.cursor)
        && CanonicalInstructions(words, total, ParseInstruction(words, total, cursor).value.cursor))
  }

  /** Unused version bits clear, the length token exact, and every instruction canonical. */
  predicate CanonicalProgram(words: seq<Word>) {
    && |words| >= 2 && words[0] & 0xff00 == 0 && Value(words[1]) == |words|
    && CanonicalInstructions(words, |words|, 2)
  }

  predicate KeepsLengths(instructions: seq<Instruction>) {
    forall k :: 0 <= k < |instructions| ==> |EncodeInstruction(instructions[k])| == instructions[k].length
  }

  lemma {:induction false} InstructionsReencodeExactly(words: seq<Word>, total: nat, cursor: nat)
    requires cursor <= total <= |words| && ParseInstructions(words, total, cursor).Some?
    ensures var r := ParseInstructions(words, total, cursor).value;
            KeepsLengths(r) && EncodeInstructions(r) == words[cursor..total]
            <==> CanonicalInstructions(words, total, cursor)
    decreases total - cursor
  {
    hide ParseInstruction, EncodeInstruction, CanonicalInstruction, OpcodeOf, IsExtended, IsStructuredDeclaration;
    if cursor < total {
      var first := ParseInstruction(words, total, cursor).value;
      var rest := ParseInstructions(words, total, first.cursor).value;
      var all := [first.value] + rest;
      assert all[0] == first.value && all[1..] == rest;
      InstructionWindow(words, total, cursor);
      InstructionReencodesExactly(words, total, cursor);
      InstructionsReencodeExactly(words, total, first.cursor);
      KeepsLengthsStep(first.value, rest);
      Cut(words, cursor, first.cursor, total, EncodeInstruction(first.value), EncodeInstructions(rest));
    }
  }

  lemma KeepsLengthsStep(first: Instruction, rest: seq<Instruction>)
    ensures KeepsLengths([first] + rest) <==> |EncodeInstruction(first)| == first.length && KeepsLengths(rest)
  {
    hide EncodeInstruction;
    var all := [first] + rest;
    if KeepsLengths(all) {
      assert all[0] == first;
      forall k | 0 <= k < |rest| ensures |EncodeInstruction(rest[k])| == rest[k].length {
        assert rest[k] == all[k + 1];
      }
    }
  }

  lemma Cut(words: seq<Word>, a: nat, b: nat, c: nat, left: seq<Word>, right: seq<Word>)
    requires a <= b <= c <= |words|
    ensures left == words[a..b] && right == words[b..c] ==> left + right == words[a..c]
    ensures |left| == b - a && left + right == words[a..c] ==> left == words[a..b] && right == words[b..c]
  {
    if |left| == b - a && left + right == words[a..c] {
      assert (left + right)[..b - a] == left && words[a..c][..b - a] == words[a..b];
      assert (left + right)[b - a..] == right && words[a..c][b - a..] == words[b..c];
    }
  }

  lemma VersionTokenOf(v: Word)
    ensures VersionToken(ProgramTypeOf(v), MajorOf(v), MinorOf(v)) == v <==> v & 0xff00 == 0
  {
  }

  // ---------------------------------------------------------------- no instruction takes another's place

  /** The encodings that the length field can hold (custom data has its own count). */
  predicate ShortEncodings(instructions: seq<Instruction>) {
    forall k :: 0 <= k < |instructions| && instructions[k].opcode != CUSTOMDATA ==>
      |EncodeInstruction(instructions[k])| <= MAX_LENGTH
  }

  /** Parsing from `p` passes `cursor`. */
  predicate Reaches(words: seq<Word>, total: nat, p: nat, cursor: nat)
    requires total <= |words|
    decreases total - p
  {
    p == cursor
    || (p < total && ParseInstruction(words, total, p).Some?
        && Reaches(words, total, ParseInstruction(words, total, p).value.cursor, cursor))
  }

  lemma {:induction false} ReachesNext(words: seq<Word>, total: nat, p: nat, cursor: nat)
    requires total <= |words| && Reaches(words, total, p, cursor)
    ensures p <= cursor
    ensures cursor < total && ParseInstruction(words, total, cursor).Some? ==>
              Reaches(words, total, p, ParseInstruction(words, total, cursor).value.cursor)
    decreases total - p
  {
    hide ParseInstruction;
    if p != cursor {
      ReachesNext(words, total, ParseInstruction(words, total, p).value.cursor, cursor);
    } else if cursor < total && ParseInstruction(words, total, cursor).Some? {
      assert Reaches(words, total, ParseInstruction(words, total, p).value.cursor,
                     ParseInstruction(words, total, cursor).value.cursor);
    }
  }

  lemma ParsedOpcode(words: seq<Word>, total: nat, start: nat)
    requires start < total <= |words| && ParseInstruction(words, total, start).Some?
    ensures var r := ParseInstruction(words, total, start).value;
            && r.value.opcode == OpcodeOf(words[start]) == OpcodeOf(r.value.opcode)
            && (r.value.opcode != CUSTOMDATA ==> r.cursor == start + LengthOf(words[start]))
            && (r.value.opcode == CUSTOMDATA ==>
                  && start + 1 < total && r.cursor == start + Value(words[start + 1]) >= start + 2
                  && EncodeInstruction(r.value) == words[start..r.cursor])
  {
    hide OpcodeOf, LengthOf, ParsedControls, SamplerModeOf, ParseOperands, Value, ExtendedTokens, EncodeResource;
    hide EncodeConstantBuffer, EncodeTemps, EncodeStructured, EncodeGeneric, EncodeCustomData;
    OpcodeIdempotent(words[start]);
    if OpcodeOf(words[start]) == CUSTOMDATA { CustomDataReencoded(words, total, start); }
  }

  /** Wherever the encoding of a parsed instruction is found in place of an instruction, that one is as long. */
  lemma PlaceTaken(words: seq<Word>, total: nat, cursor: nat, p: nat)
    requires cursor < total <= |words| && ParseInstruction(words, total, cursor).Some?
    requires p < total && ParseInstruction(words, total, p).Some?
    requires var encoded := EncodeInstruction(ParseInstruction(words, total, cursor).value.value);
             && encoded != [] && Occurs(encoded, words, p)
             && (ParseInstruction(words, total, cursor).value.value.opcode != CUSTOMDATA ==> |encoded| <= MAX_LENGTH)
    ensures ParseInstruction(words, total, p).value.cursor
         == p + |EncodeInstruction(ParseInstruction(words, total, cursor).value.value)|
  {
    hide ParseInstruction, EncodeInstruction, OpcodeOf, LengthOf, Value, Occurs;
    var i := ParseInstruction(words, total, cursor).value.value;
    ParsedOpcode(words, total, cursor);
    ParsedOpcode(words, total, p);
    OccursAt(EncodeInstruction(i), words, p, 0);
    if i.opcode != CUSTOMDATA { AnnouncedLength(i); } else { OccursAt(EncodeInstruction(i), words, p, 1); }
  }

  /** What follows an instruction never takes that instruction's place. */
  lemma {:induction false} NeverShifted(words: seq<Word>, total: nat, p: nat, cursor: nat)
    requires p < cursor <= total <= |words| && Reaches(words, total, p, cursor)
    requires ParseInstructions(words, total, cursor).Some?
    requires ShortEncodings(ParseInstructions(words, total, cursor).value)
    ensures EncodeInstructions(ParseInstructions(words, total, cursor).value) != words[p..total]
    decreases total - cursor
  {
    hide ParseInstruction, EncodeInstruction;
    if cursor < total {
      var first := ParseInstruction(words, total, cursor).value;
      var rest := ParseInstructions(words, total, first.cursor).value;
      var encoded := EncodeInstruction(first.value);
      assert ([first.value] + rest)[1..] == rest && ([first.value] + rest)[0] == first.value;
      ShortTail([first.value] + rest);
      ReachesNext(words, total, p, cursor);
      if encoded == [] {
        NeverShifted(words, total, p, first.cursor);
      } else if encoded + EncodeInstructions(rest) == words[p..total] {
        Prefix(encoded, EncodeInstructions(rest), words, p, total);
        PlaceTaken(words, total, cursor, p);
        var next := p + |encoded|;
        ReachesNext(words, total, next, cursor);
        NeverShifted(words, total, next, first.cursor);
      }
    }
  }

  lemma ShortTail(instructions: seq<Instruction>)
    requires ShortEncodings(instructions) && instructions != []
    ensures ShortEncodings(instructions[1..])
    ensures instructions[0].opcode != CUSTOMDATA ==> |EncodeInstruction(instructions[0])| <= MAX_LENGTH
  {
    hide EncodeInstruction;
  }

  lemma Prefix(a: seq<Word>, b: seq<Word>, words: seq<Word>, p: nat, total: nat)
    requires p <= total <= |words| && a + b == words[p..total]
    ensures p + |a| <= total && Occurs(a, words, p) && b == words[p + |a|..total]
  {
    assert (a + b)[..|a|] == a && (a + b)[|a|..] == b;
    assert words[p..total][..|a|] == words[p..p + |a|] && words[p..total][|a|..] == words[p + |a|..total];
  }

  /** So instructions that come back together come back one by one. */
  lemma {:induction false} EachInPlace(words: seq<Word>, total: nat, cursor: nat)
    requires cursor <= total <= |words| && ParseInstructions(words, total, cursor).Some?
    requires ShortEncodings(ParseInstructions(words, total, cursor).value)
    requires EncodeInstructions(ParseInstructions(words, total, cursor).value) == words[cursor..total]
    ensures KeepsLengths(ParseInstructions(words, total, cursor).value)
    decreases total - cursor
  {
    hide ParseInstruction, EncodeInstruction;
    if cursor < total {
      var first := ParseInstruction(words, total, cursor).value;
      var rest := ParseInstructions(words, total, first.cursor).value;
      var encoded := EncodeInstruction(first.value);
      assert ([first.value] + rest)[1..] == rest && ([first.value] + rest)[0] == first.value;
      ShortTail([first.value] + rest);
      InstructionWindow(words, total, cursor);
      if encoded == [] {
        assert encoded + EncodeInstructions(rest) == EncodeInstructions(rest);
        assert Reaches(words, total, first.cursor, first.cursor);
        NeverShifted(words, total, cursor, first.cursor);
      } else {
        Prefix(encoded, EncodeInstructions(rest), words, cursor, total);
        PlaceTaken(words, total, cursor, cursor);
        EachInPlace(words, total, first.cursor);
        KeepsLengthsStep(first.value, rest);
      }
    }
  }

  lemma {:induction false} KeptIsShort(words: seq<Word>, total: nat, cursor: nat)
    requires cursor <= total <= |words| && ParseInstructions(words, total, cursor).Some?
    requires KeepsLengths(ParseInstructions(words, total, cursor).value)
    ensures ShortEncodings(ParseInstructions(words, total, cursor).value)
    decreases total - cursor
  {
    hide ParseInstruction, EncodeInstruction, LengthOf, OpcodeOf;
    if cursor < total {
      var first := ParseInstruction(words, total, cursor).value;
      var rest := ParseInstructions(words, total, first.cursor).value;
      KeepsLengthsStep(first.value, rest);
      KeptIsShort(words, total, first.cursor);
      InstructionWindow(words, total, cursor);
      ParsedOpcode(words, total, cursor);
      LengthAtMost(words[cursor]);
      var all := [first.value] + rest;
      forall k | 0 <= k < |all| && all[k].opcode != CUSTOMDATA ensures |EncodeInstruction(all[k])| <= MAX_LENGTH {
        if k > 0 { assert all[k] == rest[k - 1]; }
      }
    }
  }

  /** Main result: a parsed program whose encodings fit the length field serialises back to the words it was
      parsed from if and only if those words are canonical. */
  lemma ProgramReencodesExactly(words: seq<Word>)
    requires ParseProgram(words).Some? && |words| < WORD_LIMIT
    ensures var q := ParseProgram(words).value;
            ShortEncodings(q.instructions) && SerializeWords(q) == words <==> CanonicalProgram(words)
  {
    hide VersionToken, ProgramTypeOf, MajorOf, MinorOf, ToWord, Value, ParseInstructions, EncodeInstructions;
    hide KeepsLengths, CanonicalInstructions, ShortEncodings;
    var q := ParseProgram(words).value;
    var body := EncodeInstructions(q.instructions);
    VersionTokenOf(words[0]);
    ToWordOfValue(words[1]);
    ValueOfToWord(2 + |body|);
    if SerializeWords(q) == words {
      assert body == words[2..];
      assert 2 + |body| == |words|;
      assert Value(words[1]) == |words|;
    }
    if Value(words[1]) == |words| {
      assert words[2..|words|] == words[2..];
      InstructionsReencodeExactly(words, |words|, 2);
      if ShortEncodings(q.instructions) && body == words[2..] { EachInPlace(words, |words|, 2); }
      if KeepsLengths(q.instructions) { KeptIsShort(words, |words|, 2); }
    }
    if CanonicalProgram(words) {
      assert words == [words[0], words[1]] + words[2..];
    }
  }
}
