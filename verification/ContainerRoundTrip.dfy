/** FromBytes undoes Serialize, and serialising once more changes nothing. */
module ContainerRoundTrip {
  import opened Words
  import opened InstructionCodec
  import opened ProgramCodec
  import opened Container

  // ---------------------------------------------------------------- the parts of a container

  predicate HasParts(b: seq<Byte>, signature: Word, one: Word, chunks: seq<Chunk>) {
    && |b| == Offset(chunks, |chunks|) >= HEADER_BYTES + 4 * |chunks|
    && b[0..4] == WordBytes(signature)
    && b[20..24] == WordBytes(if one == 0 then 1 else one)
    && b[24..28] == WordBytes(ToWord(|b|))
    && b[28..32] == WordBytes(ToWord(|chunks|))
    && b[32..32 + 4 * |chunks|] == Table(chunks, |chunks|)
    && b[32 + 4 * |chunks|..] == Regions(chunks, |chunks|)
  }

  /** Five pieces laid end to end, the first three of four bytes each. */
  lemma Pieces(a: seq<Byte>, b: seq<Byte>, c: seq<Byte>, d: seq<Byte>, e: seq<Byte>)
    requires |a| == 4 && |b| == 4 && |c| == 4
    ensures var h := a + b + c + d + e;
            h[0..4] == a && h[4..8] == b && h[8..12] == c && h[12..12 + |d|] == d && h[12 + |d|..] == e
  {
  }

  lemma HashedParts(one: Word, chunks: seq<Chunk>)
    ensures var h := Hashed(one, chunks);
            && h[0..4] == WordBytes(if one == 0 then 1 else one)
            && h[4..8] == WordBytes(ToWord(Offset(chunks, |chunks|)))
            && h[8..12] == WordBytes(ToWord(|chunks|))
            && h[12..12 + 4 * |chunks|] == Table(chunks, |chunks|)
            && h[12 + 4 * |chunks|..] == Regions(chunks, |chunks|)
  {
    hide WordBytes, ToWord, Table, Regions, Offset;
    Pieces(WordBytes(if one == 0 then 1 else one), WordBytes(ToWord(Offset(chunks, |chunks|))),
           WordBytes(ToWord(|chunks|)), Table(chunks, |chunks|), Regions(chunks, |chunks|));
  }

  lemma ContainerParts(signature: Word, one: Word, chunks: seq<Chunk>)
    ensures HasParts(ContainerBytes(signature, one, chunks), signature, one, chunks)
  {
    hide WordBytes, ToWord, Table, Regions, DxbcHash.Hash, Hashed, Offset;
    HashedParts(one, chunks);
    var h := Hashed(one, chunks);
    var b := ContainerBytes(signature, one, chunks);
    assert b[20..] == h;
    assert b[20..24] == h[0..4] && b[24..28] == h[4..8] && b[28..32] == h[8..12];
    assert b[32..32 + 4 * |chunks|] == h[12..12 + 4 * |chunks|];
    assert b[32 + 4 * |chunks|..] == h[12 + 4 * |chunks|..];
  }

  lemma ValueRead(b: seq<Byte>, at: nat, n: nat)
    requires at + 4 <= |b| && b[at..at + 4] == WordBytes(ToWord(n)) && n < WORD_LIMIT
    ensures Value(WordAt(b, at)) == n
  {
    hide WordBytes, ToWord, Value, WordAt;
    WordAtBytes(b, at, ToWord(n));
    ValueOfToWord(n);
  }

  lemma SubSlice(b: seq<Byte>, o: nat, region: seq<Byte>, i: nat, j: nat)
    requires o + |region| <= |b| && b[o..o + |region|] == region && i <= j <= |region|
    ensures b[o + i..o + j] == region[i..j]
  {
    forall k | 0 <= k < j - i ensures b[o + i..o + j][k] == region[i..j][k] {
      assert b[o..o + |region|][i + k] == b[o + i + k];
    }
  }

  lemma {:induction false} OffsetsRead(b: seq<Byte>, signature: Word, one: Word, chunks: seq<Chunk>, n: nat)
    requires HasParts(b, signature, one, chunks) && |b| < WORD_LIMIT && n <= |chunks|
    ensures forall i :: 0 <= i < n ==> Offsets(b, n)[i] == Offset(chunks, i)
  {
    hide WordBytes, ToWord, Value, WordAt, Table, Regions, Offset;
    if n > 0 {
      OffsetsRead(b, signature, one, chunks, n - 1);
      TableAt(chunks, |chunks|, n - 1);
      var at := HEADER_BYTES + 4 * (n - 1);
      SubSlice(b, 32, Table(chunks, |chunks|), 4 * (n - 1), 4 * (n - 1) + 4);
      OffsetGrows(chunks, n - 1, |chunks|);
      ValueRead(b, at, Offset(chunks, n - 1));
    }
  }

  // ---------------------------------------------------------------- sorting

  predicate Ascending(s: seq<nat>) { forall i, j :: 0 <= i < j < |s| ==> s[i] <= s[j] }

  lemma {:induction false} InsertPermutes(x: nat, s: seq<nat>)
    ensures multiset(Insert(x, s)) == multiset(s) + multiset{x}
  {
    if s != [] && x > s[0] {
      InsertPermutes(x, s[1..]);
      assert s == [s[0]] + s[1..];
    }
  }

  lemma {:induction false} InsertAscends(x: nat, s: seq<nat>)
    requires Ascending(s)
    ensures Ascending(Insert(x, s))
    ensures forall k :: 0 <= k < |Insert(x, s)| ==> Insert(x, s)[k] >= x || (s != [] && Insert(x, s)[k] >= s[0])
  {
    if s != [] && x > s[0] {
      InsertAscends(x, s[1..]);
      if |s| > 1 { assert s[0] <= s[1]; }
    }
  }

  lemma {:induction false} SortPermutes(s: seq<nat>)
    ensures multiset(Sort(s)) == multiset(s)
  {
    if s != [] {
      SortPermutes(s[1..]);
      InsertPermutes(s[0], Sort(s[1..]));
      assert s == [s[0]] + s[1..];
    }
  }

  lemma {:induction false} SortAscends(s: seq<nat>)
    ensures Ascending(Sort(s)) && (Ascending(s) ==> Sort(s) == s)
  {
    if s != [] {
      SortAscends(s[1..]);
      InsertAscends(s[0], Sort(s[1..]));
      if Ascending(s) { AlreadyAscending(s); }
    }
  }

  lemma AlreadyAscending(s: seq<nat>)
    requires s != [] && Ascending(s)
    ensures Ascending(s[1..]) && Insert(s[0], s[1..]) == s
  {
    if |s| > 1 { assert s[0] <= s[1]; }
  }

  /** Sorting gives an ascending permutation, and leaves an ascending list alone. */
  lemma SortSorts(s: seq<nat>)
    ensures Ascending(Sort(s)) && multiset(Sort(s)) == multiset(s)
    ensures Ascending(s) ==> Sort(s) == s
  {
    SortPermutes(s);
    SortAscends(s);
  }

  // ---------------------------------------------------------------- the chunks

  function Placed(chunks: seq<Chunk>, i: nat): Chunk
    requires i < |chunks|
  {
    chunks[i].(offset := Offset(chunks, i))
  }

  lemma ChunkParts(c: Chunk)
    ensures var s := ChunkBytes(c);
            s[0..4] == WordBytes(c.fourCC) && s[4..8] == WordBytes(ToWord(|c.data|)) && s[8..8 + |c.data|] == c.data
  {
    hide WordBytes, ToWord, Align;
  }

  lemma ReadRegion(b: seq<Byte>, o: nat, c: Chunk)
    requires o + Span(c) <= |b| < WORD_LIMIT && b[o..o + Span(c)] == ChunkBytes(c)
    ensures ReadChunk(b, o) == Some(c.(offset := o))
  {
    hide WordBytes, ToWord, Value, WordAt, ChunkBytes, Align;
    var region := ChunkBytes(c);
    ChunkParts(c);
    SubSlice(b, o, region, 0, 4);
    SubSlice(b, o, region, 4, 8);
    SubSlice(b, o, region, 8, 8 + |c.data|);
    WordAtBytes(b, o, c.fourCC);
    ValueRead(b, o + 4, |c.data|);
  }

  lemma ChunkRead(b: seq<Byte>, signature: Word, one: Word, chunks: seq<Chunk>, i: nat)
    requires HasParts(b, signature, one, chunks) && |b| < WORD_LIMIT && i < |chunks|
    ensures ReadChunk(b, Offset(chunks, i)) == Some(Placed(chunks, i))
  {
    hide WordBytes, ToWord, Table, Regions, ChunkBytes, Align, ReadChunk;
    RegionAt(chunks, |chunks|, i);
    OffsetGrows(chunks, 0, i);
    OffsetGrows(chunks, i + 1, |chunks|);
    RegionInPlace(b, Offset(chunks, 0), Offset(chunks, i), ChunkBytes(chunks[i]));
    ReadRegion(b, Offset(chunks, i), chunks[i]);
  }

  lemma RegionInPlace(b: seq<Byte>, start: nat, o: nat, region: seq<Byte>)
    requires start <= o && o + |region| <= |b|
    requires b[start..][o - start..o - start + |region|] == region
    ensures b[o..o + |region|] == region
  {
  }

  lemma {:induction false} ChunksRead(b: seq<Byte>, signature: Word, one: Word, chunks: seq<Chunk>, offsets: seq<nat>,
                                      i: nat)
    requires HasParts(b, signature, one, chunks) && |b| < WORD_LIMIT && i <= |chunks| == |offsets|
    requires forall k :: 0 <= k < |chunks| ==> offsets[k] == Offset(chunks, k)
    ensures var r := ReadChunks(b, offsets[i..]);
            |r| == |chunks| - i && forall k :: 0 <= k < |r| ==> r[k] == Placed(chunks, i + k)
    decreases |chunks| - i
  {
    hide HasParts, ReadChunk, Placed, Offset;
    if i < |chunks| {
      ChunkRead(b, signature, one, chunks, i);
      ChunksRead(b, signature, one, chunks, offsets, i + 1);
      assert offsets[i..][1..] == offsets[i + 1..];
      var rest := ReadChunks(b, offsets[i + 1..]);
      var r := ReadChunks(b, offsets[i..]);
      assert r == [Placed(chunks, i)] + rest;
      forall k | 0 <= k < |r| ensures r[k] == Placed(chunks, i + k) {
        if k > 0 { assert rest[k - 1] == Placed(chunks, i + 1 + (k - 1)); }
      }
    }
  }

  predicate SameChunks(a: seq<Chunk>, b: seq<Chunk>) {
    |a| == |b| && forall k :: 0 <= k < |a| ==> a[k].fourCC == b[k].fourCC && a[k].data == b[k].data
  }

  /** The chunks and header words read back from a container's bytes. */
  lemma ReadBack(signature: Word, one: Word, chunks: seq<Chunk>)
    requires Offset(chunks, |chunks|) < WORD_LIMIT && signature == SIGNATURE
    ensures var r := FromBytes(ContainerBytes(signature, one, chunks));
            && r.Ok?
            && r.value.signature == SIGNATURE && r.value.one == (if one == 0 then 1 else one)
            && |r.value.chunks| == |chunks|
            && (forall k :: 0 <= k < |chunks| ==> r.value.chunks[k] == Placed(chunks, k))
            && var shader := ShaderChunk(r.value.chunks);
               r.value.program == if shader.Some? then ProgramOf(shader.value.data) else NO_PROGRAM
  {
    hide WordBytes, ToWord, Value, WordAt, Table, Regions, ContainerBytes, Offset, Offsets, ReadChunks, Sort, ProgramOf;
    var b := ContainerBytes(signature, one, chunks);
    ContainerParts(signature, one, chunks);
    WordAtBytes(b, 0, signature);
    WordAtBytes(b, 20, if one == 0 then 1 else one);
    ValueRead(b, 24, |b|);
    ValueRead(b, 28, |chunks|);
    OffsetsRead(b, signature, one, chunks, |chunks|);
    var offsets := Offsets(b, |chunks|);
    forall i, j | 0 <= i < j < |offsets| ensures offsets[i] <= offsets[j] { OffsetGrows(chunks, i, j); }
    SortSorts(offsets);
    ChunksRead(b, signature, one, chunks, offsets, 0);
    assert offsets[0..] == offsets;
  }

  lemma {:induction false} SameOffsets(a: seq<Chunk>, b: seq<Chunk>, n: nat)
    requires SameChunks(a, b) && n <= |a|
    ensures Offset(a, n) == Offset(b, n) && Table(a, n) == Table(b, n) && Regions(a, n) == Regions(b, n)
  {
    hide WordBytes, ToWord, Align;
    if n > 0 { SameOffsets(a, b, n - 1); }
  }

  lemma SameChunksSameBytes(a: seq<Chunk>, b: seq<Chunk>, signature: Word, one: Word)
    requires SameChunks(a, b)
    ensures ContainerBytes(signature, one, a) == ContainerBytes(signature, if one == 0 then 1 else one, b)
  {
    hide WordBytes, ToWord, Table, Regions, DxbcHash.Hash, Offset;
    SameOffsets(a, b, |a|);
  }

  // ---------------------------------------------------------------- the shader chunk

  lemma {:induction false} RewrittenShader(chunks: seq<Chunk>, bitcode: seq<Byte>)
    ensures var r := Rewritten(chunks, bitcode);
            && ShaderChunk(r).Some? == ShaderChunk(chunks).Some?
            && (ShaderChunk(r).Some? ==> ShaderChunk(r).value.data == bitcode)
            && (ShaderChunk(r).None? ==> r == chunks)
  {
    if chunks != [] && !IsShader(chunks[0]) {
      RewrittenShader(chunks[1..], bitcode);
      assert Rewritten(chunks, bitcode)[1..] == Rewritten(chunks[1..], bitcode);
    }
  }

  /** Rewriting a list that already holds the bitcode leaves it the same; shader chunks correspond. */
  lemma {:induction false} RewrittenAgain(a: seq<Chunk>, b: seq<Chunk>, bitcode: seq<Byte>)
    requires SameChunks(a, b)
    ensures ShaderChunk(a).Some? == ShaderChunk(b).Some?
    ensures ShaderChunk(a).Some? ==> ShaderChunk(a).value.data == ShaderChunk(b).value.data
    ensures ShaderChunk(a).Some? && ShaderChunk(a).value.data == bitcode ==> SameChunks(a, Rewritten(b, bitcode))
  {
    if a != [] {
      assert a[0].fourCC == b[0].fourCC;
      if !IsShader(a[0]) {
        RewrittenAgain(a[1..], b[1..], bitcode);
        var r := Rewritten(b[1..], bitcode);
        if ShaderChunk(a).Some? && ShaderChunk(a).value.data == bitcode {
          forall k | 0 <= k < |a|
            ensures a[k].fourCC == ([b[0]] + r)[k].fourCC && a[k].data == ([b[0]] + r)[k].data
          {
            if k > 0 { assert a[k] == a[1..][k - 1]; }
          }
        }
      }
    }
  }

  lemma {:induction false} PrefixOfParsed(words: seq<Word>, total: nat, cursor: nat)
    requires total <= |words| && ParseInstructions(words, total, cursor).Some?
    ensures ParsePrefix(words, total, cursor) == ParseInstructions(words, total, cursor).value
    decreases total - cursor
  {
    hide ParseInstruction;
    if cursor < total {
      PrefixOfParsed(words, total, ParseInstruction(words, total, cursor).value.cursor);
    }
  }

  lemma BitcodeWords(p: Program)
    requires ParseProgram(SerializeWords(p)).Some?
    ensures ProgramOf(Bitcode(p)) == ParseProgram(SerializeWords(p)).value
  {
    hide SerializeWords, ParseInstructions, ParsePrefix, WordsOfBytes, BytesOfWords, ProgramTypeOf, MajorOf, MinorOf,
         TotalOf;
    var words := SerializeWords(p);
    assert BytesOfWords(words) + [] == BytesOfWords(words);
    WordsOfTheirBytes(words, []);
    PrefixOfParsed(words, TotalOf(words), 2);
  }

  /** A program of normal instructions, read from its own bitcode, has the same bitcode; a well-formed one is the
      same program. */
  lemma BitcodeRoundTrip(p: Program)
    requires NormalProgram(p)
    ensures var q := ProgramOf(Bitcode(p));
            && Bitcode(q) == Bitcode(p)
            && (WellFormedProgram(p) ==>
                  && q.programType == p.programType && q.major == p.major && q.minor == p.minor
                  && SameInstructions(p.instructions, q.instructions))
  {
    hide SerializeWords, ParseProgram, SameInstructions, BytesOfWords, WellFormedProgram, NormalProgram, ProgramOf;
    assert SerializeWords(p) + [] == SerializeWords(p);
    SerializeStable(p, []);
    BitcodeWords(p);
    if WellFormedProgram(p) { ProgramRoundTrip(p, []); }
  }

  // ---------------------------------------------------------------- main results

  /** The container's chunks as Serialize writes them. */
  function Written(c: Container): seq<Chunk> { Rewritten(c.chunks, Bitcode(c.program)) }

  /** Main result: for every container with the DXBC signature, at least one chunk and a size that fits 32
      bits, reading the serialised bytes recovers every chunk in order, each at its place, the shader
      chunk holding the re-encoded program, and the program parsed from that chunk. */
  lemma FixedPoint(c: Container)
    requires c.signature == SIGNATURE && c.chunks != [] && Offset(Written(c), |c.chunks|) < WORD_LIMIT
    ensures var bytes := SerializeBytes(c);
            && bytes.Ok?
            && var d := FromBytes(bytes.value);
               && d.Ok? && d.value.signature == c.signature && d.value.one == (if c.one == 0 then 1 else c.one)
               && |d.value.chunks| == |c.chunks|
               && (forall k :: 0 <= k < |c.chunks| ==> d.value.chunks[k] == Placed(Written(c), k))
               && d.value.program == (if ShaderChunk(c.chunks).Some? then ProgramOf(Bitcode(c.program)) else NO_PROGRAM)
  {
    hide ContainerBytes, FromBytes, Rewritten, Bitcode, Offset, ProgramOf;
    ReadBack(c.signature, c.one, Written(c));
    RewrittenShader(c.chunks, Bitcode(c.program));
    var d := FromBytes(ContainerBytes(c.signature, c.one, Written(c))).value;
    assert SameChunks(Written(c), d.chunks);
    RewrittenAgain(Written(c), d.chunks, Bitcode(c.program));
  }

  /** Main result: for programs of normal instructions a second Serialize is byte-identical, hash included; and so
      it is for any container without a shader chunk. */
  lemma SerializeTwice(c: Container)
    requires c.signature == SIGNATURE && c.chunks != [] && Offset(Written(c), |c.chunks|) < WORD_LIMIT
    requires ShaderChunk(c.chunks).Some? ==> NormalProgram(c.program)
    ensures SerializeBytes(c).Ok? && FromBytes(SerializeBytes(c).value).Ok?
    ensures SerializeBytes(FromBytes(SerializeBytes(c).value).value) == SerializeBytes(c)
  {
    hide ContainerBytes, FromBytes, Rewritten, Bitcode, Offset, ProgramOf, NormalProgram, WellFormedProgram;
    FixedPoint(c);
    var d := FromBytes(SerializeBytes(c).value).value;
    assert SameChunks(Written(c), d.chunks);
    RewrittenShader(c.chunks, Bitcode(c.program));
    RewrittenShader(d.chunks, Bitcode(d.program));
    RewrittenAgain(Written(c), d.chunks, Bitcode(d.program));
    if ShaderChunk(c.chunks).Some? { BitcodeRoundTrip(c.program); }
    SameChunksSameBytes(Written(c), Written(d), c.signature, c.one);
  }
}
