/** The DXBC container: Serialize and FromBytes, the container's layout, and their round trip. */
module Container {
  import opened Words
  import opened Sm5Model
  import opened InstructionCodec
  import opened ProgramCodec
  import Md5
  import DxbcHash

  const SIGNATURE: Word := 0x4342_5844
  const SHDR: Word := 0x5244_4853
  const SHEX: Word := 0x5845_4853
  const HEADER_BYTES := 32

  /** `offset` is parse provenance. The chunk's kind is determined by its four-character code. */
  datatype Chunk = Chunk(fourCC: Word, data: seq<Byte>, offset: nat)

  predicate IsShader(c: Chunk) { c.fourCC == SHDR || c.fourCC == SHEX }

  datatype Container = Container(signature: Word, one: Word, chunks: seq<Chunk>, program: Program)

  datatype Error = TooSmall | InvalidSignature | SizeMismatch | TableTooLong | EmptyContainer

  datatype Result<T> = Ok(value: T) | Err(error: Error)

  // ---------------------------------------------------------------- bytes and words

  function BytesOfWords(words: seq<Word>): (s: seq<Byte>)
    ensures |s| == 4 * |words|
  {
    if words == [] then [] else BytesOfWords(words[..|words| - 1]) + WordBytes(words[|words| - 1])
  }

  function WordAt(bytes: seq<Byte>, at: nat): Word
    requires at + 4 <= |bytes|
  {
    BytesWord(bytes[at], bytes[at + 1], bytes[at + 2], bytes[at + 3])
  }

  /** The first `n` dwords of some bytes. */
  function WordsOfBytes(bytes: seq<Byte>, n: nat): (s: seq<Word>)
    requires 4 * n <= |bytes|
    ensures |s| == n
  {
    if n == 0 then [] else WordsOfBytes(bytes, n - 1) + [WordAt(bytes, 4 * (n - 1))]
  }

  lemma WordAtBytes(bytes: seq<Byte>, at: nat, w: Word)
    requires at + 4 <= |bytes| && bytes[at..at + 4] == WordBytes(w)
    ensures WordAt(bytes, at) == w
  {
    hide Byte0, Byte1, Byte2, Byte3, BytesWord;
    var s := bytes[at..at + 4];
    assert s[0] == bytes[at] && s[1] == bytes[at + 1] && s[2] == bytes[at + 2] && s[3] == bytes[at + 3];
    WordBytesParts(w);
  }

  lemma {:induction false} WordsOfTheirBytes(words: seq<Word>, rest: seq<Byte>)
    ensures WordsOfBytes(BytesOfWords(words) + rest, |words|) == words
  {
    hide WordBytes, WordAt;
    if words != [] {
      var n := |words| - 1;
      var last := WordBytes(words[n]);
      var bytes := BytesOfWords(words) + rest;
      assert bytes == BytesOfWords(words[..n]) + (last + rest);
      WordsOfTheirBytes(words[..n], last + rest);
      assert bytes[4 * n..4 * n + 4] == last;
      WordAtBytes(bytes, 4 * n, words[n]);
    }
  }

  // ---------------------------------------------------------------- layout

  /** AlignToDword */
  function Align(n: nat): (a: nat)
    ensures n <= a < n + 4 && a % 4 == 0
  {
    (n + 3) / 4 * 4
  }

  function Span(c: Chunk): nat { Align(8 + |c.data|) }

  /** Where chunk `i` goes; for i == |chunks|, the total size. */
  function Offset(chunks: seq<Chunk>, i: nat): (o: nat)
    requires i <= |chunks|
    ensures o % 4 == 0 && o >= HEADER_BYTES + 4 * |chunks|
  {
    if i == 0 then HEADER_BYTES + 4 * |chunks| else Offset(chunks, i - 1) + Span(chunks[i - 1])
  }

  lemma {:induction false} OffsetGrows(chunks: seq<Chunk>, i: nat, j: nat)
    requires i <= j <= |chunks|
    ensures Offset(chunks, i) <= Offset(chunks, j)
    ensures i < j ==> Offset(chunks, i) < Offset(chunks, j)
    decreases j
  {
    hide Align;
    if i < j { OffsetGrows(chunks, i, j - 1); }
  }

  function ChunkBytes(c: Chunk): (s: seq<Byte>)
    ensures |s| == Span(c)
  {
    WordBytes(c.fourCC) + WordBytes(ToWord(|c.data|)) + c.data + Md5.Zeros(Span(c) - 8 - |c.data|)
  }

  function Table(chunks: seq<Chunk>, n: nat): (s: seq<Byte>)
    requires n <= |chunks|
    ensures |s| == 4 * n
  {
    if n == 0 then [] else Table(chunks, n - 1) + WordBytes(ToWord(Offset(chunks, n - 1)))
  }

  function Regions(chunks: seq<Chunk>, n: nat): (s: seq<Byte>)
    requires n <= |chunks|
    ensures |s| == Offset(chunks, n) - Offset(chunks, 0)
  {
    if n == 0 then [] else Regions(chunks, n - 1) + ChunkBytes(chunks[n - 1])
  }

  /** Everything after the hash field, which is what is hashed. */
  function Hashed(one: Word, chunks: seq<Chunk>): (s: seq<Byte>)
    ensures |s| == Offset(chunks, |chunks|) - 20
  {
    WordBytes(if one == 0 then 1 else one) + WordBytes(ToWord(Offset(chunks, |chunks|))) + WordBytes(ToWord(|chunks|))
    + Table(chunks, |chunks|) + Regions(chunks, |chunks|)
  }

  function ContainerBytes(signature: Word, one: Word, chunks: seq<Chunk>): (s: seq<Byte>)
    ensures |s| == Offset(chunks, |chunks|)
  {
    WordBytes(signature) + DxbcHash.Hash(Hashed(one, chunks)) + Hashed(one, chunks)
  }

  function Bitcode(p: Program): (s: seq<Byte>)
    ensures |s| >= 8
  {
    BytesOfWords(SerializeWords(p))
  }

  /** Serialize first replaces the data of the first shader chunk by the re-encoded program. */
  function Rewritten(chunks: seq<Chunk>, bitcode: seq<Byte>): (r: seq<Chunk>)
    ensures |r| == |chunks|
  {
    if chunks == [] then []
    else if IsShader(chunks[0]) then [chunks[0].(data := bitcode)] + chunks[1..]
    else [chunks[0]] + Rewritten(chunks[1..], bitcode)
  }

  /** Serialize, for containers whose sizes fit 32 bits. */
  function SerializeBytes(c: Container): Result<seq<Byte>> {
    if c.chunks == [] then Err(EmptyContainer)
    else Ok(ContainerBytes(c.signature, c.one, Rewritten(c.chunks, Bitcode(c.program))))
  }

  /** Main result: the chunk regions are dword-aligned, disjoint and in table order (each ends where the
      next begins), and with the header and table they exactly fill the container. */
  lemma {:induction false} Layout(chunks: seq<Chunk>, i: nat, j: nat)
    requires i < j <= |chunks|
    ensures Offset(chunks, i) % 4 == 0
    ensures Offset(chunks, i) + 8 + |chunks[i].data| <= Offset(chunks, i + 1) <= Offset(chunks, j)
    ensures Offset(chunks, i + 1) - (Offset(chunks, i) + 8 + |chunks[i].data|) < 4
    ensures Offset(chunks, 0) == HEADER_BYTES + 4 * |chunks|
    ensures |ContainerBytes(SIGNATURE, 1, chunks)| == Offset(chunks, |chunks|)
    decreases j
  {
    hide Align, ContainerBytes;
    if i + 1 < j { Layout(chunks, i, j - 1); }
  }

  lemma {:induction false} TableAt(chunks: seq<Chunk>, n: nat, i: nat)
    requires i < n <= |chunks|
    ensures Table(chunks, n)[4 * i..4 * i + 4] == WordBytes(ToWord(Offset(chunks, i)))
  {
    hide ToWord, WordBytes;
    var last := WordBytes(ToWord(Offset(chunks, n - 1)));
    var before := Table(chunks, n - 1);
    if i < n - 1 {
      TableAt(chunks, n - 1, i);
      assert (before + last)[4 * i..4 * i + 4] == before[4 * i..4 * i + 4];
    } else {
      assert (before + last)[4 * i..4 * i + 4] == last;
    }
  }

  lemma SliceOfConcatenation(a: seq<Byte>, b: seq<Byte>, lo: nat, hi: nat)
    requires lo <= hi <= |a|
    ensures (a + b)[lo..hi] == a[lo..hi] && (a + b)[|a|..|a + b|] == b
  {
  }

  lemma NextRegion(chunks: seq<Chunk>, i: nat)
    requires i < |chunks|
    ensures Regions(chunks, i + 1) == Regions(chunks, i) + ChunkBytes(chunks[i])
  {
    hide ChunkBytes, Offset;
  }

  lemma {:induction false} RegionSlice(chunks: seq<Chunk>, n: nat, i: nat)
    requires i < n <= |chunks|
    ensures |Regions(chunks, i)| <= |Regions(chunks, i + 1)| <= |Regions(chunks, n)|
    ensures Regions(chunks, n)[|Regions(chunks, i)|..|Regions(chunks, i + 1)|] == ChunkBytes(chunks[i])
    decreases n
  {
    hide ChunkBytes, Offset, Regions;
    NextRegion(chunks, n - 1);
    if i < n - 1 {
      RegionSlice(chunks, n - 1, i);
      SliceOfConcatenation(Regions(chunks, n - 1), ChunkBytes(chunks[n - 1]), |Regions(chunks, i)|,
                           |Regions(chunks, i + 1)|);
    } else {
      SliceOfConcatenation(Regions(chunks, n - 1), ChunkBytes(chunks[n - 1]), 0, 0);
    }
  }

  lemma RegionAt(chunks: seq<Chunk>, n: nat, i: nat)
    requires i < n <= |chunks|
    ensures 0 <= Offset(chunks, i) - Offset(chunks, 0) <= Offset(chunks, i + 1) - Offset(chunks, 0)
    ensures Offset(chunks, i + 1) - Offset(chunks, 0) <= |Regions(chunks, n)|
    ensures Regions(chunks, n)[Offset(chunks, i) - Offset(chunks, 0)..Offset(chunks, i + 1) - Offset(chunks, 0)]
         == ChunkBytes(chunks[i])
  {
    hide ChunkBytes, Offset, Regions;
    RegionSlice(chunks, n, i);
  }

  // ---------------------------------------------------------------- parsing

  function Offsets(bytes: seq<Byte>, n: nat): (s: seq<nat>)
    requires HEADER_BYTES + 4 * n <= |bytes|
    ensures |s| == n
  {
    if n == 0 then [] else Offsets(bytes, n - 1) + [Value(WordAt(bytes, HEADER_BYTES + 4 * (n - 1)))]
  }

  function Insert(x: nat, s: seq<nat>): seq<nat> {
    if s == [] || x <= s[0] then [x] + s else [s[0]] + Insert(x, s[1..])
  }

  /** std::ranges::sort */
  function Sort(s: seq<nat>): seq<nat> {
    if s == [] then [] else Insert(s[0], Sort(s[1..]))
  }

  /** A chunk that lies inside the container; others are skipped. */
  function ReadChunk(bytes: seq<Byte>, offset: nat): Option<Chunk> {
    if offset + 8 > |bytes| then None
    else
      var size := Value(WordAt(bytes, offset + 4));
      if offset + 8 + size > |bytes| then None
      else Some(Chunk(WordAt(bytes, offset), bytes[offset + 8..offset + 8 + size], offset))
  }

  function ReadChunks(bytes: seq<Byte>, offsets: seq<nat>): seq<Chunk> {
    if offsets == [] then []
    else
      var chunk := ReadChunk(bytes, offsets[0]);
      (if chunk.Some? then [chunk.value] else []) + ReadChunks(bytes, offsets[1..])
  }

  const NO_PROGRAM := Program(0, 0, 0, [])

  /** The instructions parsed before the first one that does not fit. */
  function ParsePrefix(words: seq<Word>, total: nat, cursor: nat): seq<Instruction>
    requires total <= |words|
    decreases total - cursor
  {
    if cursor >= total then []
    else
      var first := ParseInstruction(words, total, cursor);
      if first.None? then [] else [first.value.value] + ParsePrefix(words, total, first.value.cursor)
  }

  /** ParseProgramImpl as FromBytes uses it: its failure is ignored, and what was parsed before is kept. */
  function ProgramOf(data: seq<Byte>): Program {
    if |data| < 8 then NO_PROGRAM
    else
      var words := WordsOfBytes(data, |data| / 4);
      Program(ProgramTypeOf(words[0]), MajorOf(words[0]), MinorOf(words[0]), ParsePrefix(words, TotalOf(words), 2))
  }

  /** GetShaderChunk */
  function ShaderChunk(chunks: seq<Chunk>): Option<Chunk> {
    if chunks == [] then None else if IsShader(chunks[0]) then Some(chunks[0]) else ShaderChunk(chunks[1..])
  }

  /** FromBytes */
  function FromBytes(bytes: seq<Byte>): Result<Container> {
    if |bytes| < HEADER_BYTES then Err(TooSmall)
    else if WordAt(bytes, 0) != SIGNATURE then Err(InvalidSignature)
    else if Value(WordAt(bytes, 24)) != |bytes| then Err(SizeMismatch)
    else
      var count := Value(WordAt(bytes, 28));
      if HEADER_BYTES + 4 * count > |bytes| then Err(TableTooLong)
      else
        var chunks := ReadChunks(bytes, Sort(Offsets(bytes, count)));
        var shader := ShaderChunk(chunks);
        var program := if shader.Some? then ProgramOf(shader.value.data) else NO_PROGRAM;
        Ok(Container(SIGNATURE, WordAt(bytes, 20), chunks, program))
  }
}
