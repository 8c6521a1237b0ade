/** The imperative forms of Serialize, which fills a zeroed buffer by offset, and of FromBytes. */
module ContainerCoder {
  import opened Words
  import opened InstructionCodec
  import opened ProgramCodec
  import opened Container

  /** `data` written over part of `s` (memcpy). */
  function Patch(s: seq<Byte>, at: nat, data: seq<Byte>): (r: seq<Byte>)
    requires at + |data| <= |s|
    ensures |r| == |s|
  {
    s[..at] + data + s[at + |data|..]
  }

  method Store(out: array<Byte>, at: nat, data: seq<Byte>)
    requires at + |data| <= out.Length
    modifies out
    ensures out[..] == Patch(old(out[..]), at, data)
  {
    forall k | 0 <= k < |data| {
      out[at + k] := data[k];
    }
  }

  /** Appending to what has been written of a zeroed buffer. */
  method Append(out: array<Byte>, ghost written: seq<Byte>, at: nat, data: seq<Byte>)
    requires at == |written| && at + |data| <= out.Length
    requires out[..] == written + Md5.Zeros(out.Length - at)
    modifies out
    ensures out[..] == written + data + Md5.Zeros(out.Length - at - |data|)
  {
    Store(out, at, data);
    PatchZeros(written, out.Length - at, data);
  }

  lemma PatchZeros(written: seq<Byte>, n: nat, data: seq<Byte>)
    requires |data| <= n
    ensures Patch(written + Md5.Zeros(n), |written|, data) == written + data + Md5.Zeros(n - |data|)
  {
  }

  method RewriteShader(chunks: seq<Chunk>, bitcode: seq<Byte>) returns (rewritten: seq<Chunk>)
    ensures rewritten == Rewritten(chunks, bitcode)
  {
    rewritten := chunks;
    var k := 0;
    while k < |chunks| && !IsShader(chunks[k])
      invariant k <= |chunks|
      invariant Rewritten(chunks, bitcode) == chunks[..k] + Rewritten(chunks[k..], bitcode)
    {
      assert chunks[k..][1..] == chunks[k + 1..];
      assert chunks[..k] + [chunks[k]] == chunks[..k + 1];
      k := k + 1;
    }
    if k < |chunks| {
      rewritten := chunks[k := chunks[k].(data := bitcode)];
      assert rewritten == chunks[..k] + ([chunks[k..][0].(data := bitcode)] + chunks[k..][1..]);
    } else {
      assert chunks[..k] + [] == chunks;
    }
  }

  lemma NextOffset(chunks: seq<Chunk>, k: nat)
    requires k < |chunks|
    ensures Offset(chunks, k + 1) == Offset(chunks, k) + Align(8 + |chunks[k].data|)
    ensures Regions(chunks, k + 1) == Regions(chunks, k) + ChunkBytes(chunks[k])
  {
    hide Align, ChunkBytes;
  }

  lemma FirstOffset(chunks: seq<Chunk>)
    ensures Offset(chunks, 0) == HEADER_BYTES + 4 * |chunks| && Regions(chunks, 0) == []
  {
  }

  /** Where each chunk goes, and the total size. */
  method PlaceChunks(chunks: seq<Chunk>) returns (offsets: seq<nat>, total: nat)
    ensures |offsets| == |chunks| && (forall k :: 0 <= k < |chunks| ==> offsets[k] == Offset(chunks, k))
    ensures total == Offset(chunks, |chunks|)
  {
    hide Offset, Align;
    FirstOffset(chunks);
    offsets, total := [], HEADER_BYTES + 4 * |chunks|;
    for k := 0 to |chunks|
      invariant |offsets| == k && total == Offset(chunks, k)
      invariant forall j :: 0 <= j < k ==> offsets[j] == Offset(chunks, j)
    {
      NextOffset(chunks, k);
      offsets := offsets + [total];
      total := total + Align(8 + |chunks[k].data|);
    }
  }

  /** The header with a zero hash. */
  function BlankHeader(signature: Word, one: Word, total: nat, count: nat): (s: seq<Byte>)
    ensures |s| == HEADER_BYTES
  {
    WordBytes(signature) + Md5.Zeros(16) + WordBytes(if one == 0 then 1 else one) + WordBytes(ToWord(total))
    + WordBytes(ToWord(count))
  }

  method StoreHeader(out: array<Byte>, signature: Word, one: Word, count: nat)
    requires out.Length >= HEADER_BYTES && out[..] == Md5.Zeros(out.Length)
    modifies out
    ensures out[..] == BlankHeader(signature, one, out.Length, count) + Md5.Zeros(out.Length - HEADER_BYTES)
  {
    hide WordBytes, ToWord, Patch;
    assert [] + Md5.Zeros(out.Length) == Md5.Zeros(out.Length);
    Append(out, [], 0, WordBytes(signature));
    assert [] + WordBytes(signature) == WordBytes(signature);
    Append(out, WordBytes(signature), 4, Md5.Zeros(16));
    Append(out, WordBytes(signature) + Md5.Zeros(16), 20, WordBytes(if one == 0 then 1 else one));
    Append(out, WordBytes(signature) + Md5.Zeros(16) + WordBytes(if one == 0 then 1 else one), 24,
           WordBytes(ToWord(out.Length)));
    Append(out, WordBytes(signature) + Md5.Zeros(16) + WordBytes(if one == 0 then 1 else one)
                + WordBytes(ToWord(out.Length)), 28, WordBytes(ToWord(count)));
  }

  method StoreTable(out: array<Byte>, chunks: seq<Chunk>, offsets: seq<nat>, ghost header: seq<Byte>)
    requires out.Length == Offset(chunks, |chunks|) && |header| == HEADER_BYTES
    requires |offsets| == |chunks| && forall k :: 0 <= k < |chunks| ==> offsets[k] == Offset(chunks, k)
    requires out[..] == header + Md5.Zeros(out.Length - HEADER_BYTES)
    modifies out
    ensures out[..] == header + Table(chunks, |chunks|) + Md5.Zeros(out.Length - HEADER_BYTES - 4 * |chunks|)
  {
    hide WordBytes, ToWord, Patch, Offset;
    assert header + [] == header;
    for k := 0 to |chunks|
      invariant out[..] == header + Table(chunks, k) + Md5.Zeros(out.Length - HEADER_BYTES - 4 * k)
    {
      ghost var entry := WordBytes(ToWord(Offset(chunks, k)));
      Append(out, header + Table(chunks, k), HEADER_BYTES + 4 * k, WordBytes(ToWord(offsets[k])));
      assert header + Table(chunks, k) + entry == header + (Table(chunks, k) + entry);
    }
  }

  method StoreChunk(out: array<Byte>, ghost written: seq<Byte>, at: nat, c: Chunk)
    requires at == |written| && at + Span(c) <= out.Length
    requires out[..] == written + Md5.Zeros(out.Length - at)
    modifies out
    ensures out[..] == written + ChunkBytes(c) + Md5.Zeros(out.Length - at - Span(c))
  {
    hide WordBytes, ToWord, Patch, Align;
    ghost var head := WordBytes(c.fourCC) + WordBytes(ToWord(|c.data|));
    Append(out, written, at, WordBytes(c.fourCC));
    Append(out, written + WordBytes(c.fourCC), at + 4, WordBytes(ToWord(|c.data|)));
    assert written + WordBytes(c.fourCC) + WordBytes(ToWord(|c.data|)) == written + head;
    Append(out, written + head, at + 8, c.data);
    ghost var padding := Span(c) - 8 - |c.data|;
    assert Md5.Zeros(out.Length - at - 8 - |c.data|) == Md5.Zeros(padding) + Md5.Zeros(out.Length - at - Span(c));
    assert written + ChunkBytes(c) == written + head + c.data + Md5.Zeros(padding);
  }

  /** The container up to chunk `k`. */
  function UpTo(front: seq<Byte>, chunks: seq<Chunk>, k: nat): (s: seq<Byte>)
    requires k <= |chunks|
  {
    front + Regions(chunks, k)
  }

  lemma UpToNext(front: seq<Byte>, chunks: seq<Chunk>, k: nat)
    requires |front| == Offset(chunks, 0) && k < |chunks|
    ensures |UpTo(front, chunks, k)| == Offset(chunks, k)
    ensures UpTo(front, chunks, k + 1) == UpTo(front, chunks, k) + ChunkBytes(chunks[k])
    ensures Offset(chunks, k) + Span(chunks[k]) == Offset(chunks, k + 1) <= Offset(chunks, |chunks|)
  {
    hide ChunkBytes, Align, Offset, Regions;
    NextOffset(chunks, k);
    OffsetGrows(chunks, k + 1, |chunks|);
    assert front + Regions(chunks, k + 1) == front + Regions(chunks, k) + ChunkBytes(chunks[k]);
  }

  /** The buffer when the chunks before `k` have been stored. */
  function Partial(front: seq<Byte>, chunks: seq<Chunk>, k: nat, total: nat): seq<Byte>
    requires k <= |chunks| && Offset(chunks, k) <= total
  {
    UpTo(front, chunks, k) + Md5.Zeros(total - Offset(chunks, k))
  }

  method StoreNext(out: array<Byte>, chunks: seq<Chunk>, at: nat, k: nat, ghost front: seq<Byte>)
    requires out.Length == Offset(chunks, |chunks|) && |front| == Offset(chunks, 0)
    requires k < |chunks| && at == Offset(chunks, k) <= out.Length
    requires out[..] == Partial(front, chunks, k, out.Length)
    modifies out
    ensures Offset(chunks, k + 1) <= out.Length && out[..] == Partial(front, chunks, k + 1, out.Length)
  {
    hide ChunkBytes, Span, Offset, UpTo;
    UpToNext(front, chunks, k);
    StoreChunk(out, UpTo(front, chunks, k), at, chunks[k]);
  }

  method StoreChunks(out: array<Byte>, chunks: seq<Chunk>, offsets: seq<nat>, ghost front: seq<Byte>)
    requires out.Length == Offset(chunks, |chunks|) && |front| == Offset(chunks, 0)
    requires |offsets| == |chunks| && forall k :: 0 <= k < |chunks| ==> offsets[k] == Offset(chunks, k)
    requires out[..] == front + Md5.Zeros(out.Length - |front|)
    modifies out
    ensures out[..] == front + Regions(chunks, |chunks|)
  {
    hide Offset, Regions, Partial;
    OffsetGrows(chunks, 0, |chunks|);
    FirstPartial(front, chunks);
    for k := 0 to |chunks|
      invariant Offset(chunks, k) <= out.Length && out[..] == Partial(front, chunks, k, out.Length)
    {
      StoreNext(out, chunks, offsets[k], k, front);
    }
    WholeUpTo(front, chunks);
  }

  lemma FirstPartial(front: seq<Byte>, chunks: seq<Chunk>)
    requires |front| == Offset(chunks, 0) <= Offset(chunks, |chunks|)
    ensures Partial(front, chunks, 0, Offset(chunks, |chunks|)) == front + Md5.Zeros(Offset(chunks, |chunks|) - |front|)
  {
    hide Offset;
    FirstOffset(chunks);
    assert front + [] == front;
  }

  lemma WholeUpTo(front: seq<Byte>, chunks: seq<Chunk>)
    ensures Partial(front, chunks, |chunks|, Offset(chunks, |chunks|)) == front + Regions(chunks, |chunks|)
  {
    hide Offset, Regions;
  }

  /** Serialize */
  method Serialize(c: Container) returns (r: Result<seq<Byte>>)
    ensures r == SerializeBytes(c)
  {
    hide WordBytes, ToWord, Table, Regions, Offset, DxbcHash.Hash, SerializeWords, Rewritten, BytesOfWords;
    if c.chunks == [] { return Err(EmptyContainer); }
    var words := ProgramCodec.Serialize(c.program);
    var chunks := RewriteShader(c.chunks, BytesOfWords(words));
    var offsets, total := PlaceChunks(chunks);
    var out := new Byte[total](i => 0);
    assert out[..] == Md5.Zeros(total);
    ghost var header := BlankHeader(c.signature, c.one, total, |chunks|);
    StoreHeader(out, c.signature, c.one, |chunks|);
    StoreTable(out, chunks, offsets, header);
    FirstOffset(chunks);
    StoreChunks(out, chunks, offsets, header + Table(chunks, |chunks|));
    Blank(c.signature, c.one, chunks);
    var hash := DxbcHash.ComputeHash(out[20..]);
    assert out[20..] == out[..][20..];
    Store(out, 4, hash);
    r := Ok(out[..]);
  }

  /** The bytes before the hash is stored. */
  lemma Blank(signature: Word, one: Word, chunks: seq<Chunk>)
    ensures var blank := BlankHeader(signature, one, Offset(chunks, |chunks|), |chunks|) + Table(chunks, |chunks|)
                         + Regions(chunks, |chunks|);
            && |blank| == Offset(chunks, |chunks|)
            && blank[20..] == Hashed(one, chunks)
            && Patch(blank, 4, DxbcHash.Hash(Hashed(one, chunks))) == ContainerBytes(signature, one, chunks)
  {
    hide WordBytes, ToWord, Table, Regions, Offset, DxbcHash.Hash;
    var h := Hashed(one, chunks);
    var blank := BlankHeader(signature, one, Offset(chunks, |chunks|), |chunks|) + Table(chunks, |chunks|)
                 + Regions(chunks, |chunks|);
    assert blank == WordBytes(signature) + Md5.Zeros(16) + h;
    assert blank[20..] == h && blank[..4] == WordBytes(signature);
  }

  // ---------------------------------------------------------------- FromBytes

  method ReadOffsets(bytes: seq<Byte>, count: nat) returns (offsets: seq<nat>)
    requires HEADER_BYTES + 4 * count <= |bytes|
    ensures offsets == Offsets(bytes, count)
  {
    hide Value, WordAt;
    offsets := [];
    for k := 0 to count
      invariant offsets == Offsets(bytes, k)
    {
      offsets := offsets + [Value(WordAt(bytes, HEADER_BYTES + 4 * k))];
    }
  }

  method ReadChunkList(bytes: seq<Byte>, offsets: seq<nat>) returns (chunks: seq<Chunk>)
    ensures chunks == ReadChunks(bytes, offsets)
  {
    hide ReadChunk;
    chunks := [];
    for k := 0 to |offsets|
      invariant chunks + ReadChunks(bytes, offsets[k..]) == ReadChunks(bytes, offsets)
    {
      assert offsets[k..][1..] == offsets[k + 1..];
      ghost var rest := ReadChunks(bytes, offsets[k + 1..]);
      var chunk := ReadChunk(bytes, offsets[k]);
      if chunk.Some? {
        assert chunks + ([chunk.value] + rest) == chunks + [chunk.value] + rest;
        chunks := chunks + [chunk.value];
      } else {
        assert [] + rest == rest;
      }
    }
    assert chunks + [] == chunks;
  }

  /** ParseProgramImpl on a shader chunk: what was parsed before a failure is kept. */
  method ParseKeeping(data: seq<Byte>) returns (p: Program)
    ensures p == ProgramOf(data)
  {
    hide ParseInstruction, Value, ProgramTypeOf, MajorOf, MinorOf, WordsOfBytes;
    if |data| < 8 { return NO_PROGRAM; }
    var words := WordsOfBytes(data, |data| / 4);
    var total := TotalOf(words);
    var cursor, instructions := 2, [];
    assert [] + ParsePrefix(words, total, 2) == ParsePrefix(words, total, 2);
    while cursor < total
      invariant instructions + ParsePrefix(words, total, cursor) == ParsePrefix(words, total, 2)
    {
      var next := InstructionCoder.ParseOne(words, total, cursor);
      if next.None? { break; }
      ghost var rest := ParsePrefix(words, total, next.value.cursor);
      assert instructions + ([next.value.value] + rest) == instructions + [next.value.value] + rest;
      instructions := instructions + [next.value.value];
      cursor := next.value.cursor;
    }
    assert instructions + [] == instructions;
    p := Program(ProgramTypeOf(words[0]), MajorOf(words[0]), MinorOf(words[0]), instructions);
  }

  method Read(bytes: seq<Byte>) returns (r: Result<Container>)
    ensures r == FromBytes(bytes)
  {
    hide Value, WordAt, ProgramOf, ReadChunks, Sort, Offsets, ShaderChunk;
    if |bytes| < HEADER_BYTES { return Err(TooSmall); }
    if WordAt(bytes, 0) != SIGNATURE { return Err(InvalidSignature); }
    if Value(WordAt(bytes, 24)) != |bytes| { return Err(SizeMismatch); }
    var count := Value(WordAt(bytes, 28));
    if HEADER_BYTES + 4 * count > |bytes| { return Err(TableTooLong); }
    var offsets := ReadOffsets(bytes, count);
    var chunks := ReadChunkList(bytes, Sort(offsets));
    var shader := ShaderChunk(chunks);
    var program := NO_PROGRAM;
    if shader.Some? { program := ParseKeeping(shader.value.data); }
    r := Ok(Container(SIGNATURE, WordAt(bytes, 20), chunks, program));
  }
}
