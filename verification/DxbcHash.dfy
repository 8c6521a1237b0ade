/** The DXBC container hash: MD5's block compression over a padding of its own, without MD5's. */
module DxbcHash {
  import opened Words
  import opened Md5

  /** The two words of the padding: the length in bits, and a quarter of it with the low bit set (uint32_t). */
  function BitLength(n: nat): Word { ToWord(8 * n) }
  function QuarterLength(a: Word): Word { (a >> 2) | 1 }

  /** The two words of the padding, as bytes. */
  function LengthBytes(n: nat): (words: (seq<Byte>, seq<Byte>))
    ensures |words.0| == 4 && |words.1| == 4
  {
    var a := BitLength(n);
    (WordBytes(a), WordBytes(QuarterLength(a)))
  }

  function LongTail(tail: seq<Byte>, a: seq<Byte>, b: seq<Byte>): (m: seq<Byte>)
    requires 56 <= |tail| < BLOCK_SIZE && |a| == 4 && |b| == 4
    ensures |m| == 2 * BLOCK_SIZE
  {
    tail + ([0x80] + Zeros(63 - |tail|)) + (a + Zeros(56) + b)
  }

  function ShortTail(tail: seq<Byte>, a: seq<Byte>, b: seq<Byte>): (m: seq<Byte>)
    requires |tail| < 56 && |a| == 4 && |b| == 4
    ensures |m| == BLOCK_SIZE
  {
    a + tail + ([0x80] + Zeros(55 - |tail|)) + b
  }

  /** The last one or two blocks. When at least 56 bytes are left over, they are padded to a block of their
      own and a block of the two words follows; otherwise one block holds the bit length before the
      leftover bytes and the quarter length at its end. */
  function Tail(tail: seq<Byte>, a: seq<Byte>, b: seq<Byte>): (m: seq<Byte>)
    requires |tail| < BLOCK_SIZE && |a| == 4 && |b| == 4
    ensures |m| == if |tail| >= 56 then 2 * BLOCK_SIZE else BLOCK_SIZE
  {
    if |tail| >= 56 then LongTail(tail, a, b) else ShortTail(tail, a, b)
  }

  lemma WholeBlocks(n: nat, remainder: nat)
    requires remainder == n % 64
    ensures (Whole(n) + (if remainder >= 56 then 2 * BLOCK_SIZE else BLOCK_SIZE)) % 64 == 0
    ensures n - Whole(n) == remainder
  {
  }

  /** What is hashed: the whole blocks, then the leftover bytes with the padding. */
  function PaddedMessage(bytes: seq<Byte>): (m: seq<Byte>)
    ensures |m| % 64 == 0
  {
    WholeBlocks(|bytes|, |bytes| % 64);
    var length := LengthBytes(|bytes|);
    bytes[..Whole(|bytes|)] + Tail(bytes[Whole(|bytes|)..], length.0, length.1)
  }

  /** The hash of the bytes after the container's hash field. */
  function Hash(bytes: seq<Byte>): (digest: seq<Byte>)
    ensures |digest| == 16
  {
    Output(Fold(INITIAL, PaddedMessage(bytes)))
  }

  method FeedLongTail(md5: MD5Hasher, tail: seq<Byte>, a: seq<Byte>, b: seq<Byte>)
    requires md5.Valid() && 56 <= |tail| < BLOCK_SIZE && |a| == 4 && |b| == 4
    modifies md5, md5.block
    ensures md5.Valid() && md5.block == old(md5.block) && md5.fed == old(md5.fed) + LongTail(tail, a, b)
  {
    hide MD5Hasher.Valid;
    var padding := [0x80] + Zeros(BLOCK_SIZE - 1);
    ghost var before := md5.fed;
    assert padding[..BLOCK_SIZE - |tail|] == [0x80] + Zeros(63 - |tail|);
    assert padding[4..60] == Zeros(56);
    if |tail| != 0 { md5.Update(tail); }
    md5.Update(padding[..BLOCK_SIZE - |tail|]);
    md5.Update(a);
    md5.Update(padding[4..60]);
    md5.Update(b);
    assert md5.fed == before + LongTail(tail, a, b);
  }

  method FeedShortTail(md5: MD5Hasher, tail: seq<Byte>, a: seq<Byte>, b: seq<Byte>)
    requires md5.Valid() && |tail| < 56 && |a| == 4 && |b| == 4
    modifies md5, md5.block
    ensures md5.Valid() && md5.block == old(md5.block) && md5.fed == old(md5.fed) + ShortTail(tail, a, b)
  {
    hide MD5Hasher.Valid;
    var padding := [0x80] + Zeros(BLOCK_SIZE - 1);
    ghost var before := md5.fed;
    var paddingSize := BLOCK_SIZE - |tail|;
    assert padding[..paddingSize - 8] == [0x80] + Zeros(55 - |tail|);
    md5.Update(a);
    if |tail| != 0 { md5.Update(tail); }
    md5.Update(padding[..paddingSize - 8]);
    md5.Update(b);
    assert md5.fed == before + ShortTail(tail, a, b);
  }

  /** ComputeDXBCHash. Whatever the length, whole blocks are fed, so the raw state that GetDigest reads is
      the compression of the entire padded message, with no byte left in the buffer. */
  method ComputeHash(bytes: seq<Byte>) returns (digest: seq<Byte>)
    ensures digest == Hash(bytes)
  {
    hide Compress, Fold, Output, BitLength, QuarterLength, WordBytes, MD5Hasher.Valid, LongTail, ShortTail;
    var size := |bytes|;
    var a := BitLength(size);
    var b := QuarterLength(a);
    var remainder := size % 64;
    var md5 := new MD5Hasher();
    if size > remainder { md5.Update(bytes[..size - remainder]); }
    assert md5.fed == bytes[..Whole(size)];
    if remainder >= 56 {
      FeedLongTail(md5, bytes[size - remainder..], WordBytes(a), WordBytes(b));
    } else {
      FeedShortTail(md5, bytes[size - remainder..], WordBytes(a), WordBytes(b));
    }
    assert md5.fed[..|md5.fed|] == md5.fed;
    digest := md5.GetDigest();
  }

  // ---------------------------------------------------------------- the padding loses nothing

  /** The last block starts with the length in bits. */
  lemma LastBlock(bytes: seq<Byte>)
    ensures var m := PaddedMessage(bytes);
            |m| >= BLOCK_SIZE && m[|m| - BLOCK_SIZE..|m| - 60] == WordBytes(BitLength(|bytes|))
  {
    hide BitLength, QuarterLength, WordBytes;
    var tail := Tail(bytes[Whole(|bytes|)..], LengthBytes(|bytes|).0, LengthBytes(|bytes|).1);
    var m := PaddedMessage(bytes);
    assert m == bytes[..Whole(|bytes|)] + tail;
    assert m[|m| - BLOCK_SIZE..|m| - 60] == tail[|tail| - BLOCK_SIZE..|tail| - 60];
  }

  lemma WordOfBytes(v: Word, w: Word)
    requires WordBytes(v) == WordBytes(w)
    ensures v == w
  {
    hide Byte0, Byte1, Byte2, Byte3, BytesWord;
    assert WordBytes(v)[0] == WordBytes(w)[0] && WordBytes(v)[1] == WordBytes(w)[1];
    assert WordBytes(v)[2] == WordBytes(w)[2] && WordBytes(v)[3] == WordBytes(w)[3];
    WordBytesParts(v);
    WordBytesParts(w);
  }

  lemma Residue(a: nat, b: nat)
    requires ToWord(a) == ToWord(b)
    ensures a % WORD_LIMIT == b % WORD_LIMIT
  {
    hide ToWord, Value;
    ValueOfToWord(a);
    ValueOfToWord(b);
  }

  lemma EqualModulo(a: nat, b: nat)
    requires a % WORD_LIMIT == b % WORD_LIMIT && b <= a < b + WORD_LIMIT
    ensures a == b
  {
    assert a - b == WORD_LIMIT * (a / WORD_LIMIT - b / WORD_LIMIT);
  }

  /** The bit length, which is known modulo 2^32, and the padded length, which is known to within two blocks,
      determine the length. */
  lemma LengthDetermined(x: seq<Byte>, y: seq<Byte>)
    requires BitLength(|x|) == BitLength(|y|) && |PaddedMessage(x)| == |PaddedMessage(y)|
    ensures |x| == |y|
  {
    hide Tail;
    Residue(8 * |x|, 8 * |y|);
    if |x| >= |y| { EqualModulo(8 * |x|, 8 * |y|); } else { EqualModulo(8 * |y|, 8 * |x|); }
  }

  lemma SameTail(t: seq<Byte>, u: seq<Byte>, a: seq<Byte>, b: seq<Byte>)
    requires |t| == |u| < BLOCK_SIZE && |a| == 4 && |b| == 4 && Tail(t, a, b) == Tail(u, a, b)
    ensures t == u
  {
    if |t| >= 56 {
      assert LongTail(t, a, b)[..|t|] == t && LongTail(u, a, b)[..|t|] == u;
    } else {
      assert ShortTail(t, a, b)[4..4 + |t|] == t && ShortTail(u, a, b)[4..4 + |t|] == u;
    }
  }

  /** Main result: the padded message determines the input, whichever branch padded it and although the length
      in bits wraps at 2^32. */
  lemma PaddingInjective(x: seq<Byte>, y: seq<Byte>)
    ensures PaddedMessage(x) == PaddedMessage(y) <==> x == y
  {
    hide BitLength, QuarterLength, WordBytes, Tail;
    if PaddedMessage(x) == PaddedMessage(y) {
      LastBlock(x);
      LastBlock(y);
      WordOfBytes(BitLength(|x|), BitLength(|y|));
      LengthDetermined(x, y);
      var w, n := Whole(|x|), LengthBytes(|x|);
      var mx, my := PaddedMessage(x), PaddedMessage(y);
      assert x[..w] == mx[..w] && y[..w] == my[..w];
      assert Tail(x[w..], n.0, n.1) == mx[w..] && Tail(y[w..], n.0, n.1) == my[w..];
      SameTail(x[w..], y[w..], n.0, n.1);
      assert x == x[..w] + x[w..] && y == y[..w] + y[w..];
    }
  }
}
