/** The MD5 message digest of RFC 1321: padding (sections 3.1 and 3.2), block compression (section 3.4)
    and output (section 3.5), the rotated form of the compression the code uses, and its streaming hasher. */
module Md5 {
  import opened Words

  const BLOCK_SIZE := 64
  const SIZE_LIMIT: nat := 0x1_0000_0000_0000_0000

  datatype State = State(a: Word, b: Word, c: Word, d: Word)

  const INITIAL := State(0x6745_2301, 0xefcd_ab89, 0x98ba_dcfe, 0x1032_5476)

  // ---------------------------------------------------------------- section 3.4: one block

  const CONSTANTS: seq<Word> := [
    0xd76aa478, 0xe8c7b756, 0x242070db, 0xc1bdceee, 0xf57c0faf, 0x4787c62a, 0xa8304613, 0xfd469501,
    0x698098d8, 0x8b44f7af, 0xffff5bb1, 0x895cd7be, 0x6b901122, 0xfd987193, 0xa679438e, 0x49b40821,
    0xf61e2562, 0xc040b340, 0x265e5a51, 0xe9b6c7aa, 0xd62f105d, 0x02441453, 0xd8a1e681, 0xe7d3fbc8,
    0x21e1cde6, 0xc33707d6, 0xf4d50d87, 0x455a14ed, 0xa9e3e905, 0xfcefa3f8, 0x676f02d9, 0x8d2a4c8a,
    0xfffa3942, 0x8771f681, 0x6d9d6122, 0xfde5380c, 0xa4beea44, 0x4bdecfa9, 0xf6bb4b60, 0xbebfbc70,
    0x289b7ec6, 0xeaa127fa, 0xd4ef3085, 0x04881d05, 0xd9d4d039, 0xe6db99e5, 0x1fa27cf8, 0xc4ac5665,
    0xf4292244, 0x432aff97, 0xab9423a7, 0xfc93a039, 0x655b59c3, 0x8f0ccc92, 0xffeff47d, 0x85845dd1,
    0x6fa87e4f, 0xfe2ce6e0, 0xa3014314, 0x4e0811a1, 0xf7537e82, 0xbd3af235, 0x2ad7d2bb, 0xeb86d391]

  /** The shift amounts of each round, repeated every four steps. */
  const SHIFTS: seq<seq<Word>> := [[7, 12, 17, 22], [5, 9, 14, 20], [4, 11, 16, 23], [6, 10, 15, 21]]

  function Constant(i: nat): Word
    requires i < 64
  {
    CONSTANTS[i]
  }

  function Shift(i: nat): (s: Word)
    requires i < 64
    ensures 0 < s < 32
  {
    SHIFTS[i / 16][i % 4]
  }

  /** Which word of the block step `i` adds. */
  function WordIndex(i: nat): (g: nat)
    requires i < 64
    ensures g < 16
  {
    if i < 16 then i else if i < 32 then (5 * i + 1) % 16 else if i < 48 then (3 * i + 5) % 16 else (7 * i) % 16
  }

  /** The auxiliary functions F, G, H and I. */
  function Auxiliary(i: nat, x: Word, y: Word, z: Word): Word {
    if i < 16 then (x & y) | (!x & z)
    else if i < 32 then (x & z) | (y & !z)
    else if i < 48 then x ^ y ^ z
    else y ^ (x | !z)
  }

  /** The little-endian word `g` of a block. */
  function BlockWord(block: seq<Byte>, g: nat): Word
    requires |block| == BLOCK_SIZE && g < 16
  {
    BytesWord(block[4 * g], block[4 * g + 1], block[4 * g + 2], block[4 * g + 3])
  }

  function RotateLeft(w: Word, s: Word): Word
    requires 0 < s < 32
  {
    (w << s) | (w >> (32 - s))
  }

  function Sum4(a: Word, b: Word, c: Word, d: Word): Word { a + b + c + d }

  /** Who plays a, b, c, d at step `n` of section 3.4: the roles move one register to the right, from
      A, B, C, D, with every step. */
  function Roles(r: seq<Word>, n: nat): State
    requires |r| == 4
  {
    State(r[(4 - n % 4) % 4], r[(5 - n % 4) % 4], r[(6 - n % 4) % 4], r[(7 - n % 4) % 4])
  }

  /** Step `i` of section 3.4, on the registers A, B, C, D: a = b + ((a + F(b, c, d) + X[k] + T[i]) <<< s). */
  function Step(r: seq<Word>, i: nat, block: seq<Byte>): (r': seq<Word>)
    requires |r| == 4 && i < 64 && |block| == BLOCK_SIZE
    ensures |r'| == 4
  {
    var s := Roles(r, i);
    var sum := Sum4(s.a, Auxiliary(i, s.b, s.c, s.d), BlockWord(block, WordIndex(i)), Constant(i));
    r[(4 - i % 4) % 4 := Plus(s.b, RotateLeft(sum, Shift(i)))]
  }

  function Plus(a: Word, b: Word): Word { a + b }

  function Steps(r: seq<Word>, n: nat, block: seq<Byte>): (r': seq<Word>)
    requires |r| == 4 && n <= 64 && |block| == BLOCK_SIZE
    ensures |r'| == 4
  {
    if n == 0 then r else Step(Steps(r, n - 1, block), n - 1, block)
  }

  /** The compression of one block. */
  function Compress(s: State, block: seq<Byte>): State
    requires |block| == BLOCK_SIZE
  {
    var r := Steps([s.a, s.b, s.c, s.d], 64, block);
    State(Plus(s.a, r[0]), Plus(s.b, r[1]), Plus(s.c, r[2]), Plus(s.d, r[3]))
  }

  /** The compression of every block of a message in turn. */
  function Fold(s: State, message: seq<Byte>): State
    requires |message| % 64 == 0
  {
    if message == [] then s
    else Compress(Fold(s, message[..|message| - BLOCK_SIZE]), message[|message| - BLOCK_SIZE..])
  }

  // ---------------------------------------------------------------- the rotated form

  /** finalizeIteration: the registers move instead of the roles. */
  function RotatedStep(s: State, i: nat, block: seq<Byte>): State
    requires i < 64 && |block| == BLOCK_SIZE
  {
    var f := Sum4(Auxiliary(i, s.b, s.c, s.d), s.a, Constant(i), BlockWord(block, WordIndex(i)));
    State(s.d, Plus(s.b, ShiftSum(f, Shift(i))), s.b, s.c)
  }

  function ShiftSum(f: Word, s: Word): Word
    requires 0 < s < 32
  {
    (f << s) + (f >> (32 - s))
  }

  function RotatedSteps(s: State, n: nat, block: seq<Byte>): State
    requires n <= 64 && |block| == BLOCK_SIZE
  {
    if n == 0 then s else RotatedStep(RotatedSteps(s, n - 1, block), n - 1, block)
  }

  lemma ShiftsDisjoint(f: Word, s: Word)
    requires 0 < s < 32
    ensures (f << s) + (f >> (32 - s)) == (f << s) | (f >> (32 - s))
  {
  }

  lemma ShiftSumRotates(f: Word, s: Word)
    requires 0 < s < 32
    ensures ShiftSum(f, s) == RotateLeft(f, s)
  {
    ShiftsDisjoint(f, s);
  }

  lemma SumReordered(a: Word, f: Word, x: Word, t: Word)
    ensures Sum4(a, f, x, t) == Sum4(f, a, t, x)
  {
  }

  lemma RolesMove(r: seq<Word>, i: nat, value: Word)
    requires |r| == 4
    ensures var s := Roles(r, i);
            Roles(r[(4 - i % 4) % 4 := value], i + 1) == State(s.d, value, s.b, s.c)
  {
    assert (i + 1) % 4 == if i % 4 == 3 then 0 else i % 4 + 1;
  }

  /** One rotated step is one step of section 3.4, seen one position further on. */
  lemma StepRotates(r: seq<Word>, i: nat, block: seq<Byte>)
    requires |r| == 4 && i < 64 && |block| == BLOCK_SIZE
    ensures Roles(Step(r, i, block), i + 1) == RotatedStep(Roles(r, i), i, block)
  {
    hide Auxiliary, BlockWord, Constant, Shift, Sum4, RotateLeft, ShiftSum, Plus, WordIndex, Roles;
    var s := Roles(r, i);
    var sum := Sum4(s.a, Auxiliary(i, s.b, s.c, s.d), BlockWord(block, WordIndex(i)), Constant(i));
    SumReordered(s.a, Auxiliary(i, s.b, s.c, s.d), BlockWord(block, WordIndex(i)), Constant(i));
    ShiftSumRotates(sum, Shift(i));
    RolesMove(r, i, Plus(s.b, RotateLeft(sum, Shift(i))));
  }

  lemma {:induction false} StepsRotate(r: seq<Word>, n: nat, block: seq<Byte>)
    requires |r| == 4 && n <= 64 && |block| == BLOCK_SIZE
    ensures Roles(Steps(r, n, block), n) == RotatedSteps(Roles(r, 0), n, block)
  {
    hide Step, RotatedStep, Roles;
    if n > 0 {
      StepsRotate(r, n - 1, block);
      StepRotates(Steps(r, n - 1, block), n - 1, block);
    }
  }

  lemma RolesAligned(r: seq<Word>)
    requires |r| == 4
    ensures Roles(r, 0) == State(r[0], r[1], r[2], r[3]) && Roles(r, 64) == State(r[0], r[1], r[2], r[3])
  {
  }

  /** The rotated form computes the compression of section 3.4. */
  lemma RotatedCompress(s: State, block: seq<Byte>)
    requires |block| == BLOCK_SIZE
    ensures var t := RotatedSteps(s, 64, block);
            Compress(s, block) == State(Plus(s.a, t.a), Plus(s.b, t.b), Plus(s.c, t.c), Plus(s.d, t.d))
  {
    hide Steps, RotatedSteps, Roles;
    RolesAligned([s.a, s.b, s.c, s.d]);
    RolesAligned(Steps([s.a, s.b, s.c, s.d], 64, block));
    StepsRotate([s.a, s.b, s.c, s.d], 64, block);
  }

  // ---------------------------------------------------------------- sections 3.1 to 3.3 and 3.5

  function Zeros(n: nat): (s: seq<Byte>)
    ensures |s| == n
  {
    seq(n, i => 0)
  }

  /** 0x80, then as few zeros as make the length 56 modulo 64 (section 3.1). */
  function PaddingZeros(length: nat): nat { (119 - length % 64) % 64 }

  /** A 64-bit value, low-order byte first. */
  function LongBytes(n: nat): (s: seq<Byte>)
    ensures |s| == 8
  {
    [ByteOf(n % 256), ByteOf(n / 0x100 % 256), ByteOf(n / 0x1_0000 % 256), ByteOf(n / 0x100_0000 % 256),
     ByteOf(n / 0x1_0000_0000 % 256), ByteOf(n / 0x100_0000_0000 % 256), ByteOf(n / 0x1_0000_0000_0000 % 256),
     ByteOf(n / 0x100_0000_0000_0000 % 256)]
  }

  lemma PaddedLength(n: nat)
    ensures (n + 1 + PaddingZeros(n) + 8) % 64 == 0
  {
  }

  /** The padded message: the low-order 64 bits of the length in bits come last (section 3.2). */
  function Padded(message: seq<Byte>): (s: seq<Byte>)
    ensures |s| % 64 == 0 && message <= s
  {
    PaddedLength(|message|);
    message + [0x80] + Zeros(PaddingZeros(|message|)) + LongBytes(Wrap64(8 * |message|))
  }

  /** The registers, low-order byte first (section 3.5). */
  function Output(s: State): (d: seq<Byte>)
    ensures |d| == 16
  {
    WordBytes(s.a) + WordBytes(s.b) + WordBytes(s.c) + WordBytes(s.d)
  }

  /** The message digest. */
  function Digest(message: seq<Byte>): seq<Byte> { Output(Fold(INITIAL, Padded(message))) }

  // ---------------------------------------------------------------- the streaming hasher

  /** uint64_t arithmetic. */
  function Wrap64(n: nat): (w: nat)
    ensures w < SIZE_LIMIT
  {
    n % 0x1_0000_0000_0000_0000
  }

  /** The whole blocks of what has been fed, and the bytes left over. */
  function Whole(n: nat): (w: nat)
    ensures w <= n < w + BLOCK_SIZE && w % 64 == 0 && w + n % 64 == n
  {
    n - n % 64
  }

  lemma FoldBlock(s: State, message: seq<Byte>, block: seq<Byte>)
    requires |message| % 64 == 0 && |block| == BLOCK_SIZE
    ensures |message + block| % 64 == 0
    ensures Fold(s, message + block) == Compress(Fold(s, message), block)
  {
    hide Compress;
    var all := message + block;
    assert all[..|all| - BLOCK_SIZE] == message && all[|all| - BLOCK_SIZE..] == block;
  }

  /** The state after the first `n` bytes, a whole number of blocks. */
  function After(whole: seq<Byte>, n: nat): State
    requires n % 64 == 0 && n <= |whole|
  {
    Fold(INITIAL, whole[..n])
  }

  lemma AfterBlock(whole: seq<Byte>, n: nat)
    requires n % 64 == 0 && n + BLOCK_SIZE <= |whole|
    ensures After(whole, n + BLOCK_SIZE) == Compress(After(whole, n), whole[n..n + BLOCK_SIZE])
  {
    hide Compress, Fold;
    FoldBlock(INITIAL, whole[..n], whole[n..n + BLOCK_SIZE]);
    assert whole[..n] + whole[n..n + BLOCK_SIZE] == whole[..n + BLOCK_SIZE];
  }

  /** Appending leaves the state after an earlier prefix alone. */
  lemma AfterAppend(before: seq<Byte>, more: seq<Byte>, n: nat)
    requires n % 64 == 0 && n <= |before|
    ensures After(before + more, n) == After(before, n)
  {
    hide Fold;
    assert (before + more)[..n] == before[..n];
  }

  lemma SliceJoin(s: seq<Byte>, a: nat, b: nat, c: nat)
    requires a <= b <= c <= |s|
    ensures s[a..b] + s[b..c] == s[a..c]
  {
  }

  class MD5Hasher {
    var block: array<Byte>
    var size: nat
    var state: State
    /** Everything fed since the last reset. */
    ghost var fed: seq<Byte>

    ghost predicate Valid()
      reads this, block
    {
      && block.Length == BLOCK_SIZE
      && size == Wrap64(|fed|)
      && state == After(fed, Whole(|fed|))
      && block[..|fed| % 64] == fed[Whole(|fed|)..]
    }

    constructor ()
      ensures Valid() && fresh(block) && fed == []
    {
      block := new Byte[BLOCK_SIZE](i => 0);
      size, state, fed := 0, INITIAL, [];
    }

    /** ProcessBlock, with its four loops. */
    method ProcessBlock(data: seq<Byte>)
      requires |data| == BLOCK_SIZE
      modifies this`state
      ensures state == Compress(old(state), data)
    {
      hide Auxiliary, BlockWord, Constant, Shift, Sum4, ShiftSum, Plus, RotatedStep, Compress;
      var s := state;
      for i := 0 to 16
        invariant s == RotatedSteps(state, i, data)
      {
        s := RotatedStep(s, i, data);
      }
      for i := 16 to 32
        invariant s == RotatedSteps(state, i, data)
      {
        s := RotatedStep(s, i, data);
      }
      for i := 32 to 48
        invariant s == RotatedSteps(state, i, data)
      {
        s := RotatedStep(s, i, data);
      }
      for i := 48 to 64
        invariant s == RotatedSteps(state, i, data)
      {
        s := RotatedStep(s, i, data);
      }
      RotatedCompress(state, data);
      state := State(Plus(state.a, s.a), Plus(state.b, s.b), Plus(state.c, s.c), Plus(state.d, s.d));
    }

    /** Copies into the buffer (memcpy). */
    method Store(offset: nat, data: seq<Byte>)
      requires block.Length == BLOCK_SIZE && offset + |data| <= BLOCK_SIZE
      modifies block
      ensures block[..offset] == old(block[..offset]) && block[offset..offset + |data|] == data
    {
      forall k | 0 <= k < |data| {
        block[offset + k] := data[k];
      }
    }

    /** Tops the buffer up; a full buffer is processed. `whole` is everything fed, `at` what was fed before. */
    method FillBuffer(data: seq<Byte>, offset: nat, ghost whole: seq<Byte>, ghost at: nat) returns (consumed: nat)
      requires block.Length == BLOCK_SIZE && 0 < offset < BLOCK_SIZE && offset == at % 64
      requires at + |data| == |whole| && data == whole[at..]
      requires state == After(whole, Whole(at)) && block[..offset] == whole[Whole(at)..at]
      modifies this`state, block
      ensures consumed == (if |data| < BLOCK_SIZE - offset then |data| else BLOCK_SIZE - offset)
      ensures consumed < BLOCK_SIZE - offset ==>
                && state == After(whole, Whole(|whole|))
                && block[..|whole| % 64] == whole[Whole(|whole|)..]
      ensures consumed == BLOCK_SIZE - offset ==>
                (at + consumed) % 64 == 0 && state == After(whole, at + consumed)
    {
      hide Compress, After;
      consumed := if |data| < BLOCK_SIZE - offset then |data| else BLOCK_SIZE - offset;
      Store(offset, data[..consumed]);
      ghost var w := Whole(at);
      SliceJoin(whole, w, at, at + consumed);
      assert block[..offset + consumed] == block[..offset] + block[offset..offset + consumed];
      assert data[..consumed] == whole[at..at + consumed];
      if offset + consumed >= BLOCK_SIZE {
        assert block[..] == block[..offset + consumed];
        ProcessBlock(block[..]);
        AfterBlock(whole, w);
      } else {
        SameWhole(at, consumed);
      }
    }

    /** The whole blocks of the input after `start`, straight from the input. */
    method ProcessBlocks(data: seq<Byte>, start: nat, ghost whole: seq<Byte>, ghost at: nat) returns (consumed: nat)
      requires start <= |data| && at + |data| == |whole| && data == whole[at..] && (at + start) % 64 == 0
      requires state == After(whole, at + start)
      modifies this`state
      ensures start <= consumed <= |data| && at + consumed == Whole(|whole|) && state == After(whole, Whole(|whole|))
    {
      hide Compress, After;
      consumed := start;
      while |data| - consumed >= BLOCK_SIZE
        invariant start <= consumed <= |data| && (at + consumed) % 64 == 0
        invariant state == After(whole, at + consumed)
      {
        ProcessBlock(data[consumed..consumed + BLOCK_SIZE]);
        AfterBlock(whole, at + consumed);
        assert data[consumed..consumed + BLOCK_SIZE] == whole[at + consumed..at + consumed + BLOCK_SIZE];
        consumed := consumed + BLOCK_SIZE;
      }
    }

    /** Update */
    method Update(data: seq<Byte>)
      requires Valid()
      modifies this, block
      ensures Valid() && block == old(block) && fed == old(fed) + data
    {
      hide Compress, After, Wrap64, Whole;
      var consumed := 0;
      var blockOffset := size % 64;
      ghost var at := |fed|;
      ghost var whole := fed + data;
      SizeModulo(at, |data|);
      AfterAppend(fed, data, Whole(at));
      assert whole[Whole(at)..at] == fed[Whole(at)..];
      size := Wrap64(size + |data|);
      fed := whole;
      if blockOffset != 0 {
        consumed := FillBuffer(data, blockOffset, whole, at);
        if consumed < BLOCK_SIZE - blockOffset { return; }
      }
      consumed := ProcessBlocks(data, consumed, whole, at);
      if |data| - consumed != 0 {
        Store(0, data[consumed..]);
      }
      assert whole[at + consumed..] == data[consumed..];
    }

    /** GetDigest: the raw state, with no padding. */
    method GetDigest() returns (digest: seq<Byte>)
      requires Valid()
      ensures digest == Output(After(fed, Whole(|fed|)))
    {
      hide Compress, After, WordBytes;
      digest := [];
      var registers := [state.a, state.b, state.c, state.d];
      for i := 0 to 4
        invariant i == 0 ==> digest == []
        invariant i == 1 ==> digest == WordBytes(state.a)
        invariant i == 2 ==> digest == WordBytes(state.a) + WordBytes(state.b)
        invariant i == 3 ==> digest == WordBytes(state.a) + WordBytes(state.b) + WordBytes(state.c)
        invariant i == 4 ==> digest == Output(state)
      {
        digest := digest + WordBytes(registers[i]);
      }
    }

    /** PadBlock: afterwards exactly the padded message has been fed. */
    method PadBlock()
      requires Valid()
      modifies this, block
      ensures Valid() && block == old(block) && fed == Padded(old(fed))
    {
      hide Compress, After, LongBytes, PaddingZeros, Wrap64;
      var bitCount := Wrap64(8 * size);
      var currentLength := size % 64;
      var desiredLength := if currentLength >= 56 then 120 else 56;
      BitCount(|fed|);
      PaddingLength(|fed|);
      var padding := [0x80] + Zeros(BLOCK_SIZE - 1);
      Update(padding[..desiredLength - currentLength]);
      Update(LongBytes(bitCount));
      assert padding[..desiredLength - currentLength] == [0x80] + Zeros(PaddingZeros(|old(fed)|));
    }

    /** Finalize: the digest of everything fed; the hasher is ready for another message. */
    method Finalize() returns (digest: seq<Byte>)
      requires Valid()
      modifies this, block
      ensures digest == Digest(old(fed))
      ensures Valid() && fed == [] && fresh(block)
    {
      hide Compress, Fold, Output, Padded;
      PadBlock();
      digest := GetDigest();
      assert fed[..Whole(|fed|)] == fed;
      Reset();
    }

    method Reset()
      modifies this
      ensures Valid() && fed == [] && fresh(block)
    {
      block := new Byte[BLOCK_SIZE](i => 0);
      size, state, fed := 0, INITIAL, [];
    }
  }

  lemma SizeModulo(n: nat, more: nat)
    ensures Wrap64(n) % 64 == n % 64
    ensures Wrap64(Wrap64(n) + more) == Wrap64(n + more)
  {
    var q := n / 0x1_0000_0000_0000_0000;
    assert n == Wrap64(n) + 64 * (0x400_0000_0000_0000 * q);
    MultipleDropped(Wrap64(n) + more, q);
  }

  lemma MultipleDropped(a: nat, q: nat)
    ensures Wrap64(a + 0x1_0000_0000_0000_0000 * q) == Wrap64(a)
  {
    var k := a / 0x1_0000_0000_0000_0000;
    assert a + 0x1_0000_0000_0000_0000 * q == 0x1_0000_0000_0000_0000 * (k + q) + a % 0x1_0000_0000_0000_0000;
  }

  lemma BitCount(n: nat)
    ensures Wrap64(8 * Wrap64(n)) == Wrap64(8 * n)
  {
    var q := n / 0x1_0000_0000_0000_0000;
    MultipleDropped(8 * Wrap64(n), 8 * q);
    assert n == Wrap64(n) + 0x1_0000_0000_0000_0000 * q;
    hide Wrap64;
  }

  lemma PaddingLength(n: nat)
    ensures var current := Wrap64(n) % 64;
            (if current >= 56 then 120 else 56) - current == 1 + PaddingZeros(n)
  {
    SizeModulo(n, 0);
  }

  lemma SameWhole(at: nat, more: nat)
    requires at % 64 + more < BLOCK_SIZE
    ensures Whole(at + more) == Whole(at) && (at + more) % 64 == at % 64 + more
  {
  }

  // ---------------------------------------------------------------- main result

  function Flatten(pieces: seq<seq<Byte>>): seq<Byte> {
    if pieces == [] then [] else Flatten(pieces[..|pieces| - 1]) + pieces[|pieces| - 1]
  }

  /** Main result: a message fed in any number of pieces, of any sizes, has the digest of the whole. */
  method DigestOfPieces(pieces: seq<seq<Byte>>) returns (digest: seq<Byte>)
    ensures digest == Digest(Flatten(pieces))
  {
    var hasher := new MD5Hasher();
    for k := 0 to |pieces|
      invariant hasher.Valid() && fresh(hasher) && fresh(hasher.block)
      invariant hasher.fed == Flatten(pieces[..k])
    {
      hasher.Update(pieces[k]);
      assert pieces[..k + 1][..k] == pieces[..k];
    }
    assert pieces[..|pieces|] == pieces;
    digest := hasher.Finalize();
  }
}
