/** Fixed-width machine words: the C++ code's uint8_t and uint32_t, the conversions between a
    32-bit word and the unbounded integers used for lengths and offsets, and little-endian bytes. */
module Words {

  type Byte = bv8
  type Word = bv32

  const WORD_LIMIT: nat := 0x1_0000_0000

  /** uint32_t arithmetic. */
  function Wrap(n: nat): (w: nat)
    ensures w < WORD_LIMIT
    ensures n < WORD_LIMIT ==> w == n
  {
    n % 0x1_0000_0000
  }

  datatype Option<+T> = None | Some(value: T)

  // Bytes are converted nibble by nibble: a 4-bit conversion is cheap to reason about.

  function NibbleOf(n: nat): bv4
    requires n < 16
  {
    n as bv4
  }

  function NibbleValue(b: bv4): (n: nat)
    ensures n < 16
  {
    b as int
  }

  function High(b: Byte): bv4 { (b >> 4) as bv4 }
  function Low(b: Byte): bv4 { (b & 15) as bv4 }
  function Join(high: bv4, low: bv4): Byte { ((high as bv8) << 4) | (low as bv8) }

  function ByteOf(n: nat): Byte
    requires n < 256
  {
    Join(NibbleOf(n / 16), NibbleOf(n % 16))
  }

  function ByteValue(b: Byte): (n: nat)
    ensures n < 256
  {
    16 * NibbleValue(High(b)) + NibbleValue(Low(b))
  }

  lemma NibbleRoundTrip(n: nat, b: bv4)
    ensures n < 16 ==> NibbleValue(NibbleOf(n)) == n
    ensures NibbleOf(NibbleValue(b)) == b
  {
  }

  lemma JoinParts(high: bv4, low: bv4, b: Byte)
    ensures High(Join(high, low)) == high && Low(Join(high, low)) == low && Join(High(b), Low(b)) == b
  {
  }

  /** The little-endian byte `i` of a word. */
  function Byte0(w: Word): Byte { (w & 0xff) as bv8 }
  function Byte1(w: Word): Byte { ((w >> 8) & 0xff) as bv8 }
  function Byte2(w: Word): Byte { ((w >> 16) & 0xff) as bv8 }
  function Byte3(w: Word): Byte { ((w >> 24) & 0xff) as bv8 }

  function WordBytes(w: Word): (s: seq<Byte>)
    ensures |s| == 4
  {
    [Byte0(w), Byte1(w), Byte2(w), Byte3(w)]
  }

  /** A 32-bit load (memcpy into a uint32_t on a little-endian target). */
  function BytesWord(b0: Byte, b1: Byte, b2: Byte, b3: Byte): Word {
    (b0 as bv32) | ((b1 as bv32) << 8) | ((b2 as bv32) << 16) | ((b3 as bv32) << 24)
  }

  lemma BytesWordParts(b0: Byte, b1: Byte, b2: Byte, b3: Byte)
    ensures var w := BytesWord(b0, b1, b2, b3);
            Byte0(w) == b0 && Byte1(w) == b1 && Byte2(w) == b2 && Byte3(w) == b3
  {
  }

  lemma WordBytesParts(w: Word)
    ensures BytesWord(Byte0(w), Byte1(w), Byte2(w), Byte3(w)) == w
  {
  }

  /** static_cast<uint32_t>: reduction modulo 2^32. */
  function ToWord(n: nat): Word {
    var q1 := n / 256;
    var q2 := q1 / 256;
    var q3 := q2 / 256;
    BytesWord(ByteOf(n % 256), ByteOf(q1 % 256), ByteOf(q2 % 256), ByteOf(q3 % 256))
  }

  /** The unsigned value of a word. */
  function Value(w: Word): (n: nat)
    ensures n < WORD_LIMIT
  {
    ByteValue(Byte0(w)) + 256 * ByteValue(Byte1(w)) + 0x1_0000 * ByteValue(Byte2(w)) + 0x100_0000 * ByteValue(Byte3(w))
  }

  lemma ByteRoundTrip(n: nat)
    requires n < 256
    ensures ByteValue(ByteOf(n)) == n
  {
    hide NibbleOf, NibbleValue, Join, High, Low;
    JoinParts(NibbleOf(n / 16), NibbleOf(n % 16), 0);
    NibbleRoundTrip(n / 16, 0);
    NibbleRoundTrip(n % 16, 0);
  }

  lemma ByteOfValue(b: Byte)
    ensures ByteOf(ByteValue(b)) == b
  {
    hide NibbleOf, NibbleValue, Join, High, Low;
    JoinParts(0, 0, b);
    NibbleRoundTrip(0, High(b));
    NibbleRoundTrip(0, Low(b));
  }

  lemma Digits(n: nat, q1: nat, q2: nat, q3: nat)
    requires q1 == n / 256 && q2 == q1 / 256 && q3 == q2 / 256
    ensures n % WORD_LIMIT == n % 256 + 256 * (q1 % 256) + 0x1_0000 * (q2 % 256) + 0x100_0000 * (q3 % 256)
  {
    var q4 := q3 / 256;
    var low := n % 256 + 256 * (q1 % 256) + 0x1_0000 * (q2 % 256) + 0x100_0000 * (q3 % 256);
    assert n == low + WORD_LIMIT * q4;
  }

  /** Casting to uint32_t and reading the value back is reduction modulo 2^32. */
  lemma ValueOfToWord(n: nat)
    ensures Value(ToWord(n)) == n % WORD_LIMIT
  {
    hide ByteOf, ByteValue, BytesWord, Byte0, Byte1, Byte2, Byte3;
    var q1 := n / 256;
    var q2 := q1 / 256;
    var q3 := q2 / 256;
    BytesWordParts(ByteOf(n % 256), ByteOf(q1 % 256), ByteOf(q2 % 256), ByteOf(q3 % 256));
    ByteRoundTrip(n % 256);
    ByteRoundTrip(q1 % 256);
    ByteRoundTrip(q2 % 256);
    ByteRoundTrip(q3 % 256);
    Digits(n, q1, q2, q3);
  }

  lemma DigitsOfSum(v0: nat, v1: nat, v2: nat, v3: nat)
    requires v0 < 256 && v1 < 256 && v2 < 256 && v3 < 256
    ensures var n := v0 + 256 * v1 + 0x1_0000 * v2 + 0x100_0000 * v3;
            && n % 256 == v0 && n / 256 % 256 == v1 && n / 256 / 256 % 256 == v2 && n / 256 / 256 / 256 % 256 == v3
  {
    var n := v0 + 256 * v1 + 0x1_0000 * v2 + 0x100_0000 * v3;
    assert n / 256 == v1 + 256 * v2 + 0x1_0000 * v3;
    assert n / 256 / 256 == v2 + 256 * v3;
  }

  lemma ToWordOfValue(w: Word)
    ensures ToWord(Value(w)) == w
  {
    hide ByteOf, ByteValue, BytesWord, Byte0, Byte1, Byte2, Byte3;
    DigitsOfSum(ByteValue(Byte0(w)), ByteValue(Byte1(w)), ByteValue(Byte2(w)), ByteValue(Byte3(w)));
    ByteOfValue(Byte0(w));
    ByteOfValue(Byte1(w));
    ByteOfValue(Byte2(w));
    ByteOfValue(Byte3(w));
    WordBytesParts(w);
  }

  lemma SmallNibble(b: bv4)
    requires NibbleValue(b) < 8
    ensures b < 8
  {
  }

  /** A word whose value fits seven bits has only those bits set. */
  lemma SmallWord(w: Word)
    requires Value(w) < 128
    ensures w < 128
  {
    hide NibbleOf, NibbleValue, Join, High, Low, BytesWord, Byte0, Byte1, Byte2, Byte3;
    ByteOfValue(Byte1(w));
    ByteOfValue(Byte2(w));
    ByteOfValue(Byte3(w));
    WordBytesParts(w);
    SmallNibble(High(Byte0(w)));
    SmallBytes(Byte0(w));
    assert Byte1(w) == ByteOf(0) && Byte2(w) == ByteOf(0) && Byte3(w) == ByteOf(0);
    SmallBytesWord(Byte0(w));
  }

  lemma SmallValue(w: Word)
    requires w < 128
    ensures Value(w) < 128
  {
    hide NibbleValue, High, Low;
    SmallParts(w);
    NibbleZero();
  }

  lemma SmallParts(w: Word)
    requires w < 128
    ensures Byte1(w) == 0 && Byte2(w) == 0 && Byte3(w) == 0 && High(Byte0(w)) < 8 && High(0) == 0 && Low(0) == 0
  {
  }

  lemma NibbleZero()
    ensures NibbleValue(0) == 0
    ensures forall b: bv4 :: b < 8 ==> NibbleValue(b) < 8
  {
  }

  lemma SmallBytes(b: Byte)
    requires High(b) < 8
    ensures b < 128
  {
  }

  lemma SmallBytesWord(b: Byte)
    requires b < 128
    ensures BytesWord(b, ByteOf(0), ByteOf(0), ByteOf(0)) < 128
  {
  }

  lemma ToWordOfByte(n: nat)
    requires n < 256
    ensures ToWord(n) == BytesWord(ByteOf(n), ByteOf(0), ByteOf(0), ByteOf(0))
  {
    hide ByteOf, BytesWord;
  }

  lemma SmallByteOf()
    ensures ByteOf(0) == 0 && ByteOf(1) == 1 && ByteOf(2) == 2 && ByteOf(4) == 4
  {
    assert NibbleOf(0) == 0 && NibbleOf(1) == 1 && NibbleOf(2) == 2 && NibbleOf(4) == 4;
    hide NibbleOf;
  }

  lemma ByteAlone()
    ensures BytesWord(0, 0, 0, 0) == 0 && BytesWord(1, 0, 0, 0) == 1 && BytesWord(2, 0, 0, 0) == 2
    ensures BytesWord(4, 0, 0, 0) == 4
  {
  }

  /** The casts of small lengths. */
  lemma SmallToWord()
    ensures ToWord(0) == 0 && ToWord(1) == 1 && ToWord(2) == 2 && ToWord(4) == 4 && Value(0) == 0
  {
    hide ByteOf, BytesWord, Value, ToWord;
    SmallByteOf();
    ByteAlone();
    ToWordOfByte(0);
    ToWordOfByte(1);
    ToWordOfByte(2);
    ToWordOfByte(4);
    ValueOfToWord(0);
  }
}
