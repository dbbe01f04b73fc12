/** SHA-1 as FIPS 180-2 defines it: padding (section 5.1.1) and hash computation (section 6.1.2). */
module Fips180 {
  type Block = b: seq<bv8> | |b| == 64 witness seq(64, _ => 0)

  datatype Hash = Hash(a: bv32, b: bv32, c: bv32, d: bv32, e: bv32)

  function Initial(): Hash {
    Hash(0x67452301, 0xefcdab89, 0x98badcfe, 0x10325476, 0xc3d2e1f0)
  }

  // Section 4.1.1 and 4.2.1

  function Rotl1(x: bv32): bv32 { (x << 1) | (x >> 31) }
  function Rotl5(x: bv32): bv32 { (x << 5) | (x >> 27) }
  function Rotl30(x: bv32): bv32 { (x << 30) | (x >> 2) }

  function Ch(x: bv32, y: bv32, z: bv32): bv32 { (x & y) ^ (!x & z) }
  function Parity(x: bv32, y: bv32, z: bv32): bv32 { x ^ y ^ z }
  function Maj(x: bv32, y: bv32, z: bv32): bv32 { (x & y) ^ (x & z) ^ (y & z) }

  function F(t: nat, x: bv32, y: bv32, z: bv32): bv32 {
    if t < 20 then Ch(x, y, z) else if t < 40 then Parity(x, y, z) else if t < 60 then Maj(x, y, z) else Parity(x, y, z)
  }

  function K(t: nat): bv32 {
    if t < 20 then 0x5a827999 else if t < 40 then 0x6ed9eba1 else if t < 60 then 0x8f1bbcdc else 0xca62c1d6
  }

  // Section 6.1.2

  /** The t-th word of a block, most significant byte first. */
  function BlockWord(block: Block, t: nat): bv32
    requires t < 16
  {
    ((block[4 * t] as bv32) << 24) | ((block[4 * t + 1] as bv32) << 16)
    | ((block[4 * t + 2] as bv32) << 8) | (block[4 * t + 3] as bv32)
  }

  /** The first n words of the message schedule. */
  function Schedule(block: Block, n: nat): (w: seq<bv32>)
    ensures |w| == n
  {
    if n == 0 then []
    else
      var w := Schedule(block, n - 1);
      w + [if n <= 16 then BlockWord(block, n - 1) else NextWord(w)]
  }

  function NextWord(w: seq<bv32>): bv32
    requires |w| >= 16
  {
    var t := |w|;
    Rotl1(w[t - 3] ^ w[t - 8] ^ w[t - 14] ^ w[t - 16])
  }

  /** The five summands of a step, modulo 2^32. */
  function Sum(rotated: bv32, f: bv32, e: bv32, k: bv32, w: bv32): bv32 {
    rotated + f + e + k + w
  }

  /** One of the 80 steps. */
  function Round(t: nat, h: Hash, w: bv32): Hash {
    Hash(Sum(Rotl5(h.a), F(t, h.b, h.c, h.d), h.e, K(t), w), h.a, Rotl30(h.b), h.c, h.d)
  }

  /** The working variables after n rounds. */
  function Rounds(h: Hash, w: seq<bv32>, n: nat): Hash
    requires n <= |w|
  {
    if n == 0 then h else Round(n - 1, Rounds(h, w, n - 1), w[n - 1])
  }

  function Add(h: Hash, v: Hash): Hash {
    Hash(h.a + v.a, h.b + v.b, h.c + v.c, h.d + v.d, h.e + v.e)
  }

  function Compress(h: Hash, block: Block): Hash {
    Add(h, Rounds(h, Schedule(block, 80), 80))
  }

  /** The hash value after the blocks of a text of whole blocks. */
  function HashBlocks(text: seq<bv8>): Hash
    requires |text| % 64 == 0
    decreases |text|
  {
    if text == [] then Initial()
    else Compress(HashBlocks(text[..|text| - 64]), text[|text| - 64..])
  }

  // Section 5.1.1

  const LENGTH_SPACE: int := 0x1_0000_0000_0000_0000

  /** A 64-bit number shifted right so far that byte k, counted from the most significant, is its lowest. */
  function Shifted(bits: nat, k: nat): nat
    requires k < 8
  {
    if k == 0 then bits / 0x100_0000_0000_0000
    else if k == 1 then bits / 0x1_0000_0000_0000
    else if k == 2 then bits / 0x100_0000_0000
    else if k == 3 then bits / 0x1_0000_0000
    else if k == 4 then bits / 0x100_0000
    else if k == 5 then bits / 0x1_0000
    else if k == 6 then bits / 0x100
    else bits
  }

  function LowByte(x: nat): bv8 {
    (x % 0x100) as bv8
  }

  function LengthBytes(bits: nat): (r: seq<bv8>)
    ensures |r| == 8
  {
    EightBytes(bits, LowByte)
  }

  function EightBytes<T>(bits: nat, low: nat -> T): (r: seq<T>)
    ensures |r| == 8
  {
    seq(8, k requires 0 <= k < 8 => low(Shifted(bits, k)))
  }

  lemma {:induction false} EightBytesAre<T>(bits: nat, low: nat -> T)
    ensures EightBytes(bits, low)
         == [low(bits / 0x100_0000_0000_0000), low(bits / 0x1_0000_0000_0000), low(bits / 0x100_0000_0000),
             low(bits / 0x1_0000_0000), low(bits / 0x100_0000), low(bits / 0x1_0000), low(bits / 0x100), low(bits)]
  {
    var b := EightBytes(bits, low);
    assert b[0] == low(Shifted(bits, 0)) && b[1] == low(Shifted(bits, 1)) && b[2] == low(Shifted(bits, 2));
    assert b[3] == low(Shifted(bits, 3)) && b[4] == low(Shifted(bits, 4)) && b[5] == low(Shifted(bits, 5));
    assert b[6] == low(Shifted(bits, 6)) && b[7] == low(Shifted(bits, 7));
    assert b == [b[0], b[1], b[2], b[3], b[4], b[5], b[6], b[7]];
  }

  /** The number that the first n bytes of a length spell, most significant first. */
  function BigEndian(bits: nat, n: nat): nat
    requires n <= 8
  {
    if n == 0 then 0 else BigEndian(bits, n - 1) * 0x100 + Shifted(bits, n - 1) % 0x100
  }

  lemma {:induction false} ShiftOnce(bits: nat, k: nat)
    requires bits < LENGTH_SPACE && k < 8
    ensures Shifted(bits, k) / 0x100 == if k == 0 then 0 else Shifted(bits, k - 1)
  {
  }

  lemma {:induction false} BytesReadBack(bits: nat, n: nat)
    requires bits < LENGTH_SPACE && n < 8
    ensures BigEndian(bits, n + 1) == Shifted(bits, n)
  {
    ShiftOnce(bits, n);
    if n > 0 {
      BytesReadBack(bits, n - 1);
    }
  }

  /** The length bytes read back as the length. */
  lemma {:induction false} LengthReadsBack(bits: nat)
    requires bits < LENGTH_SPACE
    ensures BigEndian(bits, 8) == bits
  {
    BytesReadBack(bits, 7);
  }

  function Zeros(n: nat): seq<bv8> {
    seq(n, _ => 0 as bv8)
  }

  /** The number of zero bytes: the least that leaves room for exactly the length. */
  function ZeroCount(length: nat): nat {
    if length % 64 < 56 then 55 - length % 64 else 119 - length % 64
  }

  /** The message, a one bit, zeros, and the length of the message in bits modulo 2^64. */
  function Pad(message: seq<bv8>): seq<bv8> {
    message + [0x80] + Zeros(ZeroCount(|message|)) + LengthBytes(8 * |message| % LENGTH_SPACE)
  }

  /** The padding is the shortest that fills whole blocks. */
  lemma PadFillsBlocks(message: seq<bv8>)
    ensures |Pad(message)| % 64 == 0 && |message| + 9 <= |Pad(message)| < |message| + 9 + 64
  {
  }

  /** Byte i of a word, counted from the most significant. */
  function WordByte(x: bv32, i: nat): bv8
    requires i < 4
  {
    if i == 0 then ((x >> 24) & 0xff) as bv8
    else if i == 1 then ((x >> 16) & 0xff) as bv8
    else if i == 2 then ((x >> 8) & 0xff) as bv8
    else (x & 0xff) as bv8
  }

  function WordBytes(x: bv32): (r: seq<bv8>)
    ensures |r| == 4
  {
    seq(4, i requires 0 <= i < 4 => WordByte(x, i))
  }

  function HashBytes(h: Hash): (r: seq<bv8>)
    ensures |r| == 20
  {
    WordBytes(h.a) + WordBytes(h.b) + WordBytes(h.c) + WordBytes(h.d) + WordBytes(h.e)
  }

  function Digest(message: seq<bv8>): seq<bv8> {
    PadFillsBlocks(message);
    HashBytes(HashBlocks(Pad(message)))
  }

  /** One more block of text is one more computation of the hash. */
  lemma {:induction false} HashOneMore(text: seq<bv8>, block: Block)
    requires |text| % 64 == 0
    ensures |text + block| % 64 == 0 && HashBlocks(text + block) == Compress(HashBlocks(text), block)
  {
    assert (text + block)[..|text|] == text && (text + block)[|text|..] == block;
  }
}
