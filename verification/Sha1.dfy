/** The streaming implementation: a context that is filled byte by byte and transformed block by block. */
module Sha1 {
  import opened Sequences
  import opened Fips180

  lemma {:induction false} BytesOfWord(a: bv8, b: bv8, c: bv8, d: bv8)
    ensures ((a as bv32) << 24) + ((b as bv32) << 16) + ((c as bv32) << 8) + (d as bv32)
         == ((a as bv32) << 24) | ((b as bv32) << 16) | ((c as bv32) << 8) | (d as bv32)
  {
  }

  lemma {:induction false} SumAdds(rotated: bv32, f: bv32, e: bv32, k: bv32, w: bv32)
    ensures rotated + f + e + k + w == Sum(rotated, f, e, k, w)
  {
  }

  /** The context's four constants are those of the four kinds of rounds. */
  predicate Keyed(k: seq<bv32>) {
    |k| == 4 && k[0] == K(0) && k[1] == K(20) && k[2] == K(40) && k[3] == K(60)
  }

  class Sha1Ctx {
    const data: array<bv8>
    var datalen: nat
    var bitlen: nat
    var state: Hash
    var k: seq<bv32>
    ghost var blocks: seq<bv8>

    /** What has been absorbed: the whole blocks, and the bytes that wait in the buffer. */
    ghost function Message(): seq<bv8>
      requires datalen <= data.Length
      reads this, data
    {
      blocks + data[..datalen]
    }

    ghost predicate Valid()
      reads this, data
    {
      && data.Length == 64 && datalen < 64
      && Keyed(k)
      && |blocks| % 64 == 0 && state == HashBlocks(blocks) && bitlen == 8 * |blocks| % LENGTH_SPACE
    }

    /** sha1_init */
    constructor ()
      ensures Valid() && Message() == [] && fresh(data)
    {
      data := new bv8[64](_ => 0);
      datalen, bitlen := 0, 0;
      state := Hash(0x67452301, 0xEFCDAB89, 0x98BADCFE, 0x10325476, 0xc3d2e1f0);
      k := [0x5a827999, 0x6ed9eba1, 0x8f1bbcdc, 0xca62c1d6];
      blocks := [];
    }

    /** The array m of sha1_transform. */
    static method ExpandBlock(block: Block) returns (m: array<bv32>)
      ensures fresh(m) && m.Length == 80 && m[..] == Schedule(block, 80)
    {
      m := new bv32[80](_ => 0);
      LoadWords(m, block);
      ExtendWords(m, block);
    }

    static method LoadWords(m: array<bv32>, block: Block)
      requires m.Length == 80
      modifies m
      ensures m[..16] == Schedule(block, 16)
    {
      var i, j := 0, 0;
      while i < 16
        invariant 0 <= i <= 16 && j == 4 * i
        invariant m[..i] == Schedule(block, i)
      {
        BytesOfWord(block[j], block[j + 1], block[j + 2], block[j + 3]);
        m[i] := ((block[j] as bv32) << 24) + ((block[j + 1] as bv32) << 16)
          + ((block[j + 2] as bv32) << 8) + (block[j + 3] as bv32);
        i, j := i + 1, j + 4;
      }
    }

    static method ExtendWords(m: array<bv32>, ghost block: Block)
      requires m.Length == 80 && m[..16] == Schedule(block, 16)
      modifies m
      ensures m[..] == Schedule(block, 80)
    {
      var i := 16;
      while i < 80
        invariant 16 <= i <= 80
        invariant m[..i] == Schedule(block, i)
      {
        m[i] := m[i - 3] ^ m[i - 8] ^ m[i - 14] ^ m[i - 16];
        m[i] := (m[i] << 1) | (m[i] >> 31);
        i := i + 1;
      }
      assert m[..] == m[..i];
    }

    /** One turn of the loop for rounds 0 to 19. */
    static method ChTurn(ghost i: nat, a: bv32, b: bv32, c: bv32, d: bv32, e: bv32, k0: bv32, w: bv32)
        returns (a1: bv32, b1: bv32, c1: bv32, d1: bv32, e1: bv32)
      requires i < 20 && k0 == K(i)
      ensures Hash(a1, b1, c1, d1, e1) == Round(i, Hash(a, b, c, d, e), w)
    {
      var rotated, f := (a << 5) | (a >> 27), ((b & c) ^ (!b & d));
      var t := rotated + f + e + k0 + w;
      SumAdds(rotated, f, e, k0, w);
      e1 := d;
      d1 := c;
      c1 := (b << 30) | (b >> 2);
      b1 := a;
      a1 := t;
    }

    /** One turn of the loops for rounds 20 to 39 and 60 to 79. */
    static method ParityTurn(ghost i: nat, a: bv32, b: bv32, c: bv32, d: bv32, e: bv32, kt: bv32, w: bv32)
        returns (a1: bv32, b1: bv32, c1: bv32, d1: bv32, e1: bv32)
      requires (20 <= i < 40 || 60 <= i < 80) && kt == K(i)
      ensures Hash(a1, b1, c1, d1, e1) == Round(i, Hash(a, b, c, d, e), w)
    {
      var rotated, f := (a << 5) | (a >> 27), (b ^ c ^ d);
      var t := rotated + f + e + kt + w;
      SumAdds(rotated, f, e, kt, w);
      e1 := d;
      d1 := c;
      c1 := (b << 30) | (b >> 2);
      b1 := a;
      a1 := t;
    }

    /** One turn of the loop for rounds 40 to 59. */
    static method MajTurn(ghost i: nat, a: bv32, b: bv32, c: bv32, d: bv32, e: bv32, k2: bv32, w: bv32)
        returns (a1: bv32, b1: bv32, c1: bv32, d1: bv32, e1: bv32)
      requires 40 <= i < 60 && k2 == K(i)
      ensures Hash(a1, b1, c1, d1, e1) == Round(i, Hash(a, b, c, d, e), w)
    {
      var rotated, f := (a << 5) | (a >> 27), ((b & c) ^ (b & d) ^ (c & d));
      var t := rotated + f + e + k2 + w;
      SumAdds(rotated, f, e, k2, w);
      e1 := d;
      d1 := c;
      c1 := (b << 30) | (b >> 2);
      b1 := a;
      a1 := t;
    }

    /** The loop for rounds 0 to 19. */
    static method ChRounds(h: Hash, m: seq<bv32>, k0: bv32) returns (v: Hash)
      requires |m| == 80 && k0 == K(0)
      ensures v == Rounds(h, m, 20)
    {
      var a, b, c, d, e := h.a, h.b, h.c, h.d, h.e;
      var i := 0;
      while i < 20
        invariant 0 <= i <= 20 && Hash(a, b, c, d, e) == Rounds(h, m, i)
      {
        ghost var before := Hash(a, b, c, d, e);
        a, b, c, d, e := ChTurn(i, a, b, c, d, e, k0, m[i]);
        RoundsStep(h, m, i, before, Hash(a, b, c, d, e));
        i := i + 1;
      }
      v := Hash(a, b, c, d, e);
    }

    /** The loops for rounds 20 to 39 and 60 to 79. */
    static method ParityRounds(ghost h: Hash, u: Hash, m: seq<bv32>, from: nat, kt: bv32) returns (v: Hash)
      requires |m| == 80 && (from == 20 || from == 60) && kt == K(from) && u == Rounds(h, m, from)
      ensures v == Rounds(h, m, from + 20)
    {
      var a, b, c, d, e := u.a, u.b, u.c, u.d, u.e;
      var i := from;
      while i < from + 20
        invariant from <= i <= from + 20 && Hash(a, b, c, d, e) == Rounds(h, m, i)
      {
        ghost var before := Hash(a, b, c, d, e);
        a, b, c, d, e := ParityTurn(i, a, b, c, d, e, kt, m[i]);
        RoundsStep(h, m, i, before, Hash(a, b, c, d, e));
        i := i + 1;
      }
      v := Hash(a, b, c, d, e);
    }

    /** The loop for rounds 40 to 59. */
    static method MajRounds(ghost h: Hash, u: Hash, m: seq<bv32>, k2: bv32) returns (v: Hash)
      requires |m| == 80 && k2 == K(40) && u == Rounds(h, m, 40)
      ensures v == Rounds(h, m, 60)
    {
      var a, b, c, d, e := u.a, u.b, u.c, u.d, u.e;
      var i := 40;
      while i < 60
        invariant 40 <= i <= 60 && Hash(a, b, c, d, e) == Rounds(h, m, i)
      {
        ghost var before := Hash(a, b, c, d, e);
        a, b, c, d, e := MajTurn(i, a, b, c, d, e, k2, m[i]);
        RoundsStep(h, m, i, before, Hash(a, b, c, d, e));
        i := i + 1;
      }
      v := Hash(a, b, c, d, e);
    }

    /** sha1_transform */
    method Transform(block: Block)
      requires Keyed(k)
      modifies this`state
      ensures state == Compress(old(state), block)
    {
      var expanded := ExpandBlock(block);
      var m := expanded[..];
      var v := ChRounds(state, m, k[0]);
      v := ParityRounds(state, v, m, 20, k[1]);
      v := MajRounds(state, v, m, k[2]);
      v := ParityRounds(state, v, m, 60, k[3]);
      FeedForward(state, block, m, v);
      state := Add(state, v);
    }

    /** One turn of the loop of sha1_update. */
    method Absorb(x: bv8)
      requires Valid()
      modifies this, data
      ensures Valid() && Message() == old(Message()) + [x]
    {
      data[datalen] := x;
      datalen := datalen + 1;
      assert blocks + data[..datalen] == old(Message()) + [x];
      if datalen == 64 {
        Flush();
      }
    }

    /** A full buffer is transformed. */
    method Flush()
      requires data.Length == 64 == datalen && Keyed(k)
      requires |blocks| % 64 == 0 && state == HashBlocks(blocks) && bitlen == 8 * |blocks| % LENGTH_SPACE
      modifies this
      ensures Valid() && Message() == old(Message())
    {
      assert data[..datalen] == data[..];
      BlockBits(|blocks|);
      TransformData();
      bitlen := (bitlen + 512) % LENGTH_SPACE;
      datalen := 0;
    }

    /** The whole buffer is transformed. */
    method TransformData()
      requires data.Length == 64 && Keyed(k) && |blocks| % 64 == 0 && state == HashBlocks(blocks)
      modifies this`state, this`blocks
      ensures blocks == old(blocks) + data[..] && |blocks| % 64 == 0 && state == HashBlocks(blocks)
    {
      HashOneMore(blocks, data[..]);
      Transform(data[..]);
      blocks := blocks + data[..];
    }

    /** sha1_update */
    method Update(bytes: seq<bv8>)
      requires Valid()
      modifies this, data
      ensures Valid() && Message() == old(Message()) + bytes
    {
      var i := 0;
      while i < |bytes|
        invariant 0 <= i <= |bytes| && Valid()
        invariant Message() == old(Message()) + bytes[..i]
      {
        Absorb(bytes[i]);
        i := i + 1;
      }
    }

    /** The fill loops of sha1_final: a one bit and zeros, up to end. */
    method FillTo(end: nat)
      requires data.Length == 64 && datalen < end <= 64
      modifies data
      ensures data[..end] == old(data[..datalen]) + [0x80] + Zeros(end - datalen - 1)
    {
      var i := datalen;
      data[i] := 0x80;
      i := i + 1;
      while i < end
        invariant datalen < i <= end
        invariant data[..i] == old(data[..datalen]) + [0x80] + Zeros(i - datalen - 1)
      {
        data[i] := 0x00;
        i := i + 1;
      }
    }

    /** The length in bits goes into the last eight bytes. */
    static method PutLength(data: array<bv8>, bits: nat)
      requires data.Length == 64
      modifies data
      ensures data[..] == old(data[..56]) + LengthBytes(bits)
    {
      var lowest, low := LowByte(bits), LowByte(bits / 0x100);
      var third, fourth := LowByte(bits / 0x1_0000), LowByte(bits / 0x100_0000);
      var fifth, sixth := LowByte(bits / 0x1_0000_0000), LowByte(bits / 0x100_0000_0000);
      var high, highest := LowByte(bits / 0x1_0000_0000_0000), LowByte(bits / 0x100_0000_0000_0000);
      EightBytesAre(bits, LowByte);
      PutLast(data, [highest, high, sixth, fifth, fourth, third, low, lowest]);
    }

    static method PutLast<T>(data: array<T>, length: seq<T>)
      requires data.Length == 64 && |length| == 8
      modifies data
      ensures data[..] == old(data[..56]) + length
    {
      data[63] := length[7];
      data[62] := length[6];
      data[61] := length[5];
      data[60] := length[4];
      data[59] := length[3];
      data[58] := length[2];
      data[57] := length[1];
      data[56] := length[0];
    }

    /** sha1_final */
    method Final() returns (hash: array<bv8>)
      requires Valid()
      modifies this, data
      ensures fresh(hash) && hash[..] == Digest(old(Message()))
    {
      ghost var message := Message();
      PadFillsBlocks(message);
      MessageBits(message, blocks, data[..datalen], bitlen);
      var bits := (bitlen + datalen * 8) % LENGTH_SPACE;
      FillRest(LengthBytes(bits));
      bitlen := bits;
      LastBlock(message);
      hash := Output(state);
    }

    /** The two branches of sha1_final: what is left of the padding is one block that ends with the length. */
    method FillRest(ghost length: seq<bv8>)
      requires Valid() && |Message()| % 64 == datalen && length == LengthBytes(8 * |Message()| % LENGTH_SPACE)
      modifies this`state, this`blocks, data
      ensures |blocks| % 64 == 0 && state == HashBlocks(blocks)
      ensures Pad(old(Message())) == blocks + (data[..56] + length)
    {
      if datalen < 56 {
        PadInOne(Message(), blocks, data[..datalen]);
        FillTo(56);
      } else {
        PadInTwo(Message(), blocks, data[..datalen]);
        FillWholeBlock();
      }
    }

    /** The second branch of sha1_final: the length does not fit into this block. */
    method FillWholeBlock()
      requires Valid()
      modifies this`state, this`blocks, data
      ensures blocks == old(blocks) + (old(data[..datalen]) + [0x80] + Zeros(63 - datalen)) && data[..56] == Zeros(56)
      ensures |blocks| % 64 == 0 && state == HashBlocks(blocks)
    {
      FillTo(64);
      assert data[..64] == data[..];
      TransformData();
      Clear();
    }

    /** The block with the length is the last one. */
    method LastBlock(ghost message: seq<bv8>)
      requires data.Length == 64 && Keyed(k)
      requires |blocks| % 64 == 0 && state == HashBlocks(blocks)
      requires |Pad(message)| % 64 == 0 && Pad(message) == blocks + (data[..56] + LengthBytes(bitlen))
      modifies this`state, this`blocks, data
      ensures state == HashBlocks(Pad(message))
    {
      PutLength(data, bitlen);
      TransformData();
    }

    /** memset(ctx->data, 0, 56) */
    method Clear()
      requires data.Length == 64
      modifies data
      ensures data[..56] == Zeros(56)
    {
      forall i | 0 <= i < 56 {
        data[i] := 0;
      }
    }

    /** (x >> (24 - i * 8)) & 0xff */
    static method ShiftedByte(x: bv32, i: nat) returns (b: bv8)
      requires i < 4
      ensures b == WordByte(x, i)
    {
      b := ((x >> (24 - i * 8)) & 0xff) as bv8;
    }

    /** One turn of the output loop. */
    static method PutFive<T>(hash: array<T>, ghost aa: seq<T>, ghost bb: seq<T>, ghost cc: seq<T>, ghost dd: seq<T>, ghost ee: seq<T>,
                             i: nat, a: T, b: T, c: T, d: T, e: T)
      requires i < 4 && WordsOut(hash[..], aa, bb, cc, dd, ee, i)
      requires a == aa[i] && b == bb[i] && c == cc[i] && d == dd[i] && e == ee[i]
      modifies hash
      ensures WordsOut(hash[..], aa, bb, cc, dd, ee, i + 1)
    {
      hash[i] := a;
      hash[i + 4] := b;
      hash[i + 8] := c;
      hash[i + 12] := d;
      hash[i + 16] := e;
    }

    /** The output loop, over the byte positions of the five words. */
    static method Output(h: Hash) returns (hash: array<bv8>)
      ensures fresh(hash) && hash[..] == HashBytes(h)
    {
      hash := new bv8[20](_ => 0);
      var i := 0;
      while i < 4
        invariant 0 <= i <= 4
        invariant WordsOut(hash[..], WordBytes(h.a), WordBytes(h.b), WordBytes(h.c), WordBytes(h.d), WordBytes(h.e), i)
      {
        var a := ShiftedByte(h.a, i);
        var b := ShiftedByte(h.b, i);
        var c := ShiftedByte(h.c, i);
        var d := ShiftedByte(h.d, i);
        var e := ShiftedByte(h.e, i);
        PutFive(hash, WordBytes(h.a), WordBytes(h.b), WordBytes(h.c), WordBytes(h.d), WordBytes(h.e), i, a, b, c, d, e);
        i := i + 1;
      }
      AllOut(hash[..], WordBytes(h.a), WordBytes(h.b), WordBytes(h.c), WordBytes(h.d), WordBytes(h.e));
    }
  }

  /** The first n bytes of each word are in the output. */
  ghost predicate WordsOut<T>(hash: seq<T>, a: seq<T>, b: seq<T>, c: seq<T>, d: seq<T>, e: seq<T>, n: nat) {
    && |hash| == 20 && |a| == |b| == |c| == |d| == |e| == 4
    && forall j | 0 <= j < n && j < 4 ::
         hash[j] == a[j] && hash[j + 4] == b[j] && hash[j + 8] == c[j] && hash[j + 12] == d[j] && hash[j + 16] == e[j]
  }

  lemma {:induction false} AllOut<T>(hash: seq<T>, a: seq<T>, b: seq<T>, c: seq<T>, d: seq<T>, e: seq<T>)
    requires WordsOut(hash, a, b, c, d, e, 4)
    ensures hash == a + b + c + d + e
  {
  }

  lemma {:induction false} BlockBits(n: nat)
    ensures (8 * n % LENGTH_SPACE + 512) % LENGTH_SPACE == 8 * (n + 64) % LENGTH_SPACE
  {
    MoreBits(8 * n, 512);
  }

  lemma {:induction false} MoreBits(bits: nat, more: nat)
    ensures (bits % LENGTH_SPACE + more) % LENGTH_SPACE == (bits + more) % LENGTH_SPACE
  {
    var q := bits / LENGTH_SPACE;
    assert bits + more == bits % LENGTH_SPACE + more + q * LENGTH_SPACE;
  }

  /** The bits counted for the blocks and the bytes left over make up those of the message. */
  lemma {:induction false} MessageBits(message: seq<bv8>, blocks: seq<bv8>, rest: seq<bv8>, bitlen: nat)
    requires message == blocks + rest && |blocks| % 64 == 0 && |rest| < 64 && bitlen == 8 * |blocks| % LENGTH_SPACE
    ensures |message| % 64 == |rest| && (bitlen + |rest| * 8) % LENGTH_SPACE == 8 * |message| % LENGTH_SPACE
  {
    MoreBits(8 * |blocks|, 8 * |rest|);
  }

  lemma {:induction false} PadInOne(message: seq<bv8>, blocks: seq<bv8>, rest: seq<bv8>)
    requires message == blocks + rest && |message| % 64 == |rest| < 56
    ensures Pad(message) == blocks + ((rest + [0x80] + Zeros(55 - |rest|)) + LengthBytes(8 * |message| % LENGTH_SPACE))
  {
  }

  lemma {:induction false} PadInTwo(message: seq<bv8>, blocks: seq<bv8>, rest: seq<bv8>)
    requires message == blocks + rest && 56 <= |message| % 64 == |rest|
    ensures Pad(message)
         == (blocks + (rest + [0x80] + Zeros(63 - |rest|))) + (Zeros(56) + LengthBytes(8 * |message| % LENGTH_SPACE))
  {
  }

  /** Any message, split into updates in any way, has the digest of the standard. */
  method Sha1Of(parts: seq<seq<bv8>>) returns (digest: seq<bv8>)
    ensures digest == Digest(Flatten(parts))
  {
    var ctx := new Sha1Ctx();
    var i := 0;
    while i < |parts|
      invariant 0 <= i <= |parts| && ctx.Valid() && fresh(ctx) && fresh(ctx.data)
      invariant ctx.Message() == Flatten(parts[..i])
    {
      ctx.Update(parts[i]);
      FlattenSnoc(parts[..i], parts[i]);
      assert parts[..i + 1] == parts[..i] + [parts[i]];
      i := i + 1;
    }
    assert parts[..i] == parts;
    var hash := ctx.Final();
    digest := hash[..];
  }

  lemma {:induction false} RoundsStep(h: Hash, m: seq<bv32>, i: nat, u: Hash, v: Hash)
    requires i < |m| && u == Rounds(h, m, i) && v == Round(i, u, m[i])
    ensures v == Rounds(h, m, i + 1)
  {
  }

  /** A block's hash is the one before it plus what the rounds make of that. */
  lemma {:induction false} FeedForward(h: Hash, block: Block, m: seq<bv32>, v: Hash)
    requires m == Schedule(block, 80) && v == Rounds(h, m, 80)
    ensures Compress(h, block) == Add(h, v)
  {
  }
}
