/** The example of appendix A.1 of FIPS 180-2: the digest of "abc". */
module Sha1Example {
  import opened Fips180

  /** The message schedule of its one block. */
  function ScheduleWord(t: int): bv32 {
    match t
    case 0 => 0x61626380 case 1 => 0x00000000 case 2 => 0x00000000 case 3 => 0x00000000 case 4 => 0x00000000
    case 5 => 0x00000000 case 6 => 0x00000000 case 7 => 0x00000000 case 8 => 0x00000000 case 9 => 0x00000000
    case 10 => 0x00000000 case 11 => 0x00000000 case 12 => 0x00000000 case 13 => 0x00000000 case 14 => 0x00000000
    case 15 => 0x00000018 case 16 => 0xc2c4c700 case 17 => 0x00000000 case 18 => 0x00000030 case 19 => 0x85898e01
    case 20 => 0x00000000 case 21 => 0x00000060 case 22 => 0x0b131c03 case 23 => 0x00000030 case 24 => 0x85898ec1
    case 25 => 0x16263806 case 26 => 0x00000000 case 27 => 0x00000180 case 28 => 0x2c4c700c case 29 => 0x000000f0
    case 30 => 0x93afb507 case 31 => 0x5898e048 case 32 => 0x8e9a9202 case 33 => 0x00000600 case 34 => 0xb131c0f0
    case 35 => 0x16263bc6 case 36 => 0x4ebed41e case 37 => 0x626380a1 case 38 => 0x16263806 case 39 => 0x000018c0
    case 40 => 0xd2e138c4 case 41 => 0x00000f00 case 42 => 0x3afb5079 case 43 => 0x898e04e5 case 44 => 0xe2ba3c2b
    case 45 => 0x000060c0 case 46 => 0x053a37cd case 47 => 0x74458547 case 48 => 0xda9415ed case 49 => 0x26380a16
    case 50 => 0x626383a1 case 51 => 0x4ebf54de case 52 => 0x3835b44b case 53 => 0x0000f600 case 54 => 0x1e84c7a3
    case 55 => 0x98e04d98 case 56 => 0x651d16a0 case 57 => 0x62658ca1 case 58 => 0x458544d6 case 59 => 0x44584cb7
    case 60 => 0x7ba06619 case 61 => 0x6380aea2 case 62 => 0x0ae55269 case 63 => 0x627b49a1 case 64 => 0x7cd45c9d
    case 65 => 0x000f0000 case 66 => 0xfb50753a case 67 => 0xec6765e8 case 68 => 0xba3c2be2 case 69 => 0x0060c000
    case 70 => 0x3a37cd05 case 71 => 0x458546f4 case 72 => 0xb8599dd6 case 73 => 0x380a1a26 case 74 => 0x01e02203
    case 75 => 0xe7cc3456 case 76 => 0xe6e60b69 case 77 => 0x00f60a00 case 78 => 0x5795ef4f
    case _ => 0x822e0879
  }

  /** The working variable a after t rounds, and four values before the first, with which b to e begin. */
  function Variable(t: int): bv32 {
    match t
    case -4 => 0x0f4b87c3 case -3 => 0x40c951d8 case -2 => 0x62eb73fa case -1 => 0xefcdab89 case 0 => 0x67452301
    case 1 => 0x0116fc33 case 2 => 0x8990536d case 3 => 0xa1390f08 case 4 => 0xcdd8e11b case 5 => 0xcfd499de
    case 6 => 0x3fc7ca40 case 7 => 0x993e30c1 case 8 => 0x9e8c07d4 case 9 => 0x4b6ae328 case 10 => 0x8351f929
    case 11 => 0xfbda9e89 case 12 => 0x63188fe4 case 13 => 0x4607b664 case 14 => 0x9128f695 case 15 => 0x196bee77
    case 16 => 0x20bdd62f case 17 => 0x4e925823 case 18 => 0x82aa6728 case 19 => 0xdc64901d case 20 => 0xfd9e1d7d
    case 21 => 0x1a37b0ca case 22 => 0x33a23bfc case 23 => 0x21283486 case 24 => 0xd541f12d case 25 => 0xc7567dc6
    case 26 => 0x48413ba4 case 27 => 0xbe35fbd5 case 28 => 0x4aa84d97 case 29 => 0x8370b52e case 30 => 0xc5fbaf5d
    case 31 => 0x1267b407 case 32 => 0x3b845d33 case 33 => 0x046faa0a case 34 => 0x2c0ebc11 case 35 => 0x21796ad4
    case 36 => 0xdcbbb0cb case 37 => 0x0f511fd8 case 38 => 0xdc63973f case 39 => 0x4c986405 case 40 => 0x32de1cba
    case 41 => 0xfc87dedf case 42 => 0x970a0d5c case 43 => 0x7f193dc5 case 44 => 0xee1b1aaf case 45 => 0x40f28e09
    case 46 => 0x1c51e1f2 case 47 => 0xa01b846c case 48 => 0xbead02ca case 49 => 0xbaf39337 case 50 => 0x120731c5
    case 51 => 0x641db2ce case 52 => 0x3847ad66 case 53 => 0xe490436d case 54 => 0x27e9f1d8 case 55 => 0x7b71f76d
    case 56 => 0x5e6456af case 57 => 0xc846093f case 58 => 0xd262ff50 case 59 => 0x09d785fd case 60 => 0x3f52de5a
    case 61 => 0xd756c147 case 62 => 0x548c9cb2 case 63 => 0xb66c020b case 64 => 0x6b61c9e1 case 65 => 0x19dfa7ac
    case 66 => 0x101655f9 case 67 => 0x0c3df2b4 case 68 => 0x78dd4d2b case 69 => 0x497093c0 case 70 => 0x3f2588c2
    case 71 => 0xc199f8c7 case 72 => 0x39859de7 case 73 => 0xedb42de4 case 74 => 0x11793f6f case 75 => 0x5ee76897
    case 76 => 0x63f7dab7 case 77 => 0xa079b7d9 case 78 => 0x860d21cc case 79 => 0x5738d5e1
    case _ => 0x42541b35
  }

  /** The working variables after t rounds. */
  function StateAt(t: nat): Hash {
    Hash(Variable(t), Variable(t - 1), Rotl30(Variable(t - 2)), Rotl30(Variable(t - 3)), Rotl30(Variable(t - 4)))
  }

  function Combined(f: int -> bv32, t: int): bv32 {
    Rotl1(f(t - 3) ^ f(t - 8) ^ f(t - 14) ^ f(t - 16))
  }

  lemma {:induction false} RoundsFrom0(t: nat)
    requires 0 <= t < 20
    ensures Round(t, StateAt(t), ScheduleWord(t)) == StateAt(t + 1)
  {
    match t {
      case 0 => case 1 => case 2 => case 3 => case 4 => case 5 => case 6 => case 7 => case 8 => case 9 =>
      case 10 => case 11 => case 12 => case 13 => case 14 => case 15 => case 16 => case 17 => case 18 =>
      case _ =>
    }
  }

  lemma {:induction false} RoundsFrom20(t: nat)
    requires 20 <= t < 40
    ensures Round(t, StateAt(t), ScheduleWord(t)) == StateAt(t + 1)
  {
    match t {
      case 20 => case 21 => case 22 => case 23 => case 24 => case 25 => case 26 => case 27 => case 28 => case 29 =>
      case 30 => case 31 => case 32 => case 33 => case 34 => case 35 => case 36 => case 37 => case 38 =>
      case _ =>
    }
  }

  lemma {:induction false} RoundsFrom40(t: nat)
    requires 40 <= t < 60
    ensures Round(t, StateAt(t), ScheduleWord(t)) == StateAt(t + 1)
  {
    match t {
      case 40 => case 41 => case 42 => case 43 => case 44 => case 45 => case 46 => case 47 => case 48 => case 49 =>
      case 50 => case 51 => case 52 => case 53 => case 54 => case 55 => case 56 => case 57 => case 58 =>
      case _ =>
    }
  }

  lemma {:induction false} RoundsFrom60(t: nat)
    requires 60 <= t < 80
    ensures Round(t, StateAt(t), ScheduleWord(t)) == StateAt(t + 1)
  {
    match t {
      case 60 => case 61 => case 62 => case 63 => case 64 => case 65 => case 66 => case 67 => case 68 => case 69 =>
      case 70 => case 71 => case 72 => case 73 => case 74 => case 75 => case 76 => case 77 => case 78 =>
      case _ =>
    }
  }

  lemma {:induction false} WordsFrom16(t: nat)
    requires 16 <= t < 48
    ensures ScheduleWord(t) == Rotl1(ScheduleWord(t - 3) ^ ScheduleWord(t - 8) ^ ScheduleWord(t - 14) ^ ScheduleWord(t - 16))
  {
    match t {
      case 16 => case 17 => case 18 => case 19 => case 20 => case 21 => case 22 => case 23 => case 24 => case 25 =>
      case 26 => case 27 => case 28 => case 29 => case 30 => case 31 => case 32 => case 33 => case 34 => case 35 =>
      case 36 => case 37 => case 38 => case 39 => case 40 => case 41 => case 42 => case 43 => case 44 => case 45 =>
      case 46 =>
      case _ =>
    }
  }

  lemma {:induction false} WordsFrom48(t: nat)
    requires 48 <= t < 80
    ensures ScheduleWord(t) == Rotl1(ScheduleWord(t - 3) ^ ScheduleWord(t - 8) ^ ScheduleWord(t - 14) ^ ScheduleWord(t - 16))
  {
    match t {
      case 48 => case 49 => case 50 => case 51 => case 52 => case 53 => case 54 => case 55 => case 56 => case 57 =>
      case 58 => case 59 => case 60 => case 61 => case 62 => case 63 => case 64 => case 65 => case 66 => case 67 =>
      case 68 => case 69 => case 70 => case 71 => case 72 => case 73 => case 74 => case 75 => case 76 => case 77 =>
      case 78 =>
      case _ =>
    }
  }

  /** A list that begins as the block and goes on as the standard demands is its schedule. */
  lemma {:induction false} ScheduleIs(block: Block, f: int -> bv32, n: nat)
    requires n <= 80
    requires forall t | 0 <= t < 80 :: f(t) == if t < 16 then BlockWord(block, t) else Combined(f, t)
    ensures forall t | 0 <= t < n :: Schedule(block, n)[t] == f(t)
  {
    if n > 0 {
      ScheduleIs(block, f, n - 1);
      NextScheduled(block, f, n - 1);
    }
  }

  lemma {:induction false} NextScheduled(block: Block, f: int -> bv32, n: nat)
    requires n < 80 && forall t | 0 <= t < n :: Schedule(block, n)[t] == f(t)
    ensures Schedule(block, n + 1) == Schedule(block, n) + [if n < 16 then BlockWord(block, n) else Combined(f, n)]
  {
  }

  /** States that follow each other by rounds are those of the computation. */
  lemma {:induction false} RoundsAre(w: seq<bv32>, f: int -> bv32, g: nat -> Hash, n: nat)
    requires n <= |w| == 80
    requires forall t | 0 <= t < 80 :: w[t] == f(t) && Round(t, g(t), f(t)) == g(t + 1)
    ensures Rounds(g(0), w, n) == g(n)
  {
    if n > 0 {
      RoundsAre(w, f, g, n - 1);
    }
  }

  /** The block: the three letters, a one bit, and the length of 24 bits. */
  ghost predicate IsPadded(block: Block) {
    && block[0] == 0x61 && block[1] == 0x62 && block[2] == 0x63 && block[3] == 0x80 && block[63] == 0x18
    && forall i | 4 <= i < 63 :: block[i] == 0
  }

  lemma {:induction false} BlockWordIs(block: Block, t: nat)
    requires IsPadded(block) && t < 16
    ensures BlockWord(block, t) == if t == 0 then 0x61626380 else if t == 15 then 0x18 else 0
  {
    if t == 15 {
      assert block[60] == 0 && block[61] == 0 && block[62] == 0;
    } else if t > 0 {
      assert block[4 * t] == 0 && block[4 * t + 1] == 0 && block[4 * t + 2] == 0 && block[4 * t + 3] == 0;
    }
  }

  lemma {:induction false} WordIs(block: Block, t: nat)
    requires IsPadded(block) && t < 80
    ensures ScheduleWord(t) == if t < 16 then BlockWord(block, t) else Combined(ScheduleWord, t)
  {
    if t < 16 {
      BlockWordIs(block, t);
    } else if t < 48 {
      WordsFrom16(t);
    } else {
      WordsFrom48(t);
    }
  }

  lemma {:induction false} RoundIs(t: nat)
    requires t < 80
    ensures Round(t, StateAt(t), ScheduleWord(t)) == StateAt(t + 1)
  {
    if t < 20 {
      RoundsFrom0(t);
    } else if t < 40 {
      RoundsFrom20(t);
    } else if t < 60 {
      RoundsFrom40(t);
    } else {
      RoundsFrom60(t);
    }
  }

  lemma {:induction false} FirstAndLast()
    ensures Initial() == StateAt(0)
    ensures Add(Initial(), StateAt(80)) == Hash(0xa9993e36, 0x4706816a, 0xba3e2571, 0x7850c26c, 0x9cd0d89d)
  {
  }

  lemma {:induction false} CompressedIs(block: Block, f: int -> bv32, g: nat -> Hash)
    requires IsPadded(block) && f == ScheduleWord && g == StateAt
    ensures Compress(g(0), block) == Add(g(0), g(80))
  {
    var w := Schedule(block, 80);
    forall t | 0 <= t < 80 ensures f(t) == if t < 16 then BlockWord(block, t) else Combined(f, t) {
      WordIs(block, t);
    }
    forall t | 0 <= t < 80 ensures Round(t, g(t), f(t)) == g(t + 1) {
      RoundIs(t);
    }
    ScheduleIs(block, f, 80);
    RoundsAre(w, f, g, 80);
  }

  lemma {:induction false} PaddedIs(message: seq<bv8>)
    requires message == [0x61, 0x62, 0x63]
    ensures |Pad(message)| == 64 && IsPadded(Pad(message))
  {
    EightBytesAre(24, LowByte);
    PaddedBytes(message, LengthBytes(24));
  }

  lemma {:induction false} PaddedBytes(message: seq<bv8>, length: seq<bv8>)
    requires message == [0x61, 0x62, 0x63] && length == [0, 0, 0, 0, 0, 0, 0, 0x18]
    ensures |message + [0x80] + Zeros(52) + length| == 64 && IsPadded(message + [0x80] + Zeros(52) + length)
  {
  }

  /** The digest of "abc". */
  lemma {:induction false} DigestOfAbc(message: seq<bv8>)
    requires message == [0x61, 0x62, 0x63]
    ensures Digest(message) == [
      0xa9, 0x99, 0x3e, 0x36, 0x47, 0x06, 0x81, 0x6a, 0xba, 0x3e, 0x25, 0x71, 0x78, 0x50, 0xc2, 0x6c, 0x9c, 0xd0, 0xd8, 0x9d]
  {
    var block := Pad(message);
    PaddedIs(message);
    FirstAndLast();
    CompressedIs(block, ScheduleWord, StateAt);
    assert block == [] + block;
    HashOneMore([], block);
    BytesAre(Hash(0xa9993e36, 0x4706816a, 0xba3e2571, 0x7850c26c, 0x9cd0d89d));
  }

  lemma {:induction false} BytesAre(h: Hash)
    requires h == Hash(0xa9993e36, 0x4706816a, 0xba3e2571, 0x7850c26c, 0x9cd0d89d)
    ensures HashBytes(h) == [
      0xa9, 0x99, 0x3e, 0x36, 0x47, 0x06, 0x81, 0x6a, 0xba, 0x3e, 0x25, 0x71, 0x78, 0x50, 0xc2, 0x6c, 0x9c, 0xd0, 0xd8, 0x9d]
  {
    assert WordBytes(h.a) == [0xa9, 0x99, 0x3e, 0x36] && WordBytes(h.b) == [0x47, 0x06, 0x81, 0x6a];
    assert WordBytes(h.c) == [0xba, 0x3e, 0x25, 0x71] && WordBytes(h.d) == [0x78, 0x50, 0xc2, 0x6c];
    assert WordBytes(h.e) == [0x9c, 0xd0, 0xd8, 0x9d];
  }
}
