/** The bitwise operators on natural numbers, and what the masks of the source compute. */
module Bitwise {
  import opened Words

  function And(x: nat, y: nat): nat
    decreases x
  {
    if x == 0 then 0 else 2 * And(x / 2, y / 2) + if x % 2 == 1 && y % 2 == 1 then 1 else 0
  }

  function Or(x: nat, y: nat): nat
    decreases x + y
  {
    if x == 0 && y == 0 then 0 else 2 * Or(x / 2, y / 2) + if x % 2 == 1 || y % 2 == 1 then 1 else 0
  }

  function Pow2(n: nat): (p: nat)
    ensures p >= 1
  {
    if n == 0 then 1 else 2 * Pow2(n - 1)
  }

  lemma {:induction false} Pow2Grows(n: nat, m: nat)
    requires n <= m
    ensures Pow2(n) <= Pow2(m)
    decreases m
  {
    if n < m {
      Pow2Grows(n, m - 1);
    }
  }

  /** And and Or are what their names say, bit by bit. */
  lemma {:induction false} BitOfAnd(x: nat, y: nat, i: nat)
    ensures Bit(And(x, y), i) <==> Bit(x, i) && Bit(y, i)
    decreases i
  {
    if x == 0 {
      ZeroHasNoBits(i);
    } else {
      assert And(x, y) / 2 == And(x / 2, y / 2);
      if i > 0 {
        BitOfAnd(x / 2, y / 2, i - 1);
      }
    }
  }

  lemma {:induction false} BitOfOr(x: nat, y: nat, i: nat)
    ensures Bit(Or(x, y), i) <==> Bit(x, i) || Bit(y, i)
    decreases i
  {
    if x == 0 && y == 0 {
      ZeroHasNoBits(i);
    } else {
      assert Or(x, y) / 2 == Or(x / 2, y / 2);
      if i > 0 {
        BitOfOr(x / 2, y / 2, i - 1);
      }
    }
  }

  lemma {:induction false} ZeroHasNoBits(i: nat)
    ensures !Bit(0, i)
  {
    if i > 0 {
      ZeroHasNoBits(i - 1);
    }
  }

  lemma {:induction false} Remainder(x: nat, q: nat, m: nat, r: nat)
    requires r < m && x == q * m + r
    ensures x % m == r && x / m == q
  {
    var d := x / m - q;
    assert x == m * (x / m) + x % m;
    assert d * m == r - x % m;
    assert d >= 1 ==> d * m >= m;
    assert d <= -1 ==> d * m + m <= 0;
  }

  lemma {:induction false} HalfRemainder(x: nat, n: nat)
    ensures x % (2 * Pow2(n)) == 2 * (x / 2 % Pow2(n)) + x % 2
  {
    var p := Pow2(n);
    var q, r := x / 2 / p, x / 2 % p;
    assert x / 2 == q * p + r;
    assert x == q * (2 * p) + (2 * r + x % 2);
    Remainder(x, q, 2 * p, 2 * r + x % 2);
  }

  /** A mask of the n lowest bits takes the remainder. */
  lemma {:induction false} LowMask(x: nat, n: nat)
    ensures And(x, Pow2(n) - 1) == x % Pow2(n)
  {
    if n == 0 {
      AndZero(x);
    } else {
      var mask := Pow2(n) - 1;
      assert mask / 2 == Pow2(n - 1) - 1 && mask % 2 == 1;
      LowMask(x / 2, n - 1);
      HalfRemainder(x, n - 1);
      if x == 0 {
        Remainder(0, 0, Pow2(n), 0);
      } else {
        assert And(x, mask) == 2 * And(x / 2, mask / 2) + x % 2;
      }
    }
  }

  lemma {:induction false} AndZero(x: nat)
    ensures And(x, 0) == 0
  {
    if x != 0 {
      AndZero(x / 2);
    }
  }

  /** A mask of all but the n lowest of width bits clears them. */
  lemma {:induction false} HighMask(x: nat, n: nat, width: nat)
    requires n <= width && x < Pow2(width)
    ensures Pow2(n) <= Pow2(width) && And(x, Pow2(width) - Pow2(n)) == x - x % Pow2(n)
    decreases n
  {
    if n == 0 {
      LowMask(x, width);
      Remainder(x, 0, Pow2(width), x);
    } else {
      var mask := 2 * (Pow2(width - 1) - Pow2(n - 1));
      HighMask(x / 2, n - 1, width - 1);
      HalfRemainder(x, n - 1);
      if x == 0 {
        Remainder(0, 0, Pow2(n), 0);
      } else {
        assert mask / 2 == Pow2(width - 1) - Pow2(n - 1) && mask % 2 == 0;
        assert And(x, mask) == 2 * And(x / 2, mask / 2);
      }
    }
  }

  /** A mask of one bit tests it. */
  lemma {:induction false} OneBit(x: nat, i: nat)
    ensures And(x, Pow2(i)) == if Bit(x, i) then Pow2(i) else 0
    decreases i
  {
    if x == 0 {
      ZeroHasNoBits(i);
    } else if i == 0 {
      AndZero(x / 2);
    } else {
      OneBit(x / 2, i - 1);
    }
  }

  /** Joining low bits to a multiple of a power of two adds them. */
  lemma {:induction false} JoinIsSum(low: nat, high: nat, n: nat)
    requires low < Pow2(n)
    ensures Or(low, high * Pow2(n)) == low + high * Pow2(n)
    decreases n
  {
    if n == 0 {
      OrZero(high);
    } else {
      var p := Pow2(n - 1);
      assert high * Pow2(n) == 2 * (high * p);
      JoinIsSum(low / 2, high, n - 1);
    }
  }

  lemma {:induction false} OrCommutes(x: nat, y: nat)
    ensures Or(x, y) == Or(y, x)
    decreases x + y
  {
    if x != 0 || y != 0 {
      OrCommutes(x / 2, y / 2);
    }
  }

  lemma {:induction false} OrZero(y: nat)
    ensures Or(0, y) == y
  {
    if y != 0 {
      OrZero(y / 2);
    }
  }

  // The masks of the source

  lemma Powers()
    ensures Pow2(1) == 2 && Pow2(2) == 4 && Pow2(3) == 8 && Pow2(4) == 0x10 && Pow2(5) == 0x20 && Pow2(6) == 0x40
    ensures Pow2(7) == 0x80 && Pow2(8) == 0x100 && Pow2(10) == 0x400 && Pow2(11) == 0x800
    ensures Pow2(16) == 0x1_0000 && Pow2(20) == 0x10_0000 && Pow2(24) == 0x100_0000 && Pow2(31) == 0x8000_0000 && Pow2(32) == SPACE
  {
    assert Pow2(12) == 0x1000 && Pow2(21) == 0x20_0000 && Pow2(26) == 0x400_0000;
  }

  /** Surrogate masks on a 16-bit unit. */
  lemma {:induction false} UnitMasks(u: nat)
    requires u < 0x1_0000
    ensures And(u, 0xF800) == u - u % 0x800 && And(u, 0xFC00) == u - u % 0x400 && And(u, 0x3FF) == u % 0x400
  {
    Powers();
    HighMask(u, 11, 16);
    HighMask(u, 10, 16);
    LowMask(u, 10);
  }

  /** A mask of the high bits of a byte, and its complement. */
  lemma {:induction false} ByteMask(b: Byte, n: nat)
    requires n <= 8
    ensures Pow2(n) <= 0x100 && And(b, 0x100 - Pow2(n)) == b - b % Pow2(n) && And(b, Pow2(n) - 1) == b % Pow2(n)
  {
    Powers();
    HighMask(b, n, 8);
    LowMask(b, n);
  }

  /** The fields of an instruction that the scan and the trampoline look at. */
  lemma InstructionMasks(inst: Word)
    ensures And(inst, 0xFFF0_0000) == inst - inst % 0x10_0000
    ensures And(inst / 0x1_0000, 0xF) == inst / 0x1_0000 % 0x10
    ensures And(inst, 0xFFFF) == inst % 0x1_0000
  {
    Powers();
    HighMask(inst, 20, 32);
    LowMask(inst / 0x1_0000, 4);
    LowMask(inst, 16);
  }

  /** The complement masks of a word and a double-word alignment. */
  lemma {:induction false} WordMask(x: Word)
    ensures And(x, 0xFFFF_FFFC) == x - x % 4
  {
    Powers();
    HighMask(x, 2, 32);
  }

  lemma {:induction false} DoubleWordMask(x: Word)
    ensures And(x, 0xFFFF_FFF8) == x - x % 8
  {
    Powers();
    HighMask(x, 3, 32);
  }
}
