/** Fixed-width integers of the 32-bit target, written as bounded mathematical integers, and optional values. */
module Words {
  datatype Option<T> = None | Some(value: T)

  const SPACE: int := 0x1_0000_0000

  type Byte = x: int | 0 <= x < 0x100
  type Word = x: int | 0 <= x < 0x1_0000_0000

  /** The word at each address of a memory. */
  type Reader = Word -> Word

  /** Unsigned 32-bit wrap-around, with the results next to the range spelled out. */
  function Wrap(x: int): (w: Word)
  {
    if 0 <= x < SPACE then x
    else if -SPACE <= x < 0 then x + SPACE
    else if SPACE <= x < 2 * SPACE then x - SPACE
    else x % SPACE
  }

  lemma {:induction false} WrapKeepsAlignment(x: int)
    requires x % 4 == 0
    ensures Wrap(x) % 4 == 0
  {
    assert x == SPACE * (x / SPACE) + x % SPACE;
  }

  /** The signed reading of a 32-bit value, as a cast to intptr_t gives it. */
  function Signed(w: Word): int {
    if w < 0x8000_0000 then w else w - SPACE
  }

  /** C's integer division: the quotient is truncated toward zero. */
  function TruncDiv(a: int, b: int): int
    requires b > 0
  {
    if a >= 0 then a / b else -((-a) / b)
  }

  /** ALIGN_MEM(x, 4) on a 32-bit size_t. */
  function AlignWord(x: int): (r: Word)
    ensures r % 4 == 0
  {
    var y := Wrap(x + 3);
    y - y % 4
  }

  /** ALIGN_MEM(x, a) on a 32-bit size_t, for a alignment that divides 2^32. */
  function AlignUp(x: int, a: int): (r: Word)
    requires a > 0
  {
    var y := Wrap(x + (a - 1));
    y - y % a
  }

  /** Bit i of a mask: the test mask & (1 << i). */
  predicate Bit(mask: nat, i: nat) {
    if i == 0 then mask % 2 == 1 else Bit(mask / 2, i - 1)
  }
}
