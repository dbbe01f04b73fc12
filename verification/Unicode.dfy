/**
 UTF-8 (RFC 3629) and UTF-16 (RFC 2781) as the converter implements them: every
 malformed unit sequence decodes to U+FFFD, and what the two conversions preserve.
 Bits are written as arithmetic here, and as masks in module Converter, which
 proves that they agree.
 */
module Unicode {
  import opened Words

  type Unit = x: int | 0 <= x < 0x1_0000

  /** A Unicode scalar value: surrogates and values past U+10FFFF have no encoding. */
  type Scalar = c: int | 0 <= c <= 0x10FFFF && !(0xD800 <= c <= 0xDFFF)

  const REPLACEMENT: Scalar := 0xFFFD

  // Encoding, section 3 of RFC 3629 and section 2.1 of RFC 2781

  function Encode8(c: Scalar): (r: seq<Byte>)
    ensures 1 <= |r| <= 4
  {
    if c <= 0x7F then [c]
    else if c <= 0x7FF then [0xC0 + c / 0x40, Tail(c)]
    else if c <= 0xFFFF then [0xE0 + c / 0x1000, Tail(c / 0x40), Tail(c)]
    else [0xF0 + c / 0x4_0000, Tail(c / 0x1000), Tail(c / 0x40), Tail(c)]
  }

  /** A continuation byte with the low six bits of x. */
  function Tail(x: int): Byte {
    0x80 + x % 0x40
  }

  function Encode16(c: Scalar): (r: seq<Unit>)
    ensures 1 <= |r| <= 2
  {
    if c <= 0xFFFF then [c]
    else [0xD800 + (c - 0x1_0000) / 0x400, 0xDC00 + (c - 0x1_0000) % 0x400]
  }

  function EncodeAll<T>(encode: Scalar -> seq<T>, cs: seq<Scalar>): seq<T> {
    if cs == [] then [] else encode(cs[0]) + EncodeAll(encode, cs[1..])
  }

  // Decoding UTF-16, section 2.2 of RFC 2781

  predicate High(u: int) { 0xD800 <= u <= 0xDBFF }
  predicate Low(u: int) { 0xDC00 <= u <= 0xDFFF }

  function Pair(high: Unit, low: Unit): Scalar
    requires High(high) && Low(low)
  {
    0x1_0000 + 0x400 * (high % 0x400) + low % 0x400
  }

  /** The code point at the start of s and the number of units it takes. */
  function First16(s: seq<Unit>): (r: (Scalar, nat))
    requires s != []
    ensures 1 <= r.1 <= |s|
  {
    if High(s[0]) && |s| > 1 && Low(s[1]) then (Pair(s[0], s[1]), 2)
    else if High(s[0]) || Low(s[0]) then (REPLACEMENT, 1)
    else (s[0], 1)
  }

  function Decode16(s: seq<Unit>): seq<Scalar> {
    if s == [] then [] else [First16(s).0] + Decode16(s[First16(s).1..])
  }

  // Decoding UTF-8 with recovery

  /** The length announced by a leading byte; 0 for a byte that leads nothing. */
  function LeadLength(b: Byte): nat {
    if b <= 0x7F then 1
    else if b <= 0xBF then 0
    else if b <= 0xDF then 2
    else if b <= 0xEF then 3
    else if b <= 0xF7 then 4
    else 0
  }

  predicate IsTail(b: int) { 0x80 <= b <= 0xBF }

  /** How many of the first n bytes are continuation bytes, up to the first that is not. */
  function Tails(s: seq<Byte>, n: nat): (k: nat)
    ensures k <= n && k <= |s|
  {
    if n == 0 || s == [] || !IsTail(s[0]) then 0 else 1 + Tails(s[1..], n - 1)
  }

  /** The bits that n bytes spell, without any check. */
  function Bits(s: seq<Byte>, n: nat): nat
    requires 1 <= n <= 4 && n <= |s|
  {
    if n == 1 then s[0]
    else if n == 2 then Bits2(s[0], s[1])
    else if n == 3 then Bits3(s[0], s[1], s[2])
    else Bits4(s[0], s[1], s[2], s[3])
  }

  function Bits2(a: Byte, b: Byte): nat {
    a % 0x20 * 0x40 + b % 0x40
  }

  function Bits3(a: Byte, b: Byte, c: Byte): nat {
    a % 0x10 * 0x1000 + b % 0x40 * 0x40 + c % 0x40
  }

  function Bits4(a: Byte, b: Byte, c: Byte, d: Byte): nat {
    a % 0x08 * 0x4_0000 + b % 0x40 * 0x1000 + c % 0x40 * 0x40 + d % 0x40
  }

  /** Reject overlong forms, surrogates, and values past U+10FFFF. */
  function Checked(c: nat, n: nat): Scalar {
    if c <= 0x10FFFF && !(0xD800 <= c <= 0xDFFF) && |Encode8(c)| == n then c else REPLACEMENT
  }

  /** The code point at the start of s and the number of bytes it takes; a cut or broken form takes what matched. */
  function First8(s: seq<Byte>): (r: (Scalar, nat))
    requires s != []
    ensures 1 <= r.1 <= |s|
  {
    var n := LeadLength(s[0]);
    if n == 0 then (REPLACEMENT, 1)
    else if Tails(s[1..], n - 1) < n - 1 then (REPLACEMENT, 1 + Tails(s[1..], n - 1))
    else (Checked(Bits(s, n), n), n)
  }

  function Decode8(s: seq<Byte>): seq<Scalar> {
    if s == [] then [] else [First8(s).0] + Decode8(s[First8(s).1..])
  }

  // Well-formed UTF-8: the grammar of section 4 of RFC 3629

  /** The length of the UTF8-char at the start of s, 0 if there is none. */
  function CharLength(s: seq<Byte>): (n: nat)
    ensures n <= |s| && n <= 4
  {
    if |s| >= 1 && s[0] <= 0x7F then 1
    else if |s| >= 2 && 0xC2 <= s[0] <= 0xDF && IsTail(s[1]) then 2
    else if |s| >= 3 && Utf8Three(s[0], s[1], s[2]) then 3
    else if |s| >= 4 && Utf8Four(s[0], s[1], s[2], s[3]) then 4
    else 0
  }

  predicate Utf8Three(a: int, b: int, c: int) {
    && IsTail(b) && IsTail(c)
    && (|| (a == 0xE0 && 0xA0 <= b) || 0xE1 <= a <= 0xEC || (a == 0xED && b <= 0x9F) || 0xEE <= a <= 0xEF)
  }

  predicate Utf8Four(a: int, b: int, c: int, d: int) {
    && IsTail(b) && IsTail(c) && IsTail(d)
    && (|| (a == 0xF0 && 0x90 <= b) || 0xF1 <= a <= 0xF3 || (a == 0xF4 && b <= 0x8F))
  }

  predicate WellFormed8(s: seq<Byte>) {
    s == [] || (CharLength(s) > 0 && WellFormed8(s[CharLength(s)..]))
  }

  // One character at a time

  /** A complete two, three or four byte form is read whole. */
  lemma FirstTwo(s: seq<Byte>)
    requires |s| >= 2 && 0xC2 <= s[0] <= 0xDF && IsTail(s[1])
    ensures First8(s) == (Checked(Bits2(s[0], s[1]), 2), 2) && CharLength(s) == 2
  {
  }

  lemma FirstThree(s: seq<Byte>)
    requires |s| >= 3 && Utf8Three(s[0], s[1], s[2])
    ensures First8(s) == (Checked(Bits3(s[0], s[1], s[2]), 3), 3) && CharLength(s) == 3
  {
    assert Tails(s[1..][1..], 1) == 1 + Tails(s[1..][1..][1..], 0);
  }

  lemma FirstFour(s: seq<Byte>)
    requires |s| >= 4 && Utf8Four(s[0], s[1], s[2], s[3])
    ensures First8(s) == (Checked(Bits4(s[0], s[1], s[2], s[3]), 4), 4) && CharLength(s) == 4
  {
    assert Tails(s[1..][1..][1..], 1) == 1 + Tails(s[1..][1..][1..][1..], 0);
    assert Tails(s[1..][1..], 2) == 1 + Tails(s[1..][1..][1..], 1);
  }

  lemma ReadTwo(c: Scalar)
    requires 0x7F < c <= 0x7FF
    ensures var a := 0xC0 + c / 0x40; 0xC2 <= a <= 0xDF && Bits2(a, Tail(c)) == c
  {
  }

  lemma {:induction false} ReadThree(c: Scalar)
    requires 0x7FF < c <= 0xFFFF
    ensures var a := 0xE0 + c / 0x1000;
      Utf8Three(a, Tail(c / 0x40), Tail(c)) && Bits3(a, Tail(c / 0x40), Tail(c)) == c
  {
    assert c / 0x1000 == c / 0x40 / 0x40;
  }

  /** The first two bytes of a four byte form stay within the grammar. */
  lemma {:induction false} FourRange(high: nat, next: nat)
    requires 0x10 <= next <= 0x10F && high == next / 0x40
    ensures 0xF0 <= 0xF0 + high <= 0xF4
    ensures high == 0 ==> 0x90 <= Tail(next)
    ensures high == 4 ==> Tail(next) <= 0x8F
  {
  }

  lemma {:induction false} ReadFour(c: Scalar)
    requires 0xFFFF < c
    ensures var a := 0xF0 + c / 0x4_0000;
      && Utf8Four(a, Tail(c / 0x1000), Tail(c / 0x40), Tail(c))
      && Bits4(a, Tail(c / 0x1000), Tail(c / 0x40), Tail(c)) == c
  {
    FourRange(c / 0x4_0000, c / 0x1000);
    assert c / 0x1000 == c / 0x40 / 0x40 && c / 0x4_0000 == c / 0x1000 / 0x40;
  }

  /** What Encode8 writes, First8 reads back, and the grammar accepts. */
  lemma {:induction false} EncodedCharReadsBack(c: Scalar, rest: seq<Byte>)
    ensures First8(Encode8(c) + rest) == (c, |Encode8(c)|)
    ensures CharLength(Encode8(c) + rest) == |Encode8(c)|
  {
    var s := Encode8(c) + rest;
    if c <= 0x7F {
    } else if c <= 0x7FF {
      assert s[0] == 0xC0 + c / 0x40 && s[1] == Tail(c);
      ReadTwo(c);
      FirstTwo(s);
    } else if c <= 0xFFFF {
      assert s[0] == 0xE0 + c / 0x1000 && s[1] == Tail(c / 0x40) && s[2] == Tail(c);
      ReadThree(c);
      FirstThree(s);
    } else {
      assert s[0] == 0xF0 + c / 0x4_0000 && s[1] == Tail(c / 0x1000) && s[2] == Tail(c / 0x40) && s[3] == Tail(c);
      ReadFour(c);
      FirstFour(s);
    }
  }

  /** Quotients of a number by its base-64 digits. */
  lemma {:induction false} Digits(h: nat, x: nat, y: nat, z: nat)
    requires x < 0x40 && y < 0x40 && z < 0x40
    ensures var c := h * 0x4_0000 + x * 0x1000 + y * 0x40 + z;
      && c / 0x4_0000 == h && c / 0x1000 == h * 0x40 + x && c / 0x40 == h * 0x1000 + x * 0x40 + y
      && c / 0x1000 % 0x40 == x && c / 0x40 % 0x40 == y && c % 0x40 == z
  {
  }

  lemma {:induction false} WriteTwo(a: Byte, b: Byte)
    requires 0xC2 <= a <= 0xDF && IsTail(b)
    ensures Encode8(Checked(Bits2(a, b), 2)) == [a, b]
  {
    Digits(0, 0, a % 0x20, b % 0x40);
    TwoDigits(Bits2(a, b), a, b);
  }

  lemma {:induction false} TwoDigits(c: nat, a: Byte, b: Byte)
    requires 0x7F < c <= 0x7FF && a == 0xC0 + c / 0x40 && b == Tail(c)
    ensures Encode8(Checked(c, 2)) == [a, b]
  {
  }

  lemma {:induction false} WriteThree(a: Byte, b: Byte, d: Byte)
    requires Utf8Three(a, b, d)
    ensures Encode8(Checked(Bits3(a, b, d), 3)) == [a, b, d]
  {
    Digits(0, a % 0x10, b % 0x40, d % 0x40);
    ThreeDigits(Bits3(a, b, d), a, b, d);
  }

  lemma {:induction false} ThreeDigits(c: nat, a: Byte, b: Byte, d: Byte)
    requires 0x7FF < c <= 0xFFFF && !(0xD800 <= c <= 0xDFFF)
    requires a == 0xE0 + c / 0x1000 && b == Tail(c / 0x40) && d == Tail(c)
    ensures Encode8(Checked(c, 3)) == [a, b, d]
  {
  }

  lemma {:induction false} WriteFour(a: Byte, b: Byte, d: Byte, e: Byte)
    requires Utf8Four(a, b, d, e)
    ensures Encode8(Checked(Bits4(a, b, d, e), 4)) == [a, b, d, e]
  {
    Digits(a % 0x08, b % 0x40, d % 0x40, e % 0x40);
    FourDigits(Bits4(a, b, d, e), a, b, d, e);
  }

  lemma {:induction false} FourDigits(c: nat, a: Byte, b: Byte, d: Byte, e: Byte)
    requires 0xFFFF < c <= 0x10FFFF
    requires a == 0xF0 + c / 0x4_0000 && b == Tail(c / 0x1000) && d == Tail(c / 0x40) && e == Tail(c)
    ensures Encode8(Checked(c, 4)) == [a, b, d, e]
  {
  }

  lemma {:induction false} ThreeBytesDecode(s: seq<Byte>)
    requires |s| >= 3 && Utf8Three(s[0], s[1], s[2])
    ensures First8(s).1 == 3 && Encode8(First8(s).0) == s[..3]
  {
    FirstThree(s);
    WriteThree(s[0], s[1], s[2]);
    assert s[..3] == [s[0], s[1], s[2]];
  }

  lemma {:induction false} FourBytesDecode(s: seq<Byte>)
    requires |s| >= 4 && Utf8Four(s[0], s[1], s[2], s[3])
    ensures First8(s).1 == 4 && Encode8(First8(s).0) == s[..4]
  {
    FirstFour(s);
    WriteFour(s[0], s[1], s[2], s[3]);
    assert s[..4] == [s[0], s[1], s[2], s[3]];
  }

  lemma {:induction false} TwoBytesDecode(s: seq<Byte>)
    requires |s| >= 2 && 0xC2 <= s[0] <= 0xDF && IsTail(s[1])
    ensures First8(s).1 == 2 && Encode8(First8(s).0) == s[..2]
  {
    FirstTwo(s);
    WriteTwo(s[0], s[1]);
    assert s[..2] == [s[0], s[1]];
  }

  /** A grammatical character is decoded to the value that encodes to it. */
  lemma {:induction false} CharDecodes(s: seq<Byte>)
    requires CharLength(s) > 0
    ensures First8(s).1 == CharLength(s)
    ensures Encode8(First8(s).0) == s[..CharLength(s)]
  {
    if s[0] <= 0x7F {
      assert s[..1] == [s[0]];
    } else if |s| >= 2 && 0xC2 <= s[0] <= 0xDF && IsTail(s[1]) {
      TwoBytesDecode(s);
    } else if |s| >= 3 && Utf8Three(s[0], s[1], s[2]) {
      ThreeBytesDecode(s);
    } else {
      FourBytesDecode(s);
    }
  }

  lemma {:induction false} EncodedUnitsReadBack(c: Scalar, rest: seq<Unit>)
    ensures First16(Encode16(c) + rest) == (c, |Encode16(c)|)
  {
  }

  // Whole texts

  /** Decoding undoes encoding, on every sequence of scalar values. */
  lemma {:induction false} Decode16UndoesEncode(cs: seq<Scalar>)
    ensures Decode16(EncodeAll(Encode16, cs)) == cs
  {
    if cs != [] {
      EncodedUnitsReadBack(cs[0], EncodeAll(Encode16, cs[1..]));
      assert EncodeAll(Encode16, cs)[|Encode16(cs[0])|..] == EncodeAll(Encode16, cs[1..]);
      Decode16UndoesEncode(cs[1..]);
    }
  }

  lemma {:induction false} Decode8UndoesEncode(cs: seq<Scalar>)
    ensures Decode8(EncodeAll(Encode8, cs)) == cs
    ensures WellFormed8(EncodeAll(Encode8, cs))
  {
    if cs != [] {
      EncodedCharReadsBack(cs[0], EncodeAll(Encode8, cs[1..]));
      assert EncodeAll(Encode8, cs)[|Encode8(cs[0])|..] == EncodeAll(Encode8, cs[1..]);
      Decode8UndoesEncode(cs[1..]);
    }
  }

  lemma EncodeAllCons<T>(encode: Scalar -> seq<T>, c: Scalar, cs: seq<Scalar>)
    ensures EncodeAll(encode, [c] + cs) == encode(c) + EncodeAll(encode, cs)
  {
  }

  /** Encoding undoes decoding on grammatical UTF-8. */
  lemma {:induction false} Encode8UndoesDecode(s: seq<Byte>)
    requires WellFormed8(s)
    ensures EncodeAll(Encode8, Decode8(s)) == s
  {
    if s != [] {
      CharDecodes(s);
      Encode8UndoesDecode(s[CharLength(s)..]);
      EncodeAllCons(Encode8, First8(s).0, Decode8(s[CharLength(s)..]));
      assert s == s[..CharLength(s)] + s[CharLength(s)..];
    }
  }

  /** utf8_to_utf16 and utf16_to_utf8 with enough room. */
  function To16(s: seq<Byte>): seq<Unit> { EncodeAll(Encode16, Decode8(s)) }
  function To8(u: seq<Unit>): seq<Byte> { EncodeAll(Encode8, Decode16(u)) }

  /** UTF-8 survives the round trip exactly when it is well-formed; otherwise it is repaired once and for all. */
  lemma RoundTrip8(s: seq<Byte>)
    ensures To8(To16(s)) == s <==> WellFormed8(s)
    ensures WellFormed8(To8(To16(s)))
    ensures To8(To16(To8(To16(s)))) == To8(To16(s))
  {
    var cs := Decode8(s);
    Decode16UndoesEncode(cs);
    Decode8UndoesEncode(cs);
    if WellFormed8(s) {
      Encode8UndoesDecode(s);
    }
  }

  /** The unit at i is a surrogate without its other half next to it. */
  predicate Unpaired(u: seq<Unit>, i: nat)
    requires i < |u|
  {
    if High(u[i]) then !(i + 1 < |u| && Low(u[i + 1]))
    else Low(u[i]) && !(i > 0 && High(u[i - 1]))
  }

  /** Replace every unpaired surrogate by U+FFFD, unit by unit. */
  function Repair16(u: seq<Unit>): seq<Unit> {
    seq(|u|, i requires 0 <= i < |u| => if Unpaired(u, i) then 0xFFFD else u[i])
  }

  lemma {:induction false} Encode16RepairsDecode(u: seq<Unit>)
    ensures EncodeAll(Encode16, Decode16(u)) == Repair16(u)
  {
    if u != [] {
      var (c, n) := First16(u);
      Encode16RepairsDecode(u[n..]);
      FirstIsRepaired(u);
      RepairSplits(u, n);
    }
  }

  lemma {:induction false} FirstIsRepaired(u: seq<Unit>)
    requires u != []
    ensures Encode16(First16(u).0) == Repair16(u)[..First16(u).1]
  {
    var fixed := Repair16(u);
    if High(u[0]) && |u| > 1 && Low(u[1]) {
      assert fixed[..2] == [u[0], u[1]];
      PairEncodes(u[0], u[1]);
    } else {
      assert fixed[..1] == [fixed[0]];
    }
  }

  lemma {:induction false} PairEncodes(high: Unit, low: Unit)
    requires High(high) && Low(low)
    ensures Encode16(Pair(high, low)) == [high, low]
  {
    var x := 0x400 * (high % 0x400) + low % 0x400;
    assert x / 0x400 == high - 0xD800 && x % 0x400 == low - 0xDC00;
  }

  lemma {:induction false} RepairSplits(u: seq<Unit>, n: nat)
    requires u != [] && n == First16(u).1
    ensures Repair16(u)[n..] == Repair16(u[n..])
  {
  }

  /** UTF-16 comes back with its unpaired surrogates replaced, and with nothing else changed. */
  lemma RoundTrip16(u: seq<Unit>)
    ensures To16(To8(u)) == Repair16(u)
    ensures To16(To8(u)) == u <==> forall i | 0 <= i < |u| :: !Unpaired(u, i)
  {
    Decode8UndoesEncode(Decode16(u));
    Encode16RepairsDecode(u);
    if Repair16(u) == u {
      forall i | 0 <= i < |u| ensures !Unpaired(u, i) {
        assert Repair16(u)[i] == u[i];
        assert High(u[i]) || Low(u[i]) ==> u[i] != 0xFFFD;
      }
    }
  }

  // Sizes

  /** UTF-8 never needs more UTF-16 units than it has bytes. */
  lemma {:induction false} To16IsNotLonger(s: seq<Byte>)
    ensures |To16(s)| <= |s|
  {
    if s != [] {
      var (c, n) := First8(s);
      To16IsNotLonger(s[n..]);
      UnitsWithinBytes(s);
    }
  }

  lemma UnitsWithinBytes(s: seq<Byte>)
    requires s != []
    ensures |Encode16(First8(s).0)| <= First8(s).1
  {
  }

  /** The code points that a buffer of the given size receives: each one that still fits, in order. */
  function Kept<T>(encode: Scalar -> seq<T>, cs: seq<Scalar>, room: nat): seq<Scalar> {
    if cs == [] then []
    else if |encode(cs[0])| <= room then [cs[0]] + Kept(encode, cs[1..], room - |encode(cs[0])|)
    else Kept(encode, cs[1..], room)
  }

  ghost predicate Subsequence<T>(a: seq<T>, b: seq<T>) {
    a == [] || (b != [] && ((a[0] == b[0] && Subsequence(a[1..], b[1..])) || Subsequence(a, b[1..])))
  }

  /** A bounded buffer holds whole encodings of a subsequence of the text, and all of it when it is big enough. */
  lemma {:induction false} KeptFits<T>(encode: Scalar -> seq<T>, cs: seq<Scalar>, room: nat)
    ensures |EncodeAll(encode, Kept(encode, cs, room))| <= room
    ensures Subsequence(Kept(encode, cs, room), cs)
    ensures |EncodeAll(encode, cs)| <= room ==> Kept(encode, cs, room) == cs
  {
    if cs != [] {
      var left := if |encode(cs[0])| <= room then room - |encode(cs[0])| else room;
      KeptFits(encode, cs[1..], left);
    }
  }

  /** The next code point is kept exactly when its encoding still fits behind those of the ones kept before. */
  lemma {:induction false} KeptOneMore<T>(encode: Scalar -> seq<T>, cs: seq<Scalar>, c: Scalar, room: nat)
    ensures Kept(encode, [], room) == []
    ensures Kept(encode, cs + [c], room)
         == Kept(encode, cs, room)
            + if |EncodeAll(encode, Kept(encode, cs, room))| + |encode(c)| <= room then [c] else []
  {
    if cs == [] {
      assert cs + [c] == [c];
    } else {
      var left := if |encode(cs[0])| <= room then room - |encode(cs[0])| else room;
      assert (cs + [c])[1..] == cs[1..] + [c];
      KeptOneMore(encode, cs[1..], c, left);
      if |encode(cs[0])| <= room {
        EncodeAllCons(encode, cs[0], Kept(encode, cs[1..], left));
      }
    }
  }

  /** The continuation bytes counted, and what ended the count. */
  lemma {:induction false} TailsCount(s: seq<Byte>, n: nat)
    ensures forall i | 0 <= i < Tails(s, n) :: IsTail(s[i])
    ensures Tails(s, n) == n || Tails(s, n) == |s| || !IsTail(s[Tails(s, n)])
  {
    if n != 0 && s != [] && IsTail(s[0]) {
      TailsCount(s[1..], n - 1);
      assert forall i | 1 <= i < Tails(s, n) :: s[i] == s[1..][i - 1];
    }
  }

  // Order

  /** The first difference is in favour of a. */
  ghost predicate Before(a: seq<int>, b: seq<int>) {
    exists i | 0 <= i < |a| && i < |b| :: a[i] < b[i] && a[..i] == b[..i]
  }

  lemma {:induction false} BeforeAt(a: seq<int>, b: seq<int>, i: nat)
    requires i < |a| && i < |b| && a[i] < b[i] && forall k | 0 <= k < i :: a[k] == b[k]
    ensures Before(a, b)
  {
    assert a[..i] == b[..i];
  }

  lemma {:induction false} LowDigitSorts(x: nat, y: nat, m: nat)
    requires x < y && m > 0
    ensures x / m <= y / m
    ensures x / m == y / m ==> x % m < y % m
  {
    var q, r := x / m - y / m, x % m - y % m;
    assert x == m * (x / m) + x % m && y == m * (y / m) + y % m;
    assert x - y == m * q + r;
    assert q >= 1 ==> m * q >= m;
  }

  lemma {:induction false} LeadsSort(c: Scalar, d: Scalar)
    requires c < d
    ensures |Encode8(c)| < |Encode8(d)| ==> Encode8(c)[0] < Encode8(d)[0]
    ensures |Encode8(c)| <= |Encode8(d)|
  {
  }

  lemma {:induction false} ThreeBytesSort(c: Scalar, d: Scalar)
    requires 0x7FF < c < d <= 0xFFFF
    ensures Before(Encode8(c), Encode8(d))
  {
    var a, b := Encode8(c), Encode8(d);
    var x, y := c / 0x40, d / 0x40;
    LowDigitSorts(c, d, 0x40);
    assert c / 0x1000 == x / 0x40 && d / 0x1000 == y / 0x40;
    if x < y {
      LowDigitSorts(x, y, 0x40);
      BeforeAt(a, b, if a[0] < b[0] then 0 else 1);
    } else {
      BeforeAt(a, b, 2);
    }
  }

  lemma {:induction false} FourBytesSort(c: Scalar, d: Scalar)
    requires 0xFFFF < c < d
    ensures Before(Encode8(c), Encode8(d))
  {
    var a, b := Encode8(c), Encode8(d);
    var x, y := c / 0x1000, d / 0x1000;
    LowDigitSorts(c, d, 0x1000);
    assert c / 0x4_0000 == x / 0x40 && d / 0x4_0000 == y / 0x40;
    if x < y {
      LowDigitSorts(x, y, 0x40);
      BeforeAt(a, b, if a[0] < b[0] then 0 else 1);
    } else {
      LowTailsSort(c, d);
      BeforeAt(a, b, if a[2] < b[2] then 2 else 3);
    }
  }

  /** The last two tails of numbers that differ only there. */
  lemma {:induction false} LowTailsSort(c: nat, d: nat)
    requires c < d && c / 0x1000 == d / 0x1000
    ensures Tail(c / 0x40) < Tail(d / 0x40) || (Tail(c / 0x40) == Tail(d / 0x40) && Tail(c) < Tail(d))
  {
    LowDigitSorts(c, d, 0x40);
    if c / 0x40 < d / 0x40 {
      assert c / 0x1000 == c / 0x40 / 0x40 && d / 0x1000 == d / 0x40 / 0x40;
      LowDigitSorts(c / 0x40, d / 0x40, 0x40);
    }
  }

  /** UTF-8 bytes sort as their code points do. */
  lemma {:induction false} BytesSortAsScalars(c: Scalar, d: Scalar)
    requires c < d
    ensures Before(Encode8(c), Encode8(d))
  {
    LeadsSort(c, d);
    if |Encode8(c)| < |Encode8(d)| {
      BeforeAt(Encode8(c), Encode8(d), 0);
    } else if d <= 0x7F {
      BeforeAt(Encode8(c), Encode8(d), 0);
    } else if d <= 0x7FF {
      LowDigitSorts(c, d, 0x40);
      BeforeAt(Encode8(c), Encode8(d), if Encode8(c)[0] < Encode8(d)[0] then 0 else 1);
    } else if d <= 0xFFFF {
      ThreeBytesSort(c, d);
    } else {
      FourBytesSort(c, d);
    }
  }

  /** One unit stands for itself, two are a high and a low surrogate, and pairs sort as their code points do. */
  lemma {:induction false} UnitsSortAsScalars(c: Scalar, d: Scalar)
    requires c < d
    ensures if c <= 0xFFFF then Encode16(c) == [c]
            else |Encode16(c)| == 2 && 0xD800 <= Encode16(c)[0] <= 0xDBFF && 0xDC00 <= Encode16(c)[1] <= 0xDFFF
    ensures (c <= 0xFFFF <==> d <= 0xFFFF) ==> Before(Encode16(c), Encode16(d))
  {
    if c > 0xFFFF {
      LowDigitSorts(c - 0x1_0000, d - 0x1_0000, 0x400);
      BeforeAt(Encode16(c), Encode16(d), if Encode16(c)[0] < Encode16(d)[0] then 0 else 1);
    } else if d <= 0xFFFF {
      BeforeAt(Encode16(c), Encode16(d), 0);
    }
  }

  /** The euro sign and a face, as they are known. */
  lemma {:induction false} KnownCharacters()
    ensures Encode8(0x20AC) == [0xE2, 0x82, 0xAC] && Encode16(0x20AC) == [0x20AC]
    ensures Encode8(0x1F600) == [0xF0, 0x9F, 0x98, 0x80] && Encode16(0x1F600) == [0xD83D, 0xDE00]
  {
  }

  // Malformed UTF-8

  /**
   Where no character of the grammar stands, one replacement takes the leading byte and
   the continuation bytes that follow it, at most as many as it announces; a byte that
   announces nothing is replaced alone.
   */
  lemma {:induction false} BrokenCharIsReplaced(s: seq<Byte>, n: nat)
    requires s != [] && CharLength(s) == 0
    requires n == if 0xC0 <= s[0] <= 0xDF then 2 else if 0xE0 <= s[0] <= 0xEF then 3 else if 0xF0 <= s[0] <= 0xF7 then 4 else 1
    ensures var (c, k) := First8(s);
      && c == 0xFFFD && 1 <= k <= n && k <= |s|
      && (forall i | 1 <= i < k :: 0x80 <= s[i] <= 0xBF)
      && (k == n || k == |s| || !(0x80 <= s[k] <= 0xBF))
  {
    TailsCount(s[1..], n - 1);
    if First8(s).1 == n && n > 1 {
      OutsideGrammar(s, n);
    }
  }

  /** A complete form outside the grammar spells an overlong value, a surrogate, or one past the last scalar. */
  lemma {:induction false} OutsideGrammar(s: seq<Byte>, n: nat)
    requires 2 <= n <= |s| && LeadLength(s[0]) == n && (forall i | 1 <= i < n :: IsTail(s[i])) && CharLength(s) == 0
    ensures Checked(Bits(s, n), n) == 0xFFFD
  {
    if n == 3 {
      OutsideThree(s[0], s[1], s[2]);
    } else if n == 4 {
      OutsideFour(s[0], s[1], s[2], s[3]);
    }
  }

  lemma {:induction false} OutsideThree(a: Byte, b: Byte, c: Byte)
    requires 0xE0 <= a <= 0xEF && IsTail(b) && IsTail(c) && !Utf8Three(a, b, c)
    ensures Bits3(a, b, c) <= 0x7FF || 0xD800 <= Bits3(a, b, c) <= 0xDFFF
  {
  }

  lemma {:induction false} OutsideFour(a: Byte, b: Byte, c: Byte, d: Byte)
    requires 0xF0 <= a <= 0xF7 && IsTail(b) && IsTail(c) && IsTail(d) && !Utf8Four(a, b, c, d)
    ensures Bits4(a, b, c, d) <= 0xFFFF || Bits4(a, b, c, d) > 0x10FFFF
  {
  }

  // Synchronization

  lemma {:induction false} TailsAppend(a: seq<Byte>, t: seq<Byte>, n: nat)
    requires t == [] || !IsTail(t[0])
    ensures Tails(a + t, n) == Tails(a, n)
  {
    if a == [] {
      assert a + t == t;
    } else if n != 0 && IsTail(a[0]) {
      assert (a + t)[1..] == a[1..] + t;
      TailsAppend(a[1..], t, n - 1);
    }
  }

  lemma {:induction false} FirstAlone(s: seq<Byte>, t: seq<Byte>)
    requires s != [] && (t == [] || !IsTail(t[0]))
    ensures First8(s + t) == First8(s)
  {
    assert (s + t)[1..] == s[1..] + t;
    TailsAppend(s[1..], t, if LeadLength(s[0]) == 0 then 0 else LeadLength(s[0]) - 1);
  }

  /** Whatever comes before a byte that does not continue a character, what comes from there on is decoded as if it stood alone. */
  lemma {:induction false} Decode8Resumes(s: seq<Byte>, t: seq<Byte>)
    requires t == [] || !(0x80 <= t[0] <= 0xBF)
    ensures Decode8(s + t) == Decode8(s) + Decode8(t)
  {
    if s == [] {
      assert s + t == t;
    } else {
      var n, rest := First8(s).1, s[First8(s).1..];
      FirstAlone(s, t);
      assert (s + t)[n..] == rest + t;
      Decode8Resumes(rest, t);
      FirstThenRest(s, rest);
      FirstThenRest(s + t, rest + t);
      Associate([First8(s).0], Decode8(rest), Decode8(t));
    }
  }

  lemma {:induction false} FirstThenRest(s: seq<Byte>, rest: seq<Byte>)
    requires s != [] && s[First8(s).1..] == rest
    ensures Decode8(s) == [First8(s).0] + Decode8(rest)
  {
  }

  /** So it is in UTF-16, unless a pair of surrogates is cut. */
  lemma {:induction false} Decode16Resumes(u: seq<Unit>, v: seq<Unit>)
    requires u == [] || v == [] || !(0xD800 <= u[|u| - 1] <= 0xDBFF && 0xDC00 <= v[0] <= 0xDFFF)
    ensures Decode16(u + v) == Decode16(u) + Decode16(v)
  {
    if u == [] {
      assert u + v == v;
    } else {
      var n := First16(u).1;
      assert First16(u + v) == First16(u);
      assert (u + v)[n..] == u[n..] + v;
      Decode16Resumes(u[n..], v);
    }
  }

  // ASCII

  /** The ASCII characters among bytes, units or code points. */
  function AsciiOf(s: seq<int>): seq<int> {
    if s == [] then [] else AsciiOne(s[0]) + AsciiOf(s[1..])
  }

  function AsciiOne(c: int): seq<int> {
    if c <= 0x7F then [c] else []
  }

  lemma {:induction false} AsciiConcat(a: seq<int>, b: seq<int>)
    ensures AsciiOf(a + b) == AsciiOf(a) + AsciiOf(b)
  {
    if a == [] {
      assert a + b == b;
    } else {
      assert (a + b)[1..] == a[1..] + b;
      AsciiConcat(a[1..], b);
      Associate(AsciiOne(a[0]), AsciiOf(a[1..]), AsciiOf(b));
    }
  }

  lemma {:induction false} Associate(x: seq<int>, y: seq<int>, z: seq<int>)
    ensures x + (y + z) == x + y + z
  {
  }

  lemma {:induction false} NoAscii(s: seq<int>)
    requires forall i | 0 <= i < |s| :: s[i] > 0x7F
    ensures AsciiOf(s) == []
  {
    if s != [] {
      NoAscii(s[1..]);
    }
  }

  lemma {:induction false} FirstKeepsAscii(s: seq<Byte>)
    requires s != []
    ensures AsciiOf([First8(s).0]) == AsciiOf(s[..First8(s).1])
  {
    var (c, n) := First8(s);
    if s[0] <= 0x7F {
      assert s[..1] == [s[0]];
    } else {
      assert c > 0x7F;
      if LeadLength(s[0]) != 0 {
        TailsCount(s[1..], LeadLength(s[0]) - 1);
      }
      assert forall i | 1 <= i < n :: s[i] == s[1..][i - 1];
      NoAscii(s[..n]);
    }
  }

  lemma {:induction false} AsciiSurvivesDecode8(s: seq<Byte>)
    ensures AsciiOf(Decode8(s)) == AsciiOf(s)
  {
    if s != [] {
      var n := First8(s).1;
      FirstKeepsAscii(s);
      AsciiSurvivesDecode8(s[n..]);
      StepKeepsAscii(s, n, First8(s).0, Decode8(s[n..]));
    }
  }

  lemma {:induction false} AsciiJoins(first: seq<int>, rest: seq<int>, c: int, cs: seq<int>)
    requires AsciiOf([c]) == AsciiOf(first) && AsciiOf(cs) == AsciiOf(rest)
    ensures AsciiOf([c] + cs) == AsciiOf(first + rest)
  {
    AsciiConcat([c], cs);
    AsciiConcat(first, rest);
  }

  lemma {:induction false} Rejoined(s: seq<int>, n: nat)
    requires n <= |s|
    ensures s[..n] + s[n..] == s
  {
  }

  lemma {:induction false} StepKeepsAscii(s: seq<int>, n: nat, c: int, cs: seq<int>)
    requires n <= |s| && AsciiOf([c]) == AsciiOf(s[..n]) && AsciiOf(cs) == AsciiOf(s[n..])
    ensures AsciiOf([c] + cs) == AsciiOf(s)
  {
    AsciiJoins(s[..n], s[n..], c, cs);
    Rejoined(s, n);
  }

  lemma {:induction false} FirstUnitsKeepAscii(u: seq<Unit>)
    requires u != []
    ensures AsciiOf([First16(u).0]) == AsciiOf(u[..First16(u).1])
  {
    if First16(u).1 == 2 {
      assert u[..2] == [u[0], u[1]];
      NoAscii(u[..2]);
    } else {
      assert u[..1] == [u[0]];
    }
  }

  lemma {:induction false} AsciiSurvivesDecode16(u: seq<Unit>)
    ensures AsciiOf(Decode16(u)) == AsciiOf(u)
  {
    if u != [] {
      var n := First16(u).1;
      AsciiSurvivesDecode16(u[n..]);
      FirstUnitsKeepAscii(u);
      StepKeepsAscii(u, n, First16(u).0, Decode16(u[n..]));
    }
  }

  lemma {:induction false} AsciiSurvivesEncode(cs: seq<Scalar>)
    ensures AsciiOf(EncodeAll(Encode8, cs)) == AsciiOf(cs)
    ensures AsciiOf(EncodeAll(Encode16, cs)) == AsciiOf(cs)
  {
    if cs != [] {
      AsciiSurvivesEncode(cs[1..]);
      AsciiOfEncoded(cs[0]);
      assert cs == [cs[0]] + cs[1..];
      AsciiJoins(Encode8(cs[0]), EncodeAll(Encode8, cs[1..]), cs[0], cs[1..]);
      AsciiJoins(Encode16(cs[0]), EncodeAll(Encode16, cs[1..]), cs[0], cs[1..]);
    }
  }

  lemma {:induction false} AsciiOfEncoded(c: Scalar)
    ensures AsciiOf(Encode8(c)) == AsciiOf([c]) && AsciiOf(Encode16(c)) == AsciiOf([c])
  {
    if c > 0x7F {
      NoAscii(Encode8(c));
      NoAscii(Encode16(c));
      NoAscii([c]);
    }
  }

  /** Each ASCII character survives either conversion, in order, whatever surrounds it. */
  lemma AsciiSurvives(s: seq<Byte>, u: seq<Unit>)
    ensures AsciiOf(To16(s)) == AsciiOf(s)
    ensures AsciiOf(To8(u)) == AsciiOf(u)
  {
    AsciiSurvivesDecode8(s);
    AsciiSurvivesEncode(Decode8(s));
    AsciiSurvivesDecode16(u);
    AsciiSurvivesEncode(Decode16(u));
  }
}
