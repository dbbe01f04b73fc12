/** The converter's decoders, encoders and drivers, proved against the functions of module Unicode. */
module Converter {
  import opened Words
  import opened Bitwise
  import opened Unicode

  const BMP_END: int := 0xFFFF
  const UNICODE_MAX: int := 0x10FFFF

  const GENERIC_SURROGATE_MASK: int := 0xF800
  const SURROGATE_MASK: int := 0xFC00
  const SURROGATE_CODEPOINT_MASK: int := 0x3FF
  const CONTINUATION_MASK: Byte := 0xC0

  /** A pattern of leading bytes: the masked bits must have the value, the others carry the code point. */
  datatype Pattern = Pattern(mask: Byte, value: Byte) {
    /** How many values the other bits have. */
    function Span(): int { 0x100 - mask }
    function Complement(): Byte { 0xFF - mask }
  }

  const LEADING_BYTES: seq<Pattern> := [Pattern(0x80, 0x00), Pattern(0xE0, 0xC0), Pattern(0xF0, 0xE0), Pattern(0xF8, 0xF0)]

  /** What the surrogate masks test and select. */
  lemma {:induction false} SurrogateTests(u: Unit)
    ensures And(u, GENERIC_SURROGATE_MASK) == 0xD800 <==> High(u) || Low(u)
    ensures And(u, SURROGATE_MASK) == 0xD800 <==> High(u)
    ensures And(u, SURROGATE_MASK) == 0xDC00 <==> Low(u)
    ensures And(u, SURROGATE_CODEPOINT_MASK) == u % 0x400
  {
    UnitMasks(u);
    SurrogateRanges(u);
  }

  lemma {:induction false} SurrogateRanges(u: Unit)
    ensures u - u % 0x800 == 0xD800 <==> High(u) || Low(u)
    ensures u - u % 0x400 == 0xD800 <==> High(u)
    ensures u - u % 0x400 == 0xDC00 <==> Low(u)
  {
  }

  /** What the continuation mask tests and its complement selects. */
  lemma {:induction false} ContinuationTests(b: Byte)
    ensures And(b, CONTINUATION_MASK) == 0x80 <==> IsTail(b)
    ensures And(b, 0xFF - CONTINUATION_MASK) == b % 0x40
  {
    Powers();
    ByteMask(b, 6);
    TailRange(b);
  }

  lemma {:induction false} TailRange(b: Byte)
    ensures b - b % 0x40 == 0x80 <==> IsTail(b)
  {
  }

  /** What a leading pattern tests and its complement selects. */
  lemma {:induction false} PatternTests(b: Byte, n: nat)
    requires 1 <= n <= 4
    ensures And(b, LEADING_BYTES[n - 1].mask) == LEADING_BYTES[n - 1].value <==> LeadLength(b) == n
    ensures And(b, LEADING_BYTES[n - 1].Complement()) == b % LEADING_BYTES[n - 1].Span()
  {
    Powers();
    ByteMask(b, FreeBits(n));
    LeadingRange(b, n);
  }

  /** How many bits of a leading byte carry the code point. */
  function FreeBits(n: nat): nat { if n == 1 then 7 else if n == 2 then 5 else if n == 3 then 4 else 3 }

  lemma {:induction false} LeadingRange(b: Byte, n: nat)
    requires 1 <= n <= 4
    ensures b - b % LEADING_BYTES[n - 1].Span() == LEADING_BYTES[n - 1].value <==> LeadLength(b) == n
  {
  }

  /** Joining six or ten bits below those read so far. */
  lemma {:induction false} Joins(bits: nat, tail: nat)
    ensures tail < 0x40 ==> Or(bits * 0x40, tail) == bits * 0x40 + tail
    ensures tail < 0x400 ==> Or(bits * 0x400, tail) == bits * 0x400 + tail
  {
    Powers();
    if tail < 0x40 {
      JoinIsSum(tail, bits, 6);
    }
    OrCommutes(bits * 0x40, tail);
    if tail < 0x400 {
      JoinIsSum(tail, bits, 10);
    }
    OrCommutes(bits * 0x400, tail);
  }

  /** decode_utf16: last is left on the last unit of the code point. */
  method DecodeUtf16(utf16: seq<Unit>, index: nat) returns (codepoint: Scalar, last: nat)
    requires index < |utf16|
    ensures index <= last < |utf16|
    ensures First16(utf16[index..]) == (codepoint, last + 1 - index)
  {
    last := index;
    var high := utf16[index];
    SurrogateTests(high);
    if And(high, GENERIC_SURROGATE_MASK) != 0xD800 {
      return high, last;
    }
    if And(high, SURROGATE_MASK) != 0xD800 {
      return REPLACEMENT, last;
    }
    if index == |utf16| - 1 {
      return REPLACEMENT, last;
    }
    var low := utf16[index + 1];
    SurrogateTests(low);
    if And(low, SURROGATE_MASK) != 0xDC00 {
      return REPLACEMENT, last;
    }
    last := last + 1;
    codepoint := JoinSurrogates(high, low);
  }

  method JoinSurrogates(high: Unit, low: Unit) returns (result: nat)
    requires High(high) && Low(low)
    ensures result == Pair(high, low)
  {
    SurrogateTests(high);
    SurrogateTests(low);
    Joins(high % 0x400, low % 0x400);
    result := And(high, SURROGATE_CODEPOINT_MASK);
    result := result * 0x400;
    result := Or(result, And(low, SURROGATE_CODEPOINT_MASK));
    result := result + 0x1_0000;
  }

  function CalculateUtf8Len(codepoint: int): (n: nat)
    ensures 1 <= n <= 4
  {
    if codepoint <= 0x7F then 1
    else if codepoint <= 0x7FF then 2
    else if codepoint <= 0xFFFF then 3
    else 4
  }

  /** The code point after k continuation bytes have been taken from its end. */
  function Shifted(c: nat, k: nat): nat {
    if k == 0 then c else Shifted(c, k - 1) / 0x40
  }

  /** The byte that takes the low bits of x: a continuation byte, or the leading byte of a form of the given size. */
  function EncodedByte(x: nat, size: nat): Byte
    requires size <= 4
  {
    if size == 0 then x % 0x40 + 0x80
    else x % 0x100 % LEADING_BYTES[size - 1].Span() + LEADING_BYTES[size - 1].value
  }

  method ContinuationByte(codepoint: nat) returns (cont: Byte)
    ensures cont == EncodedByte(codepoint, 0)
  {
    TailMask(codepoint % 0x100);
    LowByteTail(codepoint);
    cont := And(codepoint % 0x100, 0xFF - CONTINUATION_MASK);
    cont := Or(cont, 0x80);
  }

  lemma {:induction false} TailMask(b: Byte)
    ensures And(b, 0xFF - CONTINUATION_MASK) == b % 0x40 && Or(b % 0x40, 0x80) == b % 0x40 + 0x80
  {
    ContinuationTests(b);
    Powers();
    JoinIsSum(b % 0x40, 2, 6);
  }

  lemma {:induction false} LowByteTail(x: nat)
    ensures x % 0x100 % 0x40 == x % 0x40
  {
  }

  method LeadingByte(codepoint: nat, size: nat) returns (lead: Byte)
    requires 1 <= size <= 4
    ensures lead == EncodedByte(codepoint, size)
  {
    var pattern := LEADING_BYTES[size - 1];
    LeadMask(codepoint % 0x100, size);
    lead := And(codepoint % 0x100, pattern.Complement());
    lead := Or(lead, pattern.value);
  }

  lemma {:induction false} LeadMask(b: Byte, size: nat)
    requires 1 <= size <= 4
    ensures var pattern := LEADING_BYTES[size - 1];
      And(b, pattern.Complement()) == b % pattern.Span()
      && Or(b % pattern.Span(), pattern.value) == b % pattern.Span() + pattern.value
  {
    var pattern := LEADING_BYTES[size - 1];
    PatternTests(b, size);
    JoinPattern(b % pattern.Span(), size);
  }

  lemma {:induction false} JoinPattern(x: nat, size: nat)
    requires 1 <= size <= 4 && x < LEADING_BYTES[size - 1].Span()
    ensures Or(x, LEADING_BYTES[size - 1].value) == x + LEADING_BYTES[size - 1].value
  {
    Powers();
    JoinIsSum(x, if size == 1 then 0 else if size == 2 then 6 else if size == 3 then 14 else 30, FreeBits(size));
  }

  lemma {:induction false} EncodedBytes(c: Scalar, j: nat)
    requires j < |Encode8(c)|
    ensures Encode8(c)[j] == EncodedByte(Shifted(c, |Encode8(c)| - 1 - j), if j > 0 then 0 else |Encode8(c)|)
  {
    Shifts(c);
    LeadingForms(Shifted(c, |Encode8(c)| - 1));
    if c <= 0x7F {
    } else if c <= 0x7FF {
      assert Encode8(c) == [0xC0 + c / 0x40, Tail(c)];
    } else if c <= 0xFFFF {
      assert Encode8(c) == [0xE0 + c / 0x1000, Tail(c / 0x40), Tail(c)];
    } else {
      assert Encode8(c) == [0xF0 + c / 0x4_0000, Tail(c / 0x1000), Tail(c / 0x40), Tail(c)];
    }
  }

  lemma LeadingForms(x: nat)
    ensures EncodedByte(x, 0) == Tail(x)
    ensures x < 0x80 ==> EncodedByte(x, 1) == x
    ensures x < 0x20 ==> EncodedByte(x, 2) == 0xC0 + x
    ensures x < 0x10 ==> EncodedByte(x, 3) == 0xE0 + x
    ensures x < 0x08 ==> EncodedByte(x, 4) == 0xF0 + x
  {
  }

  lemma Shifts(c: nat)
    ensures Shifted(c, 0) == c && Shifted(c, 1) == c / 0x40
    ensures Shifted(c, 2) == c / 0x1000 && Shifted(c, 3) == c / 0x4_0000
  {
  }

  /** encode_utf8: nothing is written when the whole encoding does not fit. */
  method EncodeUtf8(codepoint: Scalar, utf8: array<Byte>, len: nat, index: nat) returns (written: nat)
    requires len <= utf8.Length
    modifies utf8
    ensures Puts(Encode8(codepoint), old(utf8[..]), utf8[..], len, index, written)
  {
    var size := CalculateUtf8Len(codepoint);
    ghost var enc := Encode8(codepoint);
    assert size == |enc|;
    if index + size > len {
      return 0;
    }
    forall j | 0 <= j < size ensures enc[j] == EncodedByte(Shifted(codepoint, size - 1 - j), if j > 0 then 0 else size) {
      EncodedBytes(codepoint, j);
    }
    WriteForm(codepoint, utf8, index, size, enc);
    return size;
  }

  /** Writes a form from its last byte to its first. */
  method WriteForm(codepoint: nat, utf8: array<Byte>, index: nat, size: nat, ghost enc: seq<Byte>)
    requires 1 <= size <= 4 && size == |enc| && index + size <= utf8.Length
    requires forall j | 0 <= j < size :: enc[j] == EncodedByte(Shifted(codepoint, size - 1 - j), if j > 0 then 0 else size)
    modifies utf8
    ensures utf8[..] == old(utf8[..index]) + enc + old(utf8[index + size..])
  {
    var rest := codepoint;
    var contIndex := size - 1;
    while contIndex > 0
      invariant 0 <= contIndex <= size - 1
      invariant rest == Shifted(codepoint, size - 1 - contIndex)
      invariant forall j | contIndex < j < size :: utf8[index + j] == enc[j]
      invariant forall j | 0 <= j < utf8.Length && !(index + contIndex < j < index + size) :: utf8[j] == old(utf8[j])
    {
      var cont := ContinuationByte(rest);
      utf8[index + contIndex] := cont;
      rest := rest / 0x40;
      contIndex := contIndex - 1;
    }
    var lead := LeadingByte(rest, size);
    utf8[index] := lead;
  }

  /** The text that a buffer of the given size receives. */
  function Filled<T>(encode: Scalar -> seq<T>, cs: seq<Scalar>, room: nat): seq<T> {
    EncodeAll(encode, Kept(encode, cs, room))
  }

  lemma Decode16Step(u: seq<Unit>, i: nat, c: Scalar, last: nat)
    requires i <= last < |u| && First16(u[i..]) == (c, last + 1 - i)
    ensures Decode16(u[i..]) == [c] + Decode16(u[last + 1..])
  {
  }

  /** The buffer holds the text up to index, and the code points still to come will complete it. */
  ghost predicate OnCourse<T>(encode: Scalar -> seq<T>, buffer: seq<T>, original: seq<T>, text: seq<T>,
                              index: nat, room: nat, rest: seq<Scalar>)
  {
    && index <= room <= |buffer| == |original|
    && buffer[..index] + Filled(encode, rest, room - index) == text
    && buffer[index..] == original[index..]
  }

  /** An encoder writes a whole encoding at index if it fits, and nothing otherwise. */
  ghost predicate Puts<T>(enc: seq<T>, before: seq<T>, after: seq<T>, room: nat, index: nat, written: nat) {
    if index + |enc| > room then written == 0 && after == before
    else
      && written == |enc| && index + written <= |before|
      && after == before[..index] + enc + before[index + written..]
  }

  lemma StaysOnCourse<T>(encode: Scalar -> seq<T>, before: seq<T>, after: seq<T>, original: seq<T>, text: seq<T>,
                         index: nat, room: nat, c: Scalar, rest: seq<Scalar>, written: nat)
    requires OnCourse(encode, before, original, text, index, room, [c] + rest)
    requires Puts(encode(c), before, after, room, index, written)
    ensures OnCourse(encode, after, original, text, index + written, room, rest)
  {
  }

  function Measure<T>(encode: Scalar -> seq<T>, cs: seq<Scalar>): nat {
    |EncodeAll(encode, cs)|
  }

  lemma MeasureStep<T>(encode: Scalar -> seq<T>, c: Scalar, cs: seq<Scalar>)
    ensures Measure(encode, [c] + cs) == |encode(c)| + Measure(encode, cs)
  {
  }

  method Put8(codepoint: Scalar, utf8: array<Byte>, utf8Len: nat, utf8Index: nat,
              ghost original: seq<Byte>, ghost text: seq<Byte>, ghost rest: seq<Scalar>) returns (next: nat)
    requires OnCourse(Encode8, utf8[..], original, text, utf8Index, utf8Len, [codepoint] + rest)
    modifies utf8
    ensures OnCourse(Encode8, utf8[..], original, text, next, utf8Len, rest)
  {
    ghost var before := utf8[..];
    var written := EncodeUtf8(codepoint, utf8, utf8Len, utf8Index);
    StaysOnCourse(Encode8, before, utf8[..], original, text, utf8Index, utf8Len, codepoint, rest, written);
    return utf8Index + written;
  }

  /** utf16_to_utf8; a null buffer only measures. */
  method Utf16ToUtf8(utf16: seq<Unit>, utf8: array?<Byte>, utf8Len: nat) returns (utf8Index: nat)
    requires utf8 != null ==> utf8Len <= utf8.Length
    modifies utf8
    ensures utf8 == null ==> utf8Index == |To8(utf16)|
    ensures utf8 != null ==>
      var text := Filled(Encode8, Decode16(utf16), utf8Len);
      utf8Index == |text| <= utf8Len && utf8[..] == text + old(utf8[|text|..])
  {
    utf8Index := 0;
    var utf16Index := 0;
    ghost var rest := Decode16(utf16);
    assert utf16[0..] == utf16;
    ghost var text := Filled(Encode8, Decode16(utf16), utf8Len);
    while utf16Index < |utf16|
      invariant 0 <= utf16Index <= |utf16| && rest == Decode16(utf16[utf16Index..])
      invariant utf8 == null ==>
        utf8Index + Measure(Encode8, rest) == |To8(utf16)|
      invariant utf8 != null ==>
        OnCourse(Encode8, utf8[..], old(utf8[..]), text, utf8Index, utf8Len, rest)
    {
      var codepoint, last := DecodeUtf16(utf16, utf16Index);
      Decode16Step(utf16, utf16Index, codepoint, last);
      rest := Decode16(utf16[last + 1..]);
      if utf8 == null {
        MeasureStep(Encode8, codepoint, rest);
        utf8Index := utf8Index + CalculateUtf8Len(codepoint);
      } else {
        utf8Index := Put8(codepoint, utf8, utf8Len, utf8Index, old(utf8[..]), text, rest);
      }
      utf16Index := last + 1;
    }
  }

  // UTF-8 to UTF-16

  lemma {:induction false} TailsStop(s: seq<Byte>, n: nat, k: nat)
    requires k <= n && k <= |s| && forall i | 0 <= i < k :: IsTail(s[i])
    requires k == n || k == |s| || !IsTail(s[k])
    ensures Tails(s, n) == k
  {
    if k > 0 {
      TailsStop(s[1..], n - 1, k - 1);
    }
  }

  /** The bits read so far: those of the leading byte, then six from each of k continuation bytes. */
  function PartialBits(s: seq<Byte>, span: nat, k: nat): nat
    requires span > 0 && k < |s|
  {
    if k == 0 then s[0] % span else PartialBits(s, span, k - 1) * 0x40 + s[k] % 0x40
  }

  lemma AllBits(s: seq<Byte>, n: nat)
    requires 1 <= n <= 4 && n <= |s| && LeadLength(s[0]) == n
    ensures PartialBits(s, LEADING_BYTES[n - 1].Span(), n - 1) == Bits(s, n)
  {
    var span := LEADING_BYTES[n - 1].Span();
    assert PartialBits(s, span, 0) == s[0] % span;
    if n > 1 {
      assert PartialBits(s, span, 1) == PartialBits(s, span, 0) * 0x40 + s[1] % 0x40;
    }
    if n > 2 {
      assert PartialBits(s, span, 2) == PartialBits(s, span, 1) * 0x40 + s[2] % 0x40;
    }
  }

  /** The first loop of decode_utf8: the first pattern that the leading byte matches. */
  method MatchLead(leading: Byte) returns (matches: bool, encodingLen: nat)
    ensures 1 <= encodingLen <= 4
    ensures LeadLength(leading) == if matches then encodingLen else 0
  {
    matches, encodingLen := false, 0;
    while !matches && encodingLen < 4
      invariant encodingLen <= 4
      invariant matches ==> 1 <= encodingLen && LeadLength(leading) == encodingLen
      invariant !matches ==> LeadLength(leading) == 0 || LeadLength(leading) > encodingLen
    {
      encodingLen := encodingLen + 1;
      var pattern := LEADING_BYTES[encodingLen - 1];
      PatternTests(leading, encodingLen);
      matches := And(leading, pattern.mask) == pattern.value;
    }
  }

  /** leading & ~pattern.mask */
  method LeadBits(leading: Byte, encodingLen: nat) returns (bits: nat)
    requires 1 <= encodingLen <= 4
    ensures bits == leading % LEADING_BYTES[encodingLen - 1].Span()
  {
    PatternTests(leading, encodingLen);
    bits := And(leading, LEADING_BYTES[encodingLen - 1].Complement());
  }

  method Continues(continuation: Byte) returns (continues: bool)
    ensures continues == IsTail(continuation)
  {
    ContinuationTests(continuation);
    continues := And(continuation, CONTINUATION_MASK) == 0x80;
  }

  method AppendBits(bits: nat, continuation: Byte) returns (more: nat)
    ensures more == bits * 0x40 + continuation % 0x40
  {
    ContinuationTests(continuation);
    Joins(bits, continuation % 0x40);
    more := bits * 0x40;
    more := Or(more, And(continuation, 0xFF - CONTINUATION_MASK));
  }

  /** decode_utf8: last is left on the last byte that was taken. */
  method DecodeUtf8(utf8: seq<Byte>, index: nat) returns (codepoint: Scalar, last: nat)
    requires index < |utf8|
    ensures index <= last < |utf8|
    ensures First8(utf8[index..]) == (codepoint, last + 1 - index)
  {
    last := index;
    var leading := utf8[index];
    ghost var s := utf8[index..];
    ghost var tail := s[1..];
    var matches, encodingLen := MatchLead(leading);
    if !matches {
      return REPLACEMENT, last;
    }
    ghost var span := LEADING_BYTES[encodingLen - 1].Span();
    var bits := LeadBits(leading, encodingLen);
    for i := 0 to encodingLen - 1
      invariant last == index + i && last < |utf8|
      invariant forall j | 0 <= j < i :: IsTail(tail[j])
      invariant bits == PartialBits(s, span, i)
    {
      if last + 1 >= |utf8| {
        TailsStop(tail, encodingLen - 1, i);
        return REPLACEMENT, last;
      }
      var continuation := utf8[last + 1];
      var continues := Continues(continuation);
      if !continues {
        TailsStop(tail, encodingLen - 1, i);
        return REPLACEMENT, last;
      }
      bits := AppendBits(bits, continuation);
      last := last + 1;
    }
    TailsStop(tail, encodingLen - 1, encodingLen - 1);
    AllBits(s, encodingLen);
    codepoint := CheckBits(bits, encodingLen);
  }

  /** The checks at the end of decode_utf8. */
  method CheckBits(bits: nat, encodingLen: nat) returns (codepoint: Scalar)
    ensures codepoint == Checked(bits, encodingLen)
  {
    var properLen := CalculateUtf8Len(bits);
    if properLen != encodingLen {
      return REPLACEMENT;
    }
    if bits < BMP_END {
      SurrogateTests(bits);
    }
    if bits < BMP_END && And(bits, GENERIC_SURROGATE_MASK) == 0xD800 {
      return REPLACEMENT;
    }
    if bits > UNICODE_MAX {
      return REPLACEMENT;
    }
    return bits;
  }

  function CalculateUtf16Len(codepoint: int): (n: nat)
    ensures 1 <= n <= 2
  {
    if codepoint <= BMP_END then 1 else 2
  }

  lemma {:induction false} SurrogateJoins(x: nat)
    ensures Or(0xD800, And(x, SURROGATE_CODEPOINT_MASK)) == 0xD800 + x % 0x400
    ensures Or(0xDC00, And(x, SURROGATE_CODEPOINT_MASK)) == 0xDC00 + x % 0x400
  {
    Powers();
    LowMask(x, 10);
    Joins(0x36, x % 0x400);
    Joins(0x37, x % 0x400);
  }

  /** encode_utf16: nothing is written when the whole encoding does not fit. */
  method EncodeUtf16(codepoint: Scalar, utf16: array<Unit>, len: nat, index: nat) returns (written: nat)
    requires len <= utf16.Length
    modifies utf16
    ensures Puts(Encode16(codepoint), old(utf16[..]), utf16[..], len, index, written)
  {
    if index >= len {
      return 0;
    }
    if codepoint <= BMP_END {
      utf16[index] := codepoint;
      return 1;
    }
    if index + 1 >= len {
      return 0;
    }
    var rest := codepoint - 0x1_0000;
    var high, low := SplitSurrogates(rest);
    utf16[index] := high;
    utf16[index + 1] := low;
    return 2;
  }

  method SplitSurrogates(rest: nat) returns (high: Unit, low: Unit)
    ensures high == 0xD800 + rest / 0x400 % 0x400 && low == 0xDC00 + rest % 0x400
  {
    SurrogateJoins(rest);
    SurrogateJoins(rest / 0x400);
    low := Or(0xDC00, And(rest, SURROGATE_CODEPOINT_MASK));
    high := Or(0xD800, And(rest / 0x400, SURROGATE_CODEPOINT_MASK));
  }

  lemma {:induction false} Decode8Step(s: seq<Byte>, i: nat, c: Scalar, last: nat)
    requires i <= last < |s| && First8(s[i..]) == (c, last + 1 - i)
    ensures Decode8(s[i..]) == [c] + Decode8(s[last + 1..])
  {
  }

  method Put16(codepoint: Scalar, utf16: array<Unit>, utf16Len: nat, utf16Index: nat,
               ghost original: seq<Unit>, ghost text: seq<Unit>, ghost rest: seq<Scalar>) returns (next: nat)
    requires OnCourse(Encode16, utf16[..], original, text, utf16Index, utf16Len, [codepoint] + rest)
    modifies utf16
    ensures OnCourse(Encode16, utf16[..], original, text, next, utf16Len, rest)
  {
    ghost var before := utf16[..];
    var written := EncodeUtf16(codepoint, utf16, utf16Len, utf16Index);
    StaysOnCourse(Encode16, before, utf16[..], original, text, utf16Index, utf16Len, codepoint, rest, written);
    return utf16Index + written;
  }

  /** utf8_to_utf16; a null buffer only measures. */
  method Utf8ToUtf16(utf8: seq<Byte>, utf16: array?<Unit>, utf16Len: nat) returns (utf16Index: nat)
    requires utf16 != null ==> utf16Len <= utf16.Length
    modifies utf16
    ensures utf16 == null ==> utf16Index == |To16(utf8)|
    ensures utf16 != null ==>
      var text := Filled(Encode16, Decode8(utf8), utf16Len);
      utf16Index == |text| <= utf16Len && utf16[..] == text + old(utf16[|text|..])
  {
    utf16Index := 0;
    var utf8Index := 0;
    ghost var rest := Decode8(utf8);
    assert utf8[0..] == utf8;
    ghost var text := Filled(Encode16, Decode8(utf8), utf16Len);
    while utf8Index < |utf8|
      invariant 0 <= utf8Index <= |utf8| && rest == Decode8(utf8[utf8Index..])
      invariant utf16 == null ==>
        utf16Index + Measure(Encode16, rest) == |To16(utf8)|
      invariant utf16 != null ==>
        OnCourse(Encode16, utf16[..], old(utf16[..]), text, utf16Index, utf16Len, rest)
    {
      var codepoint, last := DecodeUtf8(utf8, utf8Index);
      Decode8Step(utf8, utf8Index, codepoint, last);
      rest := Decode8(utf8[last + 1..]);
      if utf16 == null {
        MeasureStep(Encode16, codepoint, rest);
        utf16Index := utf16Index + CalculateUtf16Len(codepoint);
      } else {
        utf16Index := Put16(codepoint, utf16, utf16Len, utf16Index, old(utf16[..]), text, rest);
      }
      utf8Index := last + 1;
    }
  }

  /** What a measured buffer receives is the whole text, and the allocation of one unit per byte drops nothing. */
  lemma MeasuredBufferIsEnough(s: seq<Byte>, u: seq<Unit>, room: nat)
    ensures room >= |To8(u)| ==> Filled(Encode8, Decode16(u), room) == To8(u)
    ensures room >= |s| ==> Filled(Encode16, Decode8(s), room) == To16(s)
  {
    KeptFits(Encode8, Decode16(u), room);
    KeptFits(Encode16, Decode8(s), room);
    To16IsNotLonger(s);
  }
}
