/** android_vformat as it runs. */
module Formatter {
  import opened Words
  import opened Bitwise
  import opened Buffers
  import opened VFormat

  /** The buffer holds as much of the text as fits, and is otherwise as it was. */
  ghost predicate Written(d: seq<char>, before: seq<char>, capacity: nat, text: string) {
    && |d| == |before| && 0 < capacity <= |d|
    && (forall i | 0 <= i < |text| && i + 1 < capacity :: d[i] == text[i])
    && (forall i | 0 <= i < |d| && (|text| <= i || capacity <= i + 1) :: d[i] == before[i])
  }

  /** APPEND_CHAR over a piece of text. */
  method AppendText(d: array<char>, capacity: nat, used: nat, piece: string, ghost before: seq<char>, ghost text: string)
      returns (end: nat)
    requires used == |text| && Written(d[..], before, capacity, text)
    modifies d
    ensures end == |text + piece| && Written(d[..], before, capacity, text + piece)
  {
    end := used;
    var i := 0;
    assert text + piece[..0] == text;
    while i < |piece|
      invariant 0 <= i <= |piece| && end == used + i
      invariant Written(d[..], before, capacity, text + piece[..i])
    {
      assert text + piece[..i + 1] == (text + piece[..i]) + [piece[i]];
      if end + 1 < capacity {
        d[end] := piece[i];
      }
      end := end + 1;
      i := i + 1;
    }
    assert text + piece[..i] == text + piece;
  }

  /** The specification buffer, which starts with its '%', is filled with flags while two bytes remain. */
  method ReadFlags(fmt: string, at: nat, flag: char -> bool) returns (flags: string, next: nat)
    requires at <= |fmt|
    ensures next == FlagsEnd(fmt, at, FLAG_ROOM, flag) && flags == fmt[at..next]
  {
    next, flags := at, [];
    var specLen := 1;
    while next < |fmt| && flag(fmt[next]) && specLen + 2 < 32
      invariant at <= next <= |fmt| && specLen == 1 + next - at <= 30
      invariant flags == fmt[at..next]
      invariant FlagsEnd(fmt, at, FLAG_ROOM, flag) == FlagsEnd(fmt, next, 30 - specLen, flag)
    {
      flags := flags + [fmt[next]];
      specLen := specLen + 1;
      next := next + 1;
    }
  }

  /** A directive: its flags, then its conversion. */
  method ReadDirective(fmt: string, at: nat) returns (flags: string, conversion: char, next: nat)
    requires at < |fmt| && fmt[at] == '%' && (at + 1 < |fmt| ==> fmt[at + 1] != '%')
    ensures PieceAt(fmt, at) == (Directive(flags, conversion), next)
  {
    flags, next := ReadFlags(fmt, at + 1, IsFlag);
    conversion := '\0';
    if next < |fmt| {
      conversion := fmt[next];
      next := next + 1;
    }
  }

  /** &args[arg]; the index and the address both wrap around. */
  function Cursor(base: Word, arg: Word): Word { Wrap(base + 4 * arg) }

  /** The argument of a directive, by the address arithmetic of the source. */
  method TakeArgument(memory: Reader, base: Word, arg: Word, c: Class) returns (value: Arg, next: Word)
    requires base % 4 == 0 && c != NoArgument
    ensures (value, Cursor(base, next)) == Fetch(memory, Cursor(base, arg), c)
  {
    var address := Cursor(base, arg);
    if c == OneWord {
      CursorAdvances(base, arg);
      return WordArg(memory(address)), Wrap(arg + 1);
    }
    CursorAligned(base, arg);
    value, next := TakeDouble(memory, base, address);
  }

  method TakeDouble(memory: Reader, base: Word, address: Word) returns (value: Arg, next: Word)
    requires base % 4 == 0 && address % 4 == 0
    ensures (value, Cursor(base, next)) == Fetch(memory, address, EightBytes)
  {
    var aligned := MaskEight(address);
    value, next := ReadDouble(memory, base, aligned);
  }

  method ReadDouble(memory: Reader, base: Word, aligned: Word) returns (value: Arg, next: Word)
    requires base % 4 == 0 && aligned % 4 == 0
    ensures (value, Cursor(base, next)) == DoubleAt(memory, aligned)
  {
    value := DoubleArg(memory(aligned), memory(Wrap(aligned + 4)));
    next := IndexBehind(base, aligned);
  }

  /** (address + 7u) & ~7u */
  method MaskEight(address: int) returns (aligned: Word)
    requires 0 <= address < SPACE && address % 4 == 0
    ensures aligned == AlignUp(address, 8) && aligned % 4 == 0
  {
    DoubleWordMask(Wrap(address + 7));
    aligned := And(Wrap(address + 7), 0xFFFF_FFF8);
    AlignStep(address);
    EightIsFour(aligned);
  }

  lemma {:induction false} EightIsFour(x: int)
    ensures x % 8 == 0 ==> x % 4 == 0
  {
  }

  /** The index of the word behind a double. */
  method IndexBehind(base: int, aligned: int) returns (next: Word)
    requires 0 <= base < SPACE && base % 4 == 0 && 0 <= aligned < SPACE && aligned % 4 == 0
    ensures Cursor(base, next) == Wrap(aligned + 8)
  {
    CursorAt(base, aligned);
    next := Wrap(Wrap(aligned - base) / 4 + 2);
  }

  lemma {:induction false} CursorAligned(base: Word, arg: Word)
    requires base % 4 == 0
    ensures Cursor(base, arg) % 4 == 0
  {
    WrapKeepsAlignment(base + 4 * arg);
  }

  lemma {:induction false} CursorAdvances(base: Word, arg: Word)
    ensures Cursor(base, Wrap(arg + 1)) == Wrap(Cursor(base, arg) + 4)
  {
    WrapTwice(base + 4 * arg, 4);
    WrapTwice(base, 4 * SPACE);
  }

  lemma {:induction false} CursorAt(base: Word, aligned: Word)
    requires base % 4 == 0 && aligned % 4 == 0
    ensures Cursor(base, Wrap(Wrap(aligned - base) / 4 + 2)) == Wrap(aligned + 8)
  {
    var distance: int := Wrap(aligned - base);
    assert distance % 4 == 0 && 4 * (distance / 4 + 2) == distance + 8;
    WrapTwice(aligned + 8, if aligned < base then SPACE else 0);
  }

  lemma {:induction false} WrapTwice(x: nat, d: nat)
    ensures Wrap(Wrap(x) + d) == Wrap(x + d)
    ensures d % SPACE == 0 ==> Wrap(x + d) == Wrap(x)
  {
    WrapIsModulo(x);
    WrapIsModulo(x + d);
    WrapIsModulo(Wrap(x) + d);
  }

  lemma {:induction false} WrapIsModulo(x: nat)
    ensures Wrap(x) == x % SPACE
  {
  }

  lemma PrependTwice(first: string, second: string, rest: Outcome)
    ensures Prepend(first, Prepend(second, rest)) == Prepend(first + second, rest)
    ensures Prepend([], rest) == rest
  {
  }

  /** What one directive prints into temp: nothing known for an unknown conversion but its letter. */
  method PrintDirective(flags: string, conversion: char, memory: Reader, base: Word, arg: Word, render: Render)
      returns (printed: Rendered, next: Word)
    requires base % 4 == 0
    ensures forall rest: seq<Piece> ::
        Expand([Directive(flags, conversion)] + rest, memory, Cursor(base, arg), render)
        == match printed
           case Error(code) => Failed(code, [])
           case Full(text) => Prepend(text, Expand(rest, memory, Cursor(base, next), render))
  {
    var c := ClassOf(conversion);
    next := arg;
    if c == NoArgument {
      printed := Full(['%', conversion]);
    } else {
      var value;
      value, next := TakeArgument(memory, base, arg, c);
      printed := render(Spec(flags, conversion), ValueOf(conversion, value));
      if printed.Full? {
        printed := Full(Clip(printed.text));
      }
    }
    forall rest: seq<Piece>
      ensures Expand([Directive(flags, conversion)] + rest, memory, Cursor(base, arg), render)
        == match printed
           case Error(code) => Failed(code, [])
           case Full(text) => Prepend(text, Expand(rest, memory, Cursor(base, next), render))
    {
      assert ([Directive(flags, conversion)] + rest)[1..] == rest;
    }
  }

  /** How the walk stands: the text so far, and what the format still adds to it. */
  ghost predicate Standing(fmt: string, at: nat, memory: Reader, a: Word, render: Render, text: string, whole: Outcome) {
    at <= |fmt| && whole == Prepend(text, Expand(Pieces(fmt, at), memory, a, render))
  }

  /**
   android_vformat. The result does not depend on the capacity: it is the length of the
   whole text, of which the buffer holds what fits, closed by a NUL; a negative count of
   snprintf is returned at once, with the text before it in the buffer and no NUL.
   */
  method AndroidVformat(d: array?<char>, capacity: nat, fmt: Option<string>, base: Word, memory: Reader, render: Render)
      returns (r: int)
    requires d != null ==> capacity <= d.Length
    requires base % 4 == 0 && (fmt.Some? ==> '\0' !in fmt.value)
    modifies d
    ensures d == null || fmt == None || capacity == 0 ==> r == -1 && (d != null ==> d[..] == old(d[..]))
    ensures d != null && fmt.Some? && capacity > 0 ==>
      match Expand(Pieces(fmt.value, 0), memory, base, render)
      case Done(text) => r == |text| && d[..] == Stored(text, capacity) + old(d[..])[|Stored(text, capacity)|..]
      case Failed(code, text) => r == code && Written(d[..], old(d[..]), capacity, text)
  {
    if d == null || fmt == None || capacity == 0 {
      return -1;
    }
    r := Walk(d, capacity, fmt.value, base, memory, render);
  }

  method Walk(d: array<char>, capacity: nat, fmt: string, base: Word, memory: Reader, render: Render) returns (r: int)
    requires 0 < capacity <= d.Length && base % 4 == 0
    modifies d
    ensures match Expand(Pieces(fmt, 0), memory, base, render)
      case Done(text) => r == |text| && d[..] == Stored(text, capacity) + old(d[..])[|Stored(text, capacity)|..]
      case Failed(code, text) => r == code && Written(d[..], old(d[..]), capacity, text)
  {
    ghost var before, text, whole := d[..], [], Expand(Pieces(fmt, 0), memory, base, render);
    PrependTwice([], [], whole);
    var used: nat, arg: Word, at: nat := 0, 0, 0;
    while at < |fmt|
      invariant used == |text|
      invariant Standing(fmt, at, memory, Cursor(base, arg), render, text, whole)
      invariant Written(d[..], before, capacity, text)
      decreases |fmt| - at
    {
      var printed, nextArg, next := PrintPiece(fmt, at, base, memory, arg, render, text, whole);
      if printed.Error? {
        return printed.code;
      }
      used := AppendText(d, capacity, used, printed.text, before, text);
      text := text + printed.text;
      at, arg := next, nextArg;
    }
    PrependNothing(text, whole);
    CloseText(d, capacity, used, before, text);
    return used;
  }

  /** The NUL behind what fits. */
  method CloseText(d: array<char>, capacity: nat, used: nat, ghost before: seq<char>, ghost text: string)
    requires used == |text| && Written(d[..], before, capacity, text)
    modifies d
    ensures d[..] == Stored(text, capacity) + before[|Stored(text, capacity)|..]
  {
    d[if used < capacity then used else capacity - 1] := '\0';
  }

  lemma PrependNothing(text: string, whole: Outcome)
    requires whole == Prepend(text, Done([]))
    ensures whole == Done(text)
  {
  }

  /** One turn of the loop, up to the appending. */
  method PrintPiece(fmt: string, at: nat, base: Word, memory: Reader, arg: Word, render: Render,
                    ghost text: string, ghost whole: Outcome)
      returns (printed: Rendered, nextArg: Word, next: nat)
    requires at < |fmt| && base % 4 == 0
    requires Standing(fmt, at, memory, Cursor(base, arg), render, text, whole)
    ensures printed.Error? ==> whole == Failed(printed.code, text)
    ensures printed.Full? ==>
      at < next && Standing(fmt, next, memory, Cursor(base, nextArg), render, text + printed.text, whole)
  {
    nextArg := arg;
    if fmt[at] != '%' {
      printed, next := Full([fmt[at]]), at + 1;
    } else if at + 1 < |fmt| && fmt[at + 1] == '%' {
      printed, next := Full(['%']), at + 2;
    } else {
      var flags, conversion;
      flags, conversion, next := ReadDirective(fmt, at);
      printed, nextArg := PrintDirective(flags, conversion, memory, base, arg, render);
    }
    ghost var rest := Pieces(fmt, next);
    assert Pieces(fmt, at) == [PieceAt(fmt, at).0] + rest;
    if printed.Full? {
      ghost var after := Expand(rest, memory, Cursor(base, nextArg), render);
      assert ([PieceAt(fmt, at).0] + rest)[1..] == rest;
      PrependTwice(text, printed.text, after);
    } else {
      assert text + [] == text;
    }
  }
}
