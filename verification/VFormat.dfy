/**
 android_vformat: a format string is walked against the argument words in memory. What
 snprintf makes of one directive is a parameter.
 */
module VFormat {
  import opened Words
  import opened Buffers

  // The format string

  datatype Piece = Literal(c: char) | Directive(flags: string, conversion: char)

  predicate IsFlag(c: char) {
    c in "-+ #0.123456789hlzL"
  }

  /** spec has 32 bytes: room for '%', this many flags, the conversion and the NUL. */
  const FLAG_ROOM: nat := 29

  function FlagsEnd(fmt: string, at: nat, room: nat, flag: char -> bool): (end: nat)
    requires at <= |fmt|
    ensures at <= end <= |fmt| && end <= at + room
    decreases |fmt| - at
  {
    if room == 0 || at == |fmt| || !flag(fmt[at]) then at else FlagsEnd(fmt, at + 1, room - 1, flag)
  }

  /** The conversion after the flags; the end of the string stands for its NUL. */
  function ConversionAt(fmt: string, end: nat): char
    requires end <= |fmt|
  {
    if end < |fmt| then fmt[end] else '\0'
  }

  /** The piece at a position that is not the end, and where the next one begins. */
  function PieceAt(fmt: string, at: nat): (r: (Piece, nat))
    requires at < |fmt|
    ensures at < r.1 <= |fmt|
  {
    if fmt[at] != '%' then (Literal(fmt[at]), at + 1)
    else if at + 1 < |fmt| && fmt[at + 1] == '%' then (Literal('%'), at + 2)
    else
      var end := FlagsEnd(fmt, at + 1, FLAG_ROOM, IsFlag);
      (Directive(fmt[at + 1..end], ConversionAt(fmt, end)), if end < |fmt| then end + 1 else end)
  }

  function Pieces(fmt: string, at: nat): seq<Piece>
    requires at <= |fmt|
    decreases |fmt| - at
  {
    if at == |fmt| then [] else [PieceAt(fmt, at).0] + Pieces(fmt, PieceAt(fmt, at).1)
  }

  // Arguments

  datatype Class = OneWord | EightBytes | NoArgument

  /** strchr also finds the NUL of its string, so a directive cut off by the end takes a double. */
  function ClassOf(conversion: char): Class {
    if conversion in "scdiuxXop" then OneWord
    else if conversion in "aAeEfFgG" || conversion == '\0' then EightBytes
    else NoArgument
  }

  datatype Arg = WordArg(w: Word) | DoubleArg(low: Word, high: Word)

  /** The argument a directive takes at an address, and the address after it. */
  function Fetch(memory: Reader, a: Word, c: Class): (Arg, Word)
    requires c != NoArgument
  {
    if c == OneWord then (WordArg(memory(a)), Wrap(a + 4)) else DoubleAt(memory, AlignUp(a, 8))
  }

  function DoubleAt(memory: Reader, k: Word): (Arg, Word) {
    (DoubleArg(memory(k), memory(Wrap(k + 4))), Wrap(k + 8))
  }

  // Text

  datatype Value =
    | Null
    | Text(address: Word)
    | Signed(i: int)
    | Unsigned(w: Word)
    | Pointer(w: Word)
    | Double(low: Word, high: Word)

  function ValueOf(conversion: char, arg: Arg): Value {
    match arg
    case DoubleArg(low, high) => Double(low, high)
    case WordArg(w) =>
      if conversion == 's' then if w == 0 then Null else Text(w)
      else if conversion in "cdi" then Signed(Words.Signed(w))
      else if conversion == 'p' then Pointer(w)
      else Unsigned(w)
  }

  /** What snprintf answers: the whole text, or a negative count. */
  datatype Rendered = Full(text: string) | Error(code: Negative)

  type Negative = x: int | x < 0 witness -1

  type Render = (string, Value) -> Rendered

  const TEMP_ROOM: nat := 255

  function Clip(text: string): string {
    if |text| <= TEMP_ROOM then text else text[..TEMP_ROOM]
  }

  function Spec(flags: string, conversion: char): string {
    ['%'] + flags + (if conversion == '\0' then [] else [conversion])
  }

  datatype Outcome = Done(text: string) | Failed(code: int, before: string)

  function Prepend(text: string, rest: Outcome): Outcome {
    match rest
    case Done(t) => Done(text + t)
    case Failed(code, before) => Failed(code, text + before)
  }

  /** The text of a format whose arguments are read from an address on. */
  function Expand(pieces: seq<Piece>, memory: Reader, a: Word, render: Render): Outcome {
    if pieces == [] then Done([])
    else match pieces[0]
      case Literal(c) => Prepend([c], Expand(pieces[1..], memory, a, render))
      case Directive(flags, conversion) =>
        var c := ClassOf(conversion);
        if c == NoArgument then Prepend(['%', conversion], Expand(pieces[1..], memory, a, render))
        else
          var (arg, next) := Fetch(memory, a, c);
          match render(Spec(flags, conversion), ValueOf(conversion, arg))
          case Error(code) => Failed(code, [])
          case Full(text) => Prepend(Clip(text), Expand(pieces[1..], memory, next, render))
  }

  // The calling convention

  /**
   Arguments laid out from an address on as section 5.5 of the AAPCS says: doubles at
   multiples of eight, with a padding word before them where needed.
   */
  function Pack(args: seq<Arg>, a: Word, padding: Word): seq<Word> {
    if args == [] then []
    else match args[0]
      case WordArg(w) => [w] + Pack(args[1..], Wrap(a + 4), padding)
      case DoubleArg(low, high) =>
        if a % 8 == 0 then [low, high] + Pack(args[1..], Wrap(a + 8), padding)
        else [padding, low, high] + Pack(args[1..], Wrap(a + 12), padding)
  }

  /** The address after the layout. */
  function EndOf(args: seq<Arg>, a: Word): Word {
    if args == [] then a
    else EndOf(args[1..], Wrap(a + if args[0].WordArg? then 4 else if a % 8 == 0 then 8 else 12))
  }

  /** The directives take these arguments, one after the other. */
  predicate Takes(pieces: seq<Piece>, args: seq<Arg>) {
    if pieces == [] then args == []
    else
      var c := if pieces[0].Literal? then NoArgument else ClassOf(pieces[0].conversion);
      match c
      case NoArgument => Takes(pieces[1..], args)
      case OneWord => args != [] && args[0].WordArg? && Takes(pieces[1..], args[1..])
      case EightBytes => args != [] && args[0].DoubleArg? && Takes(pieces[1..], args[1..])
  }

  /** The text of a format for a list of arguments, without any memory. */
  function RenderAll(pieces: seq<Piece>, args: seq<Arg>, render: Render): Outcome
    requires Takes(pieces, args)
  {
    if pieces == [] then Done([])
    else match pieces[0]
      case Literal(c) => Prepend([c], RenderAll(pieces[1..], args, render))
      case Directive(flags, conversion) =>
        if ClassOf(conversion) == NoArgument then Prepend(['%', conversion], RenderAll(pieces[1..], args, render))
        else
          match render(Spec(flags, conversion), ValueOf(conversion, args[0]))
          case Error(code) => Failed(code, [])
          case Full(text) => Prepend(Clip(text), RenderAll(pieces[1..], args[1..], render))
  }

  /** The words are in memory from an address on. */
  ghost predicate Holds(memory: Reader, a: Word, words: seq<Word>)
    decreases |words|
  {
    words == [] || (memory(a) == words[0] && Holds(memory, Wrap(a + 4), words[1..]))
  }

  lemma {:induction false} HoldsOne(memory: Reader, a: Word, x: Word, rest: seq<Word>)
    requires Holds(memory, a, [x] + rest)
    ensures memory(a) == x && Holds(memory, Wrap(a + 4), rest)
  {
    assert ([x] + rest)[1..] == rest;
  }

  lemma {:induction false} HoldsTwo(memory: Reader, a: Word, x: Word, y: Word, rest: seq<Word>)
    requires Holds(memory, a, [x, y] + rest)
    ensures memory(a) == x && memory(Wrap(a + 4)) == y && Holds(memory, Wrap(a + 8), rest)
  {
    assert [x, y] + rest == [x] + ([y] + rest);
    HoldsOne(memory, a, x, [y] + rest);
    HoldsOne(memory, Wrap(a + 4), y, rest);
    Hops(a);
  }

  lemma {:induction false} Hops(a: Word)
    ensures Wrap(Wrap(a + 4) + 4) == Wrap(a + 8) && Wrap(Wrap(a + 4) + 8) == Wrap(a + 12)
    ensures a % 4 == 0 ==> Wrap(a + 4) % 4 == 0 && Wrap(a + 8) % 4 == 0 && Wrap(a + 12) % 4 == 0
  {
  }

  lemma {:induction false} AlignStep(a: Word)
    requires a % 4 == 0
    ensures AlignUp(a, 8) == if a % 8 == 0 then a else Wrap(a + 4)
    ensures AlignUp(a, 8) % 8 == 0
  {
    if a % 8 == 0 {
      assert (a + 7) % 8 == 7;
    } else {
      assert a % 8 == 4 && Wrap(a + 4) % 8 == 0;
      assert Wrap(a + 7) == Wrap(a + 4) + 3;
    }
  }

  /** Where a double is read: at the least multiple of eight that is not before the cursor, round the address space. */
  lemma {:induction false} DoubleSlot(a: Word)
    requires a % 4 == 0
    ensures AlignUp(a, 8) == if a % 8 == 0 then a else Wrap(a + 4)
    ensures AlignUp(a, 8) % 8 == 0 && Wrap(AlignUp(a, 8) + 8) % 4 == 0
    ensures Wrap(AlignUp(a, 8) + 8) == Wrap(a + if a % 8 == 0 then 8 else 12)
  {
    AlignStep(a);
    Hops(a);
  }

  lemma {:induction false} DoubleIsHeld(memory: Reader, a: Word, low: Word, high: Word, rest: seq<Word>, padding: Word)
    requires a % 4 == 0
    requires Holds(memory, a, (if a % 8 == 0 then [low, high] else [padding, low, high]) + rest)
    ensures var k := AlignUp(a, 8);
      memory(k) == low && memory(Wrap(k + 4)) == high && Holds(memory, Wrap(k + 8), rest)
  {
    DoubleSlot(a);
    if a % 8 == 0 {
      HoldsTwo(memory, a, low, high, rest);
    } else {
      assert [padding, low, high] + rest == [padding] + ([low, high] + rest);
      HoldsOne(memory, a, padding, [low, high] + rest);
      HoldsTwo(memory, Wrap(a + 4), low, high, rest);
    }
  }

  /** Fetching reads back the first argument and stops where the layout of the rest begins. */
  lemma {:induction false} FetchReadsBack(memory: Reader, a: Word, args: seq<Arg>, padding: Word, c: Class)
    requires args != [] && a % 4 == 0 && Holds(memory, a, Pack(args, a, padding))
    requires c == if args[0].WordArg? then OneWord else EightBytes
    ensures var (arg, next) := Fetch(memory, a, c);
      && arg == args[0] && next % 4 == 0
      && Holds(memory, next, Pack(args[1..], next, padding)) && EndOf(args, a) == EndOf(args[1..], next)
  {
    if args[0].WordArg? {
      Hops(a);
      HoldsOne(memory, a, args[0].w, Pack(args[1..], Wrap(a + 4), padding));
    } else {
      DoubleReadsBack(memory, a, args[0].low, args[0].high, args[1..], padding);
      assert args == [args[0]] + args[1..];
    }
  }

  lemma {:induction false} DoubleReadsBack(memory: Reader, a: Word, low: Word, high: Word, args: seq<Arg>, padding: Word)
    requires a % 4 == 0 && Holds(memory, a, Pack([DoubleArg(low, high)] + args, a, padding))
    ensures var k := AlignUp(a, 8);
      && memory(k) == low && memory(Wrap(k + 4)) == high && Wrap(k + 8) % 4 == 0
      && Holds(memory, Wrap(k + 8), Pack(args, Wrap(k + 8), padding))
      && EndOf([DoubleArg(low, high)] + args, a) == EndOf(args, Wrap(k + 8))
  {
    assert ([DoubleArg(low, high)] + args)[1..] == args;
    DoubleSlot(a);
    DoubleIsHeld(memory, a, low, high, Pack(args, Wrap(AlignUp(a, 8) + 8), padding), padding);
  }

  function Then(first: Outcome, rest: Outcome): Outcome {
    match first
    case Done(text) => Prepend(text, rest)
    case Failed(_, _) => first
  }

  lemma PrependThen(text: string, first: Outcome, rest: Outcome)
    ensures Then(Prepend(text, first), rest) == Prepend(text, Then(first, rest))
  {
  }

  /** Pieces that take the arguments of a call render exactly those, and the rest reads on behind them. */
  lemma {:induction false} ExpandAfter(pieces: seq<Piece>, rest: seq<Piece>, args: seq<Arg>, memory: Reader, a: Word,
                                       padding: Word, render: Render)
    requires a % 4 == 0 && Takes(pieces, args) && Holds(memory, a, Pack(args, a, padding))
    ensures Expand(pieces + rest, memory, a, render)
         == Then(RenderAll(pieces, args, render), Expand(rest, memory, EndOf(args, a), render))
    decreases |pieces|
  {
    var after := Expand(rest, memory, EndOf(args, a), render);
    if pieces == [] {
      assert pieces + rest == rest;
      assert Prepend([], after) == after;
    } else {
      var c := if pieces[0].Literal? then NoArgument else ClassOf(pieces[0].conversion);
      assert (pieces + rest)[1..] == pieces[1..] + rest;
      if c == NoArgument {
        ExpandAfter(pieces[1..], rest, args, memory, a, padding, render);
        var text := if pieces[0].Literal? then [pieces[0].c] else ['%', pieces[0].conversion];
        PrependThen(text, RenderAll(pieces[1..], args, render), after);
      } else {
        FetchReadsBack(memory, a, args, padding, c);
        ExpandAfter(pieces[1..], rest, args[1..], memory, Fetch(memory, a, c).1, padding, render);
        var printed := render(Spec(pieces[0].flags, pieces[0].conversion), ValueOf(pieces[0].conversion, args[0]));
        if printed.Full? {
          PrependThen(Clip(printed.text), RenderAll(pieces[1..], args[1..], render), after);
        }
      }
    }
  }

  /** A format that takes the arguments of a call renders exactly those arguments. */
  lemma {:induction false} FormatsItsArguments(pieces: seq<Piece>, args: seq<Arg>, memory: Reader, a: Word,
                                               padding: Word, render: Render)
    requires a % 4 == 0 && Takes(pieces, args) && Holds(memory, a, Pack(args, a, padding))
    ensures Expand(pieces, memory, a, render) == RenderAll(pieces, args, render)
  {
    assert pieces + [] == pieces;
    ExpandAfter(pieces, [], args, memory, a, padding, render);
  }

  // Formats that end inside a directive

  /** The walk from at comes to position p. */
  predicate Comes(fmt: string, at: nat, p: nat)
    requires at <= |fmt|
    decreases |fmt| - at
  {
    p == at || (at < |fmt| && Comes(fmt, PieceAt(fmt, at).1, p))
  }

  /** A percent sign at p, and after it nothing but flags, all of which fit. */
  predicate CutAt(fmt: string, p: nat) {
    p < |fmt| && fmt[p] == '%' && |fmt| <= p + 1 + FLAG_ROOM && forall i | p < i < |fmt| :: IsFlag(fmt[i])
  }

  lemma {:induction false} FlagsToEnd(fmt: string, at: nat, room: nat, flag: char -> bool)
    requires at <= |fmt|
    ensures FlagsEnd(fmt, at, room, flag) == |fmt|
       <==> |fmt| <= at + room && forall i | at <= i < |fmt| :: flag(fmt[i])
    decreases |fmt| - at
  {
    if room > 0 && at < |fmt| && flag(fmt[at]) {
      FlagsToEnd(fmt, at + 1, room - 1, flag);
    }
  }

  /** A piece has no conversion exactly when it is cut, and then it is the last. */
  lemma {:induction false} CutPiece(fmt: string, at: nat)
    requires at < |fmt| && '\0' !in fmt
    ensures var (piece, next) := PieceAt(fmt, at);
      && (CutAt(fmt, at) <==> IsCut(piece))
      && (CutAt(fmt, at) ==> next == |fmt| && piece == Directive(fmt[at + 1..], '\0'))
  {
    if fmt[at] == '%' && at + 1 < |fmt| && fmt[at + 1] == '%' {
      assert !IsFlag(fmt[at + 1]);
    } else if fmt[at] == '%' {
      FlagsToEnd(fmt, at + 1, FLAG_ROOM, IsFlag);
    }
  }

  /** The pieces without the one that is cut. */
  function Finished(pieces: seq<Piece>): seq<Piece> {
    if pieces == [] then []
    else (if IsCut(pieces[0]) then [] else [pieces[0]]) + Finished(pieces[1..])
  }

  /** Where the walk from at comes to a cut directive, |fmt| if it never does. */
  function CutPoint(fmt: string, at: nat): (p: nat)
    requires at <= |fmt|
    ensures p <= |fmt|
    decreases |fmt| - at
  {
    if at == |fmt| || CutAt(fmt, at) then at else CutPoint(fmt, PieceAt(fmt, at).1)
  }

  /** That is the one position of the walk with a percent sign and only flags behind it. */
  lemma {:induction false} CutPointIff(fmt: string, at: nat, q: nat)
    requires at <= |fmt| && '\0' !in fmt && q < |fmt|
    ensures CutPoint(fmt, at) == q <==> Comes(fmt, at, q) && CutAt(fmt, q)
    decreases |fmt| - at
  {
    if at < |fmt| {
      CutPiece(fmt, at);
      if CutAt(fmt, at) {
        NothingComesAfter(fmt, q);
      } else {
        CutPointIff(fmt, PieceAt(fmt, at).1, q);
      }
    }
  }

  lemma {:induction false} NothingComesAfter(fmt: string, q: nat)
    requires q < |fmt|
    ensures !Comes(fmt, |fmt|, q)
  {
  }

  /** Only the last piece can lack a conversion, and does when the walk comes to a cut one. */
  lemma {:induction false} CutIsLast(fmt: string, at: nat)
    requires at <= |fmt| && '\0' !in fmt
    ensures Pieces(fmt, at) == Finished(Pieces(fmt, at)) + Cut(fmt, CutPoint(fmt, at))
    decreases |fmt| - at
  {
    if at < |fmt| {
      var (piece, next) := PieceAt(fmt, at);
      CutPiece(fmt, at);
      if CutAt(fmt, at) {
        assert Pieces(fmt, next) == [] && Pieces(fmt, at) == [piece] + [];
        FinishedCut(piece, Cut(fmt, at));
      } else {
        CutIsLast(fmt, next);
        assert Pieces(fmt, at) == [piece] + Pieces(fmt, next);
        FinishedCons(piece, Pieces(fmt, next), Cut(fmt, CutPoint(fmt, next)));
      }
    }
  }

  lemma {:induction false} FinishedCut(piece: Piece, cut: seq<Piece>)
    requires IsCut(piece) && cut == [piece]
    ensures [piece] + [] == Finished([piece] + []) + cut
  {
    assert [piece] + [] == [piece] && [piece][1..] == [];
  }

  lemma {:induction false} FinishedCons(piece: Piece, rest: seq<Piece>, cut: seq<Piece>)
    requires !IsCut(piece) && rest == Finished(rest) + cut
    ensures [piece] + rest == Finished([piece] + rest) + cut
  {
    assert ([piece] + rest)[1..] == rest;
  }

  function Cut(fmt: string, p: nat): seq<Piece> {
    if p < |fmt| then [Directive(fmt[p + 1..], '\0')] else []
  }

  /** The classes of the arguments that pieces take, in order. */
  function Wants(pieces: seq<Piece>): seq<Class> {
    if pieces == [] then []
    else if pieces[0].Literal? || ClassOf(pieces[0].conversion) == NoArgument then Wants(pieces[1..])
    else [ClassOf(pieces[0].conversion)] + Wants(pieces[1..])
  }

  function ClassesOf(args: seq<Arg>): seq<Class> {
    seq(|args|, i requires 0 <= i < |args| => if args[i].WordArg? then OneWord else EightBytes)
  }

  lemma {:induction false} TakesIff(pieces: seq<Piece>, args: seq<Arg>)
    ensures Takes(pieces, args) <==> ClassesOf(args) == Wants(pieces)
    decreases |pieces|
  {
    if pieces != [] {
      var c := if pieces[0].Literal? then NoArgument else ClassOf(pieces[0].conversion);
      if c == NoArgument {
        TakesIff(pieces[1..], args);
      } else if args != [] {
        TakesIff(pieces[1..], args[1..]);
        assert ClassesOf(args)[1..] == ClassesOf(args[1..]);
        assert Wants(pieces)[1..] == Wants(pieces[1..]);
        assert ClassesOf(args) == [ClassesOf(args)[0]] + ClassesOf(args)[1..];
      }
    }
  }

  lemma {:induction false} WantsAppend(first: seq<Piece>, second: seq<Piece>)
    ensures Wants(first + second) == Wants(first) + Wants(second)
  {
    if first == [] {
      assert first + second == second;
    } else {
      assert (first + second)[1..] == first[1..] + second;
      WantsAppend(first[1..], second);
    }
  }

  predicate IsCut(piece: Piece) {
    piece.Directive? && piece.conversion == '\0'
  }

  lemma {:induction false} NoneIsCut(pieces: seq<Piece>)
    ensures forall i | 0 <= i < |Finished(pieces)| :: !IsCut(Finished(pieces)[i])
  {
    if pieces != [] {
      NoneIsCut(pieces[1..]);
    }
  }

  /** A format ends in a directive without a conversion exactly when its walk comes to a percent sign with only flags behind it. */
  lemma {:induction false} CutIff(fmt: string)
    requires '\0' !in fmt
    ensures CutPoint(fmt, 0) < |fmt| <==> exists p :: Comes(fmt, 0, p) && CutAt(fmt, p)
    ensures var pieces := Pieces(fmt, 0); CutPoint(fmt, 0) < |fmt| <==> pieces != [] && IsCut(pieces[|pieces| - 1])
  {
    if CutPoint(fmt, 0) < |fmt| {
      CutPointIff(fmt, 0, CutPoint(fmt, 0));
    }
    forall p | Comes(fmt, 0, p) && CutAt(fmt, p) ensures CutPoint(fmt, 0) == p {
      CutPointIff(fmt, 0, p);
    }
    CutIsLast(fmt, 0);
    NoneIsCut(Pieces(fmt, 0));
  }

  /**
   Exactly the formats that are cut read one double more than their finished directives
   take. It is what lies in memory behind the arguments of a call that passes only those.
   */
  lemma {:induction false} CutReadsDouble(fmt: string, args: seq<Arg>, memory: Reader, a: Word, padding: Word, render: Render)
    requires '\0' !in fmt && a % 4 == 0 && Holds(memory, a, Pack(args, a, padding))
    requires Takes(Finished(Pieces(fmt, 0)), args)
    ensures Wants(Pieces(fmt, 0)) == ClassesOf(args) + if CutPoint(fmt, 0) < |fmt| then [EightBytes] else []
    ensures Expand(Pieces(fmt, 0), memory, a, render)
         == Then(RenderAll(Finished(Pieces(fmt, 0)), args, render),
                 if CutPoint(fmt, 0) == |fmt| then Done([])
                 else OneDouble(fmt[CutPoint(fmt, 0) + 1..], memory, AlignUp(EndOf(args, a), 8), render))
  {
    var finished, p := Finished(Pieces(fmt, 0)), CutPoint(fmt, 0);
    CutIsLast(fmt, 0);
    TakesIff(finished, args);
    WantsAppend(finished, Cut(fmt, p));
    ExpandAfter(finished, Cut(fmt, p), args, memory, a, padding, render);
    if p < |fmt| {
      ExpandCut(fmt[p + 1..], memory, EndOf(args, a), render);
    }
  }

  lemma {:induction false} ExpandCut(flags: string, memory: Reader, a: Word, render: Render)
    ensures Expand([Directive(flags, '\0')], memory, a, render) == OneDouble(flags, memory, AlignUp(a, 8), render)
    ensures Wants([Directive(flags, '\0')]) == [EightBytes]
  {
    assert [Directive(flags, '\0')][1..] == [];
    var printed := render(Spec(flags, '\0'), ValueOf('\0', Fetch(memory, a, EightBytes).0));
    if printed.Full? {
      assert Clip(printed.text) + [] == Clip(printed.text);
    }
  }

  /** The text of a directive cut after its flags, when it reads the double at k. */
  function OneDouble(flags: string, memory: Reader, k: Word, render: Render): Outcome {
    match render(Spec(flags, '\0'), Double(memory(k), memory(Wrap(k + 4))))
    case Error(code) => Failed(code, [])
    case Full(text) => Done(Clip(text))
  }

  /** A lone percent sign is cut, with or without a flag. */
  lemma {:induction false} CutExamples()
    ensures Pieces("%", 0) == [Directive("", '\0')]
    ensures Pieces("%5", 0) == [Directive("5", '\0')]
  {
    CutPieces("%");
    CutPieces("%5");
  }

  lemma {:induction false} CutPieces(fmt: string)
    requires CutAt(fmt, 0) && '\0' !in fmt
    ensures Pieces(fmt, 0) == [Directive(fmt[1..], '\0')]
  {
    CutPiece(fmt, 0);
    assert Pieces(fmt, |fmt|) == [];
  }

  /** One that is escaped or taken as a conversion is not. */
  lemma {:induction false} WholeExamples()
    ensures Pieces("%%", 0) == [Literal('%')]
    ensures Pieces("%5%", 0) == [Directive("5", '%')] && ClassOf('%') == NoArgument
  {
    var escaped := "%%";
    assert PieceAt(escaped, 0) == (Literal('%'), 2) && Pieces(escaped, 2) == [];
    TakenPercent('5', IsFlag);
  }

  lemma {:induction false} TakenPercent(c: char, flag: char -> bool)
    requires flag == IsFlag && flag(c) && !flag('%')
    ensures Pieces(['%', c, '%'], 0) == [Directive([c], '%')]
  {
    var fmt := ['%', c, '%'];
    assert FlagsEnd(fmt, 2, 28, flag) == 2;
    assert FlagsEnd(fmt, 1, 29, flag) == 2;
    assert fmt[1..2] == [c];
    assert PieceAt(fmt, 0) == (Directive([c], '%'), 3) && Pieces(fmt, 3) == [];
  }

  // The buffer

  /** A smaller buffer holds a shorter prefix of the same text, still closed by a NUL. */
  lemma SmallerHoldsPrefix(text: string, small: nat, large: nat)
    requires 0 < small <= large
    ensures var s, l := Stored(text, small), Stored(text, large);
      && |s| <= small && s[|s| - 1] == '\0'
      && s[..|s| - 1] <= l[..|l| - 1] <= text
      && (|text| < small ==> s == l == text + ['\0'])
  {
  }

  // What a directive is and what it prints

  /** A percent sign, at most 29 flags and a conversion make a directive; two percent signs stand for one. */
  lemma {:induction false} DirectiveIsRead(fmt: string, at: nat, flags: string, c: char)
    requires at + 2 + |flags| <= |fmt| && fmt[at] == '%' && fmt[at + 1..at + 1 + |flags|] == flags && fmt[at + 1 + |flags|] == c
    requires |flags| <= 29 && forall i | 0 <= i < |flags| :: flags[i] in "-+ #0.123456789hlzL"
    requires |flags| == 29 || c !in "-+ #0.123456789hlzL"
    ensures PieceAt(fmt, at)
         == (if flags == [] && c == '%' then Literal('%') else Directive(flags, c), at + 2 + |flags|)
  {
    if flags != [] {
      assert fmt[at + 1] == flags[0];
    }
    FlagsAre(fmt, at + 1, 29, IsFlag, flags);
  }

  lemma {:induction false} FlagsAre(fmt: string, at: nat, room: nat, flag: char -> bool, flags: string)
    requires at + |flags| < |fmt| && fmt[at..at + |flags|] == flags && |flags| <= room
    requires (forall i | 0 <= i < |flags| :: flag(flags[i])) && (|flags| == room || !flag(fmt[at + |flags|]))
    ensures FlagsEnd(fmt, at, room, flag) == at + |flags|
    decreases |flags|
  {
    if flags != [] {
      assert fmt[at] == flags[0] && fmt[at + 1..at + 1 + |flags[1..]|] == flags[1..];
      FlagsAre(fmt, at + 1, room - 1, flag, flags[1..]);
    }
  }

  /** Any other character stands for itself: a text without percent signs is printed as it is. */
  lemma {:induction false} PlainTextStays(fmt: string, at: nat, memory: Reader, a: Word, render: Render)
    requires at <= |fmt| && '%' !in fmt
    ensures Expand(Pieces(fmt, at), memory, a, render) == Done(fmt[at..])
    decreases |fmt| - at
  {
    if at < |fmt| {
      PlainTextStays(fmt, at + 1, memory, a, render);
      assert PieceAt(fmt, at) == (Literal(fmt[at]), at + 1);
      assert ([Literal(fmt[at])] + Pieces(fmt, at + 1))[1..] == Pieces(fmt, at + 1);
      assert [fmt[at]] + fmt[at + 1..] == fmt[at..];
    }
  }

  /** What is printed of one rendered argument: at most 255 characters, or a failure. */
  function Printed(r: Rendered): Outcome {
    match r
    case Error(code) => Failed(code, [])
    case Full(text) => Done(if |text| <= 255 then text else text[..255])
  }

  /**
   What one directive prints of the argument word at an address: a string, a signed or an
   unsigned number, or a pointer; a double at the next multiple of eight; and nothing but
   itself for an unknown conversion.
   */
  lemma {:induction false} DirectivePrints(flags: string, c: char, memory: Reader, a: Word, render: Render)
    requires a % 4 == 0 && c != '\0'
    ensures var w, k, spec := memory(a), if a % 8 == 0 then a else Wrap(a + 4), ['%'] + flags + [c];
      Expand([Directive(flags, c)], memory, a, render)
      == match c
         case 's' => Printed(render(spec, if w == 0 then Null else Text(w)))
         case 'c' | 'd' | 'i' => Printed(render(spec, Signed(if w < 0x8000_0000 then w else w - 0x1_0000_0000)))
         case 'u' | 'x' | 'X' | 'o' => Printed(render(spec, Unsigned(w)))
         case 'p' => Printed(render(spec, Pointer(w)))
         case 'a' | 'A' | 'e' | 'E' | 'f' | 'F' | 'g' | 'G' => Printed(render(spec, Double(memory(k), memory(Wrap(k + 4)))))
         case _ => Done(['%', c])
  {
    DoubleSlot(a);
    var pieces := [Directive(flags, c)];
    assert pieces[1..] == [];
    var w, k := memory(a), AlignUp(a, 8);
    OneArgument(flags, c, memory, a, render);
  }

  lemma {:induction false} OneArgument(flags: string, c: char, memory: Reader, a: Word, render: Render)
    requires c != '\0'
    ensures Expand([Directive(flags, c)], memory, a, render)
         == if ClassOf(c) == NoArgument then Done(['%', c])
            else Printed(render(['%'] + flags + [c], ValueOf(c, Fetch(memory, a, ClassOf(c)).0)))
  {
    assert [Directive(flags, c)][1..] == [];
    assert ['%', c] + [] == ['%', c];
  }
}
