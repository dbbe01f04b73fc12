/** The text of the configuration file as lines, and the keyed edit of one of them. */
module ConfigText {
  import opened Words
  import opened Search
  import opened Buffers
  import opened Sequences
  import opened Archive

  const NEWLINE: Byte := 0x0A

  /** The position after the first newline, or the end of the text. */
  function LineEnd(text: Bytes): (n: nat)
    ensures n <= |text| && (text != [] ==> n > 0)
    ensures forall i | 0 <= i < n - 1 :: text[i] != NEWLINE
    ensures n < |text| ==> text[n - 1] == NEWLINE
  {
    if text == [] then 0 else if text[0] == NEWLINE then 1 else 1 + LineEnd(text[1..])
  }

  /** The lines with their newlines; the last one may lack it. */
  function Lines(text: Bytes): (r: seq<Bytes>)
    ensures r == [] <==> text == []
  {
    if text == [] then [] else Prepend(text[0], Lines(text[1..]))
  }

  /** The lines of a text with one more byte in front. */
  function Prepend(c: Byte, lines: seq<Bytes>): (r: seq<Bytes>)
    ensures r != []
  {
    if c == NEWLINE || lines == [] then [[c]] + lines else [[c] + lines[0]] + lines[1..]
  }

  lemma PrependConcat(c: Byte, first: seq<Bytes>, second: seq<Bytes>)
    requires c == NEWLINE || first != []
    ensures Prepend(c, first + second) == Prepend(c, first) + second
  {
  }

  lemma {:induction false} LinesConcat(text: Bytes)
    ensures Flatten(Lines(text)) == text
  {
    if text != [] {
      LinesConcat(text[1..]);
      assert text == [text[0]] + text[1..];
    }
  }

  predicate Terminated(text: Bytes) {
    text != [] && text[|text| - 1] == NEWLINE
  }

  /** A newline-terminated single line. */
  predicate OneLine(line: Bytes) {
    Terminated(line) && forall i | 0 <= i < |line| - 1 :: line[i] != NEWLINE
  }

  /** Lines of a text that is cut after a newline. */
  lemma {:induction false} LinesSplit(a: Bytes, b: Bytes)
    requires a == [] || Terminated(a)
    ensures Lines(a + b) == Lines(a) + Lines(b)
  {
    if a == [] {
      assert a + b == b;
    } else {
      LinesSplit(a[1..], b);
      assert (a + b)[0] == a[0] && (a + b)[1..] == a[1..] + b;
      PrependConcat(a[0], Lines(a[1..]), Lines(b));
    }
  }

  lemma {:induction false} SingleLine(line: Bytes)
    requires line != [] && (OneLine(line) || NEWLINE !in line)
    ensures Lines(line) == [line]
  {
    if |line| > 1 {
      SingleLine(line[1..]);
      assert line == [line[0]] + line[1..];
    } else {
      assert line == [line[0]] && line[1..] == [];
    }
  }

  lemma FirstLine(text: Bytes)
    requires text != []
    ensures Lines(text) == [text[..LineEnd(text)]] + Lines(text[LineEnd(text)..])
  {
    var n := LineEnd(text);
    var first, rest := text[..n], text[n..];
    assert text == first + rest;
    SingleLine(first);
    if rest == [] {
      assert first + rest == first;
    } else {
      LinesSplit(first, rest);
    }
  }

  // The search

  predicate LineStart(text: Bytes, i: nat)
    requires i <= |text|
  {
    i == 0 || text[i - 1] == NEWLINE
  }

  /**
   The search loop: occurrences that do not start a line are skipped by the length of the key.
   (The empty key occurs at the start of the text and is never skipped.)
   */
  function SearchFrom(text: Bytes, key: Bytes, from: nat): (r: Option<nat>)
    requires from <= |text|
    ensures r.Some? ==> r.value + |key| <= |text|
    decreases |text| - from
  {
    var found := Find(text, key, from);
    if found == None || LineStart(text, found.value) then found
    else if key == [] then None
    else SearchFrom(text, key, found.value + |key|)
  }

  /** The search goes on from what was found. */
  function SearchOn(text: Bytes, key: Bytes, found: Option<nat>): Option<nat>
    requires found.Some? ==> found.value + |key| <= |text|
  {
    if found == None || LineStart(text, found.value) then found
    else if key == [] then None
    else SearchFrom(text, key, found.value + |key|)
  }

  /** strstr, and what it means for the search. */
  method StrStr(text: Bytes, key: Bytes, from: nat) returns (found: Option<nat>)
    requires from <= |text|
    ensures found.Some? ==> from <= found.value && found.value + |key| <= |text|
    ensures SearchFrom(text, key, from) == SearchOn(text, key, found)
    ensures key == [] ==> found == Some(from)
  {
    found := Find(text, key, from);
  }

  lemma {:induction false} NoLineStartsInside(text: Bytes, key: Bytes, m: nat)
    requires Occurs(text, key, m) && NEWLINE !in key
    ensures forall i | m < i < m + |key| :: !LineStart(text, i)
  {
    forall i | m < i < m + |key| ensures !LineStart(text, i) {
      assert text[i - 1] == text[m..m + |key|][i - 1 - m];
    }
  }

  lemma {:induction false} SearchHits(text: Bytes, key: Bytes, from: nat)
    requires from <= |text| && key != [] && SearchFrom(text, key, from).Some?
    ensures var m := SearchFrom(text, key, from).value; Occurs(text, key, m) && LineStart(text, m)
    decreases |text| - from
  {
    FindIsFirst(text, key, from);
    var m := Find(text, key, from).value;
    if !LineStart(text, m) {
      SearchHits(text, key, m + |key|);
    }
  }

  lemma {:induction false} SearchMissesNone(text: Bytes, key: Bytes, from: nat, i: nat)
    requires from <= i <= |text| && key != [] && NEWLINE !in key
    requires SearchFrom(text, key, from).Some? ==> i < SearchFrom(text, key, from).value
    ensures !(Occurs(text, key, i) && LineStart(text, i))
    decreases |text| - from
  {
    FindIsFirst(text, key, from);
    var found := Find(text, key, from);
    if found.Some? && found.value <= i {
      NoLineStartsInside(text, key, found.value);
      if found.value + |key| <= i {
        SearchMissesNone(text, key, found.value + |key|, i);
      }
    }
  }

  /** Skipping by the length of a newline-free key misses no occurrence at the start of a line. */
  lemma {:induction false} SearchFindsFirst(text: Bytes, key: Bytes, from: nat)
    requires from <= |text| && key != [] && NEWLINE !in key
    ensures var r := SearchFrom(text, key, from);
      && (r.Some? ==> Occurs(text, key, r.value) && LineStart(text, r.value))
      && forall i | from <= i <= |text| && (r.Some? ==> i < r.value) :: !(Occurs(text, key, i) && LineStart(text, i))
  {
    var r := SearchFrom(text, key, from);
    if r.Some? {
      SearchHits(text, key, from);
    }
    forall i | from <= i <= |text| && (r.Some? ==> i < r.value) ensures !(Occurs(text, key, i) && LineStart(text, i)) {
      SearchMissesNone(text, key, from, i);
    }
  }

  // The edit

  /** The text ensure_caustic_config_line writes. The search sees the C string, the copies see the whole file. */
  function Edit(contents: Bytes, key: Bytes, line: Bytes): Bytes {
    var text := CString(contents, 0);
    EditAt(contents, text, line, SearchFrom(text, key, 0))
  }

  function EditAt(contents: Bytes, text: Bytes, line: Bytes, found: Option<nat>): Bytes
    requires |text| <= |contents| && (found.Some? ==> found.value <= |text|)
  {
    match found
    case Some(m) => contents[..m] + line + contents[SuffixAt(contents, text, m)..]
    case None =>
      var separator := if contents != [] && !Terminated(contents) then [NEWLINE] else [];
      contents + separator + line
  }

  /** Where the text after the matched line begins: the search for its end stops at a NUL. */
  function SuffixAt(contents: Bytes, text: Bytes, m: nat): (n: nat)
    requires m <= |text| <= |contents|
    ensures m <= n <= |contents|
  {
    if NEWLINE in text[m..] then m + LineEnd(text[m..]) else |contents|
  }

  /** The first line with the key, |lines| if there is none. */
  function FirstKeyed(lines: seq<Bytes>, key: Bytes): (i: nat)
    ensures i <= |lines|
    ensures i < |lines| ==> key <= lines[i]
    ensures forall j | 0 <= j < i :: !(key <= lines[j])
  {
    if lines == [] || key <= lines[0] then 0
    else
      var i := FirstKeyed(lines[1..], key);
      assert forall j | 1 <= j < i + 1 :: lines[j] == lines[1..][j - 1];
      1 + i
  }

  function Terminate(line: Bytes): Bytes {
    if Terminated(line) then line else line + [NEWLINE]
  }

  /** The keyed update of a list of lines: replace the first line with the key, or append. */
  function EditLines(lines: seq<Bytes>, key: Bytes, line: Bytes): seq<Bytes> {
    var i := FirstKeyed(lines, key);
    if i < |lines| then lines[i := line]
    else if lines == [] then [line]
    else lines[|lines| - 1 := Terminate(lines[|lines| - 1])] + [line]
  }

  ghost predicate ValidEdit(key: Bytes, line: Bytes) {
    key != [] && NEWLINE !in key && OneLine(line) && key <= line
  }

  lemma {:induction false} KeyAtStart(text: Bytes, key: Bytes, line: Bytes)
    requires line <= text && !Occurs(text, key, 0)
    ensures !(key <= line)
  {
    if |key| <= |line| {
      assert text[0..|key|] == line[..|key|];
    }
  }

  /** No line of a prefix has the key if no line-start occurrence begins in it. */
  lemma {:induction false} NoKeyBefore(text: Bytes, key: Bytes, a: Bytes)
    requires a <= text && (a == text || a == [] || Terminated(a))
    requires forall i | 0 <= i < |a| :: !(Occurs(text, key, i) && LineStart(text, i))
    ensures forall j | 0 <= j < |Lines(a)| :: !(key <= Lines(a)[j])
    decreases |a|
  {
    if a != [] {
      var n := LineEnd(a);
      var rest, tail := a[n..], text[n..];
      FirstLine(a);
      assert !(key <= a[..n]) by {
        KeyAtStart(text, key, a[..n]);
      }
      forall i | 0 <= i < |rest| ensures !(Occurs(tail, key, i) && LineStart(tail, i)) {
        assert !(Occurs(text, key, n + i) && LineStart(text, n + i));
        OccursInRest(text, key, n, i);
      }
      NoKeyBefore(tail, key, rest);
    }
  }

  function Last(lines: seq<Bytes>): Bytes
    requires lines != []
  {
    lines[|lines| - 1]
  }

  function TerminateLast(lines: seq<Bytes>): seq<Bytes>
    requires lines != []
  {
    lines[|lines| - 1 := Last(lines) + [NEWLINE]]
  }

  lemma PrependTerminates(c: Byte, lines: seq<Bytes>)
    requires lines != []
    ensures Prepend(c, TerminateLast(lines)) == TerminateLast(Prepend(c, lines))
  {
    if |lines| == 1 && c != NEWLINE {
      assert [c] + (lines[0] + [NEWLINE]) == ([c] + lines[0]) + [NEWLINE];
    }
  }

  /** A newline added to a text is added to its last line. */
  lemma {:induction false} LinesTerminate(text: Bytes)
    requires text != [] && !Terminated(text)
    ensures Lines(text + [NEWLINE]) == TerminateLast(Lines(text))
  {
    var rest, longer := text[1..], text + [NEWLINE];
    assert longer[0] == text[0] && longer[1..] == rest + [NEWLINE];
    if rest == [] {
      SingleLine(text);
      SingleLine(longer);
    } else {
      LinesTerminate(rest);
      PrependTerminates(text[0], Lines(rest));
    }
  }

  lemma {:induction false} LastLineEndsText(text: Bytes)
    requires text != []
    ensures var l := Last(Lines(text)); l != [] && l[|l| - 1] == text[|text| - 1]
  {
    if |text| > 1 {
      var rest := text[1..];
      LastLineEndsText(rest);
      LastOfPrepend(text[0], Lines(rest));
      assert Lines(text) == Prepend(text[0], Lines(rest));
      assert rest[|rest| - 1] == text[|text| - 1];
    } else {
      SingleLine(text);
    }
  }

  lemma LastOfPrepend(c: Byte, lines: seq<Bytes>)
    requires lines != []
    ensures Last(Prepend(c, lines)) == Last(lines) || Last(Prepend(c, lines)) == [c] + Last(lines)
  {
  }

  /** The edit of a NUL-free text is the keyed update of its lines. */
  lemma EditIsLineUpdate(contents: Bytes, key: Bytes, line: Bytes)
    requires ValidEdit(key, line) && 0 !in contents
    ensures Lines(Edit(contents, key, line)) == EditLines(Lines(contents), key, line)
  {
    WholeCString(contents, 0);
    SearchFindsFirst(contents, key, 0);
    match SearchFrom(contents, key, 0)
    case Some(m) => ReplaceIsUpdate(contents, key, line, m);
    case None =>
      NoKeyedLine(contents, key);
      AppendIsUpdate(contents, key, line);
  }

  lemma ReplaceIsUpdate(contents: Bytes, key: Bytes, line: Bytes, m: nat)
    requires ValidEdit(key, line) && Occurs(contents, key, m) && LineStart(contents, m)
    requires forall i | 0 <= i < m :: !(Occurs(contents, key, i) && LineStart(contents, i))
    ensures Lines(EditAt(contents, contents, line, Some(m))) == EditLines(Lines(contents), key, line)
  {
    var before, rest := contents[..m], contents[m..];
    assert contents == before + rest;
    assert contents[m..m + |key|] == rest[..|key|];
    EditReplaces(contents, line, m);
    KeyInFirstLine(rest, key);
    NoKeyBefore(contents, key, before);
    ReplaceLine(before, rest, key, line);
  }

  lemma EditReplaces(contents: Bytes, line: Bytes, m: nat)
    requires m <= |contents|
    ensures EditAt(contents, contents, line, Some(m)) == contents[..m] + (line + contents[m..][LineEnd(contents[m..])..])
  {
    SuffixOfText(contents, m);
  }

  lemma SuffixOfText(contents: Bytes, m: nat)
    requires m <= |contents|
    ensures contents[SuffixAt(contents, contents, m)..] == contents[m..][LineEnd(contents[m..])..]
  {
    var rest := contents[m..];
    assert NEWLINE !in rest ==> LineEnd(rest) == |rest|;
  }

  lemma KeyInFirstLine(rest: Bytes, key: Bytes)
    requires key <= rest && NEWLINE !in key
    ensures key <= rest[..LineEnd(rest)]
  {
  }

  /** Replacing the first line of rest replaces the first keyed line of the whole. */
  lemma ReplaceLine(before: Bytes, rest: Bytes, key: Bytes, line: Bytes)
    requires ValidEdit(key, line) && (before == [] || Terminated(before))
    requires rest != [] && key <= rest[..LineEnd(rest)]
    requires forall j | 0 <= j < |Lines(before)| :: !(key <= Lines(before)[j])
    ensures Lines(before + (line + rest[LineEnd(rest)..])) == EditLines(Lines(before + rest), key, line)
  {
    var keyed, after := rest[..LineEnd(rest)], rest[LineEnd(rest)..];
    assert Lines(before + rest) == Lines(before) + ([keyed] + Lines(after)) by {
      LinesSplit(before, rest);
      FirstLine(rest);
    }
    assert Lines(before + (line + after)) == Lines(before) + ([line] + Lines(after)) by {
      LinesSplit(before, line + after);
      LinesSplit(line, after);
      SingleLine(line);
    }
    UpdateAt(Lines(before), keyed, Lines(after), key, line);
  }

  lemma UpdateAt(before: seq<Bytes>, keyed: Bytes, after: seq<Bytes>, key: Bytes, line: Bytes)
    requires key <= keyed && forall j | 0 <= j < |before| :: !(key <= before[j])
    ensures EditLines(before + ([keyed] + after), key, line) == before + ([line] + after)
  {
    FirstKeyedIs(before + ([keyed] + after), key, |before|);
  }

  lemma NoKeyedLine(text: Bytes, key: Bytes)
    requires forall i | 0 <= i <= |text| :: !(Occurs(text, key, i) && LineStart(text, i))
    ensures FirstKeyed(Lines(text), key) == |Lines(text)|
  {
    NoKeyBefore(text, key, text);
    FirstKeyedIs(Lines(text), key, |Lines(text)|);
  }

  lemma {:induction false} AppendIsUpdate(contents: Bytes, key: Bytes, line: Bytes)
    requires ValidEdit(key, line) && FirstKeyed(Lines(contents), key) == |Lines(contents)|
    ensures Lines(EditAt(contents, contents, line, None)) == EditLines(Lines(contents), key, line)
  {
    AppendLine(contents, line);
    AppendedLine(Lines(contents), key, line);
  }

  lemma {:induction false} AppendedLine(lines: seq<Bytes>, key: Bytes, line: Bytes)
    requires FirstKeyed(lines, key) == |lines|
    ensures EditLines(lines, key, line)
         == if lines == [] then [line] else lines[|lines| - 1 := Terminate(Last(lines))] + [line]
  {
  }

  lemma {:induction false} AppendLine(contents: Bytes, line: Bytes)
    requires OneLine(line)
    ensures Lines(EditAt(contents, contents, line, None))
      == if contents == [] then [line]
         else Lines(contents)[|Lines(contents)| - 1 := Terminate(Last(Lines(contents)))] + [line]
  {
    if contents == [] {
      SingleLine(line);
      assert contents + [] + line == line;
    } else {
      LastLineEndsText(contents);
      if Terminated(contents) {
        assert contents + [] == contents;
        AppendToTerminated(contents, line);
      } else {
        AppendToTerminated(contents + [NEWLINE], line);
        LinesTerminate(contents);
      }
    }
  }

  lemma AppendToTerminated(text: Bytes, line: Bytes)
    requires OneLine(line) && Terminated(text)
    ensures Lines(text + line) == Lines(text) + [line]
  {
    SingleLine(line);
    LinesSplit(text, line);
  }

  lemma FirstKeyedIs(lines: seq<Bytes>, key: Bytes, i: nat)
    requires i <= |lines| && (forall j | 0 <= j < i :: !(key <= lines[j])) && (i < |lines| ==> key <= lines[i])
    ensures FirstKeyed(lines, key) == i
  {
  }

  // What the update means

  lemma TerminateKeepsKey(line: Bytes, key: Bytes)
    requires NEWLINE !in key
    ensures key <= Terminate(line) <==> key <= line
  {
    assert (line + [NEWLINE])[|line|] == NEWLINE;
  }

  /** After the update the given line is the first one with the key, at the place of the line it replaced or at the end. */
  lemma UpdatedLineIsFirst(lines: seq<Bytes>, key: Bytes, line: Bytes)
    requires ValidEdit(key, line)
    ensures var r := EditLines(lines, key, line);
      FirstKeyed(r, key) == FirstKeyed(lines, key) < |r| && r[FirstKeyed(r, key)] == line
  {
    var i := FirstKeyed(lines, key);
    if i == |lines| && lines != [] {
      TerminateKeepsKey(lines[i - 1], key);
    }
    FirstKeyedIs(EditLines(lines, key, line), key, i);
  }

  /** Updating twice is updating once. */
  lemma UpdateIsIdempotent(lines: seq<Bytes>, key: Bytes, line: Bytes)
    requires ValidEdit(key, line)
    ensures EditLines(EditLines(lines, key, line), key, line) == EditLines(lines, key, line)
  {
    UpdatedLineIsFirst(lines, key, line);
  }

  /** The rest of the first line with a key, without its newline. */
  function Lookup(lines: seq<Bytes>, key: Bytes): Option<Bytes> {
    var i := FirstKeyed(lines, key);
    if i < |lines| then Some(Chomp(lines[i])) else None
  }

  function Chomp(line: Bytes): Bytes {
    if Terminated(line) then line[..|line| - 1] else line
  }

  /** A line without the other key in the place of another one hides nothing. */
  lemma {:induction false} ReplaceKeepsOther(lines: seq<Bytes>, i: nat, line: Bytes, other: Bytes)
    requires i < |lines| && !(other <= line) && !(other <= lines[i])
    ensures Lookup(lines[i := line], other) == Lookup(lines, other)
  {
    FirstKeyedIs(lines[i := line], other, FirstKeyed(lines, other));
  }

  lemma {:induction false} Appended(lines: seq<Bytes>, last: Bytes, line: Bytes)
    requires lines != []
    ensures var r := lines[|lines| - 1 := last] + [line];
      && |r| == |lines| + 1 && r[|lines| - 1] == last && r[|lines|] == line
      && forall k | 0 <= k < |lines| - 1 :: r[k] == lines[k]
  {
  }

  lemma {:induction false} TerminateKeepsText(line: Bytes)
    ensures Chomp(Terminate(line)) == Chomp(line)
  {
  }

  /** Lines that agree about a key, up to the newline of the line that has it, give the same answer. */
  lemma {:induction false} LookupSame(lines: seq<Bytes>, r: seq<Bytes>, other: Bytes)
    requires |lines| <= |r|
    requires forall k | 0 <= k < |lines| :: (other <= r[k] <==> other <= lines[k]) && Chomp(r[k]) == Chomp(lines[k])
    requires forall k | |lines| <= k < |r| :: !(other <= r[k])
    ensures Lookup(r, other) == Lookup(lines, other)
  {
    var j := FirstKeyed(lines, other);
    FirstKeyedIs(r, other, if j < |lines| then j else |r|);
  }

  lemma {:induction false} AppendKeepsOther(lines: seq<Bytes>, line: Bytes, other: Bytes)
    requires lines != [] && NEWLINE !in other && !(other <= line)
    ensures Lookup(lines[|lines| - 1 := Terminate(lines[|lines| - 1])] + [line], other) == Lookup(lines, other)
  {
    var last := lines[|lines| - 1];
    TerminateKeepsKey(last, other);
    TerminateKeepsText(last);
    Appended(lines, Terminate(last), line);
    LookupSame(lines, lines[|lines| - 1 := Terminate(last)] + [line], other);
  }

  /** A key of which neither is a prefix of the other keeps its first line. */
  lemma {:induction false} OtherKeyIsKept(lines: seq<Bytes>, key: Bytes, line: Bytes, other: Bytes)
    requires ValidEdit(key, line) && NEWLINE !in other && !(key <= other) && !(other <= key)
    ensures Lookup(EditLines(lines, key, line), other) == Lookup(lines, other)
  {
    var i := FirstKeyed(lines, key);
    Incomparable(key, other, line);
    if i < |lines| {
      Incomparable(key, other, lines[i]);
      ReplaceKeepsOther(lines, i, line, other);
    } else if lines == [] {
      FirstKeyedIs([line], other, 1);
    } else {
      AppendKeepsOther(lines, line, other);
    }
  }

  lemma Incomparable(key: Bytes, other: Bytes, line: Bytes)
    requires key <= line && !(key <= other) && !(other <= key)
    ensures !(other <= line)
  {
  }

  /** Editing twice gives the same text as editing once. */
  lemma {:induction false} EditHasNoNul(contents: Bytes, key: Bytes, line: Bytes)
    requires 0 !in contents && 0 !in line
    ensures 0 !in Edit(contents, key, line)
  {
  }

  lemma {:induction false} EditIsIdempotent(contents: Bytes, key: Bytes, line: Bytes)
    requires ValidEdit(key, line) && 0 !in contents && 0 !in line
    ensures Edit(Edit(contents, key, line), key, line) == Edit(contents, key, line)
  {
    var once := Edit(contents, key, line);
    var twice := Edit(once, key, line);
    EditHasNoNul(contents, key, line);
    EditIsLineUpdate(contents, key, line);
    EditIsLineUpdate(once, key, line);
    UpdateIsIdempotent(Lines(contents), key, line);
    LinesConcat(once);
    LinesConcat(twice);
  }

  // The edit, read from the text itself

  /** The key stands at i, at the start of a line. */
  predicate KeyedAt(text: Bytes, key: Bytes, i: nat)
    requires i <= |text|
  {
    (i == 0 || text[i - 1] == 0x0A) && i + |key| <= |text| && text[i..i + |key|] == key
  }

  /** The text of a file ends at its first NUL, or with the file. */
  predicate EndsText(contents: Bytes, t: nat) {
    t <= |contents| && 0 !in contents[..t] && (t == |contents| || contents[t] == 0)
  }

  lemma {:induction false} TextIs(contents: Bytes, t: nat)
    requires EndsText(contents, t)
    ensures CString(contents, 0) == contents[..t]
  {
    if t == |contents| {
      WholeCString(contents, 0);
    } else {
      CStringOf(contents[..t], 0, contents[t + 1..]);
      assert contents == contents[..t] + [0] + contents[t + 1..];
    }
  }

  /**
   The line from m to n, the first of the text with the key, is replaced with its newline,
   and nothing else is; but a NUL that cuts the line cuts the file too.
   */
  lemma {:induction false} EditReplacesLine(contents: Bytes, t: nat, key: Bytes, line: Bytes, m: nat, n: nat)
    requires EndsText(contents, t) && key != [] && 0x0A !in key && m <= n <= t
    requires KeyedAt(contents[..t], key, m) && forall i | 0 <= i < m :: !KeyedAt(contents[..t], key, i)
    requires 0x0A !in contents[m..n] && (n == t || contents[n] == 0x0A)
    ensures Edit(contents, key, line) == contents[..m] + line + if n == t then [] else contents[n + 1..]
  {
    TextIs(contents, t);
    FoundIs(contents[..t], key, m);
    SuffixIs(contents, t, m, n);
  }

  lemma {:induction false} SuffixIs(contents: Bytes, t: nat, m: nat, n: nat)
    requires m <= n <= t <= |contents| && 0x0A !in contents[m..n] && (n == t || contents[n] == 0x0A)
    ensures SuffixAt(contents, contents[..t], m) == if n == t then |contents| else n + 1
  {
    assert forall i | 0 <= i < n - m :: contents[..t][m..][i] == contents[m..n][i];
    LineEndIs(contents[..t][m..], n - m);
  }

  lemma {:induction false} FoundIs(text: Bytes, key: Bytes, m: nat)
    requires key != [] && 0x0A !in key && m <= |text|
    requires KeyedAt(text, key, m) && forall i | 0 <= i < m :: !KeyedAt(text, key, i)
    ensures SearchFrom(text, key, 0) == Some(m)
  {
    SearchFindsFirst(text, key, 0);
    var r := SearchFrom(text, key, 0);
    assert Occurs(text, key, m) && LineStart(text, m);
    assert r.Some? ==> KeyedAt(text, key, r.value);
  }

  lemma {:induction false} LineEndIs(text: Bytes, n: nat)
    requires n <= |text| && (forall i | 0 <= i < n :: text[i] != 0x0A) && (n == |text| || text[n] == 0x0A)
    ensures n < |text| ==> 0x0A in text && LineEnd(text) == n + 1
    ensures n == |text| ==> 0x0A !in text
  {
  }

  /** Without such a line the given one is appended to the file, behind a newline if that does not end in one. */
  lemma {:induction false} EditAppendsLine(contents: Bytes, t: nat, key: Bytes, line: Bytes)
    requires EndsText(contents, t) && key != [] && 0x0A !in key
    requires forall i | 0 <= i <= t :: !KeyedAt(contents[..t], key, i)
    ensures Edit(contents, key, line)
         == contents + (if contents == [] || contents[|contents| - 1] == 0x0A then [] else [0x0A]) + line
  {
    TextIs(contents, t);
    SearchFindsFirst(contents[..t], key, 0);
    var r := SearchFrom(contents[..t], key, 0);
    assert r.Some? ==> KeyedAt(contents[..t], key, r.value);
  }
}
