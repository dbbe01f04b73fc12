/** ensure_caustic_config_line as it runs: find the line, build the new text in a buffer, write it back. */
module ConfigFile {
  import opened Words
  import opened Buffers
  import opened Search
  import opened Archive
  import opened Extraction
  import opened ApkExtract
  import opened ConfigText

  const SIZE_LIMIT: nat := 64 * 1024

  /** One call, on the disk: an absent file is created with the line, a large one is refused. */
  function Ensured(d: Disk, path: Bytes, key: Bytes, line: Bytes): (Disk, Ending) {
    if path !in d.files then Extraction.WriteFile(d, path, line)
    else if |d.files[path]| > SIZE_LIMIT then (d, Returned(-1))
    else Extraction.WriteFile(d, path, Edit(d.files[path], key, line))
  }

  /** The text the file must have after a call: an absent file counts as empty. */
  function Wanted(files: Files, path: Bytes, key: Bytes, line: Bytes): Bytes {
    Edit(if path in files then files[path] else [], key, line)
  }

  /** Success means the edited text is in the file; otherwise the file is as before or a prefix of that text. */
  lemma EnsuredOrPrefix(d: Disk, path: Bytes, key: Bytes, line: Bytes)
    requires key != []
    ensures var (after, ending) := Ensured(d, path, key, line);
      var wanted := Wanted(d.files, path, key, line);
      && (ending == Returned(0) ==> after.files == d.files[path := wanted])
      && (ending != Returned(0) ==>
            after.files == d.files || exists n | 0 <= n <= |wanted| :: after.files == d.files[path := wanted[..n]])
  {
    var wanted := Wanted(d.files, path, key, line);
    if path !in d.files {
      assert wanted == line;
    }
    if path in d.files ==> |d.files[path]| <= SIZE_LIMIT {
      var created, n := WriteFileLeavesPrefix(d, path, wanted);
      assert n == |wanted| ==> wanted[..n] == wanted;
    }
  }

  /** The call opens the file for writing, which empties it. */
  predicate Opens(d: Disk) {
    d.answers != [] && d.answers[0] >= 0
  }

  /** The file is too large to be edited. */
  predicate Refuses(files: Files, path: Bytes) {
    path in files && |files[path]| > SIZE_LIMIT
  }

  /**
   The edit is atomic exactly when it is refused, or the file is not opened, or the writes
   accepted before the first failure cover the new text, or what they cover happens to be
   the old text. An absent file is created by the opening, so its last case never holds.
   */
  lemma {:induction false} AtomicIff(d: Disk, path: Bytes, key: Bytes, line: Bytes)
    ensures var after, before, wanted := Ensured(d, path, key, line).0.files, d.files, Wanted(d.files, path, key, line);
      after == before || after == before[path := wanted]
      <==> || Refuses(before, path) || !Opens(d) || Taken(d.answers[1..]) >= |wanted|
           || (path in before && wanted[..Taken(d.answers[1..])] == before[path])
  {
    var after, before, wanted := Ensured(d, path, key, line).0.files, d.files, Wanted(d.files, path, key, line);
    if !Refuses(before, path) {
      WantedWhenAbsent(before, path, key, line);
      var created, n := WriteFileLeavesPrefix(d, path, wanted);
      assert wanted[..|wanted|] == wanted;
      if created {
        assert after[path] == wanted[..n];
        assert path in before && wanted[..n] == before[path] ==> before[path := wanted[..n]] == before;
      }
    }
  }

  lemma {:induction false} WantedWhenAbsent(files: Files, path: Bytes, key: Bytes, line: Bytes)
    ensures path !in files ==> Wanted(files, path, key, line) == line
  {
    if key == [] {
      FindEmpty([], key);
    }
    assert [] + [] + line == line;
  }

  /** A file of more than 64 KiB is refused; on a willing disk any other ends with the edited text. */
  lemma {:induction false} EnsureSucceeds(d: Disk, path: Bytes, key: Bytes, line: Bytes)
    ensures path in d.files && |d.files[path]| > 65536 ==> Ensured(d, path, key, line) == (d, Returned(-1))
    ensures (path in d.files ==> |d.files[path]| <= 65536) && Willing(d.answers, 1 + |Wanted(d.files, path, key, line)|) ==>
      var (after, ending) := Ensured(d, path, key, line);
      ending == Returned(0) && after.files == d.files[path := Wanted(d.files, path, key, line)]
  {
    var wanted := Wanted(d.files, path, key, line);
    if (path in d.files ==> |d.files[path]| <= 65536) && Willing(d.answers, 1 + |wanted|) {
      WantedWhenAbsent(d.files, path, key, line);
      WriteFileSucceeds(d, path, wanted, 0);
      var created, n := WriteFileLeavesPrefix(d, path, wanted);
      assert wanted[..|wanted|] == wanted;
    }
  }

  /** A file that holds "A" and a newline is left empty when the first write of the edit fails. */
  lemma {:induction false} EditIsNotAtomic(path: Bytes)
    ensures var d := Disk(map[path := Ascii("A\n")], [0, 0]);
      && Ensured(d, path, Ascii("B"), Ascii("B\n")) == (Disk(map[path := []], []), Returned(-1))
      && Wanted(d.files, path, Ascii("B"), Ascii("B\n")) == Ascii("A\nB\n")
  {
    var text, key, line := Ascii("A\n"), Ascii("B"), Ascii("B\n");
    assert text == [0x41, NEWLINE] && key == [0x42] && line == [0x42, NEWLINE];
    assert CString(text, 0) == text;
    assert Find(text, key, 2) == None;
    assert Find(text, key, 1) == None;
    assert SearchFrom(text, key, 0) == None;
    assert Edit(text, key, line) == text + [] + line;
    var d := Disk(map[path := text], [0, 0]);
    assert d.files[path := []] == map[path := []] && d.answers[1..] == [0] && d.answers[1..][1..] == [];
  }

  /** The search loop of the call, for any text and key. */
  method FindKey(text: Bytes, key: Bytes) returns (found: Option<nat>)
    ensures found == SearchFrom(text, key, 0)
  {
    var from := 0;
    found := StrStr(text, key, from);
    while found.Some?
      invariant found.Some? ==> from <= found.value && found.value + |key| <= |text|
      invariant SearchFrom(text, key, 0) == SearchOn(text, key, found) && (key == [] ==> found == Some(0))
      decreases |text| - from, found.Some?
    {
      if found.value == 0 || text[found.value - 1] == NEWLINE {
        break;
      }
      from := found.value + |key|;
      found := StrStr(text, key, from);
    }
  }

  lemma FindEmpty(text: Bytes, key: Bytes)
    ensures key == [] ==> Find(text, key, 0) == Some(0)
  {
  }

  /** Three pieces copied one after the other fill a buffer of exactly their size. */
  method Join3(first: Bytes, second: Bytes, third: Bytes) returns (output: array<Byte>)
    ensures fresh(output) && output[..] == first + second + third
  {
    output := new Byte[|first| + |second| + |third|];
    CopyTo(output, 0, first);
    CopyTo(output, |first|, second);
    CopyTo(output, |first| + |second|, third);
    assert output[..] == output[..|first| + |second| + |third|];
  }

  /** The new text, put together from the pieces. */
  method Assemble(contents: Bytes, key: Bytes, line: Bytes) returns (output: array<Byte>)
    ensures fresh(output) && output[..] == Edit(contents, key, line)
  {
    var text := CString(contents, 0);
    var found := FindKey(text, key);
    var prefixSize, suffix, separator: Bytes := |contents|, |contents|, [];
    match found {
      case Some(m) =>
        prefixSize, suffix := m, SuffixAt(contents, text, m);
      case None =>
        if contents != [] && contents[|contents| - 1] != NEWLINE {
          separator := [NEWLINE];
        }
    }
    PiecesAreEdit(contents, text, line, found);
    output := Join3(contents[..prefixSize], separator + line, contents[suffix..]);
  }

  lemma {:induction false} PiecesAreEdit(contents: Bytes, text: Bytes, line: Bytes, found: Option<nat>)
    requires |text| <= |contents| && (found.Some? ==> found.value <= |text|)
    ensures EditAt(contents, text, line, found)
         == match found
            case Some(m) => contents[..m] + ([] + line) + contents[SuffixAt(contents, text, m)..]
            case None =>
              var separator := if contents != [] && !Terminated(contents) then [NEWLINE] else [];
              contents[..|contents|] + (separator + line) + contents[|contents|..]
  {
    assert [] + line == line;
  }

  /** ensure_caustic_config_line */
  method EnsureConfigLine(storage: Storage, path: Bytes, key: Bytes, line: Bytes) returns (ending: Ending)
    modifies storage`files, storage`answers
    ensures (storage.Value(), ending) == Ensured(old(storage.Value()), path, key, line)
  {
    if path !in storage.files {
      ending := storage.WriteFile(path, line);
      return;
    }
    var contents := storage.files[path];
    if |contents| > SIZE_LIMIT {
      return Returned(-1);
    }
    var output := Assemble(contents, key, line);
    ending := storage.WriteFile(path, output[..]);
  }
}
