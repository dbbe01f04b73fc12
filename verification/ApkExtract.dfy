/** extract_caustic_demo_assets as it runs: a file cursor that jumps, and a disk that is written step by step. */
module ApkExtract {
  import opened Words
  import opened Buffers
  import opened Segments
  import opened Archive
  import opened Extraction

  /** The test on one segment of a path. */
  method IsUnsafe(path: Bytes, segment: nat, cursor: nat) returns (unsafe: bool)
    requires segment <= cursor <= |path|
    ensures unsafe == !PlainSegment(path[segment..cursor])
  {
    var size := cursor - segment;
    unsafe :=
      || size == 0
      || (size == 1 && path[segment] == DOT)
      || (size == 2 && path[segment] == DOT && path[segment + 1] == DOT);
  }

  /** The scan over the segments of unsafe_relative_path; the end of the C string is index |path|. */
  method ScanSegments(path: Bytes, ghost ok: Bytes -> bool) returns (plain: bool)
    requires ok == PlainSegment
    ensures plain == Every(Split(path, SLASH), ok)
  {
    assert path[0..] == path;
    var segment, cursor := 0, 0;
    while true
      invariant 0 <= segment <= cursor <= |path| && SLASH !in path[segment..cursor]
      invariant Every(Split(path, SLASH), ok) == Every(Split(path[segment..], SLASH), ok)
      decreases |path| - cursor
    {
      if cursor == |path| || path[cursor] == SLASH {
        EverySegment(path, SLASH, ok, segment, cursor);
        var unsafe := IsUnsafe(path, segment, cursor);
        if unsafe {
          return false;
        }
        if cursor == |path| {
          return true;
        }
        segment := cursor + 1;
      } else {
        SegmentGrows(path, SLASH, segment, cursor);
      }
      cursor := cursor + 1;
    }
  }

  /** unsafe_relative_path */
  method UnsafeRelativePath(path: Bytes) returns (unsafe: bool)
    requires 0 !in path
    ensures unsafe == !SafeRelative(path)
  {
    if path == [] || path[0] == SLASH {
      assert path[0..] == path;
      EverySegment(path, SLASH, PlainSegment, 0, 0);
      return true;
    }
    var plain := ScanSegments(path, PlainSegment);
    return !plain || BACKSLASH in path || COLON in path;
  }

  class Storage {
    const apk: Bytes
    var position: nat
    var files: Files
    var answers: seq<int>

    constructor (apk: Bytes, files: Files, answers: seq<int>)
      ensures this.apk == apk && Value() == Disk(files, answers)
    {
      this.apk, this.files, this.answers := apk, files, answers;
      position := 0;
    }

    function Value(): Disk
      reads this`files, this`answers
    {
      Disk(files, answers)
    }

    /** read_exact */
    method ReadExact(size: nat) returns (ok: bool, buffer: Bytes)
      modifies this`position
      ensures ok == (old(position) + size <= |apk|)
      ensures ok ==> position == old(position) + size && buffer == apk[old(position)..position]
    {
      ok, buffer := false, [];
      if position + size <= |apk| {
        buffer := apk[position..position + size];
        position := position + size;
        ok := true;
      }
    }

    /** write_file */
    method WriteFile(path: Bytes, data: Bytes) returns (ending: Ending)
      modifies this`files, this`answers
      ensures (Value(), ending) == Extraction.WriteFile(old(Value()), path, data)
    {
      if answers == [] {
        return Cut;
      }
      var out := answers[0];
      answers := answers[1..];
      if out < 0 {
        return Returned(out);
      }
      files := files[path := []];
      var left := data;
      ghost var start := Value();
      while left != []
        invariant path in files
        invariant Pour(Value(), path, left) == Pour(start, path, data)
        decreases |answers|
      {
        if answers == [] {
          return Cut;
        }
        var wrote := answers[0];
        answers := answers[1..];
        if wrote <= 0 {
          return Returned(-1);
        }
        var n := Min(wrote, |left|);
        files := files[path := files[path] + left[..n]];
        left := left[n..];
      }
      return Returned(0);
    }

    /** The scan for the end record, from the last place where it fits. */
    static method FindEnd(tail: Bytes) returns (eocd: Option<nat>)
      requires |tail| >= 22
      ensures eocd == EndFrom(tail, |tail| - 22)
      ensures eocd.Some? ==> EndAt(tail, eocd.value) && forall j | eocd.value < j :: !EndAt(tail, j)
      ensures eocd == None ==> forall j :: !EndAt(tail, j)
    {
      EndFromIsLast(tail, |tail| - 22);
      var i := |tail| - 22;
      while true
        invariant 0 <= i <= |tail| - 22
        invariant EndFrom(tail, |tail| - 22) == EndFrom(tail, i)
        decreases i
      {
        if Le32(tail, i) == EOCD_SIGNATURE {
          return Some(i);
        }
        if i == 0 {
          return None;
        }
        i := i - 1;
      }
    }

    /** The fixed part of a central header: its fields, and the sizes of the name and of what follows it. */
    method ReadCentral() returns (ok: bool, h: Header, nameSize: nat, skip: nat)
      modifies this`position
      ensures var at := old(position);
        && ok == (at + 46 <= |apk| && Le32(apk, at) == CENTRAL_SIGNATURE)
        && (ok ==>
              && position == at + 46 && h == HeaderFields(apk, at)
              && nameSize == Le16(apk, at + 28) && at + 46 + nameSize + skip == at + RecordSize(apk, at))
    {
      var central;
      h, nameSize, skip := Header(0, 0, 0, 0, 0), 0, 0;
      ok, central := ReadExact(46);
      if !ok || Le32(central, 0) != CENTRAL_SIGNATURE {
        return false, h, nameSize, skip;
      }
      h := HeaderFields(central, 0);
      nameSize := Le16(central, 28);
      skip := Le16(central, 30) + Le16(central, 32);
    }

    /** From the local header to the checked content; the cursor is left wherever reading ended. */
    method ReadPayload(codec: Codec, h: Header) returns (payload: Option<Bytes>)
      requires h.local + 30 <= |apk|
      modifies this`position
      ensures payload == Payload(apk, codec, h)
    {
      position := h.local;
      var ok, local := ReadExact(30);
      if !ok || Le32(local, 0) != LOCAL_SIGNATURE {
        return None;
      }
      position := position + Le16(local, 26) + Le16(local, 28);
      if position + h.compressed > |apk| {
        return None;
      }
      var compressed;
      ok, compressed := ReadExact(h.compressed);
      var output := compressed;
      ok := false;
      if h.packing == 0 && h.compressed == h.size {
        ok := true;
      } else if h.packing == 8 {
        match codec.inflate(compressed, h.size)
        case None =>
        case Some(inflated) =>
          output := inflated;
          ok := |inflated| == h.size;
      }
      if !ok || codec.crc(output) != h.crc {
        return None;
      }
      return Some(output);
    }

    /** The part of one turn that comes after the name has been read; the cursor is restored to the next header. */
    method ExtractNamed(destination: Bytes, codec: Codec, h: Header, name: Bytes) returns (stop: Option<Ending>)
      requires name != [] && h.local + 30 <= |apk|
      modifies this
      ensures (Value(), stop) == Turn(NamedStep(apk, destination, codec, h, name), old(Value()))
      ensures stop == None ==> position == old(position)
    {
      var nextCentral := position;
      if |name| < 12 || name[..12] != AssetPrefix() || name[|name| - 1] == SLASH {
        return None;
      }
      var relative := CString(name[12..], 0);
      var unsafe := UnsafeRelativePath(relative);
      if unsafe || |destination + relative| >= PATH_ROOM {
        return Some(Returned(-1));
      }
      var path := destination + relative;
      if SizeMatches(files, path, h.size) {
        return None;
      }
      var payload := ReadPayload(codec, h);
      if payload == None {
        return Some(Returned(-1));
      }
      var ending := WriteFile(path, payload.value);
      match ending
      case Cut => return Some(Cut);
      case Returned(code) =>
        if code < 0 {
          return Some(Returned(-1));
        }
        position := nextCentral;
        return None;
    }

    /** One turn of the loop over the central directory. Whatever branch it takes, it ends at the next header. */
    method ExtractEntry(destination: Bytes, codec: Codec) returns (stop: Option<Ending>)
      modifies this
      ensures (Value(), stop) == Turn(StepAt(apk, destination, codec, old(position)), old(Value()))
      ensures stop == None ==>
        old(position) + 46 <= |apk| && position == old(position) + RecordSize(apk, old(position)) <= |apk|
    {
      var ok, h, nameSize, skip := ReadCentral();
      if !ok {
        return Some(Returned(-1));
      }
      stop := ExtractListed(destination, codec, h, nameSize, skip);
    }

    /** The part of one turn that comes after the fixed header. */
    method ExtractListed(destination: Bytes, codec: Codec, h: Header, nameSize: nat, skip: nat)
        returns (stop: Option<Ending>)
      modifies this
      ensures var from, next := old(position), old(position) + nameSize + skip;
        (Value(), stop) == Turn(ListedStep(apk, destination, codec, h, from, nameSize, next), old(Value()))
      ensures stop == None ==> position == old(position) + nameSize + skip <= |apk|
    {
      if nameSize == 0 || h.size > MAX_ENTRY_SIZE || h.compressed > MAX_ENTRY_SIZE || h.local + 30 > |apk| {
        return Some(Returned(-1));
      }
      var ok, name := ReadExact(nameSize);
      if !ok {
        return Some(Returned(-1));
      }
      position := position + skip;
      if position > |apk| {
        return Some(Returned(-1));
      }
      stop := ExtractNamed(destination, codec, h, name);
    }

    /** The same turn as a step of the walk. */
    method TakeTurn(destination: Bytes, codec: Codec, ghost steps: seq<Step>, ghost k: nat) returns (stop: Option<Ending>)
      requires k < |steps| && steps[k] == StepAt(apk, destination, codec, position)
      modifies this
      ensures match stop
        case Some(ending) => Walk(steps, k, old(Value())) == (Value(), ending)
        case None =>
          && Walk(steps, k, old(Value())) == Walk(steps, k + 1, Value())
          && old(position) + 46 <= |apk| && position == old(position) + RecordSize(apk, old(position)) <= |apk|
    {
      stop := ExtractEntry(destination, codec);
    }

    /** extract_caustic_demo_assets */
    method Extract(destination: Bytes, codec: Codec) returns (ending: Ending)
      modifies this
      ensures (Value(), ending) == Session(PlanOf(apk, destination, codec), old(Value()))
    {
      if Marker() in files {
        return Returned(0);
      }
      if |apk| < 22 {
        return Returned(-1);
      }
      var tail := Tail(apk);
      var eocd := FindEnd(tail);
      if eocd == None {
        return Returned(-1);
      }
      var entries, central := Le16(tail, eocd.value + 10), Le32(tail, eocd.value + 16);
      if central + 46 > |apk| {
        return Returned(-1);
      }
      ending := WalkDirectory(destination, codec, entries, central);
    }

    method WalkDirectory(destination: Bytes, codec: Codec, entries: nat, central: Word) returns (ending: Ending)
      modifies this
      ensures (Value(), ending) == Walk(StepsOf(apk, destination, codec, central, entries).steps, 0, old(Value()))
    {
      ghost var steps := StepsOf(apk, destination, codec, central, entries).steps;
      position := central;
      var index := 0;
      while index < entries
        invariant 0 <= index <= entries
        invariant HeaderAt(apk, central, index) == Some(position)
        invariant Walk(steps, index, Value()) == Walk(steps, 0, old(Value()))
      {
        StepIsAtHeader(apk, destination, codec, central, entries, index, position);
        ghost var at := position;
        var stop := TakeTurn(destination, codec, steps, index);
        if stop != None {
          return stop.value;
        }
        NextHeaderAt(apk, central, index, at);
        index := index + 1;
      }
      ending := WriteMarker(steps);
    }

    method WriteMarker(ghost steps: seq<Step>) returns (ending: Ending)
      modifies this`files, this`answers
      ensures (Value(), ending) == Walk(steps, |steps|, old(Value()))
    {
      ending := WriteFile(Marker(), Ascii("ok\n"));
      if ending.Returned? {
        ending := Returned(if ending.code < 0 then -1 else 0);
      }
    }
  }
}
