/**
 ZIP archives as section 4.3 of APPNOTE lays them out, and what the extractor makes of
 one: every asset ends with its own content below the destination.
 */
module ZipLayout {
  import opened Words
  import opened Buffers
  import opened Segments
  import opened Archive
  import opened Extraction

  // The format

  predicate Holds(b: Bytes, at: nat, part: Bytes) {
    at + |part| <= |b| && b[at..at + |part|] == part
  }

  function Two(n: nat): Bytes
    requires n < 0x1_0000
  {
    [n % 0x100, n / 0x100]
  }

  function Four(w: Word): Bytes {
    [w % 0x100, w / 0x100 % 0x100, w / 0x1_0000 % 0x100, w / 0x100_0000]
  }

  /** An entry: its name, its packed data, and what the headers say of it; the extra fields and comment by their sizes. */
  datatype Entry = Entry(name: Bytes, packing: nat, crc: Word, size: Word, data: Bytes,
                         local: Word, localExtra: nat, extra: nat, comment: nat)
  {
    predicate Encodable() {
      && |name| < 0x1_0000 && packing < 0x1_0000 && |data| < SPACE
      && localExtra < 0x1_0000 && extra < 0x1_0000 && comment < 0x1_0000
    }

    function CentralSize(): nat { 46 + |name| + extra + comment }
  }

  /** The local file header, the name, the extra field and the data (4.3.7, 4.3.8). */
  predicate LocalAt(b: Bytes, e: Entry)
    requires e.Encodable()
  {
    && Holds(b, e.local, [0x50, 0x4B, 0x03, 0x04])
    && Holds(b, e.local + 26, Two(|e.name|)) && Holds(b, e.local + 28, Two(e.localExtra))
    && Holds(b, e.local + 30, e.name) && Holds(b, e.local + 30 + |e.name| + e.localExtra, e.data)
  }

  /** A header of the central directory (4.3.12). */
  predicate CentralAt(b: Bytes, at: nat, e: Entry)
    requires e.Encodable()
  {
    && Holds(b, at, [0x50, 0x4B, 0x01, 0x02]) && Holds(b, at + 10, Two(e.packing))
    && Holds(b, at + 16, Four(e.crc)) && Holds(b, at + 20, Four(|e.data|)) && Holds(b, at + 24, Four(e.size))
    && Holds(b, at + 28, Two(|e.name|)) && Holds(b, at + 30, Two(e.extra)) && Holds(b, at + 32, Two(e.comment))
    && Holds(b, at + 42, Four(e.local)) && Holds(b, at + 46, e.name) && at + e.CentralSize() <= |b|
  }

  /** The headers stand one after the other. */
  predicate DirectoryAt(b: Bytes, at: nat, entries: seq<Entry>)
    requires forall e | e in entries :: e.Encodable()
    decreases |entries|
  {
    entries == [] || (CentralAt(b, at, entries[0]) && DirectoryAt(b, at + entries[0].CentralSize(), entries[1..]))
  }

  /** The end record (4.3.16), the last that fits; its comment reaches the end of the file. */
  predicate EndRecordAt(b: Bytes, at: nat, count: nat, central: Word)
    requires count < 0x1_0000
  {
    && at + 22 <= |b| <= at + 22 + 0xFFFF && Holds(b, at, [0x50, 0x4B, 0x05, 0x06])
    && Holds(b, at + 10, Two(count)) && Holds(b, at + 16, Four(central))
    && forall j | at < j <= |b| - 22 :: !Holds(b, j, [0x50, 0x4B, 0x05, 0x06])
  }

  predicate ZipFile(b: Bytes, entries: seq<Entry>, central: Word, end: nat) {
    && |entries| < 0x1_0000 && (forall e | e in entries :: e.Encodable() && LocalAt(b, e))
    && DirectoryAt(b, central, entries) && EndRecordAt(b, end, |entries|, central) && central + 46 <= |b|
  }

  // Reading it

  lemma {:induction false} ReadsTwo(b: Bytes, at: nat, n: nat)
    requires n < 0x1_0000 && Holds(b, at, Two(n))
    ensures Le16(b, at) == n
  {
    assert b[at] == b[at..at + 2][0] && b[at + 1] == b[at..at + 2][1];
  }

  lemma {:induction false} ReadsFour(b: Bytes, at: nat, w: Word)
    requires Holds(b, at, Four(w))
    ensures Le32(b, at) == w
  {
    assert b[at] == b[at..at + 4][0] && b[at + 1] == b[at..at + 4][1];
    assert b[at + 2] == b[at..at + 4][2] && b[at + 3] == b[at..at + 4][3];
    assert w / 0x1_0000 == w / 0x100 / 0x100 && w / 0x100_0000 == w / 0x1_0000 / 0x100;
  }

  lemma {:induction false} ReadsSignature(b: Bytes, at: nat, x: Byte, y: Byte)
    requires at + 4 <= |b|
    ensures Holds(b, at, [0x50, 0x4B, x, y]) <==> Le32(b, at) == 0x4B50 + 0x1_0000 * x as int + 0x100_0000 * y as int
  {
    if Holds(b, at, [0x50, 0x4B, x, y]) {
      assert b[at] == b[at..at + 4][0] && b[at + 1] == b[at..at + 4][1];
      assert b[at + 2] == b[at..at + 4][2] && b[at + 3] == b[at..at + 4][3];
    }
  }

  function HeaderOf(e: Entry): Header
    requires e.Encodable()
  {
    Header(e.packing, e.crc, |e.data|, e.size, e.local)
  }

  /** The data of an entry is packed content: stored, or deflated; and of the size and checksum given. */
  predicate Yields(codec: Codec, e: Entry, content: Bytes) {
    && ((e.packing == 0 && content == e.data) || (e.packing == 8 && codec.inflate(e.data, e.size) == Some(content)))
    && |content| == e.size && codec.crc(content) == e.crc
  }

  /** The payload of an entry is its content, behind its local header, name and extra field, and otherwise nothing. */
  lemma {:induction false} PayloadIff(b: Bytes, codec: Codec, e: Entry, content: Bytes)
    requires e.Encodable() && LocalAt(b, e)
    ensures Payload(b, codec, HeaderOf(e)) == Some(content) <==> Yields(codec, e, content)
  {
    ReadsSignature(b, e.local, 0x03, 0x04);
    ReadsTwo(b, e.local + 26, |e.name|);
    ReadsTwo(b, e.local + 28, e.localExtra);
  }

  lemma {:induction false} HeaderIsRead(b: Bytes, at: nat, e: Entry)
    requires e.Encodable() && CentralAt(b, at, e)
    ensures Le32(b, at) == CENTRAL_SIGNATURE && HeaderFields(b, at) == HeaderOf(e)
    ensures Le16(b, at + 28) == |e.name| && RecordSize(b, at) == e.CentralSize() && b[at + 46..at + 46 + |e.name|] == e.name
  {
    ReadsSignature(b, at, 0x01, 0x02);
    ReadsTwo(b, at + 10, e.packing);
    ReadsFour(b, at + 16, e.crc);
    ReadsFour(b, at + 20, |e.data|);
    ReadsFour(b, at + 24, e.size);
    ReadsTwo(b, at + 28, |e.name|);
    ReadsTwo(b, at + 30, e.extra);
    ReadsTwo(b, at + 32, e.comment);
    ReadsFour(b, at + 42, e.local);
  }

  // What the extractor makes of an entry

  /** Below assets/demo/ and not a directory. */
  predicate IsAsset(name: Bytes) {
    |name| >= 12 && name[..12] == Ascii("assets/demo/") && name[|name| - 1] != 0x2F
  }

  predicate Small(e: Entry) {
    e.name != [] && e.size <= 0x100_0000 && |e.data| <= 0x100_0000
  }

  /** No segment between slashes is empty, "." or "..", and there is no backslash and no colon. */
  predicate Plain(path: Bytes) {
    && (forall i | 0 <= i < |Split(path, 0x2F)| :: Split(path, 0x2F)[i] !in [[], [0x2E], [0x2E, 0x2E]])
    && 0x5C !in path && 0x3A !in path
  }

  lemma {:induction false} SafeIff(path: Bytes)
    ensures SafeRelative(path) <==> Plain(path)
  {
    EveryIsForall(Split(path, SLASH), PlainSegment);
  }

  /** The file of an asset can be named: a plain relative path that fits behind the destination. */
  predicate Nameable(destination: Bytes, name: Bytes)
    requires |name| >= 12
  {
    Plain(name[12..]) && |destination| + |name| - 12 < 768
  }

  /** What a name comes to. */
  function NamedOutcome(destination: Bytes, name: Bytes, size: Word, payload: Option<Bytes>): Step {
    if !IsAsset(name) then Skip
    else if !Nameable(destination, name) then Bad
    else Asset(destination + name[12..], size, payload)
  }

  lemma {:induction false} NameIsRead(b: Bytes, destination: Bytes, codec: Codec, h: Header, name: Bytes)
    requires name != [] && 0 !in name
    ensures NamedStep(b, destination, codec, h, name) == NamedOutcome(destination, name, h.size, Payload(b, codec, h))
  {
    if |name| >= 12 {
      assert AssetPrefix() <= name <==> name[..12] == AssetPrefix();
      SafeIff(name[12..]);
      WholeCString(name[12..], 0);
    }
  }

  /** Every header makes the run fail, skips its entry, or yields the asset at the destination and the rest of its name. */
  lemma {:induction false} StepOfEntry(b: Bytes, destination: Bytes, codec: Codec, at: nat, e: Entry)
    requires e.Encodable() && CentralAt(b, at, e) && LocalAt(b, e) && 0 !in e.name
    ensures StepAt(b, destination, codec, at)
         == if Small(e) then NamedOutcome(destination, e.name, e.size, Payload(b, codec, HeaderOf(e))) else Bad
  {
    HeaderIsRead(b, at, e);
    if e.name != [] {
      NameIsRead(b, destination, codec, HeaderOf(e), e.name);
    }
    var h := HeaderOf(e);
    assert StepAt(b, destination, codec, at)
        == ListedStep(b, destination, codec, h, at + 46, |e.name|, at + e.CentralSize());
    assert h.local + 30 <= |b|;
  }

  // What it makes of the archive

  /** Where header k stands. */
  function Position(entries: seq<Entry>, central: nat, k: nat): nat
    requires k <= |entries|
  {
    if k == 0 then central else Position(entries, central, k - 1) + entries[k - 1].CentralSize()
  }

  lemma {:induction false} LaterPosition(entries: seq<Entry>, central: nat, k: nat)
    requires entries != [] && 1 <= k <= |entries|
    ensures Position(entries, central, k) == Position(entries[1..], central + entries[0].CentralSize(), k - 1)
  {
    if k > 1 {
      LaterPosition(entries, central, k - 1);
    }
  }

  lemma {:induction false} HeaderStands(b: Bytes, entries: seq<Entry>, central: nat, k: nat)
    requires (forall e | e in entries :: e.Encodable()) && DirectoryAt(b, central, entries) && k < |entries|
    ensures CentralAt(b, Position(entries, central, k), entries[k])
    decreases |entries|
  {
    if k > 0 {
      LaterPosition(entries, central, k);
      HeaderStands(b, entries[1..], central + entries[0].CentralSize(), k - 1);
    }
  }

  lemma {:induction false} SizeStands(b: Bytes, entries: seq<Entry>, central: nat, k: nat, at: nat)
    requires (forall e | e in entries :: e.Encodable()) && DirectoryAt(b, central, entries)
    requires k < |entries| && at == Position(entries, central, k)
    ensures at + 46 <= |b| && at + RecordSize(b, at) == Position(entries, central, k + 1) <= |b|
  {
    HeaderStands(b, entries, central, k);
    HeaderIsRead(b, at, entries[k]);
  }

  lemma {:induction false} HeaderIsFound(b: Bytes, entries: seq<Entry>, central: nat, k: nat)
    requires (forall e | e in entries :: e.Encodable()) && DirectoryAt(b, central, entries) && k <= |entries|
    ensures HeaderAt(b, central, k) == Some(Position(entries, central, k))
  {
    if k > 0 {
      var at := Position(entries, central, k - 1);
      HeaderIsFound(b, entries, central, k - 1);
      SizeStands(b, entries, central, k - 1, at);
      NextHeaderAt(b, central, k - 1, at);
    }
  }

  function OutcomeOf(b: Bytes, destination: Bytes, codec: Codec, e: Entry): Step
    requires e.Encodable()
  {
    if Small(e) then NamedOutcome(destination, e.name, e.size, Payload(b, codec, HeaderOf(e))) else Bad
  }

  lemma {:induction false} TailReads(b: Bytes, i: nat)
    requires i + 4 <= |Tail(b)|
    ensures Le32(Tail(b), i) == Le32(b, i + (|b| - |Tail(b)|)) && Le16(Tail(b), i) == Le16(b, i + (|b| - |Tail(b)|))
  {
  }

  lemma {:induction false} EndIsFound(b: Bytes, end: nat, count: nat, central: Word)
    requires count < 0x1_0000 && EndRecordAt(b, end, count, central)
    ensures var tail, skipped := Tail(b), |b| - |Tail(b)|;
      && |tail| >= 22 && skipped <= end && end - skipped + 22 <= |tail|
      && EndFrom(tail, |tail| - 22) == Some(end - skipped)
      && Le16(tail, end - skipped + 10) == count && Le32(tail, end - skipped + 16) == central
  {
    var tail, skipped := Tail(b), |b| - |Tail(b)|;
    ReadsTwo(b, end + 10, count);
    ReadsFour(b, end + 16, central);
    TailReads(b, end - skipped + 10);
    TailReads(b, end - skipped + 16);
    LastSignature(b, tail, skipped, end);
  }

  lemma {:induction false} LastSignature(b: Bytes, tail: Bytes, skipped: nat, end: nat)
    requires tail == Tail(b) && skipped == |b| - |tail| && skipped <= end <= |b| - 22
    requires Holds(b, end, [0x50, 0x4B, 0x05, 0x06]) && forall j | end < j <= |b| - 22 :: !Holds(b, j, [0x50, 0x4B, 0x05, 0x06])
    ensures EndFrom(tail, |tail| - 22) == Some(end - skipped)
  {
    EndFromIsLast(tail, |tail| - 22);
    SignatureInTail(b, end - skipped);
    assert EndAt(tail, end - skipped);
    forall j | end - skipped < j <= |tail| - 22 ensures !EndAt(tail, j) {
      SignatureInTail(b, j);
      assert !Holds(b, j + skipped, [0x50, 0x4B, 0x05, 0x06]);
    }
  }

  lemma {:induction false} SignatureInTail(b: Bytes, i: nat)
    requires i + 22 <= |Tail(b)|
    ensures EndAt(Tail(b), i) <==> Holds(b, i + (|b| - |Tail(b)|), [0x50, 0x4B, 0x05, 0x06])
  {
    TailReads(b, i);
    ReadsSignature(b, i + (|b| - |Tail(b)|), 0x05, 0x06);
  }

  lemma {:induction false} DirectoryIsFound(b: Bytes, destination: Bytes, codec: Codec, count: nat, central: Word, end: nat)
    requires count < 0x1_0000 && EndRecordAt(b, end, count, central) && central + 46 <= |b|
    ensures PlanOf(b, destination, codec) == StepsOf(b, destination, codec, central, count)
  {
    EndIsFound(b, end, count, central);
  }

  lemma {:induction false} StepIsOutcome(b: Bytes, destination: Bytes, codec: Codec, entries: seq<Entry>, central: Word, k: nat)
    requires (forall e | e in entries :: e.Encodable() && LocalAt(b, e) && 0 !in e.name)
    requires DirectoryAt(b, central, entries) && k < |entries|
    ensures StepOf(b, destination, codec, central, k) == OutcomeOf(b, destination, codec, entries[k])
  {
    var at, e := Position(entries, central, k), entries[k];
    HeaderIsFound(b, entries, central, k);
    HeaderStands(b, entries, central, k);
    StepOfEntry(b, destination, codec, at, e);
  }

  lemma {:induction false} HoldsTwo(b: Bytes, at: nat, n: nat)
    requires at + 2 <= |b| && n == Le16(b, at)
    ensures n < 0x1_0000 && Holds(b, at, Two(n))
  {
  }

  lemma {:induction false} HoldsFour(b: Bytes, at: nat, w: Word)
    requires at + 4 <= |b| && w == Le32(b, at)
    ensures Holds(b, at, Four(w))
  {
    DigitsOf(b[at], b[at + 1], b[at + 2], b[at + 3], w);
  }

  lemma {:induction false} DigitsOf(p: Byte, q: Byte, r: Byte, s: Byte, w: Word)
    requires w == p + 0x100 * q as int + 0x1_0000 * r as int + 0x100_0000 * s as int
    ensures Four(w) == [p, q, r, s]
  {
    assert w / 0x100 == q + 0x100 * r as int + 0x1_0000 * s as int && w / 0x1_0000 == r + 0x100 * s as int;
  }

  ghost predicate HasDirectory(b: Bytes) {
    exists end: nat, count: nat, central: Word :: count < 0x1_0000 && EndRecordAt(b, end, count, central) && central + 46 <= |b|
  }

  /** A file is read exactly if it has an end record, and that names a place for the directory. */
  lemma {:induction false} ReadableIff(b: Bytes, destination: Bytes, codec: Codec)
    ensures PlanOf(b, destination, codec).Steps? <==> HasDirectory(b)
  {
    if HasDirectory(b) {
      DirectoryIsRead(b, destination, codec);
    }
    if PlanOf(b, destination, codec).Steps? {
      DirectoryIsThere(b, Tail(b), |b| - |Tail(b)|, EndFrom(Tail(b), |Tail(b)| - 22).value);
    }
  }

  lemma {:induction false} DirectoryIsRead(b: Bytes, destination: Bytes, codec: Codec)
    requires HasDirectory(b)
    ensures PlanOf(b, destination, codec).Steps?
  {
    var end: nat, count: nat, central: Word :| count < 0x1_0000 && EndRecordAt(b, end, count, central) && central + 46 <= |b|;
    DirectoryIsFound(b, destination, codec, count, central, end);
  }

  lemma {:induction false} DirectoryIsThere(b: Bytes, tail: Bytes, skipped: nat, e: nat)
    requires |b| >= 22 && tail == Tail(b) && skipped == |b| - |tail|
    requires EndFrom(tail, |tail| - 22) == Some(e) && e + 22 <= |tail| && Le32(tail, e + 16) + 46 <= |b|
    ensures HasDirectory(b)
  {
    var end := e + skipped;
    EndFromIsLast(tail, |tail| - 22);
    TailReads(b, e + 16);
    NoneAfter(b, tail, skipped, end);
    SignatureInTail(b, e);
    EndIsRead(b, end, Le16(b, end + 10), Le32(b, end + 16));
  }

  lemma {:induction false} EndIsRead(b: Bytes, end: nat, count: nat, central: Word)
    requires end + 22 <= |b| <= end + 22 + 0xFFFF && Holds(b, end, [0x50, 0x4B, 0x05, 0x06])
    requires count == Le16(b, end + 10) && central == Le32(b, end + 16)
    requires forall j | end < j <= |b| - 22 :: !Holds(b, j, [0x50, 0x4B, 0x05, 0x06])
    ensures count < 0x1_0000 && EndRecordAt(b, end, count, central)
  {
    HoldsTwo(b, end + 10, count);
    HoldsFour(b, end + 16, central);
  }

  lemma {:induction false} NoneAfter(b: Bytes, tail: Bytes, skipped: nat, end: nat)
    requires tail == Tail(b) && skipped == |b| - |tail| && skipped <= end
    requires forall j | end - skipped < j <= |tail| - 22 :: !EndAt(tail, j)
    ensures forall j | end < j <= |b| - 22 :: !Holds(b, j, [0x50, 0x4B, 0x05, 0x06])
  {
    forall j | end < j <= |b| - 22 ensures !Holds(b, j, [0x50, 0x4B, 0x05, 0x06]) {
      SignatureInTail(b, j - skipped);
    }
  }

  /** A step is taken only at a header that lies in the file, and data are taken only behind a local header. */
  lemma {:induction false} HeadersAreThere(b: Bytes, destination: Bytes, codec: Codec, central: Word, k: nat)
    requires StepOf(b, destination, codec, central, k) != Bad
    ensures HeaderAt(b, central, k).Some?
    ensures var at, step := HeaderAt(b, central, k).value, StepOf(b, destination, codec, central, k);
      && at + 46 <= |b| && Holds(b, at, [0x50, 0x4B, 0x01, 0x02]) && at + RecordSize(b, at) <= |b|
      && Le32(b, at + 42) + 30 <= |b|
      && (step.Asset? && step.payload.Some? ==> Holds(b, Le32(b, at + 42), [0x50, 0x4B, 0x03, 0x04]))
  {
    var at := HeaderAt(b, central, k).value;
    ReadsSignature(b, at, 0x01, 0x02);
    if Le32(b, at + 42) + 4 <= |b| {
      ReadsSignature(b, Le32(b, at + 42), 0x03, 0x04);
    }
  }

  /** The plan of an archive has one step for each entry, in order. */
  lemma {:induction false} PlanOfZip(b: Bytes, destination: Bytes, codec: Codec, entries: seq<Entry>, central: Word, end: nat)
    requires ZipFile(b, entries, central, end) && forall e | e in entries :: 0 !in e.name
    ensures var plan := PlanOf(b, destination, codec);
      && plan.Steps? && |plan.steps| == |entries|
      && forall k | 0 <= k < |entries| :: plan.steps[k] == OutcomeOf(b, destination, codec, entries[k])
  {
    DirectoryIsFound(b, destination, codec, |entries|, central, end);
    forall k | 0 <= k < |entries|
      ensures StepOf(b, destination, codec, central, k) == OutcomeOf(b, destination, codec, entries[k])
    {
      StepIsOutcome(b, destination, codec, entries, central, k);
    }
  }

  // Extracting it

  /** A small archive whose assets can be named, each differently, and whose data yields the contents. */
  ghost predicate Extracts(destination: Bytes, codec: Codec, entries: seq<Entry>, contents: seq<Bytes>) {
    && |contents| == |entries| && !(destination <= Marker())
    && (forall k | 0 <= k < |entries| :: entries[k].Encodable() && Small(entries[k]) && 0 !in entries[k].name)
    && (forall k | 0 <= k < |entries| && IsAsset(entries[k].name) ::
          Nameable(destination, entries[k].name) && Yields(codec, entries[k], contents[k]))
    && (forall i, j | 0 <= i < j < |entries| && IsAsset(entries[i].name) :: entries[i].name != entries[j].name)
  }

  /** Where an asset goes. */
  function PathOf(destination: Bytes, name: Bytes): Bytes
    requires |name| >= 12
  {
    destination + name[12..]
  }

  /** No marker, and no file of the size of an asset but with other content in its place. */
  ghost predicate Untouched(destination: Bytes, entries: seq<Entry>, contents: seq<Bytes>, files: Files)
    requires |contents| == |entries|
  {
    && Marker() !in files
    && forall k | 0 <= k < |entries| && IsAsset(entries[k].name) && PathOf(destination, entries[k].name) in files ::
         |files[PathOf(destination, entries[k].name)]| == entries[k].size ==>
           files[PathOf(destination, entries[k].name)] == contents[k]
  }

  /** Every asset is at its place with its content. */
  ghost predicate Extracted(destination: Bytes, entries: seq<Entry>, contents: seq<Bytes>, files: Files)
    requires |contents| == |entries|
  {
    forall k | 0 <= k < |entries| && IsAsset(entries[k].name) ::
      PathOf(destination, entries[k].name) in files && files[PathOf(destination, entries[k].name)] == contents[k]
  }

  lemma {:induction false} OutcomeIsAsset(b: Bytes, destination: Bytes, codec: Codec, e: Entry, content: Bytes)
    requires e.Encodable() && LocalAt(b, e) && Small(e)
    requires IsAsset(e.name) ==> Nameable(destination, e.name) && Yields(codec, e, content)
    ensures OutcomeOf(b, destination, codec, e)
         == if IsAsset(e.name) then Asset(PathOf(destination, e.name), e.size, Some(content)) else Skip
  {
    if IsAsset(e.name) {
      PayloadIff(b, codec, e, content);
    }
  }

  lemma {:induction false} SamePath(destination: Bytes, name: Bytes, other: Bytes)
    requires IsAsset(name) && IsAsset(other) && PathOf(destination, name) == PathOf(destination, other)
    ensures name == other
  {
    assert name[12..] == PathOf(destination, name)[|destination|..] && other[12..] == PathOf(destination, other)[|destination|..];
    assert name == name[..12] + name[12..] && other == other[..12] + other[12..];
  }

  /** The steps of such an archive. */
  ghost predicate StepsAre(destination: Bytes, entries: seq<Entry>, contents: seq<Bytes>, steps: seq<Step>) {
    && |steps| == |entries| == |contents|
    && forall k | 0 <= k < |entries| ::
         steps[k] ==
           if IsAsset(entries[k].name) then Asset(PathOf(destination, entries[k].name), entries[k].size, Some(contents[k]))
           else Skip
  }

  lemma {:induction false} ZipSteps(b: Bytes, destination: Bytes, codec: Codec, entries: seq<Entry>, contents: seq<Bytes>,
                                    central: Word, end: nat)
    requires ZipFile(b, entries, central, end) && Extracts(destination, codec, entries, contents)
    ensures var plan := PlanOf(b, destination, codec);
      plan.Steps? && StepsAre(destination, entries, contents, plan.steps)
  {
    PlanOfZip(b, destination, codec, entries, central, end);
    forall k | 0 <= k < |entries|
      ensures OutcomeOf(b, destination, codec, entries[k]) ==
        if IsAsset(entries[k].name) then Asset(PathOf(destination, entries[k].name), entries[k].size, Some(contents[k])) else Skip
    {
      OutcomeIsAsset(b, destination, codec, entries[k], contents[k]);
    }
  }

  lemma {:induction false} StepsAreWellFormed(destination: Bytes, codec: Codec, entries: seq<Entry>, contents: seq<Bytes>,
                                              steps: seq<Step>)
    requires Extracts(destination, codec, entries, contents) && StepsAre(destination, entries, contents, steps)
    ensures WellFormed(steps) && forall k | 0 <= k < |steps| :: Extractable(steps[k])
  {
    forall i, j | 0 <= i < j < |steps| && steps[i].Asset? && steps[j].Asset? ensures steps[i].path != steps[j].path {
      if steps[i].path == steps[j].path {
        SamePath(destination, entries[i].name, entries[j].name);
      }
    }
    forall i | 0 <= i < |steps| && steps[i].Asset? ensures steps[i].path != Marker() {
      assert destination <= steps[i].path;
    }
  }

  /** Operations enough for entries from k on: opening each asset, a write for each byte of it, and the marker. */
  function Effort(entries: seq<Entry>, contents: seq<Bytes>, k: nat): nat
    requires k <= |entries| == |contents|
    decreases |entries| - k
  {
    if k == |entries| then 4
    else Effort(entries, contents, k + 1) + if IsAsset(entries[k].name) then 1 + |contents[k]| else 0
  }

  lemma {:induction false} EffortIsWork(destination: Bytes, entries: seq<Entry>, contents: seq<Bytes>, steps: seq<Step>, k: nat)
    requires StepsAre(destination, entries, contents, steps) && k <= |entries|
    ensures Work(steps, k) == Effort(entries, contents, k)
    decreases |entries| - k
  {
    if k < |entries| {
      EffortIsWork(destination, entries, contents, steps, k + 1);
    }
  }

  ghost predicate IsTarget(destination: Bytes, entries: seq<Entry>, path: Bytes) {
    exists k | 0 <= k < |entries| :: IsAsset(entries[k].name) && path == PathOf(destination, entries[k].name)
  }

  /** Files other than the assets and the marker are as they were. */
  ghost predicate OthersStay(destination: Bytes, entries: seq<Entry>, before: Files, after: Files) {
    forall path | path != Marker() && !IsTarget(destination, entries, path) ::
      (path in after <==> path in before) && (path in before ==> after[path] == before[path])
  }

  lemma {:induction false} StepsAreFresh(destination: Bytes, entries: seq<Entry>, contents: seq<Bytes>, steps: seq<Step>,
                                         files: Files)
    requires StepsAre(destination, entries, contents, steps) && Untouched(destination, entries, contents, files)
    ensures Fresh(files, steps)
  {
  }

  lemma {:induction false} CompleteIsExtracted(destination: Bytes, entries: seq<Entry>, contents: seq<Bytes>, steps: seq<Step>,
                                               before: Files, after: Files)
    requires StepsAre(destination, entries, contents, steps) && OthersKept(after, before, steps)
    requires forall k | 0 <= k < |steps| :: Complete(after, steps[k])
    ensures Extracted(destination, entries, contents, after) && OthersStay(destination, entries, before, after)
  {
    forall k | 0 <= k < |entries| && IsAsset(entries[k].name)
      ensures PathOf(destination, entries[k].name) in after && after[PathOf(destination, entries[k].name)] == contents[k]
    {
      assert Complete(after, steps[k]);
    }
  }

  /**
   Whatever interrupted runs came before, one run on a willing disk leaves every asset of
   the archive at the destination under the rest of its name, with its own content, and
   the marker; and no other file has changed.
   */
  lemma {:induction false} ExtractsArchive(b: Bytes, destination: Bytes, codec: Codec, entries: seq<Entry>, contents: seq<Bytes>,
                                           central: Word, end: nat, files: Files, runs: seq<seq<int>>, answers: seq<int>)
    requires ZipFile(b, entries, central, end) && Extracts(destination, codec, entries, contents)
    requires Untouched(destination, entries, contents, files) && Willing(answers, Effort(entries, contents, 0))
    ensures var after := AfterRuns(PlanOf(b, destination, codec), files, runs + [answers]);
      Extracted(destination, entries, contents, after) && Marker() in after && OthersStay(destination, entries, files, after)
  {
    var plan := PlanOf(b, destination, codec);
    ZipSteps(b, destination, codec, entries, contents, central, end);
    StepsAreWellFormed(destination, codec, entries, contents, plan.steps);
    StepsAreFresh(destination, entries, contents, plan.steps, files);
    EffortIsWork(destination, entries, contents, plan.steps, 0);
    NextRunCompletes(plan, files, runs, answers);
    RunsAreSound(plan, files, runs + [answers]);
    CompleteIsExtracted(destination, entries, contents, plan.steps, files, AfterRuns(plan, files, runs + [answers]));
  }

  /** A first run that is not interrupted succeeds, with "ok" and a newline in the marker. */
  lemma {:induction false} FirstRunSucceeds(b: Bytes, destination: Bytes, codec: Codec, entries: seq<Entry>, contents: seq<Bytes>,
                                            central: Word, end: nat, files: Files, answers: seq<int>)
    requires ZipFile(b, entries, central, end) && Extracts(destination, codec, entries, contents)
    requires Untouched(destination, entries, contents, files) && Willing(answers, Effort(entries, contents, 0))
    ensures var (after, ending) := Session(PlanOf(b, destination, codec), Disk(files, answers));
      && ending == Returned(0)
      && var marker := Ascii("ux0:/data/CAUSTIC3/.demo_assets_322.ready");
         marker in after.files && after.files[marker] == [0x6F, 0x6B, 0x0A]
  {
    var plan, d := PlanOf(b, destination, codec), Disk(files, answers);
    ZipSteps(b, destination, codec, entries, contents, central, end);
    StepsAreWellFormed(destination, codec, entries, contents, plan.steps);
    EffortIsWork(destination, entries, contents, plan.steps, 0);
    WalkCompletes(plan.steps, 0, d);
    WalkMarks(plan.steps, 0, d);
  }
}
