/**
 What the extractor reads from the APK: the end record, the central directory, and the
 content of each asset. Inflate and CRC-32 are parameters.
 */
module Archive {
  import opened Words
  import opened Bitwise
  import opened Buffers
  import opened Segments

  type Bytes = seq<Byte>

  function Code(c: char): Byte {
    c as int % 0x100
  }

  function Ascii(s: string): (r: Bytes)
    ensures |r| == |s|
  {
    seq(|s|, i requires 0 <= i < |s| => Code(s[i]))
  }

  function Le16(b: Bytes, at: nat): nat
    requires at + 2 <= |b|
  {
    b[at] as int + 0x100 * b[at + 1] as int
  }

  function Le32(b: Bytes, at: nat): Word
    requires at + 4 <= |b|
  {
    b[at] as int + 0x100 * b[at + 1] as int + 0x1_0000 * b[at + 2] as int + 0x100_0000 * b[at + 3] as int
  }

  /** Both are the joined shifted bytes of the source. */
  lemma {:induction false} BytesJoin(b: Bytes, at: nat)
    requires at + 4 <= |b|
    ensures Le16(b, at) == Or(b[at], 0x100 * b[at + 1] as int)
    ensures Le32(b, at)
         == Or(Or(Or(b[at], 0x100 * b[at + 1] as int), 0x1_0000 * b[at + 2] as int), 0x100_0000 * b[at + 3] as int)
  {
    FourJoin(b[at], b[at + 1], b[at + 2], b[at + 3]);
  }

  lemma {:induction false} FourJoin(a: nat, b: nat, c: nat, d: nat)
    requires a < 0x100 && b < 0x100 && c < 0x100
    ensures Or(a, 0x100 * b) == a + 0x100 * b
    ensures Or(Or(Or(a, 0x100 * b), 0x1_0000 * c), 0x100_0000 * d) == a + 0x100 * b + 0x1_0000 * c + 0x100_0000 * d
  {
    Powers();
    JoinIsSum(a, b, 8);
    JoinIsSum(a + 0x100 * b, c, 16);
    JoinIsSum(a + 0x100 * b + 0x1_0000 * c, d, 24);
  }

  const EOCD_SIGNATURE: Word := 0x06054b50
  const CENTRAL_SIGNATURE: Word := 0x02014b50
  const LOCAL_SIGNATURE: Word := 0x04034b50
  const MAX_ENTRY_SIZE: nat := 16 * 1024 * 1024
  const PATH_ROOM: nat := 768

  // The end record

  ghost predicate EndAt(tail: Bytes, i: int) {
    0 <= i <= |tail| - 22 && Le32(tail, i) == EOCD_SIGNATURE
  }

  /** The last end record that fits, looking from i down. */
  function EndFrom(tail: Bytes, i: nat): (r: Option<nat>)
    requires i + 22 <= |tail|
    ensures r.Some? ==> r.value <= i
  {
    if Le32(tail, i) == EOCD_SIGNATURE then Some(i)
    else if i == 0 then None
    else EndFrom(tail, i - 1)
  }

  lemma {:induction false} EndFromIsLast(tail: Bytes, i: nat)
    requires i + 22 <= |tail|
    ensures match EndFrom(tail, i)
      case Some(e) => e <= i && EndAt(tail, e) && (forall j | e < j <= i :: !EndAt(tail, j))
      case None => forall j | 0 <= j <= i :: !EndAt(tail, j)
  {
    if Le32(tail, i) != EOCD_SIGNATURE && i > 0 {
      EndFromIsLast(tail, i - 1);
    }
  }

  // Central headers

  function RecordSize(apk: Bytes, at: nat): nat
    requires at + 46 <= |apk|
  {
    46 + Le16(apk, at + 28) + Le16(apk, at + 30) + Le16(apk, at + 32)
  }

  /**
   Where the k-th central header is: after the whole records before it. None when one of
   those does not lie in the file.
   */
  function HeaderAt(apk: Bytes, central: nat, k: nat): Option<nat> {
    if k == 0 then Some(central)
    else match HeaderAt(apk, central, k - 1)
      case None => None
      case Some(at) =>
        if at + 46 <= |apk| && at + RecordSize(apk, at) <= |apk| then Some(at + RecordSize(apk, at)) else None
  }

  /** The sizes of the first k records together. */
  function SizesBefore(apk: Bytes, central: nat, k: nat): nat {
    if k == 0 then 0
    else match HeaderAt(apk, central, k - 1)
      case None => 0
      case Some(at) => SizesBefore(apk, central, k - 1) + if at + 46 <= |apk| then RecordSize(apk, at) else 0
  }

  datatype Codec = Codec(inflate: (Bytes, nat) -> Option<Bytes>, crc: Bytes -> Word)

  /** The fields of a central header that extraction uses. */
  datatype Header = Header(packing: nat, crc: Word, compressed: Word, size: Word, local: Word)

  function HeaderFields(apk: Bytes, at: nat): Header
    requires at + 46 <= |apk|
  {
    Header(Le16(apk, at + 10), Le32(apk, at + 16), Le32(apk, at + 20), Le32(apk, at + 24), Le32(apk, at + 42))
  }

  /** The content an entry must have; None when the archive does not yield it. */
  function Payload(apk: Bytes, codec: Codec, h: Header): (r: Option<Bytes>)
    ensures r.Some? ==> |r.value| == h.size && codec.crc(r.value) == h.crc
  {
    if h.local + 30 > |apk| || Le32(apk, h.local) != LOCAL_SIGNATURE then None
    else
      var data := h.local + 30 + Le16(apk, h.local + 26) + Le16(apk, h.local + 28);
      if data + h.compressed > |apk| then None
      else
        match Unpacked(codec, h, apk[data..data + h.compressed])
        case None => None
        case Some(output) => if codec.crc(output) == h.crc then Some(output) else None
  }

  function Unpacked(codec: Codec, h: Header, input: Bytes): (r: Option<Bytes>)
    requires |input| == h.compressed
    ensures r.Some? ==> |r.value| == h.size
  {
    if h.packing == 0 && h.compressed == h.size then Some(input)
    else if h.packing == 8 then
      match codec.inflate(input, h.size)
      case None => None
      case Some(output) => if |output| == h.size then Some(output) else None
    else None
  }

  // Names

  const SLASH: Byte := 0x2F
  const DOT: Byte := 0x2E
  const COLON: Byte := 0x3A
  const BACKSLASH: Byte := 0x5C

  predicate PlainSegment(segment: Bytes) {
    segment != [] && segment != [DOT] && segment != [DOT, DOT]
  }

  /** A relative path of plain segments, without a drive or a backslash. */
  predicate SafeRelative(path: Bytes) {
    Every(Split(path, SLASH), PlainSegment) && BACKSLASH !in path && COLON !in path
  }

  function AssetPrefix(): (r: Bytes)
    ensures |r| == 12
  {
    Ascii("assets/demo/")
  }

  predicate IsAssetName(name: Bytes)
    requires name != []
  {
    AssetPrefix() <= name && name[|name| - 1] != SLASH
  }

  /** What the walk does with one central header. */
  datatype Step =
    | Bad
    | Skip
    | Asset(path: Bytes, size: Word, payload: Option<Bytes>)

  function StepAt(apk: Bytes, destination: Bytes, codec: Codec, at: nat): Step {
    if at + 46 > |apk| || Le32(apk, at) != CENTRAL_SIGNATURE then Bad
    else
      ListedStep(apk, destination, codec, HeaderFields(apk, at), at + 46, Le16(apk, at + 28), at + RecordSize(apk, at))
  }

  /** The name begins at from, the next header at next. */
  function ListedStep(apk: Bytes, destination: Bytes, codec: Codec, h: Header, from: nat, nameSize: nat, next: nat): Step {
    if nameSize == 0 || h.size > MAX_ENTRY_SIZE || h.compressed > MAX_ENTRY_SIZE || h.local + 30 > |apk| then Bad
    else if from + nameSize > |apk| || next > |apk| then Bad
    else NamedStep(apk, destination, codec, h, apk[from..from + nameSize])
  }

  function NamedStep(apk: Bytes, destination: Bytes, codec: Codec, h: Header, name: Bytes): Step
    requires name != []
  {
    if !IsAssetName(name) then Skip
    else
      var relative := CString(name[12..], 0);
      if !SafeRelative(relative) || |destination + relative| >= PATH_ROOM then Bad
      else Asset(destination + relative, h.size, Payload(apk, codec, h))
  }

  /** Every path the walk writes is the destination and a safe relative path, and fits. */
  lemma {:induction false} AssetIsBelow(apk: Bytes, destination: Bytes, codec: Codec, at: nat)
    requires StepAt(apk, destination, codec, at).Asset?
    ensures var step := StepAt(apk, destination, codec, at);
      && destination < step.path && SafeRelative(step.path[|destination|..]) && |step.path| < PATH_ROOM
      && (step.payload.Some? ==> |step.payload.value| == step.size)
  {
  }

  /** Such a path leads below the directory of the destination, down exactly its own segments. */
  lemma {:induction false} AssetStaysBelow(apk: Bytes, destination: Bytes, codec: Codec, at: nat, current: seq<Bytes>)
    requires destination != [] && destination[|destination| - 1] == SLASH
    requires StepAt(apk, destination, codec, at).Asset?
    ensures var path := StepAt(apk, destination, codec, at).path;
      Follow(Split(path, SLASH), current, DOT)
      == Follow(Split(destination, SLASH), current, DOT) + Split(path[|destination|..], SLASH)
  {
    AssetIsBelow(apk, destination, codec, at);
    var path := StepAt(apk, destination, codec, at).path;
    var directory, relative := destination[..|destination| - 1], path[|destination|..];
    assert destination == directory + [SLASH] + [] && path == directory + [SLASH] + relative;
    SplitAppend(directory, SLASH, []);
    SplitAppend(directory, SLASH, relative);
    FollowAppend(Split(directory, SLASH), [[]], current, DOT);
    FollowAppend(Split(directory, SLASH), Split(relative, SLASH), current, DOT);
    EveryIsForall(Split(relative, SLASH), PlainSegment);
    FollowPlain(Split(relative, SLASH), Follow(Split(directory, SLASH), current, DOT), DOT);
  }

  /** What a run works through: nothing if the directory cannot be found, else one step for each entry. */
  datatype Plan = Unreadable | Steps(steps: seq<Step>)

  function StepOf(apk: Bytes, destination: Bytes, codec: Codec, central: nat, k: nat): Step {
    match HeaderAt(apk, central, k)
    case None => Bad
    case Some(at) => StepAt(apk, destination, codec, at)
  }

  /** The end of the file in which the end record is looked for. */
  function Tail(apk: Bytes): Bytes {
    if |apk| < 65557 then apk else apk[|apk| - 65557..]
  }

  function PlanOf(apk: Bytes, destination: Bytes, codec: Codec): Plan {
    var tail := Tail(apk);
    if |apk| < 22 then Unreadable
    else
      match EndFrom(tail, |tail| - 22)
      case None => Unreadable
      case Some(e) =>
        if Le32(tail, e + 16) + 46 > |apk| then Unreadable
        else StepsOf(apk, destination, codec, Le32(tail, e + 16), Le16(tail, e + 10))
  }

  function StepsOf(apk: Bytes, destination: Bytes, codec: Codec, central: Word, entries: nat): Plan {
    Steps(seq(entries, k requires 0 <= k => StepOf(apk, destination, codec, central, k)))
  }

  lemma StepIsAtHeader(apk: Bytes, destination: Bytes, codec: Codec, central: Word, entries: nat, k: nat, at: nat)
    requires k < entries && HeaderAt(apk, central, k) == Some(at)
    ensures StepsOf(apk, destination, codec, central, entries).steps[k] == StepAt(apk, destination, codec, at)
  {
  }

  lemma NextHeaderAt(apk: Bytes, central: nat, k: nat, at: nat)
    requires HeaderAt(apk, central, k) == Some(at) && at + 46 <= |apk| && at + RecordSize(apk, at) <= |apk|
    ensures HeaderAt(apk, central, k + 1) == Some(at + RecordSize(apk, at))
  {
  }

  /** The k-th header lies after the sum of the earlier record sizes. */
  lemma {:induction false} HeaderAfterSum(apk: Bytes, central: nat, k: nat)
    requires HeaderAt(apk, central, k).Some?
    ensures HeaderAt(apk, central, k) == Some(central + SizesBefore(apk, central, k))
  {
    if k > 0 {
      HeaderAfterSum(apk, central, k - 1);
    }
  }
}
