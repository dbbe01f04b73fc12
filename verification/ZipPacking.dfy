/**
 Packing files into an archive, stored one behind the other: extracting it gives the
 files back.
 */
module ZipPacking {
  import opened Words
  import opened Archive
  import opened Extraction
  import opened ZipLayout

  datatype File = File(name: Bytes, content: Bytes)

  predicate Packable(f: File) {
    f.name != [] && |f.name| < 0x1_0000 && 0 !in f.name && |f.content| <= 0x100_0000
  }

  function Zeros(n: nat): Bytes {
    seq(n, _ => 0)
  }

  function EntryOf(f: File, codec: Codec, local: Word): Entry
    requires Packable(f)
  {
    Entry(f.name, 0, codec.crc(f.content), |f.content|, f.content, local, 0, 0, 0)
  }

  function LocalBytes(f: File): Bytes
    requires Packable(f)
  {
    [0x50, 0x4B, 0x03, 0x04] + (Zeros(22) + (Two(|f.name|) + (Two(0) + (f.name + f.content))))
  }

  function CentralBytes(f: File, codec: Codec, local: Word): Bytes
    requires Packable(f)
  {
    [0x50, 0x4B, 0x01, 0x02] + (Zeros(6) + (Two(0) + (Zeros(4) + (Four(codec.crc(f.content)) + Sizes(f, local)))))
  }

  function Sizes(f: File, local: Word): Bytes
    requires Packable(f)
  {
    Four(|f.content|) + (Four(|f.content|) + (Two(|f.name|) + (Two(0) + (Two(0) + (Zeros(8) + (Four(local) + f.name))))))
  }

  function EndBytes(count: nat, central: Word): Bytes
    requires count < 0x1_0000
  {
    [0x50, 0x4B, 0x05, 0x06] + (Zeros(6) + (Two(count) + (Zeros(4) + (Four(central) + Two(0)))))
  }

  ghost predicate AllPackable(files: seq<File>) {
    forall f | f in files :: Packable(f)
  }

  function Locals(files: seq<File>): Bytes
    requires AllPackable(files)
  {
    if files == [] then [] else LocalBytes(files[0]) + Locals(files[1..])
  }

  /** The entries of files whose local headers begin at an offset. */
  function Entries(files: seq<File>, codec: Codec, at: nat): (r: seq<Entry>)
    requires AllPackable(files) && at + |Locals(files)| < SPACE
    ensures |r| == |files|
  {
    if files == [] then []
    else [EntryOf(files[0], codec, at)] + Entries(files[1..], codec, at + |LocalBytes(files[0])|)
  }

  function Centrals(files: seq<File>, codec: Codec, at: nat): Bytes
    requires AllPackable(files) && at + |Locals(files)| < SPACE
  {
    if files == [] then []
    else CentralBytes(files[0], codec, at) + Centrals(files[1..], codec, at + |LocalBytes(files[0])|)
  }

  ghost predicate Packs(files: seq<File>) {
    files != [] && |files| < 0x1_0000 && AllPackable(files) && |Locals(files)| < SPACE
  }

  /** The local headers with their files, the central directory, and the end record. */
  function Pack(files: seq<File>, codec: Codec): Bytes
    requires Packs(files)
  {
    Locals(files) + (Centrals(files, codec, 0) + EndBytes(|files|, |Locals(files)|))
  }

  // It is an archive

  lemma {:induction false} HoldsBoth(b: Bytes, at: nat, first: Bytes, rest: Bytes)
    requires Holds(b, at, first + rest)
    ensures Holds(b, at, first) && Holds(b, at + |first|, rest)
  {
    var both := b[at..at + |first + rest|];
    assert b[at..at + |first|] == both[..|first|] == first;
    assert b[at + |first|..at + |first| + |rest|] == both[|first|..] == rest;
  }

  lemma {:induction false} LocalStands(b: Bytes, f: File, codec: Codec, local: Word)
    requires Packable(f) && Holds(b, local, LocalBytes(f))
    ensures LocalAt(b, EntryOf(f, codec, local))
  {
    var data := f.name + f.content;
    HoldsBoth(b, local, [0x50, 0x4B, 0x03, 0x04], Zeros(22) + (Two(|f.name|) + (Two(0) + data)));
    HoldsBoth(b, local + 4, Zeros(22), Two(|f.name|) + (Two(0) + data));
    HoldsBoth(b, local + 26, Two(|f.name|), Two(0) + data);
    HoldsBoth(b, local + 28, Two(0), data);
    HoldsBoth(b, local + 30, f.name, f.content);
  }

  lemma {:induction false} SizesStand(b: Bytes, at: nat, f: File, local: Word)
    requires Packable(f) && Holds(b, at, Sizes(f, local))
    ensures Holds(b, at, Four(|f.content|)) && Holds(b, at + 4, Four(|f.content|)) && Holds(b, at + 8, Two(|f.name|))
    ensures Holds(b, at + 10, Two(0)) && Holds(b, at + 12, Two(0)) && Holds(b, at + 22, Four(local)) && Holds(b, at + 26, f.name)
  {
    var place := Zeros(8) + (Four(local) + f.name);
    HoldsBoth(b, at, Four(|f.content|), Four(|f.content|) + (Two(|f.name|) + (Two(0) + (Two(0) + place))));
    HoldsBoth(b, at + 4, Four(|f.content|), Two(|f.name|) + (Two(0) + (Two(0) + place)));
    HoldsBoth(b, at + 8, Two(|f.name|), Two(0) + (Two(0) + place));
    HoldsBoth(b, at + 10, Two(0), Two(0) + place);
    HoldsBoth(b, at + 12, Two(0), place);
    HoldsBoth(b, at + 14, Zeros(8), Four(local) + f.name);
    HoldsBoth(b, at + 22, Four(local), f.name);
  }

  lemma {:induction false} CentralStands(b: Bytes, at: nat, f: File, codec: Codec, local: Word)
    requires Packable(f) && Holds(b, at, CentralBytes(f, codec, local))
    ensures CentralAt(b, at, EntryOf(f, codec, local))
  {
    var crc, sizes := Four(codec.crc(f.content)), Sizes(f, local);
    HoldsBoth(b, at, [0x50, 0x4B, 0x01, 0x02], Zeros(6) + (Two(0) + (Zeros(4) + (crc + sizes))));
    HoldsBoth(b, at + 4, Zeros(6), Two(0) + (Zeros(4) + (crc + sizes)));
    HoldsBoth(b, at + 10, Two(0), Zeros(4) + (crc + sizes));
    HoldsBoth(b, at + 12, Zeros(4), crc + sizes);
    HoldsBoth(b, at + 16, crc, sizes);
    SizesStand(b, at + 20, f, local);
  }

  lemma {:induction false} EndStands(b: Bytes, at: nat, count: nat, central: Word)
    requires count < 0x1_0000 && Holds(b, at, EndBytes(count, central)) && |b| == at + 22
    ensures EndRecordAt(b, at, count, central)
  {
    HoldsBoth(b, at, [0x50, 0x4B, 0x05, 0x06], Zeros(6) + (Two(count) + (Zeros(4) + (Four(central) + Two(0)))));
    HoldsBoth(b, at + 4, Zeros(6), Two(count) + (Zeros(4) + (Four(central) + Two(0))));
    HoldsBoth(b, at + 10, Two(count), Zeros(4) + (Four(central) + Two(0)));
    HoldsBoth(b, at + 12, Zeros(4), Four(central) + Two(0));
    HoldsBoth(b, at + 16, Four(central), Two(0));
  }

  lemma {:induction false} EntryIs(files: seq<File>, codec: Codec, at: nat, k: nat)
    requires AllPackable(files) && at + |Locals(files)| < SPACE && k < |files|
    ensures var e := Entries(files, codec, at)[k];
      e.name == files[k].name && e.Encodable() && Small(e) && 0 !in e.name && Yields(codec, e, files[k].content)
    decreases |files|
  {
    assert Packable(files[k]);
    if k > 0 {
      EntryIs(files[1..], codec, at + |LocalBytes(files[0])|, k - 1);
    }
  }

  lemma {:induction false} LocalsStand(b: Bytes, files: seq<File>, codec: Codec, at: nat)
    requires AllPackable(files) && at + |Locals(files)| < SPACE && Holds(b, at, Locals(files))
    ensures forall e | e in Entries(files, codec, at) :: e.Encodable() && LocalAt(b, e)
    decreases |files|
  {
    if files != [] {
      HoldsBoth(b, at, LocalBytes(files[0]), Locals(files[1..]));
      LocalStands(b, files[0], codec, at);
      LocalsStand(b, files[1..], codec, at + |LocalBytes(files[0])|);
    }
  }

  lemma {:induction false} CentralsStand(b: Bytes, central: nat, files: seq<File>, codec: Codec, at: nat)
    requires AllPackable(files) && at + |Locals(files)| < SPACE && Holds(b, central, Centrals(files, codec, at))
    requires forall e | e in Entries(files, codec, at) :: e.Encodable()
    ensures DirectoryAt(b, central, Entries(files, codec, at))
    decreases |files|
  {
    if files != [] {
      var es, next := Entries(files, codec, at), at + |LocalBytes(files[0])|;
      HoldsBoth(b, central, CentralBytes(files[0], codec, at), Centrals(files[1..], codec, next));
      CentralStands(b, central, files[0], codec, at);
      assert es[0] == EntryOf(files[0], codec, at) && es[1..] == Entries(files[1..], codec, next);
      CentralsStand(b, central + |CentralBytes(files[0], codec, at)|, files[1..], codec, next);
    }
  }

  /** What is packed is an archive of section 4.3 of APPNOTE. */
  lemma {:induction false} PackedIsZip(files: seq<File>, codec: Codec)
    requires Packs(files)
    ensures exists end: nat :: ZipFile(Pack(files, codec), Entries(files, codec, 0), |Locals(files)|, end)
  {
    var b, es, central := Pack(files, codec), Entries(files, codec, 0), |Locals(files)|;
    var end := central + |Centrals(files, codec, 0)|;
    assert b[0..|b|] == b;
    HoldsBoth(b, 0, Locals(files), Centrals(files, codec, 0) + EndBytes(|files|, central));
    HoldsBoth(b, central, Centrals(files, codec, 0), EndBytes(|files|, central));
    LocalsStand(b, files, codec, 0);
    CentralsStand(b, central, files, codec, 0);
    EndStands(b, end, |files|, central);
    assert ZipFile(b, es, central, end);
  }

  // Extracting it

  function ContentsOf(files: seq<File>): seq<Bytes> {
    seq(|files|, k requires 0 <= k < |files| => files[k].content)
  }

  /** Every file is an asset that can be named below the destination, each differently. */
  ghost predicate AllAssets(files: seq<File>, destination: Bytes) {
    && (forall k | 0 <= k < |files| :: IsAsset(files[k].name) && Nameable(destination, files[k].name))
    && (forall i, j | 0 <= i < j < |files| :: files[i].name != files[j].name)
  }

  lemma {:induction false} PackedExtracts(files: seq<File>, destination: Bytes, codec: Codec)
    requires Packs(files) && AllAssets(files, destination) && !(destination <= Marker())
    ensures Extracts(destination, codec, Entries(files, codec, 0), ContentsOf(files))
  {
    forall k | 0 <= k < |files|
      ensures var e := Entries(files, codec, 0)[k];
        e.name == files[k].name && e.Encodable() && Small(e) && 0 !in e.name && Yields(codec, e, files[k].content)
    {
      EntryIs(files, codec, 0, k);
    }
  }

  /** Packed files come back: one run on a willing disk leaves each at the destination, under the rest of its name. */
  lemma {:induction false} PackedComesBack(files: seq<File>, destination: Bytes, codec: Codec, answers: seq<int>)
    requires Packs(files) && AllAssets(files, destination) && !(destination <= Marker())
    requires Willing(answers, Effort(Entries(files, codec, 0), ContentsOf(files), 0))
    ensures var after := AfterRuns(PlanOf(Pack(files, codec), destination, codec), map[], [answers]);
      forall k | 0 <= k < |files| ::
        destination + files[k].name[12..] in after && after[destination + files[k].name[12..]] == files[k].content
  {
    var b, es, contents := Pack(files, codec), Entries(files, codec, 0), ContentsOf(files);
    PackedIsZip(files, codec);
    PackedExtracts(files, destination, codec);
    var end: nat :| ZipFile(b, es, |Locals(files)|, end);
    ExtractsArchive(b, destination, codec, es, contents, |Locals(files)|, end, map[], [], answers);
    assert [] + [answers] == [answers];
    forall k | 0 <= k < |files|
      ensures var path, after := destination + files[k].name[12..], AfterRuns(PlanOf(b, destination, codec), map[], [answers]);
        path in after && after[path] == files[k].content
    {
      EntryIs(files, codec, 0, k);
      assert IsAsset(es[k].name) && PathOf(destination, es[k].name) == destination + files[k].name[12..];
    }
  }
}
