/**
 The two bump arenas that hold generated code: the patch block below the image
 and the cave in the padding of the executable segment.
 */
module CodeArena {
  import opened Words
  import opened Bitwise
  import opened ArmIsa

  datatype Arena = Arena(base: Word, size: Word, head: Word) {
    /** The macro blkavail, on unsigned words. */
    function Available(): Word {
      Wrap(size - Wrap(head - base))
    }

    function Take(length: Word): Arena {
      this.(head := Wrap(head + length))
    }

    lemma {:induction false} TakeIsSound(length: Word)
      requires WellFormed() && length % 4 == 0 && length <= Available()
      ensures Take(length) == Arena(base, size, head + length)
      ensures Take(length).WellFormed() && Holds(head, length)
    {
      AvailableIsRest();
      var next := head + length;
      assert next % 4 == 0 && next < SPACE;
    }

    lemma {:induction false} AvailableIsRest()
      requires WellFormed()
      ensures Available() == base + size - head
    {
    }

    ghost predicate WellFormed() {
      && base % 4 == 0 && head % 4 == 0
      && 0 < base <= head <= base + size < SPACE
    }

    ghost predicate Holds(address: Word, length: int) {
      base <= address && address + length <= base + size
    }
  }

  datatype Arenas = Arenas(patch: Arena, cave: Arena) {
    ghost predicate WellFormed() {
      && patch.WellFormed() && cave.WellFormed()
      && (patch.base + patch.size <= cave.base || cave.base + cave.size <= patch.base)
    }
  }

  /** The macro inrange: a zero range means no limit. */
  predicate InRange(lesser: Word, greater: Word, range: Word) {
    range == 0 || range >= Wrap(greater - lesser)
  }

  datatype Request = Request(range: Word, dst: Word, size: Word)

  /** so_alloc_arena; address 0 is NULL. */
  function Allocate(a: Arenas, r: Request): (Arenas, Word) {
    var length := AlignWord(r.size);
    if length <= a.patch.Available() && InRange(a.patch.base, r.dst, r.range) then
      (a.(patch := a.patch.Take(length)), a.patch.head)
    else if length <= a.cave.Available() && InRange(r.dst, a.cave.base, r.range) then
      (a.(cave := a.cave.Take(length)), a.cave.head)
    else (a, 0)
  }

  /** One allocation: the block is word-aligned, taken from unused space of one arena, and nothing else moves. */
  lemma AllocateIsSound(a: Arenas, r: Request)
    requires a.WellFormed()
    ensures var (b, address) := Allocate(a, r);
      var length := AlignWord(r.size);
      && b.WellFormed() && address % 4 == 0
      && (address == 0 ==> b == a)
      && (address != 0 ==>
            || (a.patch.head == address && b.patch.head == address + length
                && a.patch.Holds(address, length) && b.cave == a.cave)
            || (a.cave.head == address && b.cave.head == address + length
                && a.cave.Holds(address, length) && b.patch == a.patch))
  {
    var length := AlignWord(r.size);
    if length <= a.patch.Available() && InRange(a.patch.base, r.dst, r.range) {
      a.patch.TakeIsSound(length);
    } else if length <= a.cave.Available() && InRange(r.dst, a.cave.base, r.range) {
      a.cave.TakeIsSound(length);
    }
  }

  /** Going up from one address by at most range bytes, round the address space if need be, arrives at the other. */
  predicate Ahead(from: Word, to: Word, range: Word) {
    if from <= to then to - from <= range else SPACE - from + to <= range
  }

  lemma {:induction false} InRangeIff(from: Word, to: Word, range: Word)
    ensures InRange(from, to, range) <==> range == 0 || Ahead(from, to, range)
  {
  }

  /** What an arena has left holds a block of this length, and the range test between these addresses admits it. */
  ghost predicate Gives(a: Arena, length: int, from: Word, to: Word, range: Word) {
    a.head + length <= a.base + a.size && (range == 0 || Ahead(from, to, range))
  }

  /**
   A request is granted from the patch arena if that has room and the destination lies
   ahead of it in range, else from the cave if that has room and lies in range ahead of
   the destination, else not at all.
   */
  lemma {:induction false} GrantedFirstFit(a: Arenas, r: Request, length: Word)
    requires a.WellFormed() && r.size <= length < r.size + 4 && length % 4 == 0
    ensures Allocate(a, r) ==
      if Gives(a.patch, length, a.patch.base, r.dst, r.range) then
        (Arenas(a.patch.(head := a.patch.head + length), a.cave), a.patch.head)
      else if Gives(a.cave, length, r.dst, a.cave.base, r.range) then
        (Arenas(a.patch, a.cave.(head := a.cave.head + length)), a.cave.head)
      else (a, 0)
  {
    RoundedIs(r.size, length);
    GivesIff(a.patch, length, a.patch.base, r.dst, r.range);
    GivesIff(a.cave, length, r.dst, a.cave.base, r.range);
  }

  lemma {:induction false} RoundedIs(size: Word, length: Word)
    requires size <= length < size + 4 && length % 4 == 0
    ensures AlignWord(size) == length
  {
  }

  lemma {:induction false} GivesIff(a: Arena, length: Word, from: Word, to: Word, range: Word)
    requires a.WellFormed() && length % 4 == 0
    ensures Gives(a, length, from, to, range) <==> length <= a.Available() && InRange(from, to, range)
    ensures Gives(a, length, from, to, range) ==> a.Take(length) == a.(head := a.head + length)
  {
    a.AvailableIsRest();
    InRangeIff(from, to, range);
    if length <= a.Available() {
      a.TakeIsSound(length);
    }
  }

  /** Rounding the size up wraps for the last three sizes, and only then is less reserved than asked for. */
  lemma ReservesEnoughIff(size: Word)
    ensures AlignWord(size) >= size <==> size <= SPACE - 4
  {
  }

  datatype Block = Block(address: Word, length: Word) {
    ghost predicate Disjoint(other: Block) {
      address + length <= other.address || other.address + other.length <= address
    }
  }

  /** The arenas and the granted blocks after a sequence of requests. */
  function AllocateAll(a: Arenas, rs: seq<Request>): (Arenas, seq<Block>)
    decreases |rs|
  {
    if rs == [] then (a, [])
    else
      var (before, blocks) := AllocateAll(a, rs[..|rs| - 1]);
      var r := rs[|rs| - 1];
      var (after, address) := Allocate(before, r);
      (after, if address == 0 then blocks else blocks + [Block(address, AlignWord(r.size))])
  }

  /** A block lies in the used part of an arena that started at a. */
  ghost predicate Used(a: Arenas, now: Arenas, b: Block) {
    || (a.patch.head <= b.address && b.address + b.length <= now.patch.head)
    || (a.cave.head <= b.address && b.address + b.length <= now.cave.head)
  }

  /** Any sequence of allocations: aligned blocks, pairwise disjoint, inside the two arenas. */
  lemma {:induction false} AllocationsAreDisjoint(a: Arenas, rs: seq<Request>)
    requires a.WellFormed()
    ensures var (now, blocks) := AllocateAll(a, rs);
      && now.WellFormed()
      && now.patch.(head := a.patch.head) == a.patch && now.cave.(head := a.cave.head) == a.cave
      && a.patch.head <= now.patch.head && a.cave.head <= now.cave.head
      && (forall i | 0 <= i < |blocks| ::
            && blocks[i].address % 4 == 0
            && Used(a, now, blocks[i])
            && (a.patch.Holds(blocks[i].address, blocks[i].length) || a.cave.Holds(blocks[i].address, blocks[i].length)))
      && (forall i, j | 0 <= i < j < |blocks| :: blocks[i].Disjoint(blocks[j]))
    decreases |rs|
  {
    if rs != [] {
      var r := rs[|rs| - 1];
      AllocationsAreDisjoint(a, rs[..|rs| - 1]);
      var (before, blocks) := AllocateAll(a, rs[..|rs| - 1]);
      AllocateIsSound(before, r);
      var (now, address) := Allocate(before, r);
      if address != 0 {
        forall i | 0 <= i < |blocks| ensures blocks[i].Disjoint(Block(address, AlignWord(r.size))) {
          LaterIsDisjoint(a, before, blocks[i], address, AlignWord(r.size));
        }
      }
    }
  }

  /** A block taken at a head is disjoint from one in the part used before. */
  lemma {:induction false} LaterIsDisjoint(a: Arenas, before: Arenas, b: Block, address: Word, length: Word)
    requires a.WellFormed() && before.WellFormed()
    requires before.patch.(head := a.patch.head) == a.patch && before.cave.(head := a.cave.head) == a.cave
    requires Used(a, before, b)
    requires || (before.patch.head == address && before.patch.Holds(address, length))
             || (before.cave.head == address && before.cave.Holds(address, length))
    ensures b.Disjoint(Block(address, length))
  {
  }

  // The layout chosen when the executable segment is loaded

  const PATCH_SIZE: Word := 0x1_0000

  /** patch_size uses p_align itself, so an unaligned segment (p_align 0) gets no patch arena. */
  function PatchSize(pAlign: Word): Word {
    if pAlign == 0 then 0 else AlignUp(PATCH_SIZE, pAlign)
  }

  /** An executable segment; offset is its address modulo its alignment, the distance of the text from its block. */
  datatype Segment = Segment(offset: Word, memSize: Word, pAlign: Word) {
    function Align(): Word { if pAlign == 0 then 0x1000 else pAlign }
    /** The end of the text, from the start of the mapped block. */
    function TextEnd(): nat { offset + memSize }
    function MappedSize(): Word { AlignUp(TextEnd(), Align()) }
    function CaveSize(): Word { Padding(TextEnd(), MappedSize()) }
    function CaveBase(block: Word): Word { AlignWord(block + TextEnd()) }
  }

  /** The segment of a program header; an alignment of 0 stands for a page. */
  function SegmentAt(vaddr: Word, memSize: Word, pAlign: Word): Segment {
    Segment(vaddr % (if pAlign == 0 then 0x1000 else pAlign), memSize, pAlign)
  }

  /** What the masks of an alignment compute, on the offset and in ALIGN_MEM. */
  lemma {:induction false} AlignmentMasks(vaddr: Word, memSize: Word, x: nat, n: nat)
    requires n < 32
    ensures 0 < Pow2(n) < SPACE
    ensures SegmentAt(vaddr, memSize, Pow2(n)).offset == vaddr - And(vaddr, SPACE - Pow2(n))
    ensures AlignUp(x, Pow2(n)) == And(Wrap(x + (Pow2(n) - 1)), SPACE - Pow2(n))
  {
    Powers();
    Pow2Grows(n, 31);
    HighMask(vaddr, n, 32);
    HighMask(Wrap(x + (Pow2(n) - 1)), n, 32);
  }

  /** Both arenas as _so_load leaves them, unused, for a patch block and the mapped block of the executable segment. */
  function FreshArenas(seg: Segment, patchBlock: Word, block: Word): Arenas {
    Arenas(Arena(patchBlock, PatchSize(seg.pAlign), patchBlock), Arena(seg.CaveBase(block), seg.CaveSize(), seg.CaveBase(block)))
  }

  /** Blocks a load can get: the mapped block ends inside the address space, and the patch block lies below it. */
  ghost predicate Loadable(seg: Segment, patchBlock: Word, block: Word) {
    && seg.TextEnd() + seg.Align() <= SPACE && block + seg.MappedSize() + 4 <= SPACE
    && 0 < patchBlock && patchBlock % 4 == 0 && patchBlock + PatchSize(seg.pAlign) <= block
  }

  function Padding(text: int, mapped: Word): Word {
    var padding := Wrap(mapped - text);
    padding - padding % 4
  }

  /**
   The patch arena is the least multiple of the alignment from 64 KB on, the mapped block
   the least that holds the text, and the cave the whole words that remain; a missing
   alignment is a page for the block, but leaves no patch arena.
   */
  lemma {:induction false} SizesAreLeast(seg: Segment, align: Word)
    requires 0 < align <= 0x8000_0000 && seg.pAlign in {0, align} && (seg.pAlign == 0 ==> align == 0x1000)
    requires seg.TextEnd() + align <= SPACE
    ensures seg.pAlign == 0 ==> PatchSize(seg.pAlign) == 0
    ensures seg.pAlign != 0 ==> PatchSize(align) % align == 0 && 0x1_0000 <= PatchSize(align) < 0x1_0000 + align
    ensures var text := seg.offset + seg.memSize;
      && seg.MappedSize() % align == 0 && text <= seg.MappedSize() < text + align
      && seg.CaveSize() % 4 == 0 && seg.CaveSize() <= seg.MappedSize() - text < seg.CaveSize() + 4
  {
    RoundsToMultiple(0x1_0000, align);
    RoundsToMultiple(seg.TextEnd(), align);
  }

  lemma {:induction false} RoundsToMultiple(x: nat, a: nat)
    requires 0 < a && x + a <= SPACE
    ensures AlignUp(x, a) % a == 0 && x <= AlignUp(x, a) < x + a
  {
    RoundUp(x, a);
    var q := (x + a - 1) / a;
    assert AlignUp(x, a) == q * a;
    Remainder(q * a, q, a, 0);
  }

  /** The cave starts at or after the text and ends with the mapped block exactly when the block ends on a word. */
  lemma CaveEndsWithBlockIff(seg: Segment, block: Word)
    requires seg.TextEnd() + seg.Align() <= SPACE
    requires block + seg.MappedSize() + 4 <= SPACE
    ensures block + seg.TextEnd() <= seg.CaveBase(block)
    ensures seg.CaveSize() < seg.Align()
    ensures seg.CaveBase(block) + seg.CaveSize() == block + seg.MappedSize()
       <==> (block + seg.MappedSize()) % 4 == 0
  {
    RoundUp(seg.TextEnd(), seg.Align());
    CaveArithmetic(block, seg.TextEnd(), seg.MappedSize());
  }

  /** A mapped block without padding that ends one byte past a word has a cave three bytes beyond its end. */
  lemma {:induction false} CaveMissesEnd(seg: Segment, block: Word)
    requires seg.pAlign == 1 && seg.TextEnd() + 4 <= SPACE
    requires (block + seg.TextEnd()) % 4 == 1 && block + seg.TextEnd() + 3 < SPACE
    ensures seg.MappedSize() == seg.TextEnd() && seg.CaveBase(block) + seg.CaveSize() == block + seg.MappedSize() + 3
  {
    RoundsUpTo(seg.TextEnd(), 1, seg.TextEnd());
    NoPadding(block + seg.TextEnd(), seg.TextEnd());
  }

  lemma {:induction false} NoPadding(end: nat, text: Word)
    requires end % 4 == 1 && end + 3 < SPACE
    ensures Padding(text, text) == 0 && AlignWord(end) == end + 3
  {
  }

  lemma CaveArithmetic(block: nat, text: nat, mapped: Word)
    requires text <= mapped && block + mapped + 4 <= SPACE
    ensures block + text <= AlignWord(block + text)
    ensures Padding(text, mapped) <= mapped - text
    ensures AlignWord(block + text) + Padding(text, mapped) == block + mapped <==> (block + mapped) % 4 == 0
  {
  }

  lemma {:induction false} RoundUp(x: nat, a: nat)
    requires 0 < a && x + a <= SPACE
    ensures x <= AlignUp(x, a) < x + a
  {
    var y := x + a - 1;
    assert 0 <= y % a < a;
  }

  // Branches into the arenas

  /** B_RANGE */
  const BRANCH_RANGE: Word := 0xFF_FFFF

  /** B_OFFSET adds 8 to a pointer to 32-bit words, hence 32 bytes. */
  function BranchBias(dst: Word): Word {
    Wrap(dst + 32)
  }

  /** The farthest word that B reaches going up. */
  const FORWARD_REACH: int := 0x200_0004

  /** A block granted for a trampoline at a site. */
  function Granted(a: Arenas, site: Word, size: Word): Word {
    Allocate(a, Request(BRANCH_RANGE, BranchBias(site), size)).1
  }

  /** Between the arenas a granted block is a branch target exactly when it is not too far up; the range tests do not settle that. */
  lemma {:induction false} GrantIsReachedIff(a: Arenas, site: Word, size: Word)
    requires a.WellFormed() && site % 4 == 0 && a.cave.size <= 0x8000_0000
    requires a.patch.base + a.patch.size <= site < a.cave.base && site + 32 < SPACE + a.patch.base
    requires Granted(a, site, size) != 0
    ensures Reaches(site, Granted(a, site, size)) <==> Granted(a, site, size) <= site + FORWARD_REACH
  {
    var length := AlignWord(size);
    if length <= a.patch.Available() && InRange(a.patch.base, BranchBias(site), BRANCH_RANGE) {
      a.patch.AvailableIsRest();
      PatchDistance(a.patch.base, a.patch.head, site);
      BranchReachesIff(site, a.patch.head);
    } else {
      a.cave.AvailableIsRest();
      CaveTest(a.cave.base, site);
      CaveDistance(a.cave.base, a.cave.head, site);
      BranchReachesIff(site, a.cave.head);
    }
  }

  /** The patch test bounds the way down from a site above the arena. */
  lemma {:induction false} PatchDistance(base: Word, head: Word, site: Word)
    requires base <= head <= site && site + 32 < SPACE + base && head % 4 == 0 && site % 4 == 0
    requires InRange(base, BranchBias(site), BRANCH_RANGE)
    ensures FitsBranch(site, head)
  {
    assert site + 32 - base <= BRANCH_RANGE;
  }

  /** The cave test admits the sites from 32 to 2^24 + 31 bytes below the cave. */
  lemma {:induction false} CaveTest(base: Word, site: Word)
    requires site < base
    ensures InRange(BranchBias(site), base, BRANCH_RANGE) <==> 32 <= base - site <= 0x100_001F
  {
  }

  lemma {:induction false} CaveDistance(base: Word, head: Word, site: Word)
    requires site < base <= head <= base + 0x8000_0000 && base - site <= 0x100_001F && head % 4 == 0 && site % 4 == 0
    ensures FitsBranch(site, head) <==> head <= site + FORWARD_REACH
  {
  }

  /** The arenas a load makes are well-formed, and the cave begins with the first whole word after the text. */
  lemma {:induction false} FreshIsWellFormed(seg: Segment, patchBlock: Word, block: Word)
    requires Loadable(seg, patchBlock, block)
    ensures FreshArenas(seg, patchBlock, block).WellFormed()
    ensures block + seg.TextEnd() <= seg.CaveBase(block) < block + seg.TextEnd() + 4 && seg.CaveSize() % 4 == 0
  {
    RoundUp(seg.TextEnd(), seg.Align());
    CaveFits(patchBlock, PatchSize(seg.pAlign), block, seg.TextEnd(), seg.MappedSize());
  }

  lemma {:induction false} CaveFits(patchBlock: Word, patchSize: Word, block: Word, text: nat, mapped: Word)
    requires text <= mapped && block + mapped + 4 <= SPACE
    requires 0 < patchBlock && patchBlock % 4 == 0 && patchBlock + patchSize <= block
    ensures block + text <= AlignWord(block + text) < block + text + 4 && Padding(text, mapped) % 4 == 0
    ensures Arenas(Arena(patchBlock, patchSize, patchBlock),
                   Arena(AlignWord(block + text), Padding(text, mapped), AlignWord(block + text))).WellFormed()
  {
  }

  // Which segments keep all their trampolines in reach

  ghost predicate Grows(a: Arenas, b: Arenas) {
    && b == Arenas(a.patch.(head := b.patch.head), a.cave.(head := b.cave.head))
    && a.patch.head <= b.patch.head && a.cave.head <= b.cave.head
  }

  /** Whatever has been allocated before, a block granted to a word of the text for code of this length is a branch target. */
  ghost predicate Serves(a: Arenas, start: int, end: int, length: Word) {
    forall b: Arenas, site: Word {:trigger Granted(b, site, length)} |
      Grows(a, b) && b.WellFormed() && start <= site < end && site % 4 == 0 && Granted(b, site, length) != 0 ::
      Reaches(site, Granted(b, site, length))
  }

  /** The first whole word at or after an address. */
  function FirstWord(x: nat): nat { (x + 3) / 4 * 4 }

  lemma {:induction false} FirstWordIs(x: nat)
    ensures FirstWord(x) % 4 == 0 && x <= FirstWord(x) < x + 4
  {
  }

  /** The distance from the cave of the lowest site of a text that the cave test admits. */
  function Span(cave: Arena, start: nat): int {
    var below := cave.base - FirstWord(start);
    if below < 0x100_001C then below else 0x100_001C
  }

  /** The last block of the cave is in reach of that site, unless there is no such site or block. */
  predicate InReach(cave: Arena, start: nat, length: Word) {
    length <= cave.size && Span(cave, start) >= 32 ==> Span(cave, start) + cave.size - length <= FORWARD_REACH
  }

  /** A longer block ends where the shorter one does, so it begins no farther away. */
  lemma {:induction false} LongerIsInReach(cave: Arena, start: nat, length: Word, longer: Word)
    requires InReach(cave, start, length) && length <= longer
    ensures InReach(cave, start, longer)
  {
  }

  /** Unused arenas around a text: the patch block below it, and the cave from its first whole word after it on. */
  ghost predicate Around(a: Arenas, start: nat, end: nat) {
    && a.WellFormed() && a.patch.head == a.patch.base && a.cave.head == a.cave.base
    && a.patch.base + a.patch.size <= start <= end <= a.cave.base < end + 4
    && a.cave.size % 4 == 0 && a.cave.size <= 0x8000_0000 && end + 32 <= SPACE + a.patch.base
  }

  lemma {:induction false} AllAreReached(a: Arenas, start: nat, end: nat, length: Word, b: Arenas, site: Word)
    requires Around(a, start, end) && InReach(a.cave, start, length) && length % 4 == 0 && length > 0
    requires Grows(a, b) && b.WellFormed() && start <= site < end && site % 4 == 0 && Granted(b, site, length) != 0
    ensures Reaches(site, Granted(b, site, length))
  {
    GrantIsReachedIff(b, site, length);
    GrantIsNear(b.patch, b.cave, start, length, site);
  }

  /** Where a granted block lies: in the patch arena, or in the cave if the cave test admits the site. */
  lemma {:induction false} GrantIsNear(patch: Arena, cave: Arena, start: nat, length: Word, site: Word)
    requires Arenas(patch, cave).WellFormed() && cave.size % 4 == 0 && InReach(cave, start, length)
    requires length % 4 == 0 && length > 0 && start <= site && site % 4 == 0
    requires patch.base + patch.size <= site < cave.base
    ensures Granted(Arenas(patch, cave), site, length) <= site + FORWARD_REACH
  {
    assert AlignWord(length) == length;
    patch.AvailableIsRest();
    cave.AvailableIsRest();
    CaveTest(cave.base, site);
    if 32 <= cave.base - site <= 0x100_001F {
      LowestSite(start, cave.base, site);
    }
  }

  lemma {:induction false} LowestSite(start: nat, base: nat, site: nat)
    requires start <= site && site % 4 == 0 && base % 4 == 0 && base - site <= 0x100_001F
    ensures base - site <= 0x100_001C && base - site <= base - FirstWord(start)
  {
  }

  /** An arena used up but for its last bytes. */
  function Filled(a: Arena, rest: nat): Arena
    requires rest <= a.size
  {
    a.(head := Wrap(a.base + a.size - rest))
  }

  lemma {:induction false} FilledIsWellFormed(a: Arena, rest: nat)
    requires a.WellFormed() && a.head == a.base && rest <= a.size && (a.size - rest) % 4 == 0
    ensures Filled(a, rest).WellFormed() && Filled(a, rest).head == a.base + a.size - rest >= a.head
  {
  }

  /** The patch arena is used up, and the cave but for its last length bytes. */
  function NearlyFull(a: Arenas, length: Word): Arenas
    requires length <= a.cave.size
  {
    Arenas(Filled(a.patch, a.patch.size % 4), Filled(a.cave, length))
  }

  /** Beyond that, the lowest site is granted the last block of the cave when all else is taken, and B does not reach it. */
  lemma {:induction false} OutOfReach(a: Arenas, start: nat, end: nat, length: Word) returns (site: Word)
    requires Around(a, start, end) && !InReach(a.cave, start, length) && length % 4 == 0 && length > 0
    ensures var b := NearlyFull(a, length);
      && Grows(a, b) && b.WellFormed() && start <= site < end && site % 4 == 0
      && Granted(b, site, length) == b.cave.head != 0 && !Reaches(site, Granted(b, site, length))
  {
    NearlyFullIsWellFormed(a, length);
    site := SiteAtSpan(a.cave, start, end);
    LastIsGranted(NearlyFull(a, length), site, length);
    GrantIsReachedIff(NearlyFull(a, length), site, length);
  }

  lemma {:induction false} SiteAtSpan(cave: Arena, start: nat, end: nat) returns (site: Word)
    requires start <= end <= cave.base < end + 4 && cave.base % 4 == 0 && Span(cave, start) >= 32
    ensures site == cave.base - Span(cave, start) && start <= site < end && site % 4 == 0
    ensures 32 <= cave.base - site <= 0x100_001F
  {
    FirstWordIs(start);
    site := cave.base - Span(cave, start);
  }

  lemma {:induction false} NearlyFullIsWellFormed(a: Arenas, length: Word)
    requires a.WellFormed() && a.patch.head == a.patch.base && a.cave.head == a.cave.base
    requires a.cave.size % 4 == 0 && length % 4 == 0 && length <= a.cave.size
    ensures var b := NearlyFull(a, length);
      && b.WellFormed() && Grows(a, b)
      && a.patch.base + a.patch.size - b.patch.head < 4 && b.cave.head == a.cave.base + a.cave.size - length
  {
    UsedUp(a.patch);
    AllButLast(a.cave, length);
    HeadsGrow(a, Filled(a.patch, a.patch.size % 4), Filled(a.cave, length));
  }

  lemma {:induction false} UsedUp(a: Arena)
    requires a.WellFormed() && a.head == a.base
    ensures var f := Filled(a, a.size % 4); f.WellFormed() && a.head <= f.head && a.base + a.size - f.head < 4
  {
    FilledIsWellFormed(a, a.size % 4);
  }

  lemma {:induction false} AllButLast(a: Arena, length: Word)
    requires a.WellFormed() && a.head == a.base && a.size % 4 == 0 && length % 4 == 0 && length <= a.size
    ensures var f := Filled(a, length); f.WellFormed() && a.head <= f.head == a.base + a.size - length
  {
    FilledIsWellFormed(a, length);
  }

  lemma {:induction false} HeadsGrow(a: Arenas, patch: Arena, cave: Arena)
    requires a.WellFormed() && patch.WellFormed() && cave.WellFormed()
    requires patch == a.patch.(head := patch.head) && a.patch.head <= patch.head
    requires cave == a.cave.(head := cave.head) && a.cave.head <= cave.head
    ensures Arenas(patch, cave).WellFormed() && Grows(a, Arenas(patch, cave))
  {
  }

  lemma {:induction false} LastIsGranted(a: Arenas, site: Word, length: Word)
    requires a.WellFormed() && length % 4 == 0 && length > 0
    requires a.patch.base + a.patch.size - a.patch.head < 4 && a.cave.head == a.cave.base + a.cave.size - length
    requires site < a.cave.base && 32 <= a.cave.base - site <= 0x100_001F
    ensures Granted(a, site, length) == a.cave.head != 0
  {
    a.patch.AvailableIsRest();
    a.cave.AvailableIsRest();
    assert AlignWord(length) == length;
    CaveTest(a.cave.base, site);
  }

  /** The blocks granted to a text are all branch targets if and only if its lowest site reaches the last block of the cave. */
  lemma {:induction false} ServesIff(a: Arenas, start: nat, end: nat, length: Word)
    requires Around(a, start, end) && length % 4 == 0 && length > 0
    ensures Serves(a, start, end, length) <==> InReach(a.cave, start, length)
  {
    if InReach(a.cave, start, length) {
      forall b: Arenas, site: Word |
        Grows(a, b) && b.WellFormed() && start <= site < end && site % 4 == 0 && Granted(b, site, length) != 0
        ensures Reaches(site, Granted(b, site, length))
      {
        AllAreReached(a, start, end, length, b, site);
      }
    } else {
      var site := OutOfReach(a, start, end, length);
    }
  }

  // For a segment as it is loaded

  /**
   A loaded segment whose alignment is a power of two, or any other of at most 2^31. Its
   patch block does not begin in the first 32 bytes, or its text ends that far below the
   end of the address space.
   */
  ghost predicate Usual(seg: Segment, patchBlock: Word, block: Word) {
    && Loadable(seg, patchBlock, block) && seg.Align() <= 0x8000_0000
    && block + seg.TextEnd() + 32 <= SPACE + patchBlock
  }

  lemma {:induction false} UsualIsAround(seg: Segment, patchBlock: Word, block: Word)
    requires Usual(seg, patchBlock, block)
    ensures Around(FreshArenas(seg, patchBlock, block), block + seg.offset, block + seg.TextEnd())
  {
    FreshIsWellFormed(seg, patchBlock, block);
    CaveEndsWithBlockIff(seg, block);
  }

  lemma {:induction false} ServesForAllIff(a: Arenas, start: nat, end: nat)
    requires Around(a, start, end)
    ensures forall length: Word | length % 4 == 0 && length > 0 ::
      Serves(a, start, end, length) <==> InReach(a.cave, start, length)
  {
    forall length: Word | length % 4 == 0 && length > 0
      ensures Serves(a, start, end, length) <==> InReach(a.cave, start, length)
    {
      ServesIff(a, start, end, length);
    }
  }

  /** The same for the text of a loaded segment: which layouts keep all their trampolines in reach, for any code length. */
  lemma {:induction false} ServesTextIff(seg: Segment, patchBlock: Word, block: Word, a: Arenas)
    requires Usual(seg, patchBlock, block) && a == FreshArenas(seg, patchBlock, block)
    ensures forall length: Word | length % 4 == 0 && length > 0 ::
      Serves(a, block + seg.offset, block + seg.TextEnd(), length) <==> InReach(a.cave, block + seg.offset, length)
  {
    UsualIsAround(seg, patchBlock, block);
    ServesForAllIff(a, block + seg.offset, block + seg.TextEnd());
  }

  /** Every power of two up to 2^23 keeps all code in reach. */
  lemma {:induction false} LayoutIsWithinReach(seg: Segment, patchBlock: Word, block: Word, length: Word)
    requires Loadable(seg, patchBlock, block) && seg.Align() <= 0x80_0000
    ensures InReach(FreshArenas(seg, patchBlock, block).cave, block + seg.offset, length)
  {
    CaveEndsWithBlockIff(seg, block);
  }

  /** The layout of a segment whose text, rounded up, takes k times its alignment. */
  lemma {:induction false} LayoutIs(seg: Segment, patchBlock: Word, block: Word, align: Word, text: Word, k: nat, mapped: Word)
    requires align == seg.pAlign && PATCH_SIZE <= align <= 0x8000_0000 && align % 4 == 0
    requires text == seg.TextEnd() && text % 4 == 0 && text + align <= SPACE
    requires mapped == k * align && mapped - align < text <= mapped && block + mapped + 4 <= SPACE
    requires 32 <= patchBlock && patchBlock % 4 == 0 && patchBlock + align <= block && block % 4 == 0
    ensures Usual(seg, patchBlock, block)
    ensures FreshArenas(seg, patchBlock, block)
         == Arenas(Arena(patchBlock, align, patchBlock), Arena(block + text, mapped - text, block + text))
  {
    RoundsUpTo(text, align, k);
    RoundsUpTo(PATCH_SIZE, align, 1);
    IsMultiple(align, k);
    CaveIs(block, text, mapped);
  }

  lemma {:induction false} IsMultiple(align: nat, k: nat)
    requires align % 4 == 0
    ensures k * align % 4 == 0
  {
    Remainder(k * align, k * (align / 4), 4, 0);
  }

  lemma {:induction false} CaveIs(block: nat, text: nat, mapped: Word)
    requires text <= mapped && text % 4 == 0 && mapped % 4 == 0 && block % 4 == 0 && block + mapped + 4 <= SPACE
    ensures Padding(text, mapped) == mapped - text && AlignWord(block + text) == block + text
  {
    WholeWords(mapped - text);
    WholeWords(block + text);
  }

  lemma {:induction false} WholeWords(n: Word)
    requires n % 4 == 0
    ensures n / 4 * 4 == n && (n < SPACE - 4 ==> AlignWord(n) == n)
  {
  }

  /** The arenas of a text of 4 KB in a segment aligned to 2^25. */
  function LargeCave(): Arenas {
    Arenas(Arena(0x200_0000, 0x200_0000, 0x200_0000), Arena(0x400_1000, 0x1FF_F000, 0x400_1000))
  }

  lemma {:induction false} LargeCaveIsLoaded(seg: Segment, patchBlock: Word, block: Word)
    requires seg.offset == 0 && seg.memSize == 0x1000 && seg.pAlign == patchBlock == 0x200_0000 && block == 0x400_0000
    ensures Usual(seg, patchBlock, block) && FreshArenas(seg, patchBlock, block) == LargeCave()
  {
    LayoutIs(seg, patchBlock, block, patchBlock, seg.memSize, 1, patchBlock);
  }

  /** It keeps all code in reach too, although its cave is of almost 32 MB. */
  lemma {:induction false} LargeCaveInReach()
    ensures Serves(LargeCave(), 0x400_0000, 0x400_1000, 8)
  {
    ServesIff(LargeCave(), 0x400_0000, 0x400_1000, 8);
  }

  /** The arenas of a text of 32 MB in a segment aligned to 2^24. */
  function FarCave(): Arenas {
    Arenas(Arena(0x100_0000, 0x100_0000, 0x100_0000), Arena(0x400_0004, 0xFF_FFFC, 0x400_0004))
  }

  lemma {:induction false} FarCaveIsLoaded(seg: Segment, patchBlock: Word, block: Word)
    requires seg.offset == 0 && seg.memSize == 0x200_0004 && seg.pAlign == patchBlock == 0x100_0000 && block == 0x200_0000
    ensures Usual(seg, patchBlock, block) && FreshArenas(seg, patchBlock, block) == FarCave()
  {
    LayoutIs(seg, patchBlock, block, patchBlock, seg.memSize, 3, 3 * patchBlock);
  }

  /** There a trampoline of twelve bytes is granted where B does not arrive. */
  lemma {:induction false} CaveOutOfReach() returns (site: Word)
    ensures var b := NearlyFull(FarCave(), 12);
      && Grows(FarCave(), b) && b.WellFormed() && 0x200_0000 <= site < 0x400_0004 && site % 4 == 0
      && Granted(b, site, 12) != 0 && !Reaches(site, Granted(b, site, 12))
  {
    site := OutOfReach(FarCave(), 0x200_0000, 0x400_0004, 12);
  }

  lemma {:induction false} RoundsUpTo(x: nat, a: nat, k: nat)
    requires 0 < a && x + a <= SPACE && k * a - a < x <= k * a
    ensures AlignUp(x, a) == k * a
  {
    Remainder(x + a - 1, k, a, x + a - 1 - k * a);
  }
}
