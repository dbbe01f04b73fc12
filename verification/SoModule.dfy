/**
 Patching a loaded module: the arena allocator, the trampoline builder and the
 scan of a function for LDMIA instructions, as they change the module's state
 and memory, and what the whole scan preserves.
 */
module SoModule {
  import opened Words
  import opened Bitwise
  import opened ArmIsa
  import opened CodeArena
  import opened Trampoline

  // What patching does to memory

  /** The code that replaces one LDMIA: a branch at the site and words at the target. */
  datatype Patch = Patch(inst: Word, branch: Word, target: Word, words: seq<Word>) {
    function Size(): nat { 4 * |words| }
  }

  ghost predicate Fits(p: Patch) {
    p.target % 4 == 0 && p.target + p.Size() <= SPACE
  }

  function MakePatch(site: Word, inst: Word, target: Word): Patch {
    Patch(inst, BranchWord(site, target), target, TrampolineWords(site, inst))
  }

  function Emit(m: Memory, site: Word, p: Patch): Memory
    requires Fits(p)
  {
    WriteWord(WriteWords(m, p.target, p.words), site, p.branch)
  }

  function CodeRequest(site: Word, inst: Word): (r: Request)
    ensures r.size % 4 == 0 && 8 <= r.size <= 72
  {
    TrampolineFitsBuffer(site, inst);
    Request(BRANCH_RANGE, BranchBias(site), 4 * |TrampolineWords(site, inst)|)
  }

  lemma GrantFits(a: Arenas, site: Word, size: Word)
    requires a.WellFormed() && size % 4 == 0 && size <= 72
    ensures var (b, target) := Allocate(a, Request(BRANCH_RANGE, BranchBias(site), size));
      b.WellFormed() && (target != 0 ==> target % 4 == 0 && target + size <= SPACE)
  {
    AllocateIsSound(a, Request(BRANCH_RANGE, BranchBias(site), size));
  }

  /** trampoline_ldm: no patch and no write when no arena has room in reach. */
  ghost function PatchSite(m: Memory, a: Arenas, site: Word, inst: Word): (r: (Memory, Arenas, Option<Patch>))
    requires a.WellFormed()
    ensures r.1.WellFormed()
  {
    GrantFits(a, site, CodeRequest(site, inst).size);
    var (b, target) := Allocate(a, CodeRequest(site, inst));
    if target == 0 then (m, b, None)
    else (Emit(m, site, MakePatch(site, inst, target)), b, Some(MakePatch(site, inst, target)))
  }

  /** The outcome of a scan: memory, arenas, and the patch of each patched site. */
  datatype Scan = Done(mem: Memory, arenas: Arenas, sites: map<Word, Patch>) | Fatal

  ghost function ScanFrom(m: Memory, a: Arenas, addr: nat, end: nat): (r: Scan)
    requires a.WellFormed() && end <= SPACE
    ensures r.Done? ==> r.arenas.WellFormed()
    decreases SPACE - addr, 1
  {
    if addr >= end then Done(m, a, map[]) else ScanWord(m, a, addr, end, View(m).data(addr))
  }

  ghost function ScanWord(m: Memory, a: Arenas, addr: Word, end: nat, inst: Word): (r: Scan)
    requires a.WellFormed() && addr < end <= SPACE
    ensures r.Done? ==> r.arenas.WellFormed()
    decreases SPACE - addr, 0, 1
  {
    if Accepted(inst) then ScanPatched(PatchSite(m, a, addr, inst), addr, end)
    else ScanFrom(m, a, addr + 4, end)
  }

  ghost function ScanPatched(p: (Memory, Arenas, Option<Patch>), addr: Word, end: nat): (r: Scan)
    requires p.1.WellFormed() && addr < end <= SPACE
    ensures r.Done? ==> r.arenas.WellFormed()
    decreases SPACE - addr, 0, 0
  {
    if p.2 == None then Fatal
    else match ScanFrom(p.0, p.1, addr + 4, end)
      case Fatal => Fatal
      case Done(mem, arenas, sites) => Done(mem, arenas, sites[addr := p.2.value])
  }

  // The state of the loader

  class Module {
    var patchBase: Word
    var patchSize: Word
    var patchHead: Word
    var caveBase: Word
    var caveSize: Word
    var caveHead: Word
    var mem: Memory

    /** The arena fields as _so_load sets them for the executable segment: a loadable one gets arenas that can be used. */
    constructor (m: Memory, patchBlock: Word, seg: Segment, block: Word)
      ensures mem == m && Arenas() == FreshArenas(seg, patchBlock, block)
      ensures Loadable(seg, patchBlock, block) ==> Arenas().WellFormed()
      ensures Usual(seg, patchBlock, block) ==> Around(Arenas(), block + seg.offset, block + seg.TextEnd())
    {
      mem := m;
      patchBase, patchHead := patchBlock, patchBlock;
      patchSize := PatchSize(seg.pAlign);
      caveSize := seg.CaveSize();
      caveBase, caveHead := seg.CaveBase(block), seg.CaveBase(block);
      if Loadable(seg, patchBlock, block) {
        FreshIsWellFormed(seg, patchBlock, block);
        if Usual(seg, patchBlock, block) {
          UsualIsAround(seg, patchBlock, block);
        }
      }
    }

    function Arenas(): Arenas
      reads this
    {
      CodeArena.Arenas(Arena(patchBase, patchSize, patchHead), Arena(caveBase, caveSize, caveHead))
    }

    /** ALIGN_MEM(sz, 4) */
    static method RoundSize(size: Word) returns (sz: Word)
      ensures sz == AlignWord(size)
    {
      WordMask(Wrap(size + 3));
      sz := And(Wrap(size + 3), 0xFFFF_FFFC);
    }

    /** so_alloc_arena */
    method AllocArena(range: Word, dst: Word, size: Word) returns (address: Word)
      modifies this`patchHead, this`caveHead
      ensures (Arenas(), address) == Allocate(old(Arenas()), Request(range, dst, size))
    {
      var sz := RoundSize(size);
      if sz <= Wrap(patchSize - Wrap(patchHead - patchBase)) && InRange(patchBase, dst, range) {
        address := patchHead;
        patchHead := Wrap(patchHead + sz);
      } else if sz <= Wrap(caveSize - Wrap(caveHead - caveBase)) && InRange(dst, caveBase, range) {
        address := caveHead;
        caveHead := Wrap(caveHead + sz);
      } else {
        address := 0;
      }
    }

    /** The first half of trampoline_ldm: fill the 20-word buffer. */
    static method BuildTrampoline(dst: Word, inst: Word) returns (funct: array<Word>, n: nat)
      ensures fresh(funct) && funct.Length == 20 && n <= 18
      ensures funct[..n] == TrampolineWords(dst, inst)
    {
      InstructionMasks(inst);
      var baseReg, bitMask := And(inst / 0x1_0000, 0xF), And(inst, 0xFFFF);
      funct := new Word[20](_ => 0);
      var stored;
      n, stored := EmitLoads(funct, inst, baseReg, bitMask);
      EarlyLoadsLength(bitMask, baseReg, 16);
      if stored != 0 {
        LoadWordsSnoc(inst, EarlyLoads(bitMask, baseReg, 16), baseReg);
        n := Append(funct, n, stored);
      }
      n := Append(funct, n, JUMP_WORD);
      n := Append(funct, n, Wrap(dst + 4));
    }

    /** *ptr++ = w */
    static method Append(funct: array<Word>, n: nat, w: Word) returns (next: nat)
      requires n < funct.Length
      modifies funct
      ensures next == n + 1 && funct[..next] == old(funct[..n]) + [w]
    {
      funct[n] := w;
      next := n + 1;
    }

    static method EmitLoad(funct: array<Word>, n: nat, inst: Word, i: RegisterName, cur: nat, ghost order: seq<RegisterName>)
        returns (next: nat)
      requires n < funct.Length && cur == Offset(inst, i) && funct[..n] == LoadWords(inst, order)
      modifies funct
      ensures next == n + 1 && funct[..next] == LoadWords(inst, order + [i])
    {
      LoadWordsSnoc(inst, order, i);
      next := Append(funct, n, LoadWord(i, BaseOf(inst), cur));
    }

    /** The load of the base register if it is one of the first n listed, else 0. */
    static ghost function BaseLoad(inst: Word, n: nat): Word {
      var rn := BaseOf(inst);
      if rn < n && Bit(ListOf(inst), rn) then LoadWord(rn, rn, Offset(inst, rn)) else 0
    }

    /** The loop over the register list: every load but the base's is emitted, the base's is kept for later. */
    static method EmitLoads(funct: array<Word>, inst: Word, baseReg: nat, bitMask: nat) returns (n: nat, stored: Word)
      requires funct.Length == 20 && baseReg == BaseOf(inst) && bitMask == ListOf(inst)
      modifies funct
      ensures n == |EarlyLoads(bitMask, baseReg, 16)| <= 16
      ensures funct[..n] == LoadWords(inst, EarlyLoads(bitMask, baseReg, 16))
      ensures stored == BaseLoad(inst, 16)
    {
      n, stored := 0, 0;
      var cur := 0;
      for i := 0 to 16
        invariant cur == 4 * Rank(bitMask, i)
        invariant n == |EarlyLoads(bitMask, baseReg, i)| <= i
        invariant funct[..n] == LoadWords(inst, EarlyLoads(bitMask, baseReg, i))
        invariant stored == BaseLoad(inst, i)
      {
        OneBit(bitMask, i);
        if And(bitMask, Pow2(i)) != 0 {
          if baseReg == i {
            stored := LoadWord(i, baseReg, cur);
          } else {
            n := EmitLoad(funct, n, inst, i, cur, EarlyLoads(bitMask, baseReg, i));
          }
          cur := cur + 4;
        }
      }
    }

    /** trampoline_ldm on the word inst at dst; ok is false when it reports a fatal error. */
    method TrampolineLdm(dst: Word, inst: Word) returns (ok: bool)
      requires Arenas().WellFormed()
      modifies this`patchHead, this`caveHead, this`mem
      ensures var (m, a, p) := PatchSite(old(mem), old(Arenas()), dst, inst);
        mem == m && Arenas() == a && ok == p.Some?
    {
      var funct, n := BuildTrampoline(dst, inst);
      assert CodeRequest(dst, inst) == Request(BRANCH_RANGE, BranchBias(dst), 4 * n);
      GrantFits(Arenas(), dst, 4 * n);
      var patchAddr := AllocArena(BRANCH_RANGE, BranchBias(dst), 4 * n);
      if patchAddr == 0 {
        return false;
      }
      var branch := BranchWord(dst, patchAddr);
      mem := WriteWords(mem, patchAddr, funct[..n]);
      mem := WriteWord(mem, dst, branch);
      return true;
    }

    /**
     so_symbol_fix_ldmia on a function at stAddr; its end is computed modulo 2^32. The
     address of the loop must not step over the end of the address space, where it would
     start again from the bottom.
     */
    method FixLdmia(stAddr: Word, stSize: Word) returns (ok: bool)
      requires Arenas().WellFormed() && Terminates(stAddr, Wrap(stAddr + stSize))
      modifies this`patchHead, this`caveHead, this`mem
      ensures ok ==> Arenas().WellFormed()
      ensures var r := ScanFrom(old(mem), old(Arenas()), stAddr, Wrap(stAddr + stSize));
        ok == r.Done? && (ok ==> mem == r.mem && Arenas() == r.arenas)
    {
      var end := Wrap(stAddr + stSize);
      ok := FixRange(stAddr, end, ScanFrom(mem, Arenas(), stAddr, end));
    }

    /** Its loop: what is still to scan always has the outcome of the whole scan. */
    method FixRange(start: Word, end: Word, ghost result: Scan) returns (ok: bool)
      requires Arenas().WellFormed() && Terminates(start, end)
      requires SameOutcome(ScanFrom(mem, Arenas(), start, end), result)
      modifies this`patchHead, this`caveHead, this`mem
      ensures ok ==> Arenas().WellFormed()
      ensures ok == result.Done? && (ok ==> mem == result.mem && Arenas() == result.arenas)
    {
      var addr := start;
      while addr < end
        invariant start <= addr && addr % 4 == start % 4 && Arenas().WellFormed()
        invariant SameOutcome(ScanFrom(mem, Arenas(), addr, end), result)
        decreases SPACE - addr
      {
        ok := FixWord(addr, end, result);
        if !ok {
          return;
        }
        addr := NextAddress(start, addr, end);
      }
      ok := true;
    }

    static method NextAddress(start: Word, addr: Word, end: Word) returns (next: Word)
      requires Terminates(start, end) && start <= addr < end && addr % 4 == start % 4
      ensures next == addr + 4 && next % 4 == start % 4
    {
      next := Wrap(addr + 4);
    }

    /** One turn of the loop. */
    method FixWord(addr: Word, ghost end: nat, ghost result: Scan) returns (ok: bool)
      requires Arenas().WellFormed() && addr < end <= SPACE
      requires SameOutcome(ScanFrom(mem, Arenas(), addr, end), result)
      modifies this`patchHead, this`caveHead, this`mem
      ensures Arenas().WellFormed()
      ensures !ok ==> result.Fatal?
      ensures ok ==> SameOutcome(ScanFrom(mem, Arenas(), addr + 4, end), result)
    {
      ok := FixFetched(addr, View(mem).data(addr), end);
    }

    method FixFetched(addr: Word, inst: Word, ghost end: nat) returns (ok: bool)
      requires Arenas().WellFormed() && addr < end <= SPACE
      modifies this`patchHead, this`caveHead, this`mem
      ensures Arenas().WellFormed()
      ensures !ok ==> ScanWord(old(mem), old(Arenas()), addr, end, inst).Fatal?
      ensures ok ==> SameOutcome(ScanFrom(mem, Arenas(), addr + 4, end), ScanWord(old(mem), old(Arenas()), addr, end, inst))
    {
      ok := true;
      InstructionMasks(inst);
      if And(inst, 0xFFF0_0000) == 0xE890_0000 && And(inst / 0x1_0000, 0xF) < 13 {
        ok := TrampolineLdm(addr, inst);
      }
    }
  }

  /** The steps of four from start come to end or past it without going round. */
  predicate Terminates(start: Word, end: Word) {
    start >= end || end <= SPACE - 4 + start % 4
  }

  ghost predicate SameOutcome(r: Scan, q: Scan) {
    r.Done? == q.Done? && (r.Done? ==> r.mem == q.mem && r.arenas == q.arenas)
  }

  lemma {:induction false} LoadWordsSnoc(inst: Word, order: seq<RegisterName>, r: RegisterName)
    ensures LoadWords(inst, order + [r]) == LoadWords(inst, order) + [LoadWord(r, BaseOf(inst), Offset(inst, r))]
  {
  }

  // What the scan preserves

  /** Code bytes allocated between two states of the arenas. */
  ghost predicate Allocated(a: Arenas, b: Arenas, x: int) {
    a.patch.head <= x < b.patch.head || a.cave.head <= x < b.cave.head
  }

  ghost predicate PatchedByte(a: Arenas, d: Scan, x: int)
    requires d.Done?
  {
    Allocated(a, d.arenas, x) || x - x % 4 in d.sites
  }

  /**
   The bytes from addr to end lie outside the unused parts of both arenas. Heads are
   word-aligned, so the whole words that begin there do too.
   */
  ghost predicate TextApart(a: Arenas, addr: int, end: int) {
    && (end <= a.patch.head || a.patch.base + a.patch.size <= addr)
    && (end <= a.cave.head || a.cave.base + a.cave.size <= addr)
  }

  ghost predicate BlockIn(a: Arenas, b: Arenas, target: int, length: int) {
    || (a.patch.head <= target && target + length <= b.patch.head)
    || (a.cave.head <= target && target + length <= b.cave.head)
  }

  lemma SameBytes(m: Memory, n: Memory, a: Word)
    requires a % 4 == 0 && forall x: Word | a <= x < a + 4 :: m[x] == n[x]
    ensures View(m).data(a) == View(n).data(a)
  {
    assert m[a + 1] == n[a + 1] && m[a + 2] == n[a + 2] && m[a + 3] == n[a + 3];
  }

  /** The patch is the trampoline of its LDMIA, and its branch arrives. */
  ghost predicate WellMade(site: Word, p: Patch) {
    p == MakePatch(site, p.inst, p.target) && Reaches(site, p.target)
  }

  /** The patch is in memory, in code allocated between a and b. */
  ghost predicate Placed(f: Reader, a: Arenas, b: Arenas, site: Word, p: Patch) {
    && Fits(p) && BlockIn(a, b, p.target, p.Size())
    && f(site) == p.branch
    && forall k | 0 <= k < |p.words| :: f(p.target + 4 * k) == p.words[k]
  }

  lemma PatchSiteAllocates(m: Memory, a: Arenas, site: Word, inst: Word)
    requires a.WellFormed()
    ensures var (n, b, p) := PatchSite(m, a, site, inst);
      && b.WellFormed() && Grows(a, b)
      && (p.Some? ==>
            && p.value == MakePatch(site, inst, p.value.target) && Fits(p.value)
            && BlockIn(a, b, p.value.target, p.value.Size())
            && n == Emit(m, site, p.value))
  {
    GrantGrows(a, site, CodeRequest(site, inst).size);
  }

  lemma GrantGrows(a: Arenas, site: Word, size: Word)
    requires a.WellFormed() && size % 4 == 0 && size <= 72
    ensures var (b, target) := Allocate(a, Request(BRANCH_RANGE, BranchBias(site), size));
      && b.WellFormed() && Grows(a, b)
      && (target != 0 ==> target % 4 == 0 && target + size <= SPACE && BlockIn(a, b, target, size))
  {
    AllocateIsSound(a, Request(BRANCH_RANGE, BranchBias(site), size));
  }

  /** Every trampoline granted to a word of the text is a branch target, however much has been allocated. */
  ghost predicate ServesCode(a: Arenas, start: int, end: int) {
    forall length: Word | length % 4 == 0 && 8 <= length <= 72 :: Serves(a, start, end, length)
  }

  lemma {:induction false} PatchArrives(first: Arenas, a: Arenas, start: int, end: int, m: Memory, site: Word, inst: Word)
    requires ServesCode(first, start, end) && Grows(first, a) && a.WellFormed()
    requires start <= site < end && site % 4 == 0 && PatchSite(m, a, site, inst).2.Some?
    ensures WellMade(site, PatchSite(m, a, site, inst).2.value)
  {
    var length := CodeRequest(site, inst).size;
    assert Serves(first, start, end, length);
    assert Granted(a, site, length) == Allocate(a, CodeRequest(site, inst)).1;
  }

  lemma {:induction false} GrowsOn(a: Arenas, b: Arenas, c: Arenas)
    requires Grows(a, b) && Grows(b, c)
    ensures Grows(a, c)
  {
  }

  lemma {:induction false} EmittedWord(m: Memory, a: Arenas, b: Arenas, site: Word, p: Patch, k: nat)
    requires Fits(p) && BlockIn(a, b, p.target, p.Size()) && site % 4 == 0
    requires b.WellFormed() && Grows(a, b) && TextApart(a, site, site + 1) && k < |p.words|
    ensures View(Emit(m, site, p)).data(p.target + 4 * k) == p.words[k]
  {
    BlockMissesSite(a, b, site, p.target, p.Size(), p.target + 4 * k);
    EmittedApart(m, site, p, k);
  }

  lemma {:induction false} EmittedApart(m: Memory, site: Word, p: Patch, k: nat)
    requires Fits(p) && k < |p.words| && Apart(site, p.target + 4 * k)
    ensures View(Emit(m, site, p)).data(p.target + 4 * k) == p.words[k]
  {
    ReadWrittenWords(m, p.target, p.words, k);
    ReadOtherWrite(WriteWords(m, p.target, p.words), site, p.branch, p.target + 4 * k);
  }

  lemma {:induction false} BlockMissesSite(a: Arenas, b: Arenas, site: Word, target: Word, length: int, x: Word)
    requires BlockIn(a, b, target, length) && b.WellFormed() && Grows(a, b) && TextApart(a, site, site + 1)
    requires target <= x && x + 4 <= target + length && site % 4 == 0 && x % 4 == 0
    ensures Apart(site, x)
  {
    assert site != x;
  }

  lemma {:induction false} AlignedCovers(site: Word, x: Word)
    requires site % 4 == 0
    ensures Covers(site, x) <==> x - x % 4 == site
  {
  }

  lemma {:induction false} EmitKeepsByte(m: Memory, a: Arenas, b: Arenas, site: Word, p: Patch, x: Word)
    requires Fits(p) && BlockIn(a, b, p.target, p.Size()) && site % 4 == 0
    requires !Allocated(a, b, x) && x - x % 4 != site
    ensures Emit(m, site, p)[x] == m[x]
  {
    AlignedCovers(site, x);
    WriteWordFrame(WriteWords(m, p.target, p.words), site, p.branch, x);
    WriteWordsFrame(m, p.target, p.words, x);
  }

  lemma {:induction false} EmitPlaces(m: Memory, a: Arenas, b: Arenas, site: Word, p: Patch)
    requires Fits(p) && BlockIn(a, b, p.target, p.Size()) && site % 4 == 0
    requires b.WellFormed() && Grows(a, b) && TextApart(a, site, site + 1)
    ensures Placed(View(Emit(m, site, p)).data, a, b, site, p)
    ensures BytesAreSound(m, Emit(m, site, p), a, b, {site})
  {
    var n := Emit(m, site, p);
    var f := View(n).data;
    assert f(site) == p.branch by { ReadOwnWrite(WriteWords(m, p.target, p.words), site, p.branch); }
    forall k | 0 <= k < |p.words| ensures f(p.target + 4 * k) == p.words[k] {
      EmittedWord(m, a, b, site, p, k);
    }
    forall x: Word | !Allocated(a, b, x) && x - x % 4 != site ensures n[x] == m[x] {
      EmitKeepsByte(m, a, b, site, p, x);
    }
  }

  ghost predicate BytesAreSound(m: Memory, n: Memory, a: Arenas, b: Arenas, sites: set<Word>) {
    forall x: Word | n[x] != m[x] :: Allocated(a, b, x) || x - x % 4 in sites
  }

  /** The patched sites are the accepted words of the original code f; their patches are in the final code g. */
  ghost predicate SitesAreSound(f: Reader, g: Reader, a: Arenas, b: Arenas, addr: int, end: int, sites: map<Word, Patch>) {
    && (forall site: Word :: site in sites <==> addr <= site < end && site % 4 == 0 && Accepted(f(site)))
    && (forall site | site in sites :: sites[site].inst == f(site) && Placed(g, a, b, site, sites[site]))
  }

  ghost predicate ScanIsSound(m: Memory, a: Arenas, addr: int, end: int, d: Scan)
    requires d.Done?
  {
    && d.arenas.WellFormed() && Grows(a, d.arenas)
    && SitesAreSound(View(m).data, View(d.mem).data, a, d.arenas, addr, end, d.sites)
    && BytesAreSound(m, d.mem, a, d.arenas, d.sites.Keys)
  }

  /** An aligned word outside the allocated code and the sites keeps its value. */
  lemma WordStays(m: Memory, n: Memory, a: Arenas, b: Arenas, sites: set<Word>, x: Word)
    requires BytesAreSound(m, n, a, b, sites)
    requires x % 4 == 0 && x !in sites && NotAllocated(a, b, x)
    ensures View(n).data(x) == View(m).data(x)
  {
    forall y: Word | x <= y < x + 4 ensures n[y] == m[y] {
      assert y - y % 4 == x;
    }
    SameBytes(n, m, x);
  }

  ghost predicate NotAllocated(a: Arenas, b: Arenas, x: Word) {
    && (x + 4 <= a.patch.head || b.patch.head <= x)
    && (x + 4 <= a.cave.head || b.cave.head <= x)
  }

  lemma {:induction false} TextIsNotAllocated(a: Arenas, b: Arenas, c: Arenas, addr: int, end: nat, x: Word)
    requires TextApart(a, addr, end) && addr <= x < end && x % 4 == 0
    requires a.WellFormed() && Grows(a, b) && Grows(b, c) && c.WellFormed()
    ensures NotAllocated(b, c, x) && NotAllocated(a, b, x)
  {
  }

  lemma BlockIsNotAllocated(a: Arenas, b: Arenas, c: Arenas, addr: int, end: nat, target: Word, length: nat, x: Word)
    requires TextApart(a, addr, end) && BlockIn(a, b, target, length)
    requires a.WellFormed() && Grows(a, b) && Grows(b, c) && c.WellFormed()
    requires target <= x && x + 4 <= target + length
    ensures NotAllocated(b, c, x) && !(addr <= x < end)
  {
  }

  /** Every aligned word outside newly allocated code and the sites reads the same. */
  ghost predicate WordsStay(f: Reader, g: Reader, b: Arenas, c: Arenas, sites: set<Word>) {
    forall x: Word | NotAllocated(b, c, x) && x % 4 == 0 && x !in sites :: g(x) == f(x)
  }

  lemma {:induction false} AllWordsStay(n: Memory, l: Memory, b: Arenas, c: Arenas, sites: set<Word>)
    requires BytesAreSound(n, l, b, c, sites)
    ensures WordsStay(View(n).data, View(l).data, b, c, sites)
  {
    forall x: Word | NotAllocated(b, c, x) && x % 4 == 0 && x !in sites ensures View(l).data(x) == View(n).data(x) {
      WordStays(n, l, b, c, sites, x);
    }
  }

  /** Later patches to other words of the text leave an earlier one alone. */
  lemma {:induction false} PatchStays(f: Reader, g: Reader, a: Arenas, b: Arenas, c: Arenas, start: int, end: nat,
                                      site: Word, p: Patch, sites: set<Word>)
    requires start <= site < end <= SPACE - 4 && site % 4 == 0 && TextApart(a, start, end)
    requires a.WellFormed() && Grows(a, b) && Grows(b, c) && c.WellFormed()
    requires Placed(f, a, b, site, p)
    requires site !in sites && forall x | x in sites :: start <= x < end
    requires WordsStay(f, g, b, c, sites)
    ensures Placed(g, a, c, site, p)
  {
    SiteWordStays(f, g, a, b, c, start, end, site, sites);
    forall k | 0 <= k < |p.words| ensures g(p.target + 4 * k) == p.words[k] {
      BlockWordStays(f, g, a, b, c, start, end, p, sites, p.target + 4 * k);
      assert f(p.target + 4 * k) == p.words[k];
    }
  }

  lemma {:induction false} SiteWordStays(f: Reader, g: Reader, a: Arenas, b: Arenas, c: Arenas, start: int, end: nat,
                                         site: Word, sites: set<Word>)
    requires start <= site < end && site % 4 == 0 && TextApart(a, start, end) && site !in sites
    requires a.WellFormed() && Grows(a, b) && Grows(b, c) && c.WellFormed() && WordsStay(f, g, b, c, sites)
    ensures g(site) == f(site)
  {
    TextIsNotAllocated(a, b, c, start, end, site);
  }

  lemma {:induction false} BlockWordStays(f: Reader, g: Reader, a: Arenas, b: Arenas, c: Arenas, start: int, end: nat,
                                          p: Patch, sites: set<Word>, x: Word)
    requires TextApart(a, start, end) && a.WellFormed() && Grows(a, b) && Grows(b, c) && c.WellFormed()
    requires BlockIn(a, b, p.target, p.Size()) && p.target <= x && x + 4 <= p.target + p.Size() && x % 4 == 0
    requires forall site | site in sites :: start <= site < end
    requires WordsStay(f, g, b, c, sites)
    ensures g(x) == f(x)
  {
    BlockIsNotAllocated(a, b, c, start, end, p.target, p.Size(), x);
  }

  lemma PlacedFromEarlier(f: Reader, a: Arenas, b: Arenas, c: Arenas, site: Word, p: Patch)
    requires Grows(a, b) && Grows(b, c) && Placed(f, b, c, site, p)
    ensures Placed(f, a, c, site, p)
  {
  }

  lemma {:induction false} ExtendSites(f: Reader, g: Reader, h: Reader, a: Arenas, b: Arenas, c: Arenas, addr: Word, end: nat,
                    p: Patch, sites: map<Word, Patch>)
    requires addr < end && addr % 4 == 0 && Accepted(f(addr)) && p.inst == f(addr)
    requires Grows(a, b) && Grows(b, c)
    requires forall site: Word | addr < site < end && site % 4 == 0 :: g(site) == f(site)
    requires Placed(h, a, c, addr, p)
    requires SitesAreSound(g, h, b, c, addr + 4, end, sites)
    ensures SitesAreSound(f, h, a, c, addr, end, sites[addr := p])
  {
    forall site | site in sites ensures sites[site].inst == f(site) && Placed(h, a, c, site, sites[site]) {
      PlacedFromEarlier(h, a, b, c, site, sites[site]);
    }
  }

  lemma ExtendBytes(m: Memory, n: Memory, l: Memory, a: Arenas, b: Arenas, c: Arenas, earlier: set<Word>, sites: set<Word>)
    requires Grows(a, b) && Grows(b, c)
    requires BytesAreSound(m, n, a, b, earlier) && BytesAreSound(n, l, b, c, sites)
    ensures BytesAreSound(m, l, a, c, sites + earlier)
  {
    forall x: Word | l[x] != m[x] ensures Allocated(a, c, x) || x - x % 4 in sites + earlier {
      assert l[x] != n[x] || n[x] != m[x];
    }
  }

  lemma ExtendScan(m: Memory, a: Arenas, n: Memory, b: Arenas, addr: Word, end: nat, p: Patch, d: Scan)
    requires addr < end <= SPACE - 4 && addr % 4 == 0 && TextApart(a, addr, end)
    requires a.WellFormed() && Grows(a, b) && p.inst == View(m).data(addr) && Accepted(p.inst)
    requires Placed(View(n).data, a, b, addr, p) && BytesAreSound(m, n, a, b, {addr})
    requires d.Done? && ScanIsSound(n, b, addr + 4, end, d)
    ensures ScanIsSound(m, a, addr, end, Done(d.mem, d.arenas, d.sites[addr := p]))
  {
    var f, g, h := View(m).data, View(n).data, View(d.mem).data;
    forall site: Word | addr < site < end && site % 4 == 0 ensures g(site) == f(site) {
      TextIsNotAllocated(a, b, d.arenas, addr, end, site);
      WordStays(m, n, a, b, {addr}, site);
    }
    AllWordsStay(n, d.mem, b, d.arenas, d.sites.Keys);
    PatchStays(g, h, a, b, d.arenas, addr, end, addr, p, d.sites.Keys);
    ExtendSites(f, g, h, a, b, d.arenas, addr, end, p, d.sites);
    ExtendBytes(m, n, d.mem, a, b, d.arenas, {addr}, d.sites.Keys);
    assert d.sites[addr := p].Keys == d.sites.Keys + {addr};
  }

  /**
   A completed scan patched exactly the accepted words of the range, each with its own
   patch in place at the end, and changed no byte besides those words and newly
   allocated code.
   */
  lemma {:induction false} ScanPatchesAcceptedWords(m: Memory, a: Arenas, addr: nat, end: nat)
    requires a.WellFormed() && addr % 4 == 0 && end <= SPACE - 4 && TextApart(a, addr, end)
    requires ScanFrom(m, a, addr, end).Done?
    ensures ScanIsSound(m, a, addr, end, ScanFrom(m, a, addr, end))
    decreases SPACE - addr, 1
  {
    if addr < end {
      ScanWordIsSound(m, a, addr, end, View(m).data(addr));
    }
  }

  lemma {:induction false} ScanWordIsSound(m: Memory, a: Arenas, addr: Word, end: nat, inst: Word)
    requires a.WellFormed() && addr % 4 == 0 && addr < end <= SPACE - 4 && TextApart(a, addr, end)
    requires inst == View(m).data(addr) && ScanWord(m, a, addr, end, inst).Done?
    ensures ScanIsSound(m, a, addr, end, ScanWord(m, a, addr, end, inst))
    decreases SPACE - addr, 0
  {
    if Accepted(inst) {
      var (n, b, p) := PatchSite(m, a, addr, inst);
      PatchSiteAllocates(m, a, addr, inst);
      ScanPatchesAcceptedWords(n, b, addr + 4, end);
      PatchExtendsScan(m, a, n, b, addr, end, p.value, ScanFrom(n, b, addr + 4, end));
    } else {
      ScanPatchesAcceptedWords(m, a, addr + 4, end);
      SkipExtendsScan(m, a, addr, end, ScanFrom(m, a, addr + 4, end));
    }
  }

  lemma PatchExtendsScan(m: Memory, a: Arenas, n: Memory, b: Arenas, addr: Word, end: nat, p: Patch, d: Scan)
    requires addr < end <= SPACE - 4 && addr % 4 == 0 && TextApart(a, addr, end)
    requires a.WellFormed() && b.WellFormed() && Grows(a, b) && p.inst == View(m).data(addr) && Accepted(p.inst)
    requires Fits(p) && BlockIn(a, b, p.target, p.Size()) && n == Emit(m, addr, p)
    requires d.Done? && ScanIsSound(n, b, addr + 4, end, d)
    ensures ScanIsSound(m, a, addr, end, Done(d.mem, d.arenas, d.sites[addr := p]))
  {
    EmitPlaces(m, a, b, addr, p);
    ExtendScan(m, a, n, b, addr, end, p, d);
  }

  lemma SkipExtendsScan(m: Memory, a: Arenas, addr: Word, end: nat, d: Scan)
    requires addr % 4 == 0 && !Accepted(View(m).data(addr))
    requires d.Done? && ScanIsSound(m, a, addr + 4, end, d)
    ensures ScanIsSound(m, a, addr, end, d)
  {
    SkipWord(View(m).data, View(d.mem).data, a, d.arenas, addr, end, d.sites);
  }

  lemma SkipWord(f: Reader, g: Reader, a: Arenas, b: Arenas, addr: Word, end: nat, sites: map<Word, Patch>)
    requires addr % 4 == 0 && !Accepted(f(addr)) && SitesAreSound(f, g, a, b, addr + 4, end, sites)
    ensures SitesAreSound(f, g, a, b, addr, end, sites)
  {
  }

  /** Every patch of a completed scan is well made. */
  lemma {:induction false} ScanMakesPatches(first: Arenas, start: int, m: Memory, a: Arenas, addr: nat, end: nat)
    requires ServesCode(first, start, end) && Grows(first, a) && a.WellFormed()
    requires start <= addr && addr % 4 == 0 && end <= SPACE - 4
    requires ScanFrom(m, a, addr, end).Done?
    ensures forall site | site in ScanFrom(m, a, addr, end).sites :: WellMade(site, ScanFrom(m, a, addr, end).sites[site])
    decreases SPACE - addr, 1
  {
    if addr < end {
      ScanWordMakesPatches(first, start, m, a, addr, end, View(m).data(addr));
    }
  }

  lemma {:induction false} ScanWordMakesPatches(first: Arenas, start: int, m: Memory, a: Arenas, addr: Word, end: nat, inst: Word)
    requires ServesCode(first, start, end) && Grows(first, a) && a.WellFormed()
    requires start <= addr && addr % 4 == 0 && addr < end <= SPACE - 4
    requires ScanWord(m, a, addr, end, inst).Done?
    ensures forall site | site in ScanWord(m, a, addr, end, inst).sites ::
      WellMade(site, ScanWord(m, a, addr, end, inst).sites[site])
    decreases SPACE - addr, 0
  {
    if Accepted(inst) {
      PatchSiteAllocates(m, a, addr, inst);
      PatchArrives(first, a, start, end, m, addr, inst);
      var (n, b, p) := PatchSite(m, a, addr, inst);
      GrowsOn(first, a, b);
      ScanMakesPatches(first, start, n, b, addr + 4, end);
    } else {
      ScanMakesPatches(first, start, m, a, addr + 4, end);
    }
  }
}
