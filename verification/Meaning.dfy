/**
 What patched code means: a single site, whole runs, one function after another, and
 all of it for a module as it is loaded.
 */
module Meaning {
  import opened Words
  import opened Passes
  import opened ArmIsa
  import opened CodeArena
  import opened Trampoline
  import opened SoModule

  // Patched memory

  /**
   Memory and arenas after patching: every patch is well made and in place, its site held
   an accepted word, and no other byte changed outside newly allocated code.
   */
  ghost predicate Patched(m: Memory, a: Arenas, d: Scan) {
    && d.Done? && d.arenas.WellFormed() && Grows(a, d.arenas)
    && (forall site | site in d.sites :: SitePatched(View(m).data, View(d.mem).data, a, d.arenas, site, d.sites[site]))
    && BytesAreSound(m, d.mem, a, d.arenas, d.sites.Keys)
  }

  ghost predicate SitePatched(f: Reader, g: Reader, a: Arenas, b: Arenas, site: Word, p: Patch) {
    site % 4 == 0 && Accepted(f(site)) && p.inst == f(site) && WellMade(site, p) && Placed(g, a, b, site, p)
  }

  /** The four bytes at x lie outside the patched code. */
  ghost predicate DataApart(a: Arenas, d: Scan, x: Word)
    requires d.Done?
  {
    forall k | 0 <= k < 4 :: !PatchedByte(a, d, ByteAddress(x, k))
  }

  function ByteAddress(x: Word, k: nat): Word { Wrap(x + k) }

  lemma {:induction false} DataStays(m: Memory, a: Arenas, d: Scan, x: Word)
    requires d.Done? && DataApart(a, d, x) && BytesAreSound(m, d.mem, a, d.arenas, d.sites.Keys)
    ensures View(d.mem).data(x) == View(m).data(x)
  {
    assert d.mem[ByteAddress(x, 0)] == m[ByteAddress(x, 0)] && d.mem[ByteAddress(x, 1)] == m[ByteAddress(x, 1)];
    assert d.mem[ByteAddress(x, 2)] == m[ByteAddress(x, 2)] && d.mem[ByteAddress(x, 3)] == m[ByteAddress(x, 3)];
  }

  // One instruction

  /** What the original instruction reads lies outside the patched code. */
  ghost predicate ReadsApart(a: Arenas, d: Scan, s: Cpu, i: Instr)
    requires d.Done?
  {
    match i
    case Load(rt, rn, offset) => DataApart(a, d, LoadAddress(s, rn, offset))
    case LoadMultiple(rn, mask) =>
      rn < 15 ==> forall r: RegisterName | Bit(mask, r) :: DataApart(a, d, SlotAddress(s.regs[rn], mask, r))
    case _ => true
  }

  /** The original step at a patched site is one that the trampoline repeats. */
  ghost predicate Repeats(s: Cpu, inst: Word) {
    && Accepted(inst) && ListOf(inst) != 0 && !BaseLoadIsLost(inst)
    && (Bit(ListOf(inst), 15) ==> s.regs[BaseOf(inst)] % 4 == 0)
  }

  lemma OriginalStep(m: Machine, s: Cpu, inst: Word)
    requires m.code(s.pc) == Decode(inst) && Accepted(inst) && !s.thumb
    ensures Step(m, s) == ExecLoadMultiple(m.data, s, BaseOf(inst), ListOf(inst))
  {
    assert inst / 0x100_0000 == 0xE8;
    assert Decode(inst) == LoadMultiple(BaseOf(inst), ListOf(inst));
  }

  lemma SameLoads(f: Reader, g: Reader, s: Cpu, rn: RegisterName, mask: nat)
    requires rn < 15
    requires forall i: RegisterName | Bit(mask, i) ::
      f(SlotAddress(s.regs[rn], mask, i)) == g(SlotAddress(s.regs[rn], mask, i))
    ensures ExecLoadMultiple(f, s, rn, mask) == ExecLoadMultiple(g, s, rn, mask)
  {
    assert LoadedRegisters(f, s.regs, rn, mask) == LoadedRegisters(g, s.regs, rn, mask);
  }

  /** Running a patched site does what the original LDMIA did. */
  lemma {:induction false} SiteMeans(m: Memory, a: Arenas, d: Scan, s: Cpu, inst: Word)
    requires Patched(m, a, d) && s.pc in d.sites && !s.thumb && inst == View(m).data(s.pc) && Repeats(s, inst)
    requires ReadsApart(a, d, s, LoadMultiple(BaseOf(inst), ListOf(inst)))
    ensures Run(View(d.mem), s, RunLength(inst)) == Step(View(m), s)
  {
    var after, before := View(d.mem), View(m);
    assert SitePatched(before.data, after.data, a, d.arenas, s.pc, d.sites[s.pc]);
    InstalledDecodes(after, inst, s.pc, d.sites[s.pc].target);
    TrampolineMeansLdmia(after, s, inst, s.pc, d.sites[s.pc].target);
    forall i: RegisterName | Bit(ListOf(inst), i)
      ensures after.data(SlotAddress(s.regs[BaseOf(inst)], ListOf(inst), i))
           == before.data(SlotAddress(s.regs[BaseOf(inst)], ListOf(inst), i))
    {
      DataStays(m, a, d, SlotAddress(s.regs[BaseOf(inst)], ListOf(inst), i));
    }
    SameLoads(after.data, before.data, s, BaseOf(inst), ListOf(inst));
    OriginalStep(before, s, inst);
  }

  /** An instruction outside the patched code does what it did. */
  lemma {:induction false} OtherMeans(m: Memory, a: Arenas, d: Scan, s: Cpu)
    requires Patched(m, a, d) && DataApart(a, d, s.pc) && ReadsApart(a, d, s, View(m).code(s.pc))
    ensures Step(View(d.mem), s) == Step(View(m), s)
  {
    DataStays(m, a, d, s.pc);
    var f, g, i := View(d.mem).data, View(m).data, View(m).code(s.pc);
    assert View(d.mem).code(s.pc) == i;
    match i {
      case Load(rt, rn, offset) => DataStays(m, a, d, LoadAddress(s, rn, offset));
      case LoadMultiple(rn, mask) =>
        if rn < 15 {
          forall r: RegisterName | Bit(mask, r)
            ensures f(SlotAddress(s.regs[rn], mask, r)) == g(SlotAddress(s.regs[rn], mask, r))
          {
            DataStays(m, a, d, SlotAddress(s.regs[rn], mask, r));
          }
          SameLoads(f, g, s, rn, mask);
        }
      case _ =>
    }
  }

  // Runs

  /** The original step from s can be followed in the patched code. */
  ghost predicate Undisturbed(m: Memory, a: Arenas, d: Scan, s: Cpu)
    requires d.Done?
  {
    && ReadsApart(a, d, s, View(m).code(s.pc))
    && if s.pc in d.sites then Repeats(s, View(m).data(s.pc)) else DataApart(a, d, s.pc)
  }

  /** Every step of a run of n steps starts in a good state. */
  ghost predicate StaysGood(m: Machine, good: Cpu -> bool, s: Cpu, n: nat)
    decreases n
  {
    n > 0 && Step(m, s).Some? ==> good(s) && StaysGood(m, good, Step(m, s).value, n - 1)
  }

  lemma {:induction false} RunOn(m: Machine, s: Cpu, n: nat, t: Cpu, k: nat)
    requires Run(m, s, n) == Some(t)
    ensures Run(m, s, n + k) == Run(m, t, k)
    decreases n
  {
    if n > 0 {
      RunOn(m, Step(m, s).value, n - 1, t, k);
    }
  }

  /** A machine that repeats each step from a good state in some number of its own repeats every run through good states. */
  lemma {:induction false} Simulates(before: Machine, after: Machine, good: Cpu -> bool, length: Cpu -> nat, s: Cpu, n: nat)
      returns (k: nat)
    requires forall u: Cpu | good(u) && Step(before, u).Some? :: length(u) > 0 && Run(after, u, length(u)) == Step(before, u)
    requires StaysGood(before, good, s, n) && Run(before, s, n).Some?
    ensures k >= n && Run(after, s, k) == Run(before, s, n)
    decreases n
  {
    k := 0;
    if n > 0 {
      var t := Step(before, s).value;
      var rest := Simulates(before, after, good, length, t, n - 1);
      RunOn(after, s, length(s), t, rest);
      k := length(s) + rest;
    }
  }

  /** How many steps of the patched code repeat the original one from s. */
  ghost function StepLength(m: Memory, d: Scan, s: Cpu): nat
    requires d.Done?
  {
    if s.pc in d.sites then RunLength(View(m).data(s.pc)) else 1
  }

  /** A run of the original code has a run of the patched code that ends in the same state. */
  lemma {:induction false} RunMeans(m: Memory, a: Arenas, d: Scan, s: Cpu, n: nat) returns (k: nat)
    requires Patched(m, a, d) && Run(View(m), s, n).Some?
    requires StaysGood(View(m), (u: Cpu) => Undisturbed(m, a, d, u), s, n)
    ensures k >= n && Run(View(d.mem), s, k) == Run(View(m), s, n)
  {
    var good, length := (u: Cpu) => Undisturbed(m, a, d, u), (u: Cpu) => StepLength(m, d, u);
    forall u: Cpu | good(u) && Step(View(m), u).Some?
      ensures length(u) > 0 && Run(View(d.mem), u, length(u)) == Step(View(m), u)
    {
      StepMeans(m, a, d, u);
    }
    k := Simulates(View(m), View(d.mem), good, length, s, n);
  }

  lemma {:induction false} StepMeans(m: Memory, a: Arenas, d: Scan, s: Cpu)
    requires Patched(m, a, d) && Undisturbed(m, a, d, s) && Step(View(m), s).Some?
    ensures StepLength(m, d, s) > 0 && Run(View(d.mem), s, StepLength(m, d, s)) == Step(View(m), s)
  {
    if s.pc in d.sites {
      var inst := View(m).data(s.pc);
      SiteDecodes(inst);
      SiteMeans(m, a, d, s, inst);
    } else {
      OtherMeans(m, a, d, s);
      assert Run(View(d.mem), Step(View(m), s).value, 0) == Step(View(m), s);
    }
  }

  lemma {:induction false} SiteDecodes(inst: Word)
    requires Accepted(inst)
    ensures Decode(inst) == LoadMultiple(BaseOf(inst), ListOf(inst))
  {
    assert inst / 0x100_0000 == 0xE8;
  }

  // One scan

  lemma {:induction false} ScanIsPatched(m: Memory, a: Arenas, addr: nat, end: nat)
    requires a.WellFormed() && ServesCode(a, addr, end) && addr % 4 == 0 && end <= SPACE - 4 && TextApart(a, addr, end)
    requires ScanFrom(m, a, addr, end).Done?
    ensures Patched(m, a, ScanFrom(m, a, addr, end))
  {
    ScanPatchesAcceptedWords(m, a, addr, end);
    ScanMakesPatches(a, addr, m, a, addr, end);
  }

  /**
   After the scan, running a patched site on a state whose data lies outside the patched
   code does what the original LDMIA did, provided its list does not hold both the base
   and PC.
   */
  lemma {:induction false} ScanPreservesMeaning(m: Memory, a: Arenas, addr: nat, end: nat, s: Cpu, inst: Word)
    requires a.WellFormed() && ServesCode(a, addr, end) && addr % 4 == 0 && end <= SPACE - 4 && TextApart(a, addr, end)
    requires ScanFrom(m, a, addr, end).Done?
    requires addr <= s.pc < end && s.pc % 4 == 0 && !s.thumb && inst == View(m).data(s.pc) && Repeats(s, inst)
    requires ReadsApart(a, ScanFrom(m, a, addr, end), s, LoadMultiple(BaseOf(inst), ListOf(inst)))
    ensures Run(View(ScanFrom(m, a, addr, end).mem), s, RunLength(inst)) == Step(View(m), s)
  {
    var d := ScanFrom(m, a, addr, end);
    ScanIsPatched(m, a, addr, end);
    ScanPatchesAcceptedWords(m, a, addr, end);
    assert SitesAreSound(View(m).data, View(d.mem).data, a, d.arenas, addr, end, d.sites);
    SiteMeans(m, a, d, s, inst);
  }

  // One function after another

  datatype Function = Function(start: nat, end: nat)

  ghost predicate InText(fs: seq<Function>, start: int, end: int) {
    forall i | 0 <= i < |fs| :: start <= fs[i].start && fs[i].start % 4 == 0 && fs[i].end <= end
  }

  /** The first n functions are fixed in order, each on what the earlier ones left. */
  ghost function ScanAll(m: Memory, a: Arenas, fs: seq<Function>, n: nat): (d: Scan)
    requires a.WellFormed() && n <= |fs| && forall i | 0 <= i < n :: fs[i].end <= SPACE
    ensures d.Done? ==> d.arenas.WellFormed()
  {
    if n == 0 then Done(m, a, map[])
    else
      match ScanAll(m, a, fs, n - 1)
      case Fatal => Fatal
      case Done(before, b, sites) => ScanOne(before, b, sites, fs[n - 1])
  }

  ghost function ScanOne(n: Memory, b: Arenas, sites: map<Word, Patch>, f: Function): (d: Scan)
    requires b.WellFormed() && f.end <= SPACE
    ensures d.Done? ==> d.arenas.WellFormed()
  {
    match ScanFrom(n, b, f.start, f.end)
    case Fatal => Fatal
    case Done(mem, arenas, more) => Done(mem, arenas, sites + more)
  }

  /** The patched sites are the accepted words of the first n functions. */
  ghost predicate Covers(m: Memory, fs: seq<Function>, n: nat, sites: map<Word, Patch>)
    requires n <= |fs|
  {
    forall site: Word :: site in sites <==>
      site % 4 == 0 && Accepted(View(m).data(site)) && exists i | 0 <= i < n :: fs[i].start <= site < fs[i].end
  }

  /** The same text, arenas and patches in every lemma about fixing one more function. */
  ghost predicate TextServed(a: Arenas, start: int, end: int) {
    a.WellFormed() && ServesCode(a, start, end) && TextApart(a, start, end) && end <= SPACE - 4
  }

  /** A patched site does not look like an LDMIA any more. */
  lemma {:induction false} BranchIsNotAccepted(site: Word, target: Word)
    ensures !Accepted(BranchWord(site, target))
  {
  }

  /** Whatever functions are fixed in whatever order, their accepted words are patched and all other code is as it was. */
  lemma {:induction false} FixedIsPatched(m: Memory, a: Arenas, fs: seq<Function>, n: nat, start: int, end: int)
    requires TextServed(a, start, end) && InText(fs, start, end) && n <= |fs| && ScanAll(m, a, fs, n).Done?
    ensures Patched(m, a, ScanAll(m, a, fs, n)) && Covers(m, fs, n, ScanAll(m, a, fs, n).sites)
  {
    if n > 0 {
      var d, r := ScanAll(m, a, fs, n - 1), ScanAll(m, a, fs, n);
      FixedIsPatched(m, a, fs, n - 1, start, end);
      OneMoreFixed(m, a, d, fs, n - 1, start, end);
      assert r == ScanOne(d.mem, d.arenas, d.sites, fs[n - 1]);
    }
  }

  lemma {:induction false} OneMoreFixed(m: Memory, a: Arenas, d: Scan, fs: seq<Function>, n: nat, start: int, end: int)
    requires TextServed(a, start, end) && InText(fs, start, end) && n < |fs|
    requires Patched(m, a, d) && Covers(m, fs, n, d.sites)
    requires ScanOne(d.mem, d.arenas, d.sites, fs[n]).Done?
    ensures var after := ScanOne(d.mem, d.arenas, d.sites, fs[n]);
      Patched(m, a, after) && Covers(m, fs, n + 1, after.sites)
  {
    CoveredIsText(m, fs, n, d.sites, start, end);
    OneMoreIsPatched(m, a, d, fs[n], start, end);
    OneMoreCovers(m, a, d, fs, n, start, end);
  }

  lemma {:induction false} CoveredIsText(m: Memory, fs: seq<Function>, n: nat, sites: map<Word, Patch>, start: int, end: int)
    requires InText(fs, start, end) && n <= |fs| && Covers(m, fs, n, sites)
    ensures forall site | site in sites :: start <= site < end
  {
  }

  /** The scan of one more function, and what is known about it. */
  lemma {:induction false} NextScan(m: Memory, a: Arenas, d: Scan, f: Function, start: int, end: int)
    requires TextServed(a, start, end) && start <= f.start && f.start % 4 == 0 && f.end <= end
    requires Patched(m, a, d) && ScanFrom(d.mem, d.arenas, f.start, f.end).Done?
    ensures var e := ScanFrom(d.mem, d.arenas, f.start, f.end);
      && ScanIsSound(d.mem, d.arenas, f.start, f.end, e)
      && forall site | site in e.sites :: WellMade(site, e.sites[site])
  {
    ServesPart(a, start, end, start, f.end);
    ScanPatchesAcceptedWords(d.mem, d.arenas, f.start, f.end);
    ScanMakesPatches(a, start, d.mem, d.arenas, f.start, f.end);
  }

  lemma {:induction false} ServesPart(a: Arenas, start: int, end: int, addr: int, to: int)
    requires ServesCode(a, start, end) && start <= addr && to <= end
    ensures ServesCode(a, addr, to)
  {
    forall length: Word | length % 4 == 0 && 8 <= length <= 72 ensures Serves(a, addr, to, length) {
      assert Serves(a, start, end, length);
    }
  }

  /** An unpatched word of the text reads as in the original. */
  lemma {:induction false} TextStays(m: Memory, a: Arenas, d: Scan, start: int, end: int, site: Word)
    requires TextServed(a, start, end) && Patched(m, a, d) && start <= site < end && site % 4 == 0
    ensures site !in d.sites ==> View(d.mem).data(site) == View(m).data(site)
    ensures site in d.sites ==> !Accepted(View(d.mem).data(site))
  {
    if site in d.sites {
      assert SitePatched(View(m).data, View(d.mem).data, a, d.arenas, site, d.sites[site]);
      BranchIsNotAccepted(site, d.sites[site].target);
    } else {
      TextIsNotAllocated(a, d.arenas, d.arenas, start, end, site);
      WordStays(m, d.mem, a, d.arenas, d.sites.Keys, site);
    }
  }

  lemma {:induction false} OneMoreIsPatched(m: Memory, a: Arenas, d: Scan, f: Function, start: int, end: int)
    requires TextServed(a, start, end) && start <= f.start && f.start % 4 == 0 && f.end <= end
    requires Patched(m, a, d) && (forall site | site in d.sites :: start <= site < end)
    requires ScanOne(d.mem, d.arenas, d.sites, f).Done?
    ensures Patched(m, a, ScanOne(d.mem, d.arenas, d.sites, f))
  {
    var e, after := ScanFrom(d.mem, d.arenas, f.start, f.end), ScanOne(d.mem, d.arenas, d.sites, f);
    NextScan(m, a, d, f, start, end);
    GrowsOn(a, d.arenas, e.arenas);
    forall site | site in after.sites
      ensures SitePatched(View(m).data, View(after.mem).data, a, after.arenas, site, after.sites[site])
    {
      if site in e.sites {
        NewSite(m, a, d, f, e, start, end, site);
      } else {
        OldSite(m, a, d, f, e, start, end, site);
      }
    }
    OneMoreBytes(m, a, d, f, e);
  }

  lemma {:induction false} OneMoreBytes(m: Memory, a: Arenas, d: Scan, f: Function, e: Scan)
    requires Patched(m, a, d) && e.Done? && ScanIsSound(d.mem, d.arenas, f.start, f.end, e)
    ensures BytesAreSound(m, e.mem, a, e.arenas, (d.sites + e.sites).Keys)
  {
    ExtendBytes(m, d.mem, e.mem, a, d.arenas, e.arenas, d.sites.Keys, e.sites.Keys);
    assert (d.sites + e.sites).Keys == e.sites.Keys + d.sites.Keys;
  }

  lemma {:induction false} NewSite(m: Memory, a: Arenas, d: Scan, f: Function, e: Scan, start: int, end: int, site: Word)
    requires TextServed(a, start, end) && start <= f.start && f.end <= end && Patched(m, a, d)
    requires e.Done? && ScanIsSound(d.mem, d.arenas, f.start, f.end, e)
    requires site in e.sites && WellMade(site, e.sites[site])
    ensures SitePatched(View(m).data, View(e.mem).data, a, e.arenas, site, e.sites[site])
  {
    TextStays(m, a, d, start, end, site);
    PlacedFromEarlier(View(e.mem).data, a, d.arenas, e.arenas, site, e.sites[site]);
  }

  lemma {:induction false} OldSite(m: Memory, a: Arenas, d: Scan, f: Function, e: Scan, start: int, end: int, site: Word)
    requires TextServed(a, start, end) && start <= f.start && f.end <= end && Patched(m, a, d)
    requires e.Done? && ScanIsSound(d.mem, d.arenas, f.start, f.end, e)
    requires site in d.sites && site !in e.sites && start <= site < end
    ensures SitePatched(View(m).data, View(e.mem).data, a, e.arenas, site, d.sites[site])
  {
    assert SitePatched(View(m).data, View(d.mem).data, a, d.arenas, site, d.sites[site]);
    AllWordsStay(d.mem, e.mem, d.arenas, e.arenas, e.sites.Keys);
    PatchStays(View(d.mem).data, View(e.mem).data, a, d.arenas, e.arenas, start, end, site, d.sites[site], e.sites.Keys);
  }

  lemma {:induction false} OneMoreCovers(m: Memory, a: Arenas, d: Scan, fs: seq<Function>, n: nat, start: int, end: int)
    requires TextServed(a, start, end) && InText(fs, start, end) && n < |fs|
    requires Patched(m, a, d) && Covers(m, fs, n, d.sites)
    requires ScanOne(d.mem, d.arenas, d.sites, fs[n]).Done?
    ensures Covers(m, fs, n + 1, ScanOne(d.mem, d.arenas, d.sites, fs[n]).sites)
  {
    var f, after := fs[n], ScanOne(d.mem, d.arenas, d.sites, fs[n]);
    NextScan(m, a, d, f, start, end);
    forall site: Word
      ensures site in after.sites <==>
        site in d.sites || (site % 4 == 0 && Accepted(View(m).data(site)) && f.start <= site < f.end)
    {
      if site % 4 == 0 && f.start <= site < f.end {
        TextStays(m, a, d, start, end, site);
      }
    }
    CoversNext(m, fs, n, d.sites, after.sites);
  }

  lemma {:induction false} CoversNext(m: Memory, fs: seq<Function>, n: nat, sites: map<Word, Patch>, all: map<Word, Patch>)
    requires n < |fs| && Covers(m, fs, n, sites)
    requires forall site: Word :: site in all <==>
      site in sites || (site % 4 == 0 && Accepted(View(m).data(site)) && fs[n].start <= site < fs[n].end)
    ensures Covers(m, fs, n + 1, all)
  {
  }

  // The same in terms of what the processor decodes

  /** An LDM with a base from r0 to r12, which write-back and other addressing modes are not. */
  predicate Fixable(i: Instr) {
    i.LoadMultiple? && i.rn < 13
  }

  /**
   At site the code branches to code allocated between a and b that loads the registers of
   the list, each once and from where LDM finds it, and then jumps to the next word.
   */
  ghost predicate Redirects(g: Machine, a: Arenas, b: Arenas, site: Word, rn: RegisterName, mask: nat) {
    exists p: Plan, target: Word :: p.rn == rn && Follows(p, mask) && |p.order| == Rank(mask, 16)
      && Decodes(g, p, site, target) && BlockIn(a, b, target, 4 * (|p.order| + 2))
  }

  ghost predicate InFunction(fs: seq<Function>, n: nat, x: int)
    requires n <= |fs|
  {
    exists i | 0 <= i < n :: fs[i].start <= x < fs[i].end
  }

  /** Every LDM of the first n functions is redirected, and every other byte outside new code is the same. */
  ghost predicate Rewritten(m: Memory, a: Arenas, n: Memory, b: Arenas, fs: seq<Function>, k: nat)
    requires k <= |fs|
  {
    var f, g := View(m), View(n);
    && (forall x: Word | x % 4 == 0 && InFunction(fs, k, x) && Fixable(f.code(x)) ::
          Redirects(g, a, b, x, f.code(x).rn, f.code(x).mask))
    && (forall x: Word | n[x] != m[x] && !Allocated(a, b, x) ::
          InFunction(fs, k, x - x % 4) && Fixable(f.code(x - x % 4)))
  }

  /** Fixing functions rewrites exactly the LDM instructions in them. */
  lemma {:induction false} FixedIsRewritten(m: Memory, a: Arenas, fs: seq<Function>, n: nat, start: int, end: int, d: Scan)
    requires TextServed(a, start, end) && InText(fs, start, end) && n <= |fs|
    requires d == ScanAll(m, a, fs, n) && d.Done?
    ensures Grows(a, d.arenas) && Rewritten(m, a, d.mem, d.arenas, fs, n)
  {
    FixedIsPatched(m, a, fs, n, start, end);
    forall x: Word | x % 4 == 0 && InFunction(fs, n, x) && Fixable(View(m).code(x))
      ensures Redirects(View(d.mem), a, d.arenas, x, View(m).code(x).rn, View(m).code(x).mask)
    {
      FixableIff(View(m).data(x));
      SiteRedirects(m, a, d, x);
    }
    forall x: Word | d.mem[x] != m[x] && !Allocated(a, d.arenas, x)
      ensures InFunction(fs, n, x - x % 4) && Fixable(View(m).code(x - x % 4))
    {
      FixableIff(View(m).data(x - x % 4));
    }
  }

  lemma {:induction false} SiteRedirects(m: Memory, a: Arenas, d: Scan, site: Word)
    requires Patched(m, a, d) && site in d.sites
    ensures Fixable(View(m).code(site))
    ensures Redirects(View(d.mem), a, d.arenas, site, View(m).code(site).rn, View(m).code(site).mask)
  {
    var f, g, p := View(m), View(d.mem), d.sites[site];
    assert SitePatched(f.data, g.data, a, d.arenas, site, p);
    AcceptedIff(p.inst);
    InstalledDecodes(g, p.inst, site, p.target);
    OrderBeforeJump(p.inst);
    TrampolineFitsBuffer(site, p.inst);
    var plan := PlanOf(p.inst);
    assert Follows(plan, ListOf(p.inst)) && |plan.order| + 2 == |p.words|;
    assert Decodes(g, plan, site, p.target);
  }

  // When there is room

  /** How many words from addr on are to be fixed. */
  ghost function Fixables(f: Reader, addr: nat, end: nat): nat
    requires end <= SPACE
    decreases end - addr
  {
    if addr >= end then 0 else (if Fixable(Decode(f(addr))) then 1 else 0) + Fixables(f, addr + 4, end)
  }

  lemma {:induction false} SameFixables(f: Reader, g: Reader, addr: nat, end: nat)
    requires end <= SPACE && addr % 4 == 0 && forall x: Word | addr <= x < end && x % 4 == 0 :: f(x) == g(x)
    ensures Fixables(f, addr, end) == Fixables(g, addr, end)
    decreases end - addr
  {
    if addr < end {
      SameFixables(f, g, addr + 4, end);
    }
  }

  /** The range test admits the patch arena, which begins below the range, from everywhere in it. */
  ghost predicate PatchNear(a: Arenas, addr: nat, end: nat) {
    a.patch.base <= addr + 32 && end + 31 <= a.patch.base + BRANCH_RANGE && end + 32 <= SPACE
  }

  /** The patch arena has 72 bytes, eighteen words, left for each word to be fixed. */
  ghost predicate HasRoom(a: Arenas, f: Reader, addr: nat, end: nat)
    requires end <= SPACE
  {
    && a.WellFormed() && TextApart(a, addr, end) && PatchNear(a, addr, end)
    && a.patch.head + 72 * Fixables(f, addr, end) <= a.patch.base + a.patch.size
  }

  /** Then a scan completes. */
  lemma {:induction false} ScanCompletes(m: Memory, a: Arenas, addr: nat, end: nat)
    requires a.WellFormed() && addr % 4 == 0 && end <= SPACE - 4 && HasRoom(a, View(m).data, addr, end)
    ensures ScanFrom(m, a, addr, end).Done?
    decreases SPACE - addr, 1
  {
    if addr < end {
      ScanWordCompletes(m, a, addr, end, View(m).data(addr));
    }
  }

  lemma {:induction false} ScanWordCompletes(m: Memory, a: Arenas, addr: Word, end: nat, inst: Word)
    requires a.WellFormed() && addr % 4 == 0 && addr < end <= SPACE - 4 && HasRoom(a, View(m).data, addr, end)
    requires inst == View(m).data(addr)
    ensures ScanWord(m, a, addr, end, inst).Done?
    decreases SPACE - addr, 0, 1
  {
    FixableIff(inst);
    if Accepted(inst) {
      var next := PatchSite(m, a, addr, inst);
      PatchLeavesRoom(m, a, addr, end, inst, next);
      ScanPatchedCompletes(next, addr, end);
    } else {
      var f := View(m).data;
      HasRoomAfter(a, a, f, f, addr, end);
      ScanCompletes(m, a, addr + 4, end);
    }
  }

  lemma {:induction false} ScanPatchedCompletes(next: (Memory, Arenas, Option<Patch>), addr: Word, end: nat)
    requires next.2.Some? && next.1.WellFormed() && addr % 4 == 0 && addr < end <= SPACE - 4
    requires HasRoom(next.1, View(next.0).data, addr + 4, end)
    ensures ScanPatched(next, addr, end).Done?
    decreases SPACE - addr, 0, 0
  {
    ScanCompletes(next.0, next.1, addr + 4, end);
  }

  lemma {:induction false} FixableIff(inst: Word)
    ensures Accepted(inst) <==> Fixable(Decode(inst))
  {
    AcceptedIff(inst);
  }

  lemma {:induction false} HasRoomAfter(a: Arenas, b: Arenas, f: Reader, g: Reader, addr: nat, end: nat)
    requires addr < end <= SPACE && addr % 4 == 0 && HasRoom(a, f, addr, end) && Grows(a, b) && b.WellFormed()
    requires b.patch.head <= a.patch.head + if Fixable(Decode(f(addr))) then 72 else 0
    requires forall x: Word | addr < x < end && x % 4 == 0 :: g(x) == f(x)
    ensures HasRoom(b, g, addr + 4, end)
  {
    SameFixables(f, g, addr + 4, end);
  }

  lemma {:induction false} PatchLeavesRoom(m: Memory, a: Arenas, addr: Word, end: nat, inst: Word,
                                           next: (Memory, Arenas, Option<Patch>))
    requires addr % 4 == 0 && addr < end <= SPACE - 4 && HasRoom(a, View(m).data, addr, end)
    requires inst == View(m).data(addr) && Fixable(Decode(inst)) && next == PatchSite(m, a, addr, inst)
    ensures next.2.Some? && next.1.WellFormed() && HasRoom(next.1, View(next.0).data, addr + 4, end)
  {
    var f, g := View(m).data, View(next.0).data;
    PatchFits(m, a, addr, end, inst, next);
    HasRoomAfter(a, next.1, f, g, addr, end);
  }

  /** The next patch is granted from the patch arena, and leaves the rest of the text alone. */
  lemma {:induction false} PatchFits(m: Memory, a: Arenas, addr: Word, end: nat, inst: Word,
                                     next: (Memory, Arenas, Option<Patch>))
    requires addr % 4 == 0 && addr < end <= SPACE - 4 && HasRoom(a, View(m).data, addr, end)
    requires inst == View(m).data(addr) && Fixable(Decode(inst)) && next == PatchSite(m, a, addr, inst)
    ensures next.2.Some? && Grows(a, next.1) && next.1.WellFormed() && next.1.patch.head <= a.patch.head + 72
    ensures forall x: Word | addr < x < end && x % 4 == 0 :: View(next.0).data(x) == View(m).data(x)
  {
    GrantedFirstFit(a, CodeRequest(addr, inst), CodeRequest(addr, inst).size);
    PatchSiteAllocates(m, a, addr, inst);
    PatchKeepsText(m, a, addr, end, next.0, next.1, next.2.value);
  }

  lemma {:induction false} PatchKeepsText(m: Memory, a: Arenas, addr: Word, end: nat, n: Memory, b: Arenas, p: Patch)
    requires a.WellFormed() && b.WellFormed() && Grows(a, b) && TextApart(a, addr, end) && addr % 4 == 0 && addr < end
    requires Fits(p) && BlockIn(a, b, p.target, p.Size()) && n == Emit(m, addr, p)
    ensures forall x: Word | addr < x < end && x % 4 == 0 :: View(n).data(x) == View(m).data(x)
  {
    EmitPlaces(m, a, b, addr, p);
    forall x: Word | addr < x < end && x % 4 == 0 ensures View(n).data(x) == View(m).data(x) {
      TextIsNotAllocated(a, b, b, addr, end, x);
      WordStays(m, n, a, b, {addr}, x);
    }
  }

  // A freshly loaded module

  /** The text of a loaded segment lies outside both arenas, even where the cave begins right after it. */
  lemma {:induction false} FreshTextIsApart(seg: Segment, patchBlock: Word, block: Word, addr: int, end: int)
    requires Loadable(seg, patchBlock, block)
    requires block + seg.offset <= addr && end <= block + seg.TextEnd()
    ensures TextApart(FreshArenas(seg, patchBlock, block), addr, end)
  {
    FreshIsWellFormed(seg, patchBlock, block);
  }

  /** The arenas and the text of a segment as it is loaded. */
  ghost predicate Layout(seg: Segment, patchBlock: Word, block: Word, a: Arenas, start: nat, end: nat) {
    && Usual(seg, patchBlock, block) && a == FreshArenas(seg, patchBlock, block)
    && start == block + seg.offset && end == block + seg.TextEnd()
  }

  /** The trampolines of a loaded segment are all reached if and only if the shortest one would be, at the far end of the cave. */
  lemma {:induction false} LoadedServesCodeIff(seg: Segment, patchBlock: Word, block: Word, a: Arenas, start: nat, end: nat)
    requires Layout(seg, patchBlock, block, a, start, end)
    ensures ServesCode(a, start, end) <==> InReach(a.cave, start, 8)
  {
    UsualIsAround(seg, patchBlock, block);
    ServesCodeIff(a, start, end);
  }

  lemma {:induction false} ServesCodeIff(a: Arenas, start: nat, end: nat)
    requires Around(a, start, end)
    ensures ServesCode(a, start, end) <==> InReach(a.cave, start, 8)
  {
    ServesForAllIff(a, start, end);
    if InReach(a.cave, start, 8) {
      forall length: Word | length % 4 == 0 && 8 <= length <= 72 ensures Serves(a, start, end, length) {
        LongerIsInReach(a.cave, start, 8, length);
      }
    }
  }

  /** A text with such arenas around it, as a load lays them out. */
  ghost predicate Served(a: Arenas, start: nat, end: nat) {
    Around(a, start, end) && InReach(a.cave, start, 8) && end <= SPACE - 4
  }

  lemma {:induction false} ServedIsTextServed(a: Arenas, start: nat, end: nat)
    requires Served(a, start, end)
    ensures TextServed(a, start, end)
  {
    ServesCodeIff(a, start, end);
  }

  lemma {:induction false} LoadedIsServed(seg: Segment, patchBlock: Word, block: Word, a: Arenas, start: nat, end: nat)
    requires Layout(seg, patchBlock, block, a, start, end) && InReach(a.cave, start, 8)
    ensures Served(a, start, end)
  {
    UsualIsAround(seg, patchBlock, block);
    RoundUp(seg.TextEnd(), seg.Align());
  }

  /** For a function of a loaded segment that keeps its trampolines in reach, the scan has the meaning of the original. */
  lemma {:induction false} LoadedScanPreservesMeaning(seg: Segment, patchBlock: Word, block: Word, a: Arenas, start: nat, end: nat,
                                                      m: Memory, f: Function, d: Scan, s: Cpu, inst: Word)
    requires Layout(seg, patchBlock, block, a, start, end) && InReach(a.cave, start, 8) && a.WellFormed()
    requires start <= f.start && f.start % 4 == 0 && f.end <= end && f.end <= SPACE
    requires d == ScanFrom(m, a, f.start, f.end) && d.Done?
    requires f.start <= s.pc < f.end && s.pc % 4 == 0 && !s.thumb && inst == View(m).data(s.pc) && Repeats(s, inst)
    requires ReadsApart(a, d, s, LoadMultiple(BaseOf(inst), ListOf(inst)))
    ensures Run(View(d.mem), s, RunLength(inst)) == Step(View(m), s)
  {
    LoadedIsServed(seg, patchBlock, block, a, start, end);
    ServedScanMeans(m, a, start, end, f, d, s, inst);
  }

  lemma {:induction false} ServedScanMeans(m: Memory, a: Arenas, start: nat, end: nat, f: Function, d: Scan, s: Cpu, inst: Word)
    requires Served(a, start, end) && start <= f.start && f.start % 4 == 0 && f.end <= end
    requires d == ScanFrom(m, a, f.start, f.end) && d.Done?
    requires f.start <= s.pc < f.end && s.pc % 4 == 0 && !s.thumb && inst == View(m).data(s.pc) && Repeats(s, inst)
    requires ReadsApart(a, d, s, LoadMultiple(BaseOf(inst), ListOf(inst)))
    ensures Run(View(d.mem), s, RunLength(inst)) == Step(View(m), s)
  {
    ServedIsTextServed(a, start, end);
    ServesPart(a, start, end, f.start, f.end);
    ScanPreservesMeaning(m, a, f.start, f.end, s, inst);
  }

  /**
   However many functions of the text of such a segment are fixed, and in whatever order:
   exactly their accepted words are patched, and a run of the original code that reads no
   patched code and repeats at the patched sites has a run of the fixed code with the
   same end.
   */
  lemma {:induction false} LoadedFixPreservesRuns(seg: Segment, patchBlock: Word, block: Word, a: Arenas, start: nat, end: nat,
                                                  m: Memory, fs: seq<Function>, d: Scan, s: Cpu, n: nat) returns (k: nat)
    requires Layout(seg, patchBlock, block, a, start, end) && InReach(a.cave, start, 8) && a.WellFormed()
    requires InText(fs, start, end) && (forall i | 0 <= i < |fs| :: fs[i].end <= SPACE)
    requires d == ScanAll(m, a, fs, |fs|) && d.Done? && Run(View(m), s, n).Some?
    requires StaysGood(View(m), (u: Cpu) => Undisturbed(m, a, d, u), s, n)
    ensures Covers(m, fs, |fs|, d.sites)
    ensures k >= n && Run(View(d.mem), s, k) == Run(View(m), s, n)
  {
    LoadedIsServed(seg, patchBlock, block, a, start, end);
    k := ServedFixMeans(m, a, start, end, fs, d, s, n);
  }

  lemma {:induction false} ServedFixMeans(m: Memory, a: Arenas, start: nat, end: nat, fs: seq<Function>, d: Scan, s: Cpu, n: nat)
      returns (k: nat)
    requires Served(a, start, end) && InText(fs, start, end)
    requires d == ScanAll(m, a, fs, |fs|) && d.Done? && Run(View(m), s, n).Some?
    requires StaysGood(View(m), (u: Cpu) => Undisturbed(m, a, d, u), s, n)
    ensures Covers(m, fs, |fs|, d.sites)
    ensures k >= n && Run(View(d.mem), s, k) == Run(View(m), s, n)
  {
    ServedIsTextServed(a, start, end);
    FixedIsPatched(m, a, fs, |fs|, start, end);
    k := RunMeans(m, a, d, s, n);
  }

  /** The loaded segment keeps its trampolines in reach, and the functions lie in its text. */
  ghost predicate KeepsReach(seg: Segment, patchBlock: Word, block: Word, fs: seq<Function>) {
    && Usual(seg, patchBlock, block) && InReach(FreshArenas(seg, patchBlock, block).cave, block + seg.offset, 8)
    && InText(fs, block + seg.offset, block + seg.TextEnd())
  }

  lemma {:induction false} LoadedFixRewrites(seg: Segment, patchBlock: Word, block: Word, a: Arenas,
                                             m: Memory, fs: seq<Function>, mem: Memory) returns (b: Arenas)
    requires KeepsReach(seg, patchBlock, block, fs) && a == FreshArenas(seg, patchBlock, block) && a.WellFormed()
    requires (forall i | 0 <= i < |fs| :: fs[i].end <= SPACE) && ScanAll(m, a, fs, |fs|).Done?
    requires Same(mem, ScanAll(m, a, fs, |fs|).mem)
    ensures Grows(a, b) && Rewritten(m, a, mem, b, fs, |fs|)
  {
    var start, end := block + seg.offset, block + seg.TextEnd();
    LoadedIsServed(seg, patchBlock, block, a, start, end);
    ServedIsTextServed(a, start, end);
    var d := ScanAll(m, a, fs, |fs|);
    FixedIsRewritten(m, a, fs, |fs|, start, end, d);
    b := d.arenas;
  }

  /** The function of a symbol. */
  function FunctionOf(symbol: (Word, Word)): Function {
    Function(symbol.0, Wrap(symbol.0 + symbol.1))
  }

  function FunctionsOf(symbols: seq<(Word, Word)>): seq<Function> {
    seq(|symbols|, i requires 0 <= i < |symbols| => FunctionOf(symbols[i]))
  }

  /** Loading a segment and fixing some of its functions, given by address and size. */
  method LoadAndFix(m: Memory, seg: Segment, patchBlock: Word, block: Word, symbols: seq<(Word, Word)>)
      returns (ok: bool, mem: Memory)
    requires Loadable(seg, patchBlock, block)
    requires forall i | 0 <= i < |symbols| :: Terminates(symbols[i].0, FunctionOf(symbols[i]).end)
    ensures FreshArenas(seg, patchBlock, block).WellFormed()
    ensures var d := ScanAll(m, FreshArenas(seg, patchBlock, block), FunctionsOf(symbols), |symbols|);
      ok == d.Done? && (ok ==> mem == d.mem)
    ensures ok && KeepsReach(seg, patchBlock, block, FunctionsOf(symbols)) ==>
      exists b: Arenas :: Grows(FreshArenas(seg, patchBlock, block), b)
        && Rewritten(m, FreshArenas(seg, patchBlock, block), mem, b, FunctionsOf(symbols), |symbols|)
  {
    var mod := new Module(m, patchBlock, seg, block);
    ghost var a := mod.Arenas();
    ok := FixAll(mod, symbols, m, a);
    mem := mod.mem;
    if ok && KeepsReach(seg, patchBlock, block, FunctionsOf(symbols)) {
      ghost var b := LoadedFixRewrites(seg, patchBlock, block, a, m, FunctionsOf(symbols), mem);
    }
  }

  /** so_symbol_fix_ldmia on one symbol after another. */
  method FixAll(mod: Module, symbols: seq<(Word, Word)>, ghost m: Memory, ghost a: Arenas) returns (ok: bool)
    requires a.WellFormed() && a == mod.Arenas() && m == mod.mem
    requires forall i | 0 <= i < |symbols| :: Terminates(symbols[i].0, FunctionOf(symbols[i]).end)
    modifies mod`patchHead, mod`caveHead, mod`mem
    ensures ok ==> Stands(ScanAll(m, a, FunctionsOf(symbols), |symbols|), mod.mem, mod.Arenas())
    ensures !ok ==> ScanAll(m, a, FunctionsOf(symbols), |symbols|).Fatal?
  {
    var i := 0;
    while i < |symbols|
      invariant 0 <= i <= |symbols|
      invariant Stands(ScanAll(m, a, FunctionsOf(symbols), i), mod.mem, mod.Arenas())
    {
      ok := FixNext(mod, symbols, i, m, a);
      if !ok {
        return;
      }
      i := i + 1;
    }
    ok := true;
  }

  method FixNext(mod: Module, symbols: seq<(Word, Word)>, i: nat, ghost m: Memory, ghost a: Arenas) returns (ok: bool)
    requires a.WellFormed() && i < |symbols| && Terminates(symbols[i].0, FunctionOf(symbols[i]).end)
    requires Stands(ScanAll(m, a, FunctionsOf(symbols), i), mod.mem, mod.Arenas())
    modifies mod`patchHead, mod`caveHead, mod`mem
    ensures ok ==> Stands(ScanAll(m, a, FunctionsOf(symbols), i + 1), mod.mem, mod.Arenas())
    ensures !ok ==> ScanAll(m, a, FunctionsOf(symbols), |symbols|).Fatal?
  {
    ghost var fs := FunctionsOf(symbols);
    ghost var d := ScanAll(m, a, fs, i);
    ok := FixFunction(mod, symbols[i].0, symbols[i].1, d.mem, d.arenas);
    ScanAllStep(m, a, fs, i, d, ScanFrom(d.mem, d.arenas, fs[i].start, fs[i].end));
  }

  method FixFunction(mod: Module, address: Word, size: Word, ghost m: Memory, ghost a: Arenas) returns (ok: bool)
    requires a.WellFormed() && Terminates(address, FunctionOf((address, size)).end)
    requires Same(m, mod.mem) && Same(a, mod.Arenas())
    modifies mod`patchHead, mod`caveHead, mod`mem
    ensures var r := ScanFrom(m, a, address, FunctionOf((address, size)).end);
      ok == r.Done? && (ok ==> Stands(r, mod.mem, mod.Arenas()))
  {
    ok := mod.FixLdmia(address, size);
  }

  /** The fixing so far is done and has left this memory and these arenas. */
  ghost predicate Stands(d: Scan, mem: Memory, arenas: Arenas) {
    d.Done? && Same(d.mem, mem) && Same(d.arenas, arenas)
  }

  lemma {:induction false} ScanAllStep(m: Memory, a: Arenas, fs: seq<Function>, i: nat, d: Scan, r: Scan)
    requires a.WellFormed() && (forall k | 0 <= k < |fs| :: fs[k].end <= SPACE) && i < |fs|
    requires d == ScanAll(m, a, fs, i) && d.Done? && r == ScanFrom(d.mem, d.arenas, fs[i].start, fs[i].end)
    ensures if r.Done? then Stands(ScanAll(m, a, fs, i + 1), r.mem, r.arenas) else ScanAll(m, a, fs, |fs|).Fatal?
  {
    if r.Fatal? {
      FatalStays(m, a, fs, i + 1, |fs|);
    }
  }

  lemma {:induction false} FatalStays(m: Memory, a: Arenas, fs: seq<Function>, i: nat, n: nat)
    requires a.WellFormed() && (forall k | 0 <= k < |fs| :: fs[k].end <= SPACE) && i <= n <= |fs|
    requires ScanAll(m, a, fs, i).Fatal?
    ensures ScanAll(m, a, fs, n).Fatal?
  {
    if i < n {
      FatalStays(m, a, fs, i, n - 1);
    }
  }
}
