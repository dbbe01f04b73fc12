/**
 Replacing LDMIA instructions by a branch to a sequence of LDRs: the code that
 is emitted, and the proof that running it has the meaning of the LDMIA.
 */
module Trampoline {
  import opened Words
  import opened ArmIsa
  import opened Bitwise
  import opened CodeArena

  /** The test of the scan: LDMIA, condition AL, no write-back, base r0 to r12. */
  predicate Accepted(inst: Word) {
    inst / 0x10_0000 == 0xE89 && inst / 0x1_0000 % 16 < 13
  }

  function BaseOf(inst: Word): RegisterName { inst / 0x1_0000 % 16 }
  function ListOf(inst: Word): nat { inst % 0x1_0000 }

  /** The accepted words are those that decode to LDMIA with a base from r0 to r12. */
  lemma {:induction false} AcceptedIff(w: Word)
    ensures Accepted(w) <==> exists rn: RegisterName, mask: nat :: Decode(w) == LoadMultiple(rn, mask) && rn < 13
    ensures Accepted(w) ==> Decode(w) == LoadMultiple(BaseOf(w), ListOf(w)) && BaseOf(w) < 13
  {
    assert w / 0x10_0000 == 0xE89 ==> w / 0x100_0000 == 0xE8;
  }

  /** The list holds the base and PC; the base is then loaded after control has left. */
  predicate BaseLoadIsLost(inst: Word) {
    Bit(ListOf(inst), BaseOf(inst)) && Bit(ListOf(inst), 15)
  }

  /** The listed registers below n other than the base, ascending. */
  function EarlyLoads(mask: nat, rn: nat, n: nat): seq<RegisterName>
    requires n <= 16
  {
    if n == 0 then []
    else EarlyLoads(mask, rn, n - 1) + if Bit(mask, n - 1) && n - 1 != rn then [n - 1] else []
  }

  /** The base is loaded last. */
  function LoadOrder(inst: Word): seq<RegisterName> {
    EarlyLoads(ListOf(inst), BaseOf(inst), 16) + if Bit(ListOf(inst), BaseOf(inst)) then [BaseOf(inst)] else []
  }

  lemma {:induction false} EarlyLoadsMembers(mask: nat, rn: nat, n: nat)
    requires n <= 16
    ensures forall i: RegisterName :: i in EarlyLoads(mask, rn, n) <==> i < n && i != rn && Bit(mask, i)
  {
    if n != 0 {
      EarlyLoadsMembers(mask, rn, n - 1);
    }
  }

  function Offset(inst: Word, r: RegisterName): (offset: nat)
    ensures offset < 64
  {
    4 * Rank(ListOf(inst), r)
  }

  /** The loads, then a jump to the instruction after the LDMIA. */
  function TrampolineWords(site: Word, inst: Word): seq<Word> {
    LoadWords(inst, LoadOrder(inst)) + [JUMP_WORD, Wrap(site + 4)]
  }

  function LoadWords(inst: Word, order: seq<RegisterName>): seq<Word>
  {
    seq(|order|, k requires 0 <= k < |order| => LoadWord(order[k], BaseOf(inst), Offset(inst, order[k])))
  }

  lemma {:induction false} EarlyLoadsLength(mask: nat, rn: nat, n: nat)
    requires n <= 16
    ensures |EarlyLoads(mask, rn, n)| + (if rn < n && Bit(mask, rn) then 1 else 0) == Rank(mask, n)
  {
    if n != 0 {
      EarlyLoadsLength(mask, rn, n - 1);
    }
  }

  /** At most 18 of the 20 words of the buffer are used. */
  lemma TrampolineFitsBuffer(site: Word, inst: Word)
    ensures |TrampolineWords(site, inst)| == Rank(ListOf(inst), 16) + 2 <= 18
  {
    EarlyLoadsLength(ListOf(inst), BaseOf(inst), 16);
  }

  // What running the emitted code does

  /** The branch and the emitted words are in memory. */
  ghost predicate Installed(f: Reader, inst: Word, site: Word, target: Word) {
    var words := TrampolineWords(site, inst);
    && site % 4 == 0 && target % 4 == 0 && target + 4 * |words| <= SPACE
    && Reaches(site, target) && f(site) == BranchWord(site, target)
    && forall k | 0 <= k < |words| :: f(target + 4 * k) == words[k]
  }

  // A sequence of loads from one base register, followed by a jump

  /** Loads into the registers of order, register r from offset(r) above the value of rn. */
  datatype Plan = Plan(rn: RegisterName, order: seq<RegisterName>, offset: RegisterName -> int)

  ghost predicate LoadsAt(m: Machine, p: Plan, target: Word) {
    && target + 4 * |p.order| < SPACE
    && forall k | 0 <= k < |p.order| :: m.code(target + 4 * k) == Load(p.order[k], p.rn, p.offset(p.order[k]))
  }

  /** The code of a plan at target, reached by a branch from site and leaving to the word after site. */
  ghost predicate Decodes(m: Machine, p: Plan, site: Word, target: Word) {
    && p.rn < 15 && site % 4 == 0 && target % 4 == 0 && target + 4 * (|p.order| + 2) <= SPACE
    && m.code(site).Branch? && Wrap(site + 8 + 4 * m.code(site).offset) == target
    && LoadsAt(m, p, target)
    && m.code(target + 4 * |p.order|) == Load(15, 15, -4)
    && m.data(target + 4 * (|p.order| + 1)) == Wrap(site + 4)
  }

  function Loaded(f: Reader, regs: Registers, p: Plan, done: seq<RegisterName>): Registers
    requires p.rn < 15
  {
    seq(15, i requires 0 <= i < 15 => if i in done then ReadAt(f, Wrap(regs[p.rn] + p.offset(i))) else regs[i])
  }

  lemma ExecutesLoad(f: Reader, regs: Registers, p: Plan, done: seq<RegisterName>, r: RegisterName, pc: Word)
    requires p.rn < 15 && r < 15 && p.rn !in done && pc + 4 < SPACE
    ensures ExecLoad(f, Cpu(Loaded(f, regs, p, done), pc, false), r, p.rn, p.offset(r))
         == Some(Cpu(Loaded(f, regs, p, done + [r]), pc + 4, false))
  {
    var before := Loaded(f, regs, p, done);
    assert before[p.rn] == regs[p.rn];
    assert before[r := f(Wrap(regs[p.rn] + p.offset(r)))] == Loaded(f, regs, p, done + [r]);
  }

  /** The first k loads do not load PC, and only the last may load the base. */
  ghost predicate RunsThrough(p: Plan, k: nat) {
    && k <= |p.order|
    && (forall i | 0 <= i < k :: p.order[i] != 15)
    && (forall i | 0 <= i < k - 1 :: p.order[i] != p.rn)
  }

  /** The state after the first k loads. */
  ghost function AfterLoads(m: Machine, regs: Registers, p: Plan, target: Word, k: nat): Cpu
    requires k <= |p.order| && target + 4 * k < SPACE && p.rn < 15
  {
    Cpu(Loaded(m.data, regs, p, p.order[..k]), target + 4 * k, false)
  }

  lemma NextLoad(m: Machine, regs: Registers, p: Plan, target: Word, k: nat)
    requires p.rn < 15 && LoadsAt(m, p, target) && RunsThrough(p, k + 1)
    ensures Step(m, AfterLoads(m, regs, p, target, k)) == Some(AfterLoads(m, regs, p, target, k + 1))
  {
    ExecutesLoad(m.data, regs, p, p.order[..k], p.order[k], target + 4 * k);
    assert p.order[..k + 1] == p.order[..k] + [p.order[k]];
  }

  lemma {:induction false} RunLoads(m: Machine, regs: Registers, p: Plan, target: Word, k: nat, rest: nat)
    requires p.rn < 15 && LoadsAt(m, p, target) && RunsThrough(p, k)
    ensures Run(m, Cpu(regs, target, false), k + rest) == Run(m, AfterLoads(m, regs, p, target, k), rest)
    decreases k
  {
    if k == 0 {
      assert Loaded(m.data, regs, p, []) == regs;
    } else {
      RunLoads(m, regs, p, target, k - 1, rest + 1);
      NextLoad(m, regs, p, target, k - 1);
      RunStep(m, AfterLoads(m, regs, p, target, k - 1), rest);
    }
  }

  lemma RunStep(m: Machine, s: Cpu, rest: nat)
    ensures Step(m, s).Some? ==> Run(m, s, rest + 1) == Run(m, Step(m, s).value, rest)
    ensures Run(m, s, 1) == Step(m, s)
  {
  }

  lemma {:induction false} RunToJump(m: Machine, s: Cpu, p: Plan, site: Word, target: Word, k: nat)
    requires Decodes(m, p, site, target) && RunsThrough(p, k)
    requires s.pc == site && !s.thumb
    ensures Run(m, s, k + 2)
         == Exec(m.data, Cpu(Loaded(m.data, s.regs, p, p.order[..k]), target + 4 * k, false), m.code(target + 4 * k))
  {
    RunStep(m, s, k + 1);
    RunLoads(m, s.regs, p, target, k, 1);
    RunStep(m, Cpu(Loaded(m.data, s.regs, p, p.order[..k]), target + 4 * k, false), 0);
  }

  /** A plan that loads no PC runs to its end and continues after the site. */
  lemma RunToEnd(m: Machine, s: Cpu, p: Plan, site: Word, target: Word)
    requires Decodes(m, p, site, target) && RunsThrough(p, |p.order|)
    requires s.pc == site && !s.thumb
    ensures Run(m, s, |p.order| + 2) == Some(Cpu(Loaded(m.data, s.regs, p, p.order), Wrap(site + 4), false))
  {
    RunToJump(m, s, p, site, target, |p.order|);
    assert p.order[..|p.order|] == p.order;
    ClosingJump(m, Loaded(m.data, s.regs, p, p.order), p, site, target);
  }

  lemma ClosingJump(m: Machine, regs: Registers, p: Plan, site: Word, target: Word)
    requires Decodes(m, p, site, target)
    ensures Exec(m.data, Cpu(regs, target + 4 * |p.order|, false), m.code(target + 4 * |p.order|))
         == Some(Cpu(regs, Wrap(site + 4), false))
  {
    var pc := target + 4 * |p.order|;
    assert pc + 4 == target + 4 * (|p.order| + 1);
    LiteralJump(m.data, regs, pc, Wrap(site + 4));
  }

  lemma LiteralJump(f: Reader, regs: Registers, pc: Word, next: Word)
    requires pc % 4 == 0 && pc + 8 <= SPACE && f(pc + 4) == next && next % 4 == 0
    ensures ExecLoad(f, Cpu(regs, pc, false), 15, 15, -4) == Some(Cpu(regs, next, false))
  {
  }

  /** A plan that loads PC at position k leaves there; the later loads do not run. */
  lemma RunToLoadedPc(m: Machine, s: Cpu, p: Plan, site: Word, target: Word, k: nat)
    requires Decodes(m, p, site, target) && RunsThrough(p, k)
    requires k < |p.order| && p.order[k] == 15 && p.rn !in p.order[..k]
    requires s.pc == site && !s.thumb && (s.regs[p.rn] + p.offset(15)) % 4 == 0
    ensures Run(m, s, k + 2)
         == LoadWritePC(Loaded(m.data, s.regs, p, p.order[..k]), m.data(Wrap(s.regs[p.rn] + p.offset(15))))
  {
    RunToJump(m, s, p, site, target, k);
    var regs := Loaded(m.data, s.regs, p, p.order[..k]);
    assert regs[p.rn] == s.regs[p.rn];
    PcLoad(m.data, regs, p.rn, p.offset(15), target + 4 * k);
  }

  lemma {:induction false} PcLoad(f: Reader, regs: Registers, rn: RegisterName, offset: int, pc: Word)
    requires rn < 15 && (regs[rn] + offset) % 4 == 0
    ensures ExecLoad(f, Cpu(regs, pc, false), 15, rn, offset) == LoadWritePC(regs, f(Wrap(regs[rn] + offset)))
  {
    var x := regs[rn] + offset;
    WrapKeepsAlignment(x);
  }

  // The trampoline of an LDMIA

  function PlanOf(inst: Word): Plan {
    Plan(BaseOf(inst), LoadOrder(inst), (r: RegisterName) => Offset(inst, r))
  }

  lemma WordsOfPlan(site: Word, inst: Word)
    requires Accepted(inst)
    ensures var p, words := PlanOf(inst), TrampolineWords(site, inst);
      && p.rn < 15 && |words| == |p.order| + 2
      && (forall k | 0 <= k < |p.order| :: Decode(words[k]) == Load(p.order[k], p.rn, p.offset(p.order[k])))
      && words[|p.order|] == JUMP_WORD && words[|p.order| + 1] == Wrap(site + 4)
  {
    var p, words := PlanOf(inst), TrampolineWords(site, inst);
    forall k | 0 <= k < |p.order|
      ensures Decode(words[k]) == Load(p.order[k], p.rn, p.offset(p.order[k]))
    {
      assert words[k] == LoadWords(inst, p.order)[k];
      DecodeLoadWord(p.order[k], BaseOf(inst), Offset(inst, p.order[k]));
    }
  }

  lemma InstalledDecodes(m: Machine, inst: Word, site: Word, target: Word)
    requires forall a :: m.code(a) == Decode(m.data(a))
    requires Accepted(inst) && Installed(m.data, inst, site, target)
    ensures Decodes(m, PlanOf(inst), site, target)
  {
    WordsOfPlan(site, inst);
    WordsDecode(m, PlanOf(inst), TrampolineWords(site, inst), site, target);
  }

  lemma {:induction false} WordsDecode(m: Machine, p: Plan, words: seq<Word>, site: Word, target: Word)
    requires forall a :: m.code(a) == Decode(m.data(a))
    requires p.rn < 15 && |words| == |p.order| + 2
    requires forall k | 0 <= k < |p.order| :: Decode(words[k]) == Load(p.order[k], p.rn, p.offset(p.order[k]))
    requires words[|p.order|] == JUMP_WORD && words[|p.order| + 1] == Wrap(site + 4)
    requires site % 4 == 0 && target % 4 == 0 && target + 4 * |words| <= SPACE
    requires Reaches(site, target) && m.data(site) == BranchWord(site, target)
    requires forall k | 0 <= k < |words| :: m.data(target + 4 * k) == words[k]
    ensures Decodes(m, p, site, target)
  {
    var n := |p.order|;
    assert m.data(target + 4 * n) == words[n] && m.data(target + 4 * (n + 1)) == words[n + 1];
    assert m.code(target + 4 * n) == Decode(words[n]) == Load(15, 15, -4);
    assert m.code(site) == Decode(BranchWord(site, target));
    forall k | 0 <= k < n
      ensures m.code(target + 4 * k) == Load(p.order[k], p.rn, p.offset(p.order[k]))
    {
      assert m.data(target + 4 * k) == words[k];
    }
  }

  /** The loads that run before control leaves the trampoline: all, or those before PC. */
  function LoadsRun(inst: Word): nat {
    if Bit(ListOf(inst), 15) then |EarlyLoads(ListOf(inst), BaseOf(inst), 15)| else |LoadOrder(inst)|
  }

  /** The branch, the loads, and the instruction that loads PC. */
  function RunLength(inst: Word): nat {
    LoadsRun(inst) + 2
  }

  /** The plan loads the registers of mask from where LDMIA finds them. */
  ghost predicate Follows(p: Plan, mask: nat) {
    && p.rn < 15
    && (forall i: RegisterName :: i in p.order <==> Bit(mask, i))
    && (forall i: RegisterName :: p.offset(i) == 4 * Rank(mask, i))
  }

  /** The first k loads leave the trampoline complete, or end before the load of PC. */
  ghost predicate LeavesAfter(p: Plan, mask: nat, k: nat) {
    && RunsThrough(p, k) && Follows(p, mask)
    && if Bit(mask, 15) then
         && k < |p.order| && p.order[k] == 15
         && forall i: RegisterName | i < 15 :: i in p.order[..k] <==> i != p.rn && Bit(mask, i)
       else
         k == |p.order| && p.order[..k] == p.order
  }

  lemma OrderBeforeJump(inst: Word)
    requires Accepted(inst)
    ensures LeavesAfter(PlanOf(inst), ListOf(inst), LoadsRun(inst))
  {
    var mask, rn := ListOf(inst), BaseOf(inst);
    var order, below := LoadOrder(inst), EarlyLoads(mask, rn, 15);
    EarlyLoadsMembers(mask, rn, 15);
    EarlyLoadsMembers(mask, rn, 16);
    assert order == below + (if Bit(mask, 15) then [15] else []) + (if Bit(mask, rn) then [rn] else []);
    assert order[..|below|] == below;
    forall i | 0 <= i < |below| ensures order[i] != rn && order[i] != 15 {
      assert order[i] == below[i] && below[i] in below;
    }
  }

  /**
   The trampoline means the LDMIA: same registers, same next instruction.
   PC must be loaded from an aligned address, as both instructions demand.
   */
  lemma {:induction false} TrampolineMeansLdmia(m: Machine, s: Cpu, inst: Word, site: Word, target: Word)
    requires Accepted(inst) && ListOf(inst) != 0 && Decodes(m, PlanOf(inst), site, target)
    requires s.pc == site && !s.thumb
    requires Bit(ListOf(inst), 15) ==> s.regs[BaseOf(inst)] % 4 == 0
    requires !BaseLoadIsLost(inst)
    ensures Run(m, s, RunLength(inst)) == ExecLoadMultiple(m.data, s, BaseOf(inst), ListOf(inst))
  {
    var p := PlanOf(inst);
    assert p.rn == BaseOf(inst) && RunLength(inst) == LoadsRun(inst) + 2;
    OrderBeforeJump(inst);
    PlanMeansLdmia(m, s, p, ListOf(inst), site, target, LoadsRun(inst));
  }

  lemma {:induction false} PlanMeansLdmia(m: Machine, s: Cpu, p: Plan, mask: nat, site: Word, target: Word, k: nat)
    requires Decodes(m, p, site, target) && LeavesAfter(p, mask, k) && mask != 0
    requires s.pc == site && !s.thumb
    requires Bit(mask, 15) ==> s.regs[p.rn] % 4 == 0 && !Bit(mask, p.rn)
    ensures Run(m, s, k + 2) == ExecLoadMultiple(m.data, s, p.rn, mask)
  {
    if Bit(mask, 15) {
      SameRegisters(m.data, s.regs, p, mask, p.order[..k]);
      PlanWithPc(m, s, p, mask, site, target, k);
    } else {
      SameRegisters(m.data, s.regs, p, mask, p.order);
      RunToEnd(m, s, p, site, target);
    }
  }

  lemma {:induction false} PlanWithPc(m: Machine, s: Cpu, p: Plan, mask: nat, site: Word, target: Word, k: nat)
    requires Decodes(m, p, site, target) && Follows(p, mask)
    requires RunsThrough(p, k) && s.pc == site && !s.thumb
    requires k < |p.order| && p.order[k] == 15 && s.regs[p.rn] % 4 == 0 && p.rn !in p.order[..k]
    ensures Run(m, s, k + 2)
         == LoadWritePC(Loaded(m.data, s.regs, p, p.order[..k]), m.data(SlotAddress(s.regs[p.rn], mask, 15)))
  {
    assert p.offset(15) == 4 * Rank(mask, 15);
    RunToLoadedPc(m, s, p, site, target, k);
  }

  lemma SameRegisters(f: Reader, regs: Registers, p: Plan, mask: nat, done: seq<RegisterName>)
    requires Follows(p, mask)
    requires forall i: RegisterName | i < 15 :: i in done <==> Bit(mask, i)
    ensures Loaded(f, regs, p, done) == LoadedRegisters(f, regs, p.rn, mask)
  {
  }

  /**
   When the list holds the base and PC, the base keeps its old value: the result
   is LDMIA's only for a state in which LDMIA would not change the base.
   */
  lemma {:induction false} LostBaseLoad(m: Machine, s: Cpu, inst: Word, site: Word, target: Word)
    requires Accepted(inst) && BaseLoadIsLost(inst) && Decodes(m, PlanOf(inst), site, target)
    requires s.pc == site && !s.thumb && s.regs[BaseOf(inst)] % 4 == 0
    requires ListOf(inst) != 0 && LoadWritePC(s.regs, m.data(SlotAddress(s.regs[BaseOf(inst)], ListOf(inst), 15))).Some?
    ensures Run(m, s, RunLength(inst)) == ExecLoadMultiple(m.data, s, BaseOf(inst), ListOf(inst))
       <==> m.data(SlotAddress(s.regs[BaseOf(inst)], ListOf(inst), BaseOf(inst))) == s.regs[BaseOf(inst)]
  {
    var p := PlanOf(inst);
    assert p.rn == BaseOf(inst) && RunLength(inst) == LoadsRun(inst) + 2;
    OrderBeforeJump(inst);
    PlanLosesBase(m, s, p, ListOf(inst), site, target, LoadsRun(inst));
  }

  lemma {:induction false} PlanLosesBase(m: Machine, s: Cpu, p: Plan, mask: nat, site: Word, target: Word, k: nat)
    requires Decodes(m, p, site, target) && LeavesAfter(p, mask, k) && mask != 0
    requires s.pc == site && !s.thumb && s.regs[p.rn] % 4 == 0
    requires Bit(mask, 15) && Bit(mask, p.rn)
    requires LoadWritePC(s.regs, m.data(SlotAddress(s.regs[p.rn], mask, 15))).Some?
    ensures Run(m, s, k + 2) == ExecLoadMultiple(m.data, s, p.rn, mask)
       <==> m.data(SlotAddress(s.regs[p.rn], mask, p.rn)) == s.regs[p.rn]
  {
    PlanWithPc(m, s, p, mask, site, target, k);
    AllButBase(m.data, s.regs, p, mask, p.order[..k]);
  }

  lemma AllButBase(f: Reader, regs: Registers, p: Plan, mask: nat, done: seq<RegisterName>)
    requires Follows(p, mask) && Bit(mask, p.rn)
    requires forall i: RegisterName | i < 15 :: i in done <==> i != p.rn && Bit(mask, i)
    ensures Loaded(f, regs, p, done) == LoadedRegisters(f, regs, p.rn, mask)
       <==> f(SlotAddress(regs[p.rn], mask, p.rn)) == regs[p.rn]
  {
    var early, full := Loaded(f, regs, p, done), LoadedRegisters(f, regs, p.rn, mask);
    assert early[p.rn] == regs[p.rn] && full[p.rn] == f(SlotAddress(regs[p.rn], mask, p.rn));
    assert forall i | 0 <= i < 15 && i != p.rn :: early[i] == full[i];
  }

  /** LDMIA r0, {r0, pc} */
  const LOSING_WORD: Word := 0xE890_8001

  lemma {:induction false} LosingWord()
    ensures Accepted(LOSING_WORD) && BaseLoadIsLost(LOSING_WORD)
    ensures BaseOf(LOSING_WORD) == 0 && ListOf(LOSING_WORD) == 0x8001
    ensures SlotAddress(0xA000, 0x8001, 0) == 0xA000 <= SlotAddress(0xA000, 0x8001, 15)
  {
    Powers();
    TopBit(0x8001, 15);
  }

  /** The leading one of a number. */
  lemma {:induction false} TopBit(x: nat, i: nat)
    requires Pow2(i) <= x < 2 * Pow2(i)
    ensures Bit(x, i)
  {
    if i > 0 {
      TopBit(x / 2, i - 1);
    }
  }

  /** A branch at 0x8000, words from 0x9000 on, and 0xB000 everywhere else. */
  function MemoryWith(branch: Word, words: seq<Word>): Reader {
    (a: Word) =>
      if a == 0x8000 then branch
      else if 0x9000 <= a < 0x9000 + 4 * |words| && a % 4 == 0 then words[(a - 0x9000) / 4]
      else 0xB000
  }

  lemma {:induction false} MemoryHolds(branch: Word, words: seq<Word>)
    requires |words| <= 18
    ensures MemoryWith(branch, words)(0x8000) == branch
    ensures forall k | 0 <= k < |words| :: MemoryWith(branch, words)(0x9000 + 4 * k) == words[k]
    ensures forall a: Word | 0xA000 <= a :: MemoryWith(branch, words)(a) == 0xB000
  {
    forall k | 0 <= k < |words| ensures MemoryWith(branch, words)(0x9000 + 4 * k) == words[k] {
      assert (0x9000 + 4 * k - 0x9000) / 4 == k;
    }
  }

  /** That word replaced at 0x8000 by a trampoline at 0x9000. */
  function LosingMemory(): Reader {
    MemoryWith(BranchWord(0x8000, 0x9000), TrampolineWords(0x8000, LOSING_WORD))
  }

  lemma {:induction false} LosingMemoryHolds()
    ensures Installed(LosingMemory(), LOSING_WORD, 0x8000, 0x9000)
    ensures forall a: Word | 0xA000 <= a :: LosingMemory()(a) == 0xB000
  {
    TrampolineFitsBuffer(0x8000, LOSING_WORD);
    BranchReachesIff(0x8000, 0x9000);
    MemoryHolds(BranchWord(0x8000, 0x9000), TrampolineWords(0x8000, LOSING_WORD));
  }

  /** A machine that decodes what it reads. */
  function Reading(f: Reader): Machine {
    Machine((a: Word) => Decode(f(a)), f)
  }

  /** There the trampoline does not do what the LDMIA does: r0 keeps 0xA000 instead of getting 0xB000. */
  lemma {:induction false} LostBaseExample(regs: Registers)
    requires regs[0] == 0xA000
    ensures Installed(LosingMemory(), LOSING_WORD, 0x8000, 0x9000)
    ensures Run(Reading(LosingMemory()), Cpu(regs, 0x8000, false), RunLength(LOSING_WORD))
         != ExecLoadMultiple(LosingMemory(), Cpu(regs, 0x8000, false), BaseOf(LOSING_WORD), ListOf(LOSING_WORD))
  {
    LosingMemoryHolds();
    LostBaseIn(LosingMemory(), regs);
  }

  lemma {:induction false} LostBaseIn(f: Reader, regs: Registers)
    requires Installed(f, LOSING_WORD, 0x8000, 0x9000) && forall a: Word | 0xA000 <= a :: f(a) == 0xB000
    requires regs[0] == 0xA000
    ensures Run(Reading(f), Cpu(regs, 0x8000, false), RunLength(LOSING_WORD))
         != ExecLoadMultiple(f, Cpu(regs, 0x8000, false), BaseOf(LOSING_WORD), ListOf(LOSING_WORD))
  {
    LosingWord();
    InstalledDecodes(Reading(f), LOSING_WORD, 0x8000, 0x9000);
    LostBaseAt(Reading(f), Cpu(regs, 0x8000, false), LOSING_WORD, 0x8000, 0x9000, SlotAddress(0xA000, 0x8001, 15));
  }

  lemma {:induction false} LostBaseAt(m: Machine, s: Cpu, inst: Word, site: Word, target: Word, slot: Word)
    requires Accepted(inst) && BaseLoadIsLost(inst) && ListOf(inst) != 0 && Decodes(m, PlanOf(inst), site, target)
    requires s.pc == site && !s.thumb && s.regs[BaseOf(inst)] % 4 == 0
    requires slot == SlotAddress(s.regs[BaseOf(inst)], ListOf(inst), 15) && m.data(slot) % 4 == 0
    requires m.data(SlotAddress(s.regs[BaseOf(inst)], ListOf(inst), BaseOf(inst))) != s.regs[BaseOf(inst)]
    ensures Run(m, s, RunLength(inst)) != ExecLoadMultiple(m.data, s, BaseOf(inst), ListOf(inst))
  {
    LostBaseLoad(m, s, inst, site, target);
  }
}
