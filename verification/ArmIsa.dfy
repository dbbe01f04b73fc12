/**
 The part of the ARM instruction set that an LDMIA and its replacement use:
 B (A8.8.18 of DDI 0406C), LDR immediate and literal (A8.8.63, A8.8.64) and
 LDM/LDMIA (A8.8.58), all with condition AL, on a byte-addressed memory.
 None stands for UNPREDICTABLE, an instruction outside this subset, or Thumb state.
 */
module ArmIsa {
  import opened Words

  type Memory = m: seq<Byte> | |m| == 0x1_0000_0000 ghost witness seq(0x1_0000_0000, _ => 0)

  /** Little-endian word at any address: LDR supports unaligned accesses. */
  function ReadWord(m: Memory, a: Word): (w: Word)
  {
    m[a] as int + 0x100 * m[Wrap(a + 1)] as int + 0x1_0000 * m[Wrap(a + 2)] as int + 0x100_0000 * m[Wrap(a + 3)] as int
  }

  /** Little-endian store at any address. */
  function WriteWord(m: Memory, a: Word, w: Word): (r: Memory)
  {
    seq(SPACE, x requires 0 <= x < SPACE => if Covers(a, x) then Digit(w, Wrap(x - a)) else m[x])
  }

  /** The byte at x belongs to the word at a. */
  predicate Covers(a: Word, x: Word) {
    Wrap(x - a) < 4
  }

  /** Byte k of a word. */
  function Digit(w: Word, k: int): Byte
    requires 0 <= k < 4
  {
    if k == 0 then w % 0x100 else if k == 1 then w / 0x100 % 0x100 else if k == 2 then w / 0x1_0000 % 0x100 else w / 0x100_0000
  }

  lemma {:induction false} LittleEndian(w: Word)
    ensures w == w % 0x100 + 0x100 * (w / 0x100 % 0x100) + 0x1_0000 * (w / 0x1_0000 % 0x100) + 0x100_0000 * (w / 0x100_0000)
  {
    assert w / 0x1_0000 == w / 0x100 / 0x100 && w / 0x100_0000 == w / 0x1_0000 / 0x100;
  }

  /** A word is its four bytes, the least significant at its address. */
  lemma {:induction false} WordIsItsBytes(m: Memory, a: Word, w: Word)
    ensures ReadWord(m, a) == w <==>
      && m[a] == w % 0x100 && m[Wrap(a + 1)] == w / 0x100 % 0x100
      && m[Wrap(a + 2)] == w / 0x1_0000 % 0x100 && m[Wrap(a + 3)] == w / 0x100_0000
  {
    LittleEndian(w);
    DigitsOfSum(m[a], m[Wrap(a + 1)], m[Wrap(a + 2)], m[Wrap(a + 3)], ReadWord(m, a));
  }

  lemma {:induction false} DigitsOfSum(p: Byte, q: Byte, r: Byte, s: Byte, w: Word)
    requires w == p as int + 0x100 * q as int + 0x1_0000 * r as int + 0x100_0000 * s as int
    ensures p == w % 0x100 && q == w / 0x100 % 0x100 && r == w / 0x1_0000 % 0x100 && s == w / 0x100_0000
  {
    assert w / 0x100 == q + 0x100 * r as int + 0x1_0000 * s as int && w / 0x1_0000 == r + 0x100 * s as int;
  }

  lemma {:induction false} ReadOwnWrite(m: Memory, a: Word, w: Word)
    ensures ReadWord(WriteWord(m, a, w), a) == w
  {
    LittleEndian(w);
  }

  /** The words at two addresses share no byte, going round the address space either way. */
  predicate Apart(a: Word, b: Word) {
    Wrap(a - b) >= 4 && Wrap(b - a) >= 4
  }

  lemma {:induction false} WriteWordFrame(m: Memory, a: Word, w: Word, x: Word)
    requires !Covers(a, x)
    ensures WriteWord(m, a, w)[x] == m[x]
  {
  }

  lemma {:induction false} ApartCovers(a: Word, b: Word, k: nat)
    requires Apart(a, b) && k < 4
    ensures !Covers(a, Wrap(b + k))
  {
  }

  lemma {:induction false} ReadOtherWrite(m: Memory, a: Word, w: Word, b: Word)
    requires Apart(a, b)
    ensures ReadWord(WriteWord(m, a, w), b) == ReadWord(m, b)
  {
    ApartCovers(a, b, 0);
    ApartCovers(a, b, 1);
    ApartCovers(a, b, 2);
    ApartCovers(a, b, 3);
    WriteWordFrame(m, a, w, Wrap(b + 0));
    WriteWordFrame(m, a, w, Wrap(b + 1));
    WriteWordFrame(m, a, w, Wrap(b + 2));
    WriteWordFrame(m, a, w, Wrap(b + 3));
  }

  /** Copies consecutive words. */
  function WriteWords(m: Memory, a: Word, ws: seq<Word>): (r: Memory)
    requires a + 4 * |ws| <= SPACE
    decreases |ws|
  {
    if ws == [] then m
    else WriteWord(WriteWords(m, a, ws[..|ws| - 1]), a + 4 * (|ws| - 1), ws[|ws| - 1])
  }

  lemma {:induction false} WriteWordsFrame(m: Memory, a: Word, ws: seq<Word>, x: Word)
    requires a + 4 * |ws| <= SPACE
    requires !(a <= x < a + 4 * |ws|)
    ensures WriteWords(m, a, ws)[x] == m[x]
    decreases |ws|
  {
    if ws != [] {
      WriteWordsFrame(m, a, ws[..|ws| - 1], x);
      WriteWordFrame(WriteWords(m, a, ws[..|ws| - 1]), a + 4 * (|ws| - 1), ws[|ws| - 1], x);
    }
  }

  lemma {:induction false} ReadWrittenWords(m: Memory, a: Word, ws: seq<Word>, k: nat)
    requires a + 4 * |ws| <= SPACE && k < |ws|
    ensures ReadWord(WriteWords(m, a, ws), a + 4 * k) == ws[k]
    decreases |ws|
  {
    var n := |ws| - 1;
    if k < n {
      ReadWrittenWords(m, a, ws[..n], k);
      assert ws[..n][k] == ws[k];
    }
    ReadAfterNext(WriteWords(m, a, ws[..n]), a, n, ws[n], k, ws[k]);
  }

  lemma {:induction false} ReadAfterNext(before: Memory, a: Word, n: nat, w: Word, k: nat, v: Word)
    requires k <= n && a + 4 * n + 4 <= SPACE
    requires if k == n then v == w else ReadWord(before, a + 4 * k) == v
    ensures ReadWord(WriteWord(before, a + 4 * n, w), a + 4 * k) == v
  {
    if k == n {
      ReadOwnWrite(before, a + 4 * n, w);
    } else {
      ReadOtherWrite(before, a + 4 * n, w, a + 4 * k);
    }
  }

  // Instruction fields

  /** How many registers below i the list holds. */
  function Rank(mask: nat, i: nat): (r: nat)
    ensures r <= i
  {
    if i == 0 then 0 else Rank(mask, i - 1) + if Bit(mask, i - 1) then 1 else 0
  }

  type RegisterName = r: nat | r < 16

  datatype Instr =
    | Branch(offset: int)
    | Load(rt: RegisterName, rn: RegisterName, offset: int)
    | LoadMultiple(rn: RegisterName, mask: nat)
    | Other

  function SignExtend24(x: nat): int {
    if x < 0x80_0000 then x else x - 0x100_0000
  }

  function Decode(w: Word): Instr {
    if w / 0x100_0000 == 0xEA then Branch(SignExtend24(w % 0x100_0000))
    else if w / 0x10_0000 == 0xE59 then Load(w / 0x1000 % 16, w / 0x1_0000 % 16, w % 0x1000)
    else if w / 0x10_0000 == 0xE51 then Load(w / 0x1000 % 16, w / 0x1_0000 % 16, -(w % 0x1000))
    else if w / 0x10_0000 == 0xE89 then LoadMultiple(w / 0x1_0000 % 16, w % 0x1_0000)
    else Other
  }

  // Execution

  /** r0 to r14, the address of the current instruction, and the instruction set state. */
  datatype Cpu = Cpu(regs: Registers, pc: Word, thumb: bool)

  type Registers = s: seq<Word> | |s| == 15 witness seq(15, _ => 0)

  /** LoadWritePC: bit 0 of the loaded value selects Thumb; an ARM target must be word-aligned. */
  function LoadWritePC(regs: Registers, data: Word): Option<Cpu> {
    if data % 2 == 1 then Some(Cpu(regs, data - 1, true))
    else if data % 4 == 0 then Some(Cpu(regs, data, false))
    else None
  }

  /** Where LDMIA finds the value of register i. */
  function SlotAddress(base: Word, mask: nat, i: nat): Word {
    Wrap(base + 4 * Rank(mask, i))
  }

  /** Memory as the processor sees it: a word, or a decoded instruction, at each address. */
  datatype Machine = Machine(code: Word -> Instr, data: Reader)

  function View(m: Memory): Machine {
    Machine((a: Word) => Decode(ReadWord(m, a)), (a: Word) => ReadWord(m, a))
  }

  function ReadAt(f: Reader, a: Word): Word { f(a) }

  /** Where LDR reads; PC stands for the next instruction but one, on a word. */
  function LoadAddress(s: Cpu, rn: RegisterName, offset: int): Word {
    var base := if rn == 15 then Wrap(s.pc + 8) - Wrap(s.pc + 8) % 4 else s.regs[rn];
    Wrap(base + offset)
  }

  function ExecLoad(f: Reader, s: Cpu, rt: RegisterName, rn: RegisterName, offset: int): Option<Cpu> {
    var address := LoadAddress(s, rn, offset);
    if rt < 15 then Some(Cpu(s.regs[rt := f(address)], Wrap(s.pc + 4), false))
    else if address % 4 == 0 then LoadWritePC(s.regs, f(address))
    else None
  }

  /** The registers LDMIA leaves, PC apart. */
  function LoadedRegisters(f: Reader, regs: Registers, rn: nat, mask: nat): Registers
    requires rn < 15
  {
    seq(15, i requires 0 <= i < 15 => if Bit(mask, i) then ReadAt(f, SlotAddress(regs[rn], mask, i)) else regs[i])
  }

  /** LDMIA without write-back; the alignment fault it may raise is what the replacement avoids. */
  function ExecLoadMultiple(f: Reader, s: Cpu, rn: RegisterName, mask: nat): Option<Cpu> {
    if rn >= 15 || mask == 0 then None
    else if Bit(mask, 15) then
      LoadWritePC(LoadedRegisters(f, s.regs, rn, mask), f(SlotAddress(s.regs[rn], mask, 15)))
    else Some(Cpu(LoadedRegisters(f, s.regs, rn, mask), Wrap(s.pc + 4), false))
  }

  function Exec(f: Reader, s: Cpu, i: Instr): Option<Cpu> {
    match i
    case Branch(offset) => Some(Cpu(s.regs, Wrap(s.pc + 8 + 4 * offset), false))
    case Load(rt, rn, offset) => ExecLoad(f, s, rt, rn, offset)
    case LoadMultiple(rn, mask) => ExecLoadMultiple(f, s, rn, mask)
    case Other => None
  }

  function Step(m: Machine, s: Cpu): Option<Cpu> {
    if s.thumb then None else Exec(m.data, s, m.code(s.pc))
  }

  function Run(m: Machine, s: Cpu, n: nat): Option<Cpu>
    decreases n
  {
    if n == 0 then Some(s)
    else match Step(m, s)
      case None => None
      case Some(t) => Run(m, t, n - 1)
  }

  // Encoders

  /** The macro B(PC, DEST): a signed quotient, narrowed to 24 bits. */
  function BranchWord(pc: Word, dest: Word): Word {
    0xEA00_0000 + (TruncDiv(Signed(Wrap(dest - pc)), 4) - 2) % 0x100_0000
  }

  /** The macro LDR_OFFS(RT, RN, IMM) for a non-negative immediate. */
  function LoadWord(rt: RegisterName, rn: RegisterName, imm: nat): Word
    requires imm < 0x1000
  {
    0xE590_0000 + 0x1_0000 * rn + 0x1000 * rt + imm
  }

  /** LDR PC, [PC, #-4]: jump to the address stored in the next word. */
  const JUMP_WORD: Word := 0xE51F_F004

  lemma DecodeLoadWord(rt: RegisterName, rn: RegisterName, imm: nat)
    requires imm < 0x1000
    ensures Decode(LoadWord(rt, rn, imm)) == Load(rt, rn, imm)
  {
    var w := LoadWord(rt, rn, imm);
    assert w % 0x1000 == imm && w / 0x1000 == 0xE5900 + 0x10 * rn + rt;
    assert w / 0x1_0000 == 0xE590 + rn && w / 0x10_0000 == 0xE59 && w / 0x100_0000 == 0xE5;
    assert w / 0x1000 % 16 == rt && w / 0x1_0000 % 16 == rn;
  }

  /** The words that decode to LDMIA: bits 31 to 20 are 0xE89, then four bits name the base and sixteen the list. */
  lemma {:induction false} LdmEncoding(w: Word, rn: RegisterName, mask: nat)
    requires mask < 0x1_0000
    ensures Decode(w) == LoadMultiple(rn, mask) <==> w == 0xE890_0000 + 0x1_0000 * rn + mask
  {
    var top, list := w / 0x1_0000, w % 0x1_0000;
    assert w == 0x1_0000 * top + list && w / 0x10_0000 == top / 16 && w / 0x100_0000 == top / 256;
    assert top == 16 * (top / 16) + top % 16;
  }

  /** The first listed register is read at the base. */
  lemma {:induction false} FirstSlot(base: Word, mask: nat, i: nat)
    requires forall k | 0 <= k < i :: !Bit(mask, k)
    ensures SlotAddress(base, mask, i) == base
  {
    RankSkips(mask, 0, i);
  }

  /** Each other one is read a word after the one listed before it. */
  lemma {:induction false} NextSlot(base: Word, mask: nat, i: nat, j: nat)
    requires i < j && Bit(mask, i) && forall k | i < k < j :: !Bit(mask, k)
    ensures SlotAddress(base, mask, j) == Wrap(SlotAddress(base, mask, i) + 4)
  {
    RankSkips(mask, i + 1, j);
    NextWordUp(base, Rank(mask, i));
  }

  lemma {:induction false} NextWordUp(base: Word, n: nat)
    ensures Wrap(base + 4 * (n + 1)) == Wrap(Wrap(base + 4 * n) + 4)
  {
  }

  lemma {:induction false} RankSkips(mask: nat, i: nat, j: nat)
    requires i <= j && forall k | i <= k < j :: !Bit(mask, k)
    ensures Rank(mask, j) == Rank(mask, i)
  {
    if i < j {
      RankSkips(mask, i, j - 1);
    }
  }

  /** The assembler's word for a branch to itself, wherever it stands, stays there. */
  lemma {:induction false} BranchToItself(m: Machine, s: Cpu)
    requires m.code(s.pc) == Decode(0xEAFF_FFFE) && !s.thumb && s.pc % 4 == 0
    ensures BranchWord(s.pc, s.pc) == 0xEAFF_FFFE && Step(m, s) == Some(s)
  {
  }

  /** LDR r2, [r1, #4] as the assembler writes it loads r2 from the word after the one r1 points to. */
  lemma {:induction false} LoadOfTwo(m: Machine, s: Cpu)
    requires m.code(s.pc) == Decode(0xE591_2004) && !s.thumb
    ensures LoadWord(2, 1, 4) == 0xE591_2004
    ensures Step(m, s) == Some(Cpu(s.regs[2 := m.data(Wrap(s.regs[1] as int + 4))], Wrap(s.pc + 4), false))
  {
  }

  /** LDR PC, [PC, #-4] goes where the next word says, and into Thumb state if that is odd. */
  lemma {:induction false} JumpToNextWord(m: Machine, s: Cpu)
    requires m.code(s.pc) == Decode(0xE51F_F004) && !s.thumb && s.pc % 4 == 0
    ensures var to := m.data(Wrap(s.pc + 4));
      Step(m, s) ==
        if to % 2 == 1 then Some(Cpu(s.regs, to - 1, true)) else if to % 4 == 0 then Some(Cpu(s.regs, to, false)) else None
  {
    assert 0xE51F_F004 / 0x1000 % 16 == 15 && 0xE51F_F004 / 0x1_0000 % 16 == 15;
    assert Wrap(Wrap(s.pc + 8) - 4) == Wrap(s.pc + 4) && Wrap(s.pc + 8) % 4 == 0;
  }

  /** Executing BranchWord(pc, dest) at pc continues at dest. */
  predicate Reaches(pc: Word, dest: Word) {
    var i := Decode(BranchWord(pc, dest));
    i.Branch? && Wrap(pc + 8 + 4 * i.offset) == dest
  }

  /** The distance fits the signed 24-bit word offset of B. */
  predicate FitsBranch(pc: Word, dest: Word) {
    -0x80_0000 <= TruncDiv(Signed(Wrap(dest - pc)), 4) - 2 < 0x80_0000
  }

  /** A B word reaches its target exactly when the word offset fits 24 signed bits. */
  lemma BranchReachesIff(pc: Word, dest: Word)
    requires pc % 4 == 0 && dest % 4 == 0
    ensures Reaches(pc, dest) <==> FitsBranch(pc, dest)
  {
    var diff := Signed(Wrap(dest - pc));
    var words := TruncDiv(diff, 4) - 2;
    assert diff == 4 * (words + 2);
    var offset, lost := BranchField(words);
    assert Decode(BranchWord(pc, dest)) == Branch(offset);
    BranchTarget(pc, dest, offset, lost);
  }

  /** Narrowing a word offset to 24 bits loses a multiple of 2^24, which is zero exactly when it fits. */
  lemma BranchField(words: int) returns (offset: int, lost: int)
    requires -0x3000_0000 <= words < 0x3000_0000
    ensures Decode(0xEA00_0000 + words % 0x100_0000) == Branch(offset)
    ensures words == offset + 0x100_0000 * lost && -64 < lost < 64
    ensures lost == 0 <==> -0x80_0000 <= words < 0x80_0000
  {
    var field, k := words % 0x100_0000, words / 0x100_0000;
    var w := 0xEA00_0000 + field;
    assert w / 0x100_0000 == 0xEA && w % 0x100_0000 == field;
    offset := SignExtend24(field);
    lost := if field < 0x80_0000 then k else k + 1;
  }

  lemma BranchTarget(pc: Word, dest: Word, offset: int, lost: int)
    requires -64 < lost < 64
    requires Signed(Wrap(dest - pc)) == 4 * (offset + 0x100_0000 * lost + 2)
    ensures Wrap(pc + 8 + 4 * offset) == dest <==> lost == 0
  {
  }
}
