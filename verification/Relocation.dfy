/**
 Relocating a loaded image in place: the REL tables, the packed RELR table, and the
 binding of imports. Memory is the whole address space; an entry may name any address,
 aligned or not, and its word is read and written byte by byte.
 */
module Relocation {
  import opened Words
  import opened Passes
  import opened Sequences
  import opened ArmIsa
  import opened Bitwise

  // Words that share no byte

  lemma {:induction false} WritesCommute(m: Memory, a: Word, w: Word, b: Word, v: Word)
    requires Apart(a, b)
    ensures WriteWord(WriteWord(m, a, w), b, v) == WriteWord(WriteWord(m, b, v), a, w)
  {
  }

  lemma {:induction false} LastWriteStays(m: Memory, a: Word, w: Word, v: Word)
    ensures WriteWord(WriteWord(m, a, w), a, v) == WriteWord(m, a, v)
  {
  }

  /** A word determines its bytes. */
  lemma {:induction false} SameWordSameByte(m: Memory, n: Memory, a: Word, x: Word)
    requires ReadWord(m, a) == ReadWord(n, a) && Covers(a, x)
    ensures m[x] == n[x]
  {
    assert x == Wrap(a + 0) || x == Wrap(a + 1) || x == Wrap(a + 2) || x == Wrap(a + 3);
    SameDigits(m[a], m[Wrap(a + 1)], m[Wrap(a + 2)], m[Wrap(a + 3)], n[a], n[Wrap(a + 1)], n[Wrap(a + 2)], n[Wrap(a + 3)]);
  }

  lemma {:induction false} SameDigits(a: Byte, b: Byte, c: Byte, d: Byte, e: Byte, f: Byte, g: Byte, h: Byte)
    requires a as int + 0x100 * b as int + 0x1_0000 * c as int + 0x100_0000 * d as int
          == e as int + 0x100 * f as int + 0x1_0000 * g as int + 0x100_0000 * h as int
    ensures a == e && b == f && c == g && d == h
  {
    var high, higher := b + 0x100 * c + 0x1_0000 * d, c + 0x100 * d;
    SameLowDigit(a, high, e, f + 0x100 * g + 0x1_0000 * h);
    SameLowDigit(b, higher, f, g + 0x100 * h);
    SameLowDigit(c, d, g, h);
  }

  lemma {:induction false} SameLowDigit(a: Byte, x: int, e: Byte, y: int)
    requires a + 0x100 * x == e + 0x100 * y
    ensures a == e && x == y
  {
  }

  lemma {:induction false} RewriteSame(m: Memory, a: Word)
    ensures WriteWord(m, a, ReadWord(m, a)) == m
  {
    Digits(m[a], m[Wrap(a + 1)], m[Wrap(a + 2)], m[Wrap(a + 3)]);
  }

  lemma {:induction false} Digits(a: Byte, b: Byte, c: Byte, d: Byte)
    ensures var w := a as int + 0x100 * b as int + 0x1_0000 * c as int + 0x100_0000 * d as int;
      w % 0x100 == a && w / 0x100 % 0x100 == b && w / 0x1_0000 % 0x100 == c && w / 0x100_0000 == d
  {
    var w := a as int + 0x100 * b as int + 0x1_0000 * c as int + 0x100_0000 * d as int;
    LittleEndian(w);
    SameDigits(a, b, c, d, w % 0x100, w / 0x100 % 0x100, w / 0x1_0000 % 0x100, w / 0x100_0000);
  }

  // Patches: what a pass does to single words

  datatype Patch = Patch(at: Word, effect: Word -> Word)

  function ApplyOne(m: Memory, p: Patch): Memory {
    WriteWord(m, p.at, p.effect(ReadWord(m, p.at)))
  }

  /** The memory after the first n patches in order. */
  function Apply(m: Memory, ps: seq<Patch>, n: nat): Memory
    requires n <= |ps|
  {
    Fold(ApplyOne, m, ps, n)
  }

  function WordAt(k: Word): Memory -> Word { (m: Memory) => ReadWord(m, k) }
  function ByteAt(x: Word): Memory -> Byte { (m: Memory) => m[x] }

  lemma {:induction false} OwnWordMade(p: Patch)
    ensures Makes(ApplyOne, p, WordAt(p.at), p.effect)
  {
    forall m: Memory ensures WordAt(p.at)(ApplyOne(m, p)) == p.effect(WordAt(p.at)(m)) {
      ReadOwnWrite(m, p.at, p.effect(ReadWord(m, p.at)));
    }
  }

  lemma {:induction false} OtherWordKept(p: Patch, k: Word)
    requires Apart(p.at, k)
    ensures Keeps(ApplyOne, p, WordAt(k))
  {
    forall m: Memory ensures WordAt(k)(ApplyOne(m, p)) == WordAt(k)(m) {
      ReadOtherWrite(m, p.at, p.effect(ReadWord(m, p.at)), k);
    }
  }

  lemma {:induction false} OtherByteKept(p: Patch, x: Word)
    requires !Covers(p.at, x)
    ensures Keeps(ApplyOne, p, ByteAt(x))
  {
    forall m: Memory ensures ByteAt(x)(ApplyOne(m, p)) == ByteAt(x)(m) {
      WriteWordFrame(m, p.at, p.effect(ReadWord(m, p.at)), x);
    }
  }

  lemma {:induction false} ApartSymmetric(a: Word, b: Word)
    ensures Apart(a, b) <==> Apart(b, a)
  {
  }

  ghost predicate PairwiseApart(ps: seq<Patch>) {
    forall i, j | 0 <= i < j < |ps| :: Apart(ps[i].at, ps[j].at)
  }

  /** When no two of its words share a byte, each patch acts on the original word. */
  lemma {:induction false} ApplyPointwise(m: Memory, ps: seq<Patch>, n: nat, i: nat)
    requires PairwiseApart(ps) && i < n <= |ps|
    ensures ReadWord(Apply(m, ps, n), ps[i].at) == ps[i].effect(ReadWord(m, ps[i].at))
  {
    OwnWordMade(ps[i]);
    forall j | 0 <= j < n && j != i ensures Keeps(ApplyOne, ps[j], WordAt(ps[i].at)) {
      ApartSymmetric(ps[i].at, ps[j].at);
      OtherWordKept(ps[j], ps[i].at);
    }
    PassMakes(ApplyOne, m, ps, n, WordAt(ps[i].at), i, ps[i].effect);
  }

  /** A word apart from every patched one keeps its value. */
  lemma {:induction false} OtherWordStays(m: Memory, ps: seq<Patch>, n: nat, k: Word)
    requires n <= |ps| && forall i | 0 <= i < n :: Apart(ps[i].at, k)
    ensures ReadWord(Apply(m, ps, n), k) == ReadWord(m, k)
  {
    forall i | 0 <= i < n ensures Keeps(ApplyOne, ps[i], WordAt(k)) {
      OtherWordKept(ps[i], k);
    }
    PassKeeps(ApplyOne, m, ps, n, WordAt(k));
  }

  /** A byte that no patched word covers keeps its value. */
  lemma {:induction false} OtherByteStays(m: Memory, ps: seq<Patch>, n: nat, x: Word)
    requires n <= |ps| && forall i | 0 <= i < n :: !Covers(ps[i].at, x)
    ensures Apply(m, ps, n)[x] == m[x]
  {
    forall i | 0 <= i < n ensures Keeps(ApplyOne, ps[i], ByteAt(x)) {
      OtherByteKept(ps[i], x);
    }
    PassKeeps(ApplyOne, m, ps, n, ByteAt(x));
  }

  /** Two patches may be applied in either order. */
  ghost predicate Commute(p: Patch, q: Patch) {
    Apart(p.at, q.at) || (p.at == q.at && forall w: Word :: p.effect(q.effect(w)) == q.effect(p.effect(w)))
  }

  lemma {:induction false} TwoCommute(m: Memory, p: Patch, q: Patch)
    requires Commute(p, q)
    ensures ApplyOne(ApplyOne(m, p), q) == ApplyOne(ApplyOne(m, q), p)
  {
    var w, v := ReadWord(m, p.at), ReadWord(m, q.at);
    if Apart(p.at, q.at) {
      ApartSymmetric(p.at, q.at);
      ReadOtherWrite(m, p.at, p.effect(w), q.at);
      ReadOtherWrite(m, q.at, q.effect(v), p.at);
      WritesCommute(m, p.at, p.effect(w), q.at, q.effect(v));
    } else {
      ReadOwnWrite(m, p.at, p.effect(w));
      ReadOwnWrite(m, p.at, q.effect(w));
      LastWriteStays(m, p.at, p.effect(w), q.effect(p.effect(w)));
      LastWriteStays(m, p.at, q.effect(w), p.effect(q.effect(w)));
    }
  }

  lemma {:induction false} PatchesSwap(p: Patch, q: Patch)
    requires Commute(p, q)
    ensures Swap(ApplyOne, p, ApplyOne, q)
  {
    forall m: Memory ensures ApplyOne(ApplyOne(m, p), q) == ApplyOne(ApplyOne(m, q), p) {
      TwoCommute(m, p, q);
    }
  }

  // The tables of a module

  const R_ARM_NONE: int := 0
  const R_ARM_ABS32: int := 2
  const R_ARM_GLOB_DAT: int := 21
  const R_ARM_JUMP_SLOT: int := 22
  const R_ARM_RELATIVE: int := 23

  const NO_SYMBOL: Symbol := Symbol("", 0, false)

  datatype Symbol = Symbol(name: string, value: Word, defined: bool)
  datatype Rel = Rel(offset: Word, info: Word)
  datatype Import = Import(symbol: string, func: Word)

  datatype Tables = Tables(textBase: Word, dynsym: seq<Symbol>, reldyn: seq<Rel>, relplt: seq<Rel>, relr: seq<Word>) {
    function Count(): nat { |reldyn| + |relplt| }

    function Entry(i: nat): Rel
      requires i < Count()
    {
      if i < |reldyn| then reldyn[i] else relplt[i - |reldyn|]
    }

    /** ELF32_R_TYPE: the low byte. */
    function Type(i: nat): int
      requires i < Count()
    {
      Entry(i).info % 0x100
    }

    /** The address of an entry's word. */
    function Address(i: nat): Word
      requires i < Count()
    {
      Wrap(textBase + Entry(i).offset)
    }

    /** The symbol index of an import names a symbol of the module. */
    predicate HasSymbol(i: nat)
      requires i < Count()
    {
      IsImport(Type(i)) ==> Entry(i).info / 0x100 < |dynsym|
    }

    predicate WellFormed() {
      forall i | 0 <= i < Count() :: HasSymbol(i)
    }

    /** The symbol of an entry, by ELF32_R_SYM; only imports look at theirs. */
    function Sym(i: nat): Symbol
      requires i < Count() && HasSymbol(i)
    {
      if IsImport(Type(i)) then dynsym[Entry(i).info / 0x100] else NO_SYMBOL
    }

    /** What the RELR table denotes. */
    function Packed(): Relr { Denoted(textBase, relr, 0) }
  }

  /** A loaded module: its soname and what symbol lookup in it answers (0 for no symbol). */
  datatype Loaded = Loaded(soname: string, exports: string -> Word)

  /** The first export of a symbol by a loaded module of the given soname, other than module self; 0 if there is none. */
  function Exported(loaded: seq<Loaded>, self: int, soname: string, symbol: string): Word {
    if loaded == [] then 0
    else if self != 0 && loaded[0].soname == soname && loaded[0].exports(symbol) != 0 then loaded[0].exports(symbol)
    else Exported(loaded[1..], self - 1, soname, symbol)
  }

  /** The first export found when the needed sonames are tried in order. */
  function LinkedExport(needed: seq<string>, loaded: seq<Loaded>, self: int, symbol: string): Word {
    if needed == [] then 0
    else if Exported(loaded, self, needed[0], symbol) != 0 then Exported(loaded, self, needed[0], symbol)
    else LinkedExport(needed[1..], loaded, self, symbol)
  }

  /** Module c is not the module itself, it is needed, and it exports the symbol at the given address. */
  predicate Offers(needed: seq<string>, loaded: seq<Loaded>, self: int, symbol: string, d: nat, c: nat)
    requires d < |needed| && c < |loaded|
  {
    c != self && loaded[c].soname == needed[d] && loaded[c].exports(symbol) != 0
  }

  lemma {:induction false} ExportedIsFirst(loaded: seq<Loaded>, self: int, soname: string, symbol: string) returns (c: nat)
    ensures c <= |loaded|
    ensures forall k | 0 <= k < c :: !Offers([soname], loaded, self, symbol, 0, k)
    ensures c < |loaded| ==>
      Offers([soname], loaded, self, symbol, 0, c) && Exported(loaded, self, soname, symbol) == loaded[c].exports(symbol)
    ensures c == |loaded| ==> Exported(loaded, self, soname, symbol) == 0
    decreases |loaded|
  {
    if loaded == [] || Offers([soname], loaded, self, symbol, 0, 0) {
      c := 0;
    } else {
      var rest := loaded[1..];
      var e := ExportedIsFirst(rest, self - 1, soname, symbol);
      c := e + 1;
      forall k | 0 <= k < c ensures !Offers([soname], loaded, self, symbol, 0, k) {
        assert k > 0 ==> !Offers([soname], rest, self - 1, symbol, 0, k - 1);
      }
    }
  }

  /** The link is the address given by the least offering pair of needed name and module; 0 if no pair offers. */
  lemma {:induction false} LinkIsFirstOffer(needed: seq<string>, loaded: seq<Loaded>, self: int, symbol: string)
      returns (d: nat, c: nat)
    ensures d <= |needed|
    ensures forall i, k | 0 <= i < d && 0 <= k < |loaded| :: !Offers(needed, loaded, self, symbol, i, k)
    ensures d < |needed| ==>
      && c < |loaded| && Offers(needed, loaded, self, symbol, d, c)
      && (forall k | 0 <= k < c :: !Offers(needed, loaded, self, symbol, d, k))
      && LinkedExport(needed, loaded, self, symbol) == loaded[c].exports(symbol) != 0
    ensures d == |needed| ==> LinkedExport(needed, loaded, self, symbol) == 0
    decreases |needed|
  {
    if needed == [] {
      d, c := 0, 0;
      return;
    }
    c := ExportedIsFirst(loaded, self, needed[0], symbol);
    forall k | 0 <= k < c ensures !Offers(needed, loaded, self, symbol, 0, k) {
      assert !Offers([needed[0]], loaded, self, symbol, 0, k);
    }
    if c < |loaded| {
      assert Offers([needed[0]], loaded, self, symbol, 0, c);
      d := 0;
    } else {
      var rest := needed[1..];
      var e, f := LinkIsFirstOffer(rest, loaded, self, symbol);
      d, c := e + 1, f;
      forall i, k | 0 <= i < d && 0 <= k < |loaded| ensures !Offers(needed, loaded, self, symbol, i, k) {
        assert i > 0 ==> !Offers(rest, loaded, self, symbol, i - 1, k);
      }
      if d < |needed| {
        assert Offers(rest, loaded, self, symbol, e, f);
        forall k | 0 <= k < c ensures !Offers(needed, loaded, self, symbol, d, k) {
          assert !Offers(rest, loaded, self, symbol, e, k);
        }
      }
    }
  }

  /** Where imports come from: the loaded modules the module needs, the table, and the stub of last resort. */
  datatype Imports = Imports(
    table: seq<Import>, tableOnly: bool, needed: seq<string>, loaded: seq<Loaded>, self: int, stub: Word)
  {
    function Link(name: string): Word { if tableOnly then 0 else LinkedExport(needed, loaded, self, name) }
  }

  /** The position of the first table entry for a name, |table| if there is none. */
  function FirstMatch(table: seq<Import>, name: string): (j: nat)
    ensures j <= |table|
    ensures j < |table| ==> table[j].symbol == name
    ensures forall i | 0 <= i < j :: table[i].symbol != name
  {
    if table == [] || table[0].symbol == name then 0
    else
      var j := FirstMatch(table[1..], name);
      assert forall i | 1 <= i < j + 1 :: table[i] == table[1..][i - 1];
      1 + j
  }

  predicate IsImport(t: int) { t == R_ARM_ABS32 || t == R_ARM_GLOB_DAT || t == R_ARM_JUMP_SLOT }
  predicate Known(t: int) { t == R_ARM_NONE || t == R_ARM_RELATIVE || IsImport(t) }

  /** What so_relocate makes of the word of an entry. */
  function Relocated(base: Word, t: int, sym: Symbol, w: Word): Word {
    if t == R_ARM_RELATIVE then Wrap(w + base)
    else if !IsImport(t) || !sym.defined then w
    else if t == R_ARM_ABS32 then Wrap(w + base + sym.value)
    else Wrap(base + sym.value)
  }

  /** What so_resolve makes of it. */
  function Resolved(imports: Imports, t: int, sym: Symbol, w: Word): Word {
    var j, link := FirstMatch(imports.table, sym.name), imports.Link(sym.name);
    if !IsImport(t) || sym.defined then w
    else if j < |imports.table| then imports.table[j].func
    else if link != 0 then (if t == R_ARM_ABS32 then Wrap(w + link) else link)
    else if t == R_ARM_JUMP_SLOT then imports.stub
    else w
  }

  function RelPatch(m: Tables, i: nat): Patch
    requires i < m.Count() && m.HasSymbol(i)
  {
    Patch(m.Address(i), (w: Word) => Relocated(m.textBase, m.Type(i), m.Sym(i), w))
  }

  function RelPatches(m: Tables): seq<Patch>
    requires m.WellFormed()
  {
    seq(m.Count(), i requires 0 <= i < m.Count() => RelPatch(m, i))
  }

  function ResolvePatch(m: Tables, imports: Imports, i: nat): Patch
    requires i < m.Count() && m.HasSymbol(i)
  {
    Patch(m.Address(i), (w: Word) => Resolved(imports, m.Type(i), m.Sym(i), w))
  }

  function ResolvePatches(m: Tables, imports: Imports): seq<Patch>
    requires m.WellFormed()
  {
    seq(m.Count(), i requires 0 <= i < m.Count() => ResolvePatch(m, imports, i))
  }

  // The packed table, as the System V gABI defines SHT_RELR

  /** The addresses a table denotes, in order; ok is false when a bitmap is met while the cursor is null. */
  datatype Relr = Relr(slots: seq<Word>, ok: bool)

  /** The words a bitmap covers from where on: bit b stands for the word b - 1 words further. */
  function Bitmap(entry: Word, where: Word, bits: nat): seq<Word> {
    if bits <= 1 then []
    else Bitmap(entry, where, bits - 1) + if Bit(entry, bits - 1) then [Wrap(where + 4 * (bits - 2))] else []
  }

  /** What the entries denote when the cursor is at where. */
  function Denoted(base: Word, entries: seq<Word>, where: Word): Relr {
    if entries == [] then Relr([], true)
    else if !Bit(entries[0], 0) then
      var at := Wrap(base + entries[0]);
      var rest := Denoted(base, entries[1..], Wrap(at + 4));
      Relr([at] + rest.slots, rest.ok)
    else if where == 0 then Relr([], false)
    else
      var rest := Denoted(base, entries[1..], Wrap(where + 124));
      Relr(Bitmap(entries[0], where, 32) + rest.slots, rest.ok)
  }

  /** How far an address is from where on, going up round the address space. */
  function Distance(where: Word): Word -> Word {
    (s: Word) => Wrap(s - where)
  }

  predicate IncreasingBy(f: Word -> Word, slots: seq<Word>) {
    forall i, j | 0 <= i < j < |slots| :: f(slots[i]) < f(slots[j])
  }

  /** The slots come in increasing order of distance. */
  predicate IncreasingFrom(where: Word, slots: seq<Word>) {
    IncreasingBy(Distance(where), slots)
  }

  lemma {:induction false} BitmapMember(entry: Word, where: Word, bits: nat, s: Word)
    requires bits <= 32
    ensures s in Bitmap(entry, where, bits) <==> Selects(entry, Wrap(s - where), bits)
  {
    if bits > 1 {
      BitmapMember(entry, where, bits - 1, s);
      AtDistance(where, 4 * (bits - 2), s);
      SelectsOneMore(entry, Wrap(s - where), bits - 1);
    }
  }

  lemma {:induction false} BitmapIncreases(entry: Word, where: Word, bits: nat)
    requires bits <= 32
    ensures IncreasingFrom(where, Bitmap(entry, where, bits))
  {
    if bits > 1 {
      var before := Bitmap(entry, where, bits - 1);
      BitmapIncreases(entry, where, bits - 1);
      if Bit(entry, bits - 1) {
        forall s | s in before ensures Distance(where)(s) < Distance(where)(Wrap(where + 4 * (bits - 2))) {
          LastIsFarthest(entry, where, bits - 1, s);
        }
        IncreasingSnoc(Distance(where), before, Wrap(where + 4 * (bits - 2)));
      }
    }
  }

  lemma {:induction false} LastIsFarthest(entry: Word, where: Word, bits: nat, s: Word)
    requires 1 <= bits < 32 && s in Bitmap(entry, where, bits)
    ensures Distance(where)(s) < Distance(where)(Wrap(where + 4 * (bits - 1)))
  {
    BitmapMember(entry, where, bits, s);
    SelectsOneMore(entry, Wrap(s - where), bits);
    AtDistance(where, 4 * (bits - 1), Wrap(where + 4 * (bits - 1)));
  }

  lemma {:induction false} IncreasingSnoc(f: Word -> Word, before: seq<Word>, last: Word)
    requires IncreasingBy(f, before) && forall s | s in before :: f(s) < f(last)
    ensures IncreasingBy(f, before + [last])
  {
    forall i | 0 <= i < |before| ensures f(before[i]) < f(last) {
      assert before[i] in before;
    }
  }

  /** A bitmap denotes exactly the words whose bits are set, each once and in increasing order. */
  lemma {:induction false} BitmapMembers(entry: Word, where: Word, bits: nat)
    requires bits <= 32
    ensures forall s: Word :: s in Bitmap(entry, where, bits) <==> Selects(entry, Wrap(s - where), bits)
    ensures IncreasingFrom(where, Bitmap(entry, where, bits))
  {
    forall s: Word ensures s in Bitmap(entry, where, bits) <==> Selects(entry, Wrap(s - where), bits) {
      BitmapMember(entry, where, bits, s);
    }
    BitmapIncreases(entry, where, bits);
  }

  lemma {:induction false} AtDistance(where: Word, distance: Word, s: Word)
    ensures Wrap(s - where) == distance <==> s == Wrap(where + distance)
  {
  }

  lemma {:induction false} SelectsOneMore(entry: Word, distance: Word, bits: nat)
    requires bits >= 1
    ensures Selects(entry, distance, bits + 1) <==>
      Selects(entry, distance, bits) || (distance == 4 * (bits - 1) && Bit(entry, bits))
    ensures Selects(entry, distance, bits) ==> distance < 4 * (bits - 1)
  {
  }

  /** A bit below bits of the map stands for the word at that distance. */
  predicate Selects(entry: Word, distance: Word, bits: nat) {
    distance % 4 == 0 && distance / 4 + 1 < bits && Bit(entry, distance / 4 + 1)
  }

  /** Short of the end of the address space, a table fails exactly when its first entry is a bitmap, and then denotes nothing. */
  lemma {:induction false} UsableIff(base: Word, entries: seq<Word>)
    requires forall i | 0 <= i < |entries| && !Bit(entries[i], 0) :: Wrap(base + entries[i]) + 4 + 124 * |entries| < SPACE
    ensures Denoted(base, entries, 0).ok <==> entries == [] || !Bit(entries[0], 0)
    ensures !Denoted(base, entries, 0).ok ==> Denoted(base, entries, 0).slots == []
  {
    if entries != [] && !Bit(entries[0], 0) {
      CursorStays(base, entries[1..], Wrap(Wrap(base + entries[0]) + 4), |entries|);
    }
  }

  lemma {:induction false} CursorStays(base: Word, entries: seq<Word>, where: Word, n: nat)
    requires |entries| <= n && 0 < where && where + 124 * |entries| < SPACE
    requires forall i | 0 <= i < |entries| && !Bit(entries[i], 0) :: Wrap(base + entries[i]) + 4 + 124 * n < SPACE
    ensures Denoted(base, entries, where).ok
    decreases |entries|
  {
    if entries != [] {
      var next := if Bit(entries[0], 0) then Wrap(where + 124) else Wrap(Wrap(base + entries[0]) + 4);
      CursorStays(base, entries[1..], next, n);
    }
  }

  // Where the bitmaps of a whole table begin

  /** The index of the last address entry among the first i, -1 if they are all bitmaps. */
  function LastAddress(entries: seq<Word>, i: nat): (j: int)
    requires i <= |entries|
    ensures -1 <= j < i && (j >= 0 ==> !Bit(entries[j], 0)) && forall k | j < k < i :: Bit(entries[k], 0)
  {
    if i == 0 then -1 else if !Bit(entries[i - 1], 0) then i - 1 else LastAddress(entries, i - 1)
  }

  /** The word that many words after an address of the module. */
  function WordAfter(base: Word, address: Word, words: int): Word {
    Wrap(base + address + 4 * words)
  }

  /** The word a bitmap at index i begins with: the one after the last address, and 31 more for each bitmap between. */
  function Cursor(base: Word, entries: seq<Word>, i: nat): Word
    requires i <= |entries|
  {
    var j := LastAddress(entries, i);
    if j < 0 then 0 else WordAfter(base, entries[j], 31 * (i - 1 - j) + 1)
  }

  /** A bitmap that begins nowhere ends the pass. */
  predicate Stuck(base: Word, entries: seq<Word>, i: nat)
    requires i < |entries|
  {
    Bit(entries[i], 0) && Cursor(base, entries, i) == 0
  }

  /** The slots of one entry. */
  function EntrySlots(base: Word, entries: seq<Word>, i: nat): seq<Word>
    requires i < |entries|
  {
    if Bit(entries[i], 0) then Bitmap(entries[i], Cursor(base, entries, i), 32) else [Wrap(base + entries[i])]
  }

  /** The pass goes through the first n entries and no further. */
  predicate RunsTo(base: Word, entries: seq<Word>, n: nat)
    requires n <= |entries|
  {
    (forall i | 0 <= i < n :: !Stuck(base, entries, i)) && (n == |entries| || Stuck(base, entries, n))
  }

  function SlotsFrom(base: Word, entries: seq<Word>, i: nat, n: nat): seq<seq<Word>>
    requires i <= n <= |entries|
  {
    seq(n - i, k requires 0 <= k < n - i => EntrySlots(base, entries, i + k))
  }

  /** A table denotes the slots of its entries one after the other, and fails exactly at the first bitmap that begins nowhere. */
  lemma {:induction false} TableIsItsEntries(base: Word, entries: seq<Word>, n: nat)
    requires n <= |entries| && RunsTo(base, entries, n)
    ensures Denoted(base, entries, 0).ok <==> n == |entries|
    ensures Denoted(base, entries, 0).slots == Flatten(SlotsFrom(base, entries, 0, n))
  {
    assert entries[0..] == entries;
    RestIsItsEntries(base, entries, 0, n);
  }

  lemma {:induction false} RestIsItsEntries(base: Word, entries: seq<Word>, i: nat, n: nat)
    requires i <= n <= |entries| && RunsTo(base, entries, n)
    ensures Denoted(base, entries[i..], Cursor(base, entries, i)).ok <==> n == |entries|
    ensures Denoted(base, entries[i..], Cursor(base, entries, i)).slots == Flatten(SlotsFrom(base, entries, i, n))
    decreases n - i
  {
    if i < n {
      RestIsItsEntries(base, entries, i + 1, n);
      EntryThenRest(base, entries, i, SlotsFrom(base, entries, i + 1, n));
      SlotsSplit(base, entries, i, n);
    } else {
      NoMoreSlots(base, entries, n);
    }
  }

  lemma {:induction false} NoMoreSlots(base: Word, entries: seq<Word>, n: nat)
    requires n <= |entries| && (n == |entries| || Stuck(base, entries, n))
    ensures Denoted(base, entries[n..], Cursor(base, entries, n)) == Relr([], n == |entries|)
    ensures SlotsFrom(base, entries, n, n) == []
  {
  }

  lemma {:induction false} SlotsSplit(base: Word, entries: seq<Word>, i: nat, n: nat)
    requires i < n <= |entries|
    ensures SlotsFrom(base, entries, i, n) == [EntrySlots(base, entries, i)] + SlotsFrom(base, entries, i + 1, n)
  {
  }

  lemma {:induction false} EntryThenRest(base: Word, entries: seq<Word>, i: nat, rest: seq<seq<Word>>)
    requires i < |entries| && !Stuck(base, entries, i)
    requires Denoted(base, entries[i + 1..], Cursor(base, entries, i + 1)).slots == Flatten(rest)
    ensures Denoted(base, entries[i..], Cursor(base, entries, i))
         == Relr(Flatten([EntrySlots(base, entries, i)] + rest), Denoted(base, entries[i + 1..], Cursor(base, entries, i + 1)).ok)
  {
    assert entries[i..][1..] == entries[i + 1..];
    CursorMoves(base, entries, i);
    EntryFirst(base, entries[i..], Cursor(base, entries, i), Cursor(base, entries, i + 1), EntrySlots(base, entries, i), rest);
  }

  lemma {:induction false} EntryFirst(base: Word, entries: seq<Word>, where: Word, next: Word, slots: seq<Word>, rest: seq<seq<Word>>)
    requires entries != [] && !(Bit(entries[0], 0) && where == 0)
    requires next == if Bit(entries[0], 0) then Wrap(where + 124) else Wrap(Wrap(base + entries[0]) + 4)
    requires slots == if Bit(entries[0], 0) then Bitmap(entries[0], where, 32) else [Wrap(base + entries[0])]
    requires Denoted(base, entries[1..], next).slots == Flatten(rest)
    ensures Denoted(base, entries, where) == Relr(Flatten([slots] + rest), Denoted(base, entries[1..], next).ok)
  {
    assert ([slots] + rest)[1..] == rest;
  }

  lemma {:induction false} CursorMoves(base: Word, entries: seq<Word>, i: nat)
    requires i < |entries| && !Stuck(base, entries, i)
    ensures Cursor(base, entries, i + 1)
         == if Bit(entries[i], 0) then Wrap(Cursor(base, entries, i) + 124) else Wrap(Wrap(base + entries[i]) + 4)
  {
    var j := LastAddress(entries, i);
    if Bit(entries[i], 0) {
      WordsOn(base, entries[j], 31 * (i - 1 - j) + 1, 31);
    } else {
      WordsOn(base, entries[i], 0, 1);
    }
  }

  lemma {:induction false} WordsOn(base: Word, address: Word, words: int, more: int)
    ensures Wrap(WordAfter(base, address, words) + 4 * more) == WordAfter(base, address, words + more)
  {
    WrapOnce(base + address + 4 * words, 4 * more);
  }

  lemma {:induction false} WrapOnce(x: int, y: int)
    ensures Wrap(Wrap(x) + y) == Wrap(x + y)
  {
  }

  /** One of the bits 1 to 31 of a bitmap marks s, bit b the word that many words further on. */
  ghost predicate Marks(entry: Word, base: Word, address: Word, words: int, s: Word) {
    exists b | 1 <= b <= 31 :: Bit(entry, b) && s == WordAfter(base, address, words + b)
  }

  /** Entry i names the word at s: its own address, or with one of its bits 1 to 31 that many words after the cursor's. */
  ghost predicate Names(base: Word, entries: seq<Word>, i: nat, s: Word)
    requires i < |entries|
  {
    if Bit(entries[i], 0) then
      var j := LastAddress(entries, i);
      j >= 0 && Marks(entries[i], base, entries[j], 31 * (i - 1 - j), s)
    else s == Wrap(base + entries[i])
  }

  /** The slots of a table are the words its entries name. */
  lemma {:induction false} SlotIff(base: Word, entries: seq<Word>, n: nat, s: Word)
    requires n <= |entries| && RunsTo(base, entries, n)
    ensures s in Denoted(base, entries, 0).slots <==> exists i | 0 <= i < n :: Names(base, entries, i, s)
  {
    var parts := SlotsFrom(base, entries, 0, n);
    TableIsItsEntries(base, entries, n);
    FlattenMember(parts, s);
    forall i | 0 <= i < n ensures s in parts[i] <==> Names(base, entries, i, s) {
      assert !Stuck(base, entries, i);
      EntryNames(base, entries, i, s);
    }
  }

  lemma {:induction false} EntryNames(base: Word, entries: seq<Word>, i: nat, s: Word)
    requires i < |entries| && !Stuck(base, entries, i)
    ensures s in EntrySlots(base, entries, i) <==> Names(base, entries, i, s)
  {
    if Bit(entries[i], 0) {
      var j := LastAddress(entries, i);
      BitmapNames(entries[i], base, entries[j], 31 * (i - 1 - j), s);
    }
  }

  lemma {:induction false} BitmapNames(entry: Word, base: Word, address: Word, words: int, s: Word)
    ensures s in Bitmap(entry, WordAfter(base, address, words + 1), 32) <==> Marks(entry, base, address, words, s)
  {
    var where := WordAfter(base, address, words + 1);
    BitmapMember(entry, where, 32, s);
    if Selects(entry, Wrap(s - where), 32) {
      SelectedIsMarked(entry, base, address, words, s, Wrap(s - where) / 4 + 1);
    }
    if Marks(entry, base, address, words, s) {
      var b :| 1 <= b <= 31 && Bit(entry, b) && s == WordAfter(base, address, words + b);
      BitDistance(base, address, words, b, s);
      assert 4 * (b - 1) / 4 + 1 == b;
    }
  }

  lemma {:induction false} SelectedIsMarked(entry: Word, base: Word, address: Word, words: int, s: Word, b: nat)
    requires 1 <= b <= 31 && Bit(entry, b) && Wrap(s - WordAfter(base, address, words + 1)) == 4 * (b - 1)
    ensures Marks(entry, base, address, words, s)
  {
    BitDistance(base, address, words, b, s);
  }

  lemma {:induction false} BitDistance(base: Word, address: Word, words: int, b: nat, s: Word)
    requires 1 <= b <= 31
    ensures Wrap(s - WordAfter(base, address, words + 1)) == 4 * (b - 1) <==> s == WordAfter(base, address, words + b)
  {
    WordsOn(base, address, words + 1, b - 1);
    AtDistance(WordAfter(base, address, words + 1), 4 * (b - 1), s);
  }

  /** Two bitmaps in a row: the second begins 31 words after the first. */
  lemma {:induction false} SecondBitmap()
    ensures Denoted(0x9800_0000, [0x100, 3, 3], 0).slots == [0x9800_0100, 0x9800_0104, 0x9800_0180]
  {
    OnlyBitOne(0x9800_0104, 32);
    OnlyBitOne(0x9800_0180, 32);
    assert [0x100, 3, 3][1..] == [3, 3] && [3, 3][1..] == [3] && [3][1..] == [];
  }

  lemma {:induction false} OnlyBitOne(where: Word, bits: nat)
    requires 2 <= bits
    ensures Bitmap(3, where, bits) == [where]
  {
    if bits > 2 {
      OnlyBitOne(where, bits - 1);
      ZeroHasNoBits(bits - 3);
      assert Bit(3, bits - 1) == Bit(1, bits - 2) == Bit(0, bits - 3);
    }
  }

  /** In an aligned table every slot is aligned, so two slots are the same or apart. */
  lemma {:induction false} AlignedSlots(base: Word, entries: seq<Word>, where: Word)
    requires base % 4 == 0 && where % 4 == 0
    requires forall i | 0 <= i < |entries| && !Bit(entries[i], 0) :: entries[i] % 4 == 0
    ensures AllAligned(Denoted(base, entries, where).slots)
    decreases |entries|
  {
    if entries != [] {
      if !Bit(entries[0], 0) {
        WrapKeepsAlignment(base + entries[0]);
        WrapKeepsAlignment(Wrap(base + entries[0]) + 4);
        AlignedSlots(base, entries[1..], Wrap(Wrap(base + entries[0]) + 4));
      } else if where != 0 {
        AlignedBitmap(entries[0], where, 32);
        WrapKeepsAlignment(where + 124);
        AlignedSlots(base, entries[1..], Wrap(where + 124));
      }
    }
  }

  predicate AllAligned(slots: seq<Word>) {
    forall i | 0 <= i < |slots| :: slots[i] % 4 == 0
  }

  lemma {:induction false} AlignedBitmap(entry: Word, where: Word, bits: nat)
    requires where % 4 == 0 && bits <= 32
    ensures AllAligned(Bitmap(entry, where, bits))
  {
    if bits > 1 {
      WrapKeepsAlignment(where + 4 * (bits - 2));
      AlignedBitmap(entry, where, bits - 1);
    }
  }

  lemma {:induction false} AlignedAreApart(a: Word, b: Word)
    requires a % 4 == 0 && b % 4 == 0
    ensures a == b || Apart(a, b)
  {
  }

  lemma {:induction false} AlignedAddress(m: Tables, i: nat, k: Word)
    requires m.textBase % 4 == 0 && k % 4 == 0 && i < m.Count() && m.Entry(i).offset % 4 == 0
    ensures m.Address(i) == k || Apart(m.Address(i), k)
  {
    WrapKeepsAlignment(m.textBase + m.Entry(i).offset);
    AlignedAreApart(m.Address(i), k);
  }

  /** In a module whose tables name aligned words, an aligned word is one of those words or apart from it. */
  lemma {:induction false} AlignedModule(m: Tables, k: Word)
    requires m.textBase % 4 == 0 && k % 4 == 0
    requires forall i | 0 <= i < m.Count() :: m.Entry(i).offset % 4 == 0
    requires forall i | 0 <= i < |m.relr| && !Bit(m.relr[i], 0) :: m.relr[i] % 4 == 0
    ensures forall i | 0 <= i < m.Count() :: m.Address(i) == k || Apart(m.Address(i), k)
    ensures forall s | s in m.Packed().slots :: s == k || Apart(s, k)
  {
    forall i | 0 <= i < m.Count() ensures m.Address(i) == k || Apart(m.Address(i), k) {
      AlignedAddress(m, i, k);
    }
    AlignedSlots(m.textBase, m.relr, 0);
    forall s | s in m.Packed().slots ensures s == k || Apart(s, k) {
      AlignedAreApart(s, k);
    }
  }

  function BasePatch(base: Word, s: Word): Patch {
    Patch(s, (w: Word) => Wrap(w + base))
  }

  function AddAt(base: Word): (Memory, Word) -> Memory {
    (m: Memory, s: Word) => ApplyOne(m, BasePatch(base, s))
  }

  /** The base is added at every slot of the list, once for each occurrence. */
  function AddBase(m: Memory, base: Word, slots: seq<Word>): Memory {
    Fold(AddAt(base), m, slots, |slots|)
  }

  /** The base added n times. */
  function AddTimes(w: Word, base: Word, n: nat): Word {
    Repeat(BasePatch(base, 0).effect, w, n)
  }

  /** Each word receives the base as often as the table denotes it, if the slots it is not are apart from it. */
  lemma {:induction false} BaseIsAdded(m: Memory, base: Word, slots: seq<Word>, k: Word)
    requires forall s | s in slots :: s == k || Apart(s, k)
    ensures ReadWord(AddBase(m, base, slots), k)
         == AddTimes(ReadWord(m, k), base, Occurrences(slots, k, |slots|))
  {
    var effect := BasePatch(base, 0).effect;
    forall i | 0 <= i < |slots|
      ensures if slots[i] == k then Makes(AddAt(base), k, WordAt(k), effect) else Keeps(AddAt(base), slots[i], WordAt(k))
    {
      assert slots[i] in slots;
      BaseAt(base, slots[i], k);
    }
    PassRepeats(AddAt(base), m, slots, |slots|, WordAt(k), k, effect);
  }

  lemma {:induction false} BaseAt(base: Word, s: Word, k: Word)
    requires s == k || Apart(s, k)
    ensures if s == k then Makes(AddAt(base), k, WordAt(k), BasePatch(base, 0).effect) else Keeps(AddAt(base), s, WordAt(k))
  {
    if s == k {
      BaseMade(base, k);
    } else {
      BaseKept(base, s, k);
    }
  }

  lemma {:induction false} BaseMade(base: Word, k: Word)
    ensures Makes(AddAt(base), k, WordAt(k), BasePatch(base, 0).effect)
  {
    OwnWordMade(BasePatch(base, k));
    forall m: Memory ensures WordAt(k)(AddAt(base)(m, k)) == BasePatch(base, 0).effect(WordAt(k)(m)) {
    }
  }

  lemma {:induction false} BaseKept(base: Word, s: Word, k: Word)
    requires Apart(s, k)
    ensures Keeps(AddAt(base), s, WordAt(k))
  {
    OtherWordKept(BasePatch(base, s), k);
    forall m: Memory ensures WordAt(k)(AddAt(base)(m, s)) == WordAt(k)(m) {
    }
  }

  /** That is the sum modulo 2^32. */
  lemma {:induction false} AddTimesIsModulo(w: Word, base: Word, n: nat)
    ensures AddTimes(w, base, n) == (w + n * base) % SPACE
  {
    if n > 0 {
      AddTimesIsModulo(w, base, n - 1);
      OneTimeMore(w, n, base);
      AddOnce(w + (n - 1) * base, base);
    }
  }

  lemma {:induction false} OneTimeMore(w: int, n: int, base: int)
    ensures w + n * base == w + (n - 1) * base + base
  {
  }

  lemma {:induction false} AddOnce(x: int, base: Word)
    ensures Wrap(x % SPACE + base) == (x + base) % SPACE
  {
  }

  /** An increasing list holds each of its words once. */
  lemma {:induction false} IncreasingHitsOnce(slots: seq<Word>, where: Word, k: Word)
    requires IncreasingFrom(where, slots)
    ensures Occurrences(slots, k, |slots|) == if k in slots then 1 else 0
  {
    DistinctOccurOnce(slots, k, |slots|);
  }

  /** A word with no byte in a slot keeps its value. */
  lemma {:induction false} NotDenoted(m: Memory, base: Word, slots: seq<Word>, k: Word)
    requires forall s | s in slots :: Apart(s, k)
    ensures ReadWord(AddBase(m, base, slots), k) == ReadWord(m, k)
  {
    forall i | 0 <= i < |slots| ensures Keeps(AddAt(base), slots[i], WordAt(k)) {
      BaseKept(base, slots[i], k);
    }
    PassKeeps(AddAt(base), m, slots, |slots|, WordAt(k));
  }

  /** A byte of no slot keeps its value. */
  lemma {:induction false} ByteNotDenoted(m: Memory, base: Word, slots: seq<Word>, x: Word)
    requires forall s | s in slots :: !Covers(s, x)
    ensures AddBase(m, base, slots)[x] == m[x]
  {
    forall i | 0 <= i < |slots| ensures Keeps(AddAt(base), slots[i], ByteAt(x)) {
      OtherByteKept(BasePatch(base, slots[i]), x);
      forall n: Memory ensures ByteAt(x)(AddAt(base)(n, slots[i])) == ByteAt(x)(n) {
      }
    }
    PassKeeps(AddAt(base), m, slots, |slots|, ByteAt(x));
  }

  // The two passes together

  /** The words of the REL entries share no byte with one another. */
  ghost predicate EntriesApart(m: Tables) {
    forall i, j | 0 <= i < j < m.Count() :: Apart(m.Address(i), m.Address(j))
  }

  /** The words of the REL entries share no byte with one another nor with a word that the RELR table denotes. */
  ghost predicate Separate(m: Tables) {
    && EntriesApart(m)
    && (forall i, s | 0 <= i < m.Count() && s in m.Packed().slots :: Apart(s, m.Address(i)))
  }

  function AfterRelocate(m0: Memory, m: Tables): Memory
    requires m.WellFormed()
  {
    AddBase(Apply(m0, RelPatches(m), m.Count()), m.textBase, m.Packed().slots)
  }

  function AfterResolve(m0: Memory, m: Tables, imports: Imports): Memory
    requires m.WellFormed()
  {
    Apply(m0, ResolvePatches(m, imports), m.Count())
  }

  /** No entry is changed by both passes. */
  lemma OnePassActs(base: Word, imports: Imports, t: int, sym: Symbol)
    ensures (forall w: Word :: Relocated(base, t, sym, w) == w) || (forall w: Word :: Resolved(imports, t, sym, w) == w)
  {
  }

  lemma {:induction false} EntriesSwap(m: Tables, imports: Imports, i: nat, j: nat)
    requires m.WellFormed() && Separate(m) && i < m.Count() && j < m.Count()
    ensures Swap(ApplyOne, RelPatch(m, i), ApplyOne, ResolvePatch(m, imports, j))
  {
    if i == j {
      OnePassActs(m.textBase, imports, m.Type(i), m.Sym(i));
    } else {
      ApartSymmetric(m.Address(i), m.Address(j));
    }
    PatchesSwap(RelPatch(m, i), ResolvePatch(m, imports, j));
  }

  lemma {:induction false} BaseSwaps(base: Word, s: Word, q: Patch)
    requires Apart(s, q.at)
    ensures Swap(AddAt(base), s, ApplyOne, q)
  {
    PatchesSwap(BasePatch(base, s), q);
    forall m: Memory ensures ApplyOne(AddAt(base)(m, s), q) == AddAt(base)(ApplyOne(m, q), s) {
    }
  }

  /** Relocating and resolving may be done in either order. */
  lemma {:induction false} RelocateResolveCommute(m0: Memory, m: Tables, imports: Imports)
    requires m.WellFormed() && Separate(m)
    ensures AfterResolve(AfterRelocate(m0, m), m, imports) == AfterRelocate(AfterResolve(m0, m, imports), m)
  {
    var rel, res, slots, n := RelPatches(m), ResolvePatches(m, imports), m.Packed().slots, m.Count();
    forall i, j | 0 <= i < n && 0 <= j < n ensures Swap(ApplyOne, rel[i], ApplyOne, res[j]) {
      EntriesSwap(m, imports, i, j);
    }
    forall i, j | 0 <= i < |slots| && 0 <= j < n ensures Swap(AddAt(m.textBase), slots[i], ApplyOne, res[j]) {
      assert slots[i] in slots && Apart(slots[i], m.Address(j));
      BaseSwaps(m.textBase, slots[i], res[j]);
    }
    PassesCommute(ApplyOne, rel, n, ApplyOne, res, n, m0);
    PassesCommute(AddAt(m.textBase), slots, |slots|, ApplyOne, res, n, Apply(m0, rel, n));
  }

  /** What the word of an entry must be in the end. */
  function Final(base: Word, imports: Imports, t: int, sym: Symbol, w: Word): Word {
    if t == R_ARM_NONE then w
    else if t == R_ARM_RELATIVE then Wrap(base + w)
    else if sym.defined then Wrap(base + sym.value + if t == R_ARM_ABS32 then w else 0)
    else if FirstMatch(imports.table, sym.name) < |imports.table| then
      imports.table[FirstMatch(imports.table, sym.name)].func
    else if imports.Link(sym.name) != 0 then Wrap(imports.Link(sym.name) + if t == R_ARM_ABS32 then w else 0)
    else if t == R_ARM_JUMP_SLOT then imports.stub
    else w
  }

  lemma BothPasses(base: Word, imports: Imports, t: int, sym: Symbol, w: Word)
    requires Known(t)
    ensures Resolved(imports, t, sym, Relocated(base, t, sym, w)) == Final(base, imports, t, sym, w)
  {
  }

  /** After both passes the word of every entry is final. */
  lemma {:induction false} EntryIsFinal(m0: Memory, m: Tables, imports: Imports, i: nat)
    requires m.WellFormed() && Separate(m) && i < m.Count() && Known(m.Type(i))
    ensures ReadWord(AfterResolve(AfterRelocate(m0, m), m, imports), m.Address(i))
         == Final(m.textBase, imports, m.Type(i), m.Sym(i), ReadWord(m0, m.Address(i)))
  {
    var rel, res := RelPatches(m), ResolvePatches(m, imports);
    ApplyPointwise(m0, rel, m.Count(), i);
    NotDenoted(Apply(m0, rel, m.Count()), m.textBase, m.Packed().slots, m.Address(i));
    ApplyPointwise(AfterRelocate(m0, m), res, m.Count(), i);
    BothPasses(m.textBase, imports, m.Type(i), m.Sym(i), ReadWord(m0, m.Address(i)));
  }

  /** Entry j of the table is the first for a name. */
  ghost predicate FirstNamed(table: seq<Import>, name: string, j: nat) {
    j < |table| && table[j].symbol == name && forall i | 0 <= i < j :: table[i].symbol != name
  }

  /** What a relocation of type ABS32 (2), GLOB_DAT (21) or JUMP_SLOT (22) makes of the word before it. */
  ghost predicate Bound(base: Word, imports: Imports, t: int, sym: Symbol, before: Word, after: Word) {
    var addend, link := if t == 2 then before else 0, if imports.tableOnly then 0 else
      LinkedExport(imports.needed, imports.loaded, imports.self, sym.name);
    if sym.defined then after == Wrap(base + sym.value + addend)
    else
      && (forall j: nat | FirstNamed(imports.table, sym.name, j) :: after == imports.table[j].func)
      && ((forall j | 0 <= j < |imports.table| :: imports.table[j].symbol != sym.name) ==>
            after == if link != 0 then Wrap(link + addend) else if t == 22 then imports.stub else before)
  }

  /** By the numbers of the ARM ELF ABI: 0 is NONE, 23 RELATIVE, and the others are bound to their symbol. */
  ghost predicate Settled(m: Tables, imports: Imports, info: Word, before: Word, after: Word) {
    var t, k := info % 0x100, info / 0x100;
    && (t == 0 ==> after == before)
    && (t == 23 ==> after == Wrap(m.textBase + before))
    && (t in {2, 21, 22} ==> k < |m.dynsym| && Bound(m.textBase, imports, t, m.dynsym[k], before, after))
  }

  /** What both passes make of the word of an entry, read from the raw entry. */
  lemma {:induction false} RelIsFinal(m0: Memory, m: Tables, imports: Imports, rel: Rel)
    requires m.WellFormed() && Separate(m) && rel in m.reldyn + m.relplt && rel.info % 0x100 in {0, 2, 21, 22, 23}
    ensures var at := Wrap(m.textBase + rel.offset);
      Settled(m, imports, rel.info, ReadWord(m0, at), ReadWord(AfterResolve(AfterRelocate(m0, m), m, imports), at))
  {
    var i :| 0 <= i < m.Count() && (m.reldyn + m.relplt)[i] == rel;
    assert m.Entry(i) == rel && m.Type(i) == rel.info % 0x100 && m.Address(i) == Wrap(m.textBase + rel.offset);
    EntryIsFinal(m0, m, imports, i);
    FinalIsSettled(m, imports, i, ReadWord(m0, m.Address(i)));
  }

  lemma {:induction false} KnownIff(t: int)
    ensures Known(t) <==> t in {0, 2, 21, 22, 23}
  {
  }

  lemma {:induction false} FinalIsSettled(m: Tables, imports: Imports, i: nat, w: Word)
    requires m.WellFormed() && i < m.Count()
    ensures Known(m.Type(i)) ==>
      Settled(m, imports, m.Entry(i).info, w, Final(m.textBase, imports, m.Type(i), m.Sym(i), w))
  {
    assert m.HasSymbol(i);
    if IsImport(m.Type(i)) {
      FinalIsBound(m.textBase, imports, m.Type(i), m.Sym(i), w);
    }
  }

  lemma {:induction false} FinalIsBound(base: Word, imports: Imports, t: int, sym: Symbol, w: Word)
    requires IsImport(t)
    ensures Bound(base, imports, t, sym, w, Final(base, imports, t, sym, w))
  {
    forall j: nat | FirstNamed(imports.table, sym.name, j) ensures j == FirstMatch(imports.table, sym.name) {
    }
  }

  /** After a patch that sets its word to v, patches of words apart from it leave v there. */
  lemma {:induction false} LaterPatchesKeep(m: Memory, ps: seq<Patch>, n: nat, i: nat, v: Word)
    requires i < n <= |ps| && (forall w: Word :: ps[i].effect(w) == v) && forall j | i < j < n :: Apart(ps[j].at, ps[i].at)
    ensures ReadWord(Apply(m, ps, n), ps[i].at) == v
  {
    var before := Apply(m, ps, n - 1);
    if i == n - 1 {
      ReadOwnWrite(before, ps[i].at, v);
    } else {
      LaterPatchesKeep(m, ps, n - 1, i, v);
      ReadOtherWrite(before, ps[n - 1].at, ps[n - 1].effect(ReadWord(before, ps[n - 1].at)), ps[i].at);
    }
  }

  /**
   Entries that name the same word act in order: whatever came before, the last GLOB_DAT
   (21) or JUMP_SLOT (22) of a word decides.
   */
  lemma {:induction false} LastEntryDecides(m0: Memory, m: Tables, i: nat)
    requires m.WellFormed() && i < |m.reldyn + m.relplt| && (m.reldyn + m.relplt)[i].info % 0x100 in {21, 22} && m.Sym(i).defined
    requires forall j | i < j < m.Count() :: Apart(m.Address(j), m.Address(i))
    requires forall s | s in m.Packed().slots :: Apart(s, m.Address(i))
    ensures ReadWord(AfterRelocate(m0, m), m.Address(i)) == Wrap(m.textBase + m.Sym(i).value)
  {
    var ps := RelPatches(m);
    assert m.Entry(i) == (m.reldyn + m.relplt)[i];
    LaterPatchesKeep(m0, ps, m.Count(), i, Wrap(m.textBase + m.Sym(i).value));
    NotDenoted(Apply(m0, ps, m.Count()), m.textBase, m.Packed().slots, m.Address(i));
  }

  /** Every word apart from the REL entries has the base added as often as the RELR table denotes it. */
  lemma {:induction false} OtherWordIsKept(m0: Memory, m: Tables, imports: Imports, k: Word)
    requires m.WellFormed()
    requires forall i | 0 <= i < m.Count() :: Apart(m.Address(i), k)
    requires forall s | s in m.Packed().slots :: s == k || Apart(s, k)
    ensures ReadWord(AfterResolve(AfterRelocate(m0, m), m, imports), k)
         == AddTimes(ReadWord(m0, k), m.textBase, Occurrences(m.Packed().slots, k, |m.Packed().slots|))
  {
    var after := AfterRelocate(m0, m);
    assert ReadWord(after, k) == AddTimes(ReadWord(m0, k), m.textBase, Occurrences(m.Packed().slots, k, |m.Packed().slots|)) by {
      OtherWordStays(m0, RelPatches(m), m.Count(), k);
      BaseIsAdded(Apply(m0, RelPatches(m), m.Count()), m.textBase, m.Packed().slots, k);
    }
    OtherWordStays(after, ResolvePatches(m, imports), m.Count(), k);
  }

  /** A byte of no entry's word and of no slot stays, whatever overlaps elsewhere. */
  lemma {:induction false} OtherByteIsKept(m0: Memory, m: Tables, imports: Imports, x: Word)
    requires m.WellFormed()
    requires forall i | 0 <= i < m.Count() :: !Covers(m.Address(i), x)
    requires forall s | s in m.Packed().slots :: !Covers(s, x)
    ensures AfterResolve(AfterRelocate(m0, m), m, imports)[x] == m0[x]
  {
    OtherByteStays(m0, RelPatches(m), m.Count(), x);
    ByteNotDenoted(Apply(m0, RelPatches(m), m.Count()), m.textBase, m.Packed().slots, x);
    OtherByteStays(AfterRelocate(m0, m), ResolvePatches(m, imports), m.Count(), x);
  }

  /** The entry adds a linked module's address to what its word already holds. */
  predicate Accumulates(m: Tables, imports: Imports, i: nat)
    requires i < m.Count() && m.HasSymbol(i)
  {
    && m.Type(i) == R_ARM_ABS32 && !m.Sym(i).defined
    && FirstMatch(imports.table, m.Sym(i).name) == |imports.table| && imports.Link(m.Sym(i).name) != 0
  }

  /** Resolving again changes an entry's word exactly when it accumulates. */
  lemma ResolvedTwice(imports: Imports, t: int, sym: Symbol, w: Word)
    ensures Resolved(imports, t, sym, Resolved(imports, t, sym, w)) == Resolved(imports, t, sym, w)
       <==> !(t == R_ARM_ABS32 && !sym.defined
              && FirstMatch(imports.table, sym.name) == |imports.table| && imports.Link(sym.name) != 0)
  {
  }

  lemma {:induction false} EntryResolvedTwice(m0: Memory, m: Tables, imports: Imports, i: nat)
    requires m.WellFormed() && EntriesApart(m) && i < m.Count()
    ensures var once := AfterResolve(m0, m, imports);
      ReadWord(AfterResolve(once, m, imports), m.Address(i)) == ReadWord(once, m.Address(i))
      <==> !Accumulates(m, imports, i)
  {
    var res := ResolvePatches(m, imports);
    ApplyPointwise(m0, res, m.Count(), i);
    ApplyPointwise(AfterResolve(m0, m, imports), res, m.Count(), i);
    ResolvedTwice(imports, m.Type(i), m.Sym(i), ReadWord(m0, m.Address(i)));
  }

  /** A byte is the same after resolving again if every entry's word is. */
  lemma {:induction false} ByteResolvedTwice(once: Memory, m: Tables, imports: Imports, x: Word)
    requires m.WellFormed()
    requires forall i | 0 <= i < m.Count() ::
      ReadWord(AfterResolve(once, m, imports), m.Address(i)) == ReadWord(once, m.Address(i))
    ensures AfterResolve(once, m, imports)[x] == once[x]
  {
    if i: nat :| i < m.Count() && Covers(m.Address(i), x) {
      SameWordSameByte(AfterResolve(once, m, imports), once, m.Address(i), x);
    } else {
      OtherByteStays(once, ResolvePatches(m, imports), m.Count(), x);
    }
  }

  /** Resolving is idempotent exactly when no ABS32 import is bound to a linked module alone. */
  lemma {:induction false} ResolveIdempotentIff(m0: Memory, m: Tables, imports: Imports)
    requires m.WellFormed() && EntriesApart(m)
    ensures AfterResolve(AfterResolve(m0, m, imports), m, imports) == AfterResolve(m0, m, imports)
       <==> forall i | 0 <= i < m.Count() :: !Accumulates(m, imports, i)
  {
    var once := AfterResolve(m0, m, imports);
    forall i | 0 <= i < m.Count()
      ensures ReadWord(AfterResolve(once, m, imports), m.Address(i)) == ReadWord(once, m.Address(i))
         <==> !Accumulates(m, imports, i)
    {
      EntryResolvedTwice(m0, m, imports, i);
    }
    if forall i | 0 <= i < m.Count() :: !Accumulates(m, imports, i) {
      forall x: Word ensures AfterResolve(once, m, imports)[x] == once[x] {
        ByteResolvedTwice(once, m, imports, x);
      }
    }
  }

  /** A module with one import f of type ABS32, and a loaded module that exports f at 0x1000. */
  const IMPORTER: Tables := Tables(0x9800_0000, [Symbol("f", 0, false)], [Rel(0x40, R_ARM_ABS32)], [], [])
  const EXPORTER: Imports :=
    Imports([], false, ["libf.so"], [Loaded("libf.so", (name: string) => if name == "f" then 0x1000 else 0)], -1, 0)

  lemma {:induction false} ImporterAdds(w: Word)
    ensures IMPORTER.Type(0) == R_ARM_ABS32 && IMPORTER.Sym(0) == Symbol("f", 0, false) && IMPORTER.Address(0) == 0x9800_0040
    ensures Resolved(EXPORTER, R_ARM_ABS32, Symbol("f", 0, false), w) == Wrap(w + 0x1000)
  {
    assert Exported(EXPORTER.loaded, -1, "libf.so", "f") == 0x1000;
  }

  /** Resolved a second time, its word holds the address twice. */
  lemma {:induction false} SecondResolveAdds(m0: Memory)
    ensures IMPORTER.WellFormed() && Separate(IMPORTER)
    ensures var once := AfterResolve(m0, IMPORTER, EXPORTER);
      ReadWord(once, 0x9800_0040) == Wrap(ReadWord(m0, 0x9800_0040) + 0x1000)
      && ReadWord(AfterResolve(once, IMPORTER, EXPORTER), 0x9800_0040) == Wrap(ReadWord(once, 0x9800_0040) + 0x1000)
  {
    var res := ResolvePatches(IMPORTER, EXPORTER);
    ImporterAdds(ReadWord(m0, 0x9800_0040));
    ImporterAdds(ReadWord(Apply(m0, res, 1), 0x9800_0040));
    ApplyPointwise(m0, res, 1, 0);
    ApplyPointwise(Apply(m0, res, 1), res, 1, 0);
  }

  /** The patch does not depend on what its word holds. */
  ghost predicate Constant(p: Patch) {
    forall v: Word, w: Word :: p.effect(v) == p.effect(w)
  }

  /** The patch leaves its word alone. */
  ghost predicate Idle(p: Patch) {
    forall w: Word :: p.effect(w) == w
  }

  ghost predicate Plain(p: Patch) { Constant(p) || Idle(p) }

  ghost predicate Writes(p: Patch, x: Word) { Covers(p.at, x) && !Idle(p) }

  /** One of the first n patches writes the byte at x. */
  ghost predicate Written(ps: seq<Patch>, n: nat, x: Word)
    requires n <= |ps|
  {
    n > 0 && (Writes(ps[n - 1], x) || Written(ps, n - 1, x))
  }

  /** Patches that each write a constant or nothing give a byte its last constant, or leave it. */
  lemma {:induction false} LastWriterDecides(m: Memory, k: Memory, ps: seq<Patch>, n: nat, x: Word)
    requires n <= |ps| && forall i | 0 <= i < n :: Plain(ps[i])
    ensures if Written(ps, n, x) then Apply(m, ps, n)[x] == Apply(k, ps, n)[x]
            else Apply(m, ps, n)[x] == m[x] && Apply(k, ps, n)[x] == k[x]
  {
    if n > 0 {
      LastWriterDecides(m, k, ps, n - 1, x);
      OneWrites(Apply(m, ps, n - 1), Apply(k, ps, n - 1), ps[n - 1], x);
    }
  }

  lemma {:induction false} OneWrites(m: Memory, k: Memory, p: Patch, x: Word)
    requires Plain(p)
    ensures if Writes(p, x) then ApplyOne(m, p)[x] == ApplyOne(k, p)[x]
            else ApplyOne(m, p)[x] == m[x] && ApplyOne(k, p)[x] == k[x]
  {
    if !Covers(p.at, x) {
      WriteWordFrame(m, p.at, p.effect(ReadWord(m, p.at)), x);
      WriteWordFrame(k, p.at, p.effect(ReadWord(k, p.at)), x);
    } else if Idle(p) {
      RewriteSame(m, p.at);
      RewriteSame(k, p.at);
    } else {
      assert p.effect(ReadWord(m, p.at)) == p.effect(ReadWord(k, p.at));
    }
  }

  /** However their words overlap, entries of which none accumulates resolve idempotently. */
  lemma {:induction false} ConstantsResolveOnce(m0: Memory, m: Tables, imports: Imports)
    requires m.WellFormed() && forall i | 0 <= i < m.Count() :: !Accumulates(m, imports, i)
    ensures AfterResolve(AfterResolve(m0, m, imports), m, imports) == AfterResolve(m0, m, imports)
  {
    var res, once := ResolvePatches(m, imports), AfterResolve(m0, m, imports);
    forall i | 0 <= i < |res| ensures Plain(res[i]) {
      assert !Accumulates(m, imports, i);
      ResolvedIsPlain(imports, m.Type(i), m.Sym(i));
    }
    forall x: Word ensures AfterResolve(once, m, imports)[x] == once[x] {
      LastWriterDecides(m0, once, res, m.Count(), x);
    }
  }

  lemma {:induction false} ResolvedIsPlain(imports: Imports, t: int, sym: Symbol)
    requires !(t == R_ARM_ABS32 && !sym.defined
               && FirstMatch(imports.table, sym.name) == |imports.table| && imports.Link(sym.name) != 0)
    ensures (forall v: Word, w: Word :: Resolved(imports, t, sym, v) == Resolved(imports, t, sym, w))
         || (forall w: Word :: Resolved(imports, t, sym, w) == w)
  {
  }

  /** A module with no other module to link to resolves idempotently. */
  lemma {:induction false} LoneModuleResolvesOnce(m0: Memory, m: Tables, imports: Imports)
    requires m.WellFormed()
    requires imports.tableOnly || imports.loaded == [] || (|imports.loaded| == 1 && imports.self == 0)
    ensures AfterResolve(AfterResolve(m0, m, imports), m, imports) == AfterResolve(m0, m, imports)
  {
    forall i | 0 <= i < m.Count() ensures !Accumulates(m, imports, i) {
      var d, c := LinkIsFirstOffer(imports.needed, imports.loaded, imports.self, m.Sym(i).name);
    }
    ConstantsResolveOnce(m0, m, imports);
  }
}
