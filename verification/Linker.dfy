/** so_relocate and so_resolve as they run: loops that patch words of memory in place. */
module Linker {
  import opened Words
  import opened Bitwise
  import opened Passes
  import opened ArmIsa
  import opened Relocation

  lemma {:induction false} AddBaseAppend(m: Memory, base: Word, first: seq<Word>, second: seq<Word>)
    ensures AddBase(AddBase(m, base, first), base, second) == AddBase(m, base, first + second)
  {
    FoldAppend(AddAt(base), m, first, second, |second|);
    assert Same(AddBase(m, base, first + second), AddBase(AddBase(m, base, first), base, second));
  }

  lemma {:induction false} AddBaseFew(m: Memory, base: Word, s: Word)
    ensures AddBase(m, base, []) == m && AddBase(m, base, [s]) == ApplyOne(m, BasePatch(base, s))
  {
    FoldStep(AddAt(base), m, [s], 0, m, AddAt(base)(m, s));
  }

  lemma {:induction false} AddBaseOnce(m: Memory, base: Word, slots: seq<Word>, s: Word)
    ensures AddBase(m, base, slots + [s]) == ApplyOne(AddBase(m, base, slots), BasePatch(base, s))
  {
    AddBaseAppend(m, base, slots, [s]);
    AddBaseFew(AddBase(m, base, slots), base, s);
  }

  /** Where the cursor stands after an entry that did not fail. */
  function Next(base: Word, entry: Word, where: Word): Word {
    if !Bit(entry, 0) then Wrap(Wrap(base + entry) + 4) else Wrap(where + 124)
  }

  /** What one entry denotes. */
  lemma {:induction false} DenotedByOne(base: Word, entry: Word, where: Word)
    ensures Denoted(base, [entry], where)
         == if !Bit(entry, 0) then Relr([Wrap(base + entry)], true)
            else if where == 0 then Relr([], false)
            else Relr(Bitmap(entry, where, 32), true)
  {
    assert [entry][1..] == [];
  }

  lemma {:induction false} BitmapStep(entry: Word, where: Word, bit: nat)
    requires 1 <= bit
    ensures Bitmap(entry, where, bit + 1)
         == if Bit(entry, bit) then Bitmap(entry, where, bit) + [Wrap(where + 4 * (bit - 1))] else Bitmap(entry, where, bit)
  {
  }

  lemma {:induction false} DenotedStep(base: Word, entries: seq<Word>, i: nat, where: Word)
    requires i < |entries|
    ensures var one := Denoted(base, [entries[i]], where);
      Denoted(base, entries[i..], where)
      == if !one.ok then one
         else
           var rest := Denoted(base, entries[i + 1..], Next(base, entries[i], where));
           Relr(one.slots + rest.slots, rest.ok)
  {
    assert entries[i..][1..] == entries[i + 1..];
    assert [entries[i]][1..] == [];
  }

  /** What is left to denote, put behind what is done, is the whole table. */
  ghost predicate Progress(whole: Relr, done: seq<Word>, rest: Relr) {
    whole == Relr(done + rest.slots, rest.ok)
  }

  lemma {:induction false} ProgressStep(whole: Relr, done: seq<Word>, base: Word, entries: seq<Word>, i: nat, where: Word)
    requires i < |entries| && Progress(whole, done, Denoted(base, entries[i..], where))
    ensures var one := Denoted(base, [entries[i]], where);
      if one.ok then Progress(whole, done + one.slots, Denoted(base, entries[i + 1..], Next(base, entries[i], where)))
      else whole == Relr(done + one.slots, false)
  {
    DenotedStep(base, entries, i, where);
  }

  /** The first i entries have known types. */
  predicate AllKnown(m: Tables, i: nat)
    requires i <= m.Count()
  {
    i == 0 || (AllKnown(m, i - 1) && Known(m.Type(i - 1)))
  }

  lemma {:induction false} AllKnownMeans(m: Tables, i: nat)
    requires i <= m.Count()
    ensures AllKnown(m, i) <==> forall k | 0 <= k < i :: Known(m.Type(k))
  {
    if i > 0 {
      AllKnownMeans(m, i - 1);
    }
  }

  datatype Outcome = Fatal(entry: nat) | Status(code: int)

  /** A loaded module and the memory it is loaded in. */
  class Image {
    const tables: Tables
    var mem: Memory

    constructor (tables: Tables, mem: Memory)
      ensures this.tables == tables && this.mem == mem
    {
      this.tables := tables;
      this.mem := mem;
    }

    /** One word receives the base. */
    method AddBaseAt(s: Word)
      modifies this
      ensures mem == ApplyOne(old(mem), BasePatch(tables.textBase, s))
    {
      var val := Wrap(ReadWord(mem, s) + tables.textBase);
      mem := WriteWord(mem, s, val);
    }

    /** One odd entry of the packed table: the base is added to the words its set bits select. */
    method ApplyBitmap(entry: Word, where: Word)
      modifies this
      ensures mem == AddBase(old(mem), tables.textBase, Bitmap(entry, where, 32))
    {
      var bit := 1;
      while bit < 32
        invariant 1 <= bit <= 32
        invariant mem == AddBase(old(mem), tables.textBase, Bitmap(entry, where, bit))
      {
        OneBit(entry, bit);
        BitmapStep(entry, where, bit);
        if And(entry, Pow2(bit)) != 0 {
          AddBaseOnce(old(mem), tables.textBase, Bitmap(entry, where, bit), Wrap(where + 4 * (bit - 1)));
          AddBaseAt(Wrap(where + 4 * (bit - 1)));
        }
        bit := bit + 1;
      }
    }

    /** One entry: an address, or a bitmap for the words from where on, which a null cursor refuses. */
    method ApplyEntry(entry: Word, where: Word) returns (next: Word, ok: bool)
      modifies this
      ensures ok == Denoted(tables.textBase, [entry], where).ok
      ensures mem == AddBase(old(mem), tables.textBase, Denoted(tables.textBase, [entry], where).slots)
      ensures ok ==> next == Next(tables.textBase, entry, where)
    {
      DenotedByOne(tables.textBase, entry, where);
      AddBaseFew(mem, tables.textBase, Wrap(tables.textBase + entry));
      OneBit(entry, 0);
      if And(entry, 1) == 0 {
        next := Wrap(tables.textBase + entry);
        AddBaseAt(next);
        next := Wrap(next + 4);
      } else {
        if where == 0 {
          return where, false;
        }
        ApplyBitmap(entry, where);
        next := Wrap(where + 124);
      }
      ok := true;
    }

    /** The loop over the packed table: it covers the denoted words in order, up to a failure. */
    method ApplyRelr() returns (status: int)
      modifies this
      ensures status == if tables.Packed().ok then 0 else -1
      ensures mem == AddBase(old(mem), tables.textBase, tables.Packed().slots)
    {
      var where: Word := 0;
      ghost var done: seq<Word> := [];
      var i := 0;
      AddBaseFew(mem, tables.textBase, where);
      while i < |tables.relr|
        invariant 0 <= i <= |tables.relr|
        invariant mem == AddBase(old(mem), tables.textBase, done)
        invariant Progress(tables.Packed(), done, Denoted(tables.textBase, tables.relr[i..], where))
      {
        ghost var one := Denoted(tables.textBase, [tables.relr[i]], where);
        ProgressStep(tables.Packed(), done, tables.textBase, tables.relr, i, where);
        AddBaseAppend(old(mem), tables.textBase, done, one.slots);
        var ok;
        where, ok := ApplyEntry(tables.relr[i], where);
        done := done + one.slots;
        if !ok {
          return -1;
        }
        i := i + 1;
      }
      assert tables.relr[i..] == [] && done + [] == done;
      return 0;
    }

    /** The switch over the relocation type of one entry. */
    method RelocateWord(ptr: Word, t: int, sym: Symbol) returns (known: bool)
      modifies this
      ensures known == Known(t)
      ensures known ==> mem == WriteWord(old(mem), ptr, Relocated(tables.textBase, t, sym, ReadWord(old(mem), ptr)))
      ensures !known ==> unchanged(this)
    {
      known := true;
      RewriteSame(mem, ptr);
      if t == R_ARM_NONE {
      } else if t == R_ARM_ABS32 {
        if sym.defined {
          var val := Wrap(ReadWord(mem, ptr) + tables.textBase + sym.value);
          mem := WriteWord(mem, ptr, val);
        }
      } else if t == R_ARM_RELATIVE {
        var val := Wrap(ReadWord(mem, ptr) + tables.textBase);
        mem := WriteWord(mem, ptr, val);
      } else if t == R_ARM_GLOB_DAT || t == R_ARM_JUMP_SLOT {
        if sym.defined {
          var val := Wrap(tables.textBase + sym.value);
          mem := WriteWord(mem, ptr, val);
        }
      } else {
        known := false;
      }
    }

    /** Entry i of the REL tables: the memory after i patches becomes that after i + 1. */
    method RelocateEntry(i: nat, ghost m0: Memory) returns (known: bool)
      requires tables.WellFormed() && i < tables.Count()
      requires Same(mem, Apply(m0, RelPatches(tables), i))
      modifies this
      ensures known == Known(tables.Type(i))
      ensures Same(mem, Apply(m0, RelPatches(tables), if known then i + 1 else i))
    {
      ghost var before := mem;
      var ptr, t := Locate(tables, i);
      known := RelocateWord(ptr, t, tables.Sym(i));
      if known {
        FoldStep(ApplyOne, m0, RelPatches(tables), i, before, mem);
      }
    }

    /** The loop over the REL entries, up to the first unknown type. */
    method RelocateEntries() returns (i: nat)
      requires tables.WellFormed()
      modifies this
      ensures i <= tables.Count() && (i < tables.Count() ==> !Known(tables.Type(i)))
      ensures AllKnown(tables, i)
      ensures mem == Apply(old(mem), RelPatches(tables), i)
    {
      i := 0;
      while i < tables.Count()
        invariant 0 <= i <= tables.Count()
        invariant AllKnown(tables, i)
        invariant Same(mem, Apply(old(mem), RelPatches(tables), i))
      {
        var known := RelocateEntry(i, old(mem));
        if !known {
          return;
        }
        i := i + 1;
      }
    }

    /** so_relocate. An unknown relocation type is fatal at the first entry that has one. */
    method Relocate() returns (outcome: Outcome)
      requires tables.WellFormed()
      modifies this
      ensures outcome.Status? <==> forall i | 0 <= i < tables.Count() :: Known(tables.Type(i))
      ensures outcome.Fatal? ==>
        && outcome.entry < tables.Count() && !Known(tables.Type(outcome.entry))
        && (forall i | 0 <= i < outcome.entry :: Known(tables.Type(i)))
        && mem == Apply(old(mem), RelPatches(tables), outcome.entry)
      ensures outcome.Status? ==>
        outcome.code == (if tables.Packed().ok then 0 else -1) && mem == AfterRelocate(old(mem), tables)
    {
      var i := RelocateEntries();
      AllKnownMeans(tables, i);
      if i < tables.Count() {
        return Fatal(i);
      }
      var code := ApplyRelr();
      return Status(code);
    }

    /** Entry i resolved: an undefined import gets its word. */
    method ResolveEntry(imports: Imports, i: nat, ghost m0: Memory)
      requires tables.WellFormed() && i < tables.Count()
      requires Same(mem, Apply(m0, ResolvePatches(tables, imports), i))
      modifies this
      ensures Same(mem, Apply(m0, ResolvePatches(tables, imports), i + 1))
    {
      ghost var before := mem;
      var ptr, t := Locate(tables, i);
      RewriteSame(mem, ptr);
      if IsImport(t) && !tables.Sym(i).defined {
        var val := ResolveWord(imports, t, tables.Sym(i), ReadWord(mem, ptr));
        mem := WriteWord(mem, ptr, val);
      }
      FoldStep(ApplyOne, m0, ResolvePatches(tables, imports), i, before, mem);
    }

    /** so_resolve. */
    method Resolve(imports: Imports)
      requires tables.WellFormed()
      modifies this
      ensures mem == AfterResolve(old(mem), tables, imports)
    {
      ResolveEntries(imports);
    }

    method ResolveEntries(imports: Imports)
      requires tables.WellFormed()
      modifies this
      ensures Same(mem, Apply(old(mem), ResolvePatches(tables, imports), tables.Count()))
    {
      var i := 0;
      while i < tables.Count()
        invariant 0 <= i <= tables.Count()
        invariant Same(mem, Apply(old(mem), ResolvePatches(tables, imports), i))
      {
        ResolveEntry(imports, i, old(mem));
        i := i + 1;
      }
    }
  }

  /** Where entry i points and, by ELF32_R_TYPE, what it asks for. */
  method Locate(m: Tables, i: nat) returns (ptr: Word, t: int)
    requires i < m.Count()
    ensures ptr == m.Address(i) && t == m.Type(i)
  {
    var rel := m.Entry(i);
    ptr := Wrap(m.textBase + rel.offset);
    t := And(rel.info, 0xFF);
    Powers();
    LowMask(rel.info, 8);
  }

  /** so_resolve_link: the needed sonames in order, and for each the loaded modules in order. */
  method ResolveLink(needed: seq<string>, loaded: seq<Loaded>, self: int, symbol: string) returns (link: Word)
    ensures link == LinkedExport(needed, loaded, self, symbol)
  {
    var d := 0;
    while d < |needed|
      invariant 0 <= d <= |needed|
      invariant LinkedExport(needed, loaded, self, symbol) == LinkedExport(needed[d..], loaded, self, symbol)
    {
      var c := 0;
      while c < |loaded|
        invariant 0 <= c <= |loaded|
        invariant Exported(loaded, self, needed[d], symbol) == Exported(loaded[c..], self - c, needed[d], symbol)
      {
        if c != self && loaded[c].soname == needed[d] {
          link := loaded[c].exports(symbol);
          if link != 0 {
            return;
          }
        }
        assert loaded[c..][1..] == loaded[c + 1..];
        c := c + 1;
      }
      assert needed[d..][1..] == needed[d + 1..];
      d := d + 1;
    }
    return 0;
  }

  /** The word an undefined import of type t gets, through the link first and the table after it. */
  method ResolveWord(imports: Imports, t: int, sym: Symbol, before: Word) returns (w: Word)
    requires IsImport(t) && !sym.defined
    ensures w == Resolved(imports, t, sym, before)
  {
    w := before;
    var resolved := false;
    if !imports.tableOnly {
      var link := ResolveLink(imports.needed, imports.loaded, imports.self, sym.name);
      if link != 0 {
        w := if t == R_ARM_ABS32 then Wrap(w + link) else link;
        resolved := true;
      }
    }
    var j := 0;
    while j < |imports.table|
      invariant 0 <= j <= |imports.table|
      invariant forall k | 0 <= k < j :: imports.table[k].symbol != sym.name
    {
      if imports.table[j].symbol == sym.name {
        w := imports.table[j].func;
        resolved := true;
        break;
      }
      j := j + 1;
    }
    if !resolved && t == R_ARM_JUMP_SLOT {
      w := imports.stub;
    }
  }
}
