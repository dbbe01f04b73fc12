# A verified model of the Caustic 3 Vita loader's core

This project models, in Dafny, the parts of the Vita port whose correctness is
hardest to see from the code, and proves what they promise:

- the ARM loader: relocation and import binding in place, the two bump arenas for
  generated code, and the rewriting of LDMIA instructions into trampolines
  (`Words`, `Bitwise`, `ArmIsa`, `CodeArena`, `Trampoline`, `SoModule`, `Meaning`,
  `Passes`, `Relocation`, `Linker`);
- the UTF-8/UTF-16 converter with its error recovery, bounded buffers and measuring
  mode (`Unicode`, `Converter`);
- the microphone resampler (`Resampler`);
- the pointer part of the render loop (`Pointers`, `FrameCalls`, `FrameLoop`);
- the restartable extraction of assets from the APK and the edit of the configuration
  file (`Sequences`, `Segments`, `Search`, `Archive`, `Extraction`, `ZipLayout`,
  `ZipPacking`, `ApkExtract`, `ConfigText`, `ConfigFile`);
- streaming SHA-1 (`Fips180`, `Sha1`, `Sha1Example`), the bionic argument-word formatter
  (`VFormat`, `Formatter`), the path policy (`PathPolicy`) and in-place substring removal
  (`StringEdit`, `Buffers`).

Each component has a specification on values (functions) and, where the code works by
changing state, the code itself as methods over arrays and object fields. The `ensures`
of such a method ties its new state to the specification functions; the lemmas say what
those functions promise over all inputs, all runs or all reachable states. Beside them
stand laws that fix each function in other terms: the encoding of an instruction, the
layout of an archive, the calls of a frame, known digests and characters.

`dafny verify dfyconfig.toml` checks the whole project.

## How to read the models

- Machine words are bounded integers (`Words.Word`), with wrap-around written out. The
  methods test and select with the masks of the source, through the bitwise operators of
  `Bitwise`; the specifications use remainders and quotients, and lemmas beside the masks
  prove the two equal. A shift by a constant is a product or quotient by a power of two.
  The words of SHA-1 are bit-vectors.
- Memory is the whole 32-bit address space, byte by byte. Relocations may name any
  address, aligned or not, and wrap around it; words apart from each other share no byte.
- The ARM semantics (`ArmIsa`) covers B, LDR (immediate and literal) and LDM/LDMIA with
  condition AL, as sections A8.8.18, A8.8.58, A8.8.63 and A8.8.64 of DDI 0406C define
  them. `None` stands for UNPREDICTABLE, a switch to Thumb state, and anything else
  outside the subset.
- A storage device gives one answer to each attempt to open or write a file. A run is cut
  where the answers end, so quantifying over sequences of answers is quantifying over all
  interruptions.
- `fatal_error` does not return: the model stops there with an outcome of its own.
- Inflate, CRC-32, `snprintf` for one directive and symbol lookup in another module are
  function parameters.

## Where a promise does not hold

- An LDMIA whose list holds both its base and PC loses the base load, which the
  trampoline emits after the load of PC. `Trampoline.LostBaseLoad` says exactly when the
  result is still the LDMIA's: when the base would not have changed.
  `Trampoline.LostBaseExample` runs the word 0xE8908001 in a memory where it fails.
- `B_OFFSET(dst)` adds 8 to a pointer to words, hence 32 bytes, and the cave test measures
  from the start of the cave. So a block can be granted where B does not arrive.
  `CodeArena.ServesTextIff` says for which loaded segments this never happens: those whose
  lowest site admitted by the cave test reaches the last block of the cave. Every
  alignment up to 2^23 is such a case (`CodeArena.LayoutIsWithinReach`), a short text in a
  segment aligned to 2^25 too (`CodeArena.LargeCaveInReach`); in a text of 32 MB aligned
  to 2^24 a site is granted a trampoline that its branch does not reach
  (`CodeArena.CaveOutOfReach`). `Meaning.LoadedServesCodeIff` gives the condition for
  trampolines of all lengths.
- `so_alloc_arena` rounds the last three sizes below 2^32 down to zero
  (`CodeArena.ReservesEnoughIff`), and the cave ends with the mapped block exactly when
  that block ends on a word (`CodeArena.CaveEndsWithBlockIff`): the cave of a block without
  padding that ends one byte past a word ends three bytes too far (`CodeArena.CaveMissesEnd`).
- Resolving twice adds a linked module's address twice for an ABS32 import:
  `Relocation.ResolveIdempotentIff` gives the exact condition and
  `Relocation.SecondResolveAdds` a module with one such import; a lone module is safe.
- A format cut inside a directive reads a double that was not passed: `strchr` finds the
  NUL of its own list of float conversions. This happens exactly when the walk of the
  format comes to a percent sign with nothing but flags, at most 29, behind it
  (`VFormat.CutIff`, `VFormat.CutReadsDouble`): "%" and "%5" are cut, "%%" and "%5%" are
  not (`VFormat.CutExamples`, `VFormat.WholeExamples`).
- The configuration edit is not atomic. `ConfigFile.AtomicIff` gives the exact condition
  for every file, present or absent; `ConfigFile.EditIsNotAtomic` is a file that one failed
  write leaves empty.
- `str_replace` writes past its buffer exactly from results of 1024 characters on, or for
  an empty needle with a replacement, and past the target when that is too small
  (`StringEdit.StrReplace`).

## Model

| member | source | states |
|---|---|---|
| Bitwise.BitOfAnd | lib/so_util/so_util.c:653-659 | a bit of a masked word is set exactly when it is set in both words |
| Bitwise.BitOfOr | src/apk_extract.c:20-24 | a bit of joined words is set exactly when it is set in one of them |
| ArmIsa.BranchReachesIff | lib/so_util/so_util.c:52 | the word built by the B macro branches to its destination exactly when the word distance, less the pipeline's two words, fits 24 signed bits |
| ArmIsa.DecodeLoadWord | lib/so_util/so_util.c:53 | the word built by LDR_OFFS decodes to an LDR of that register from that base and offset |
| ArmIsa.LdmEncoding | lib/so_util/so_util.c:715 | a word decodes to LDMIA of that base and list exactly when it is 0xE8900000 plus the two fields |
| ArmIsa.FirstSlot | lib/so_util/so_util.c:658-672 | LDMIA reads the first listed register at the base |
| ArmIsa.NextSlot | lib/so_util/so_util.c:658-672 | and every other one a word after the one listed before it |
| ArmIsa.WordIsItsBytes | lib/so_util/so_util.c:647-688 | a word in memory is its four bytes, the least significant at its address |
| ArmIsa.BranchToItself | lib/so_util/so_util.c:52 | 0xEAFFFFFE, wherever it stands, is the word the B macro builds for a branch to itself, and stays there |
| ArmIsa.LoadOfTwo | lib/so_util/so_util.c:53 | 0xE5912004, the word LDR_OFFS builds for r2, r1 and 4, loads r2 from the word after the one r1 points to |
| ArmIsa.JumpToNextWord | lib/so_util/so_util.c:674-675 | 0xE51FF004 jumps to the address in the next word, into Thumb state if that is odd |
| CodeArena.AllocateIsSound | lib/so_util/so_util.c:626-645 | a granted block is word-aligned, is taken from the unused part of one arena, and moves no other head; a refusal changes nothing |
| CodeArena.GrantedFirstFit | lib/so_util/so_util.c:626-645 | a request is granted from the patch arena exactly if that has room and the destination lies ahead of it in range, else from the cave exactly if that has room and lies ahead of the destination in range, else refused |
| CodeArena.ReservesEnoughIff | lib/so_util/so_util.c:634 | at least the requested size is reserved exactly for sizes whose rounding does not wrap |
| CodeArena.AllocationsAreDisjoint | lib/so_util/so_util.c:626-645 | over any sequence of allocations the blocks are aligned, pairwise disjoint and inside the two arenas |
| CodeArena.CaveEndsWithBlockIff | lib/so_util/so_util.c:158-198 | the cave starts at or after the text, is smaller than the alignment, and ends with the mapped block if and only if the block ends on a word |
| CodeArena.CaveMissesEnd | lib/so_util/so_util.c:178-198 | a mapped block without padding that ends one byte past a word has a cave that ends three bytes behind it |
| CodeArena.GrantIsReachedIff | lib/so_util/so_util.c:626-682 | for a site between the arenas, with a cave of at most 2^31 bytes, a block granted to it is a branch target if and only if it begins at most 0x2000004 bytes above the site: the patch arena is always in reach |
| CodeArena.OutOfReach | lib/so_util/so_util.c:626-682 | when the lowest site that the cave test admits does not reach the last block of the cave, and all other space is taken, that site is granted that block |
| CodeArena.ServesIff | lib/so_util/so_util.c:626-682 | for any two arenas around a text and any code length, every block granted to the text, whatever was allocated before, is a branch target if and only if that site reaches that block |
| CodeArena.AlignmentMasks | lib/so_util/so_util.h:12 | for a power of two, ALIGN_MEM and the split of an address into its aligned part and offset are what their masks compute |
| CodeArena.SizesAreLeast | lib/so_util/so_util.c:164-198 | the patch arena is the least multiple of the alignment from 64 KB on, the mapped block the least that holds the text, and the cave the whole words that remain |
| CodeArena.FreshIsWellFormed | lib/so_util/so_util.c:158-198 | the arenas of a loaded segment are aligned, disjoint and inside the address space, and the cave begins with the first whole word after the text |
| CodeArena.ServesTextIff | lib/so_util/so_util.c:158-198 | the same for the text of any segment as it is loaded |
| CodeArena.LayoutIsWithinReach | lib/so_util/so_util.c:158-198 | the condition holds, for any code length, for a segment aligned to at most 2^23 |
| CodeArena.LargeCaveIsLoaded | lib/so_util/so_util.c:158-198 | the arenas of a text of 4 KB in a segment aligned to 2^25 |
| CodeArena.LargeCaveInReach | lib/so_util/so_util.c:626-682 | there every block granted to the text is a branch target, although the cave takes almost 32 MB |
| CodeArena.FarCaveIsLoaded | lib/so_util/so_util.c:158-198 | the arenas of a text of 32 MB in a segment aligned to 2^24 |
| CodeArena.CaveOutOfReach | lib/so_util/so_util.c:626-682 | there some site of the text is granted twelve bytes that its branch does not reach |
| Trampoline.TrampolineFitsBuffer | lib/so_util/so_util.c:647-675 | at most 18 of the 20 words of the buffer are used: one load for each listed register and two for the jump |
| Trampoline.AcceptedIff | lib/so_util/so_util.c:715 | the words the scan patches are exactly those that decode to LDMIA with a base from r0 to r12 |
| Trampoline.InstalledDecodes | lib/so_util/so_util.c:658-688 | the patched branch and the emitted words, once in memory, decode to the branch, the loads with their offsets, and the literal jump to the next instruction |
| Trampoline.OrderBeforeJump | lib/so_util/so_util.c:658-672 | the loads that run cover the list, PC is the last of them when it is listed, and the base is loaded last otherwise |
| Trampoline.RunToEnd | lib/so_util/so_util.c:658-675 | code that loads no PC ends at the instruction after the site, with exactly the listed registers loaded |
| Trampoline.RunToLoadedPc | lib/so_util/so_util.c:658-672 | code that loads PC leaves at that load; what follows it does not run |
| Trampoline.TrampolineMeansLdmia | lib/so_util/so_util.c:647-688 | for every accepted word whose list is not empty and does not hold both base and PC, running the branch, the loads and the jump gives the registers and next PC of the LDMIA |
| Trampoline.LostBaseLoad | lib/so_util/so_util.c:658-672 | with base and PC both listed the result is the LDMIA's if and only if the base would have kept its value |
| Trampoline.LostBaseExample | lib/so_util/so_util.c:658-672 | the word 0xE8908001 with its trampoline installed in a given memory does not do what the LDMIA does |
| SoModule.Module.constructor | lib/so_util/so_util.c:164-198 | a loadable segment leaves both arenas unused and well-formed, and with an alignment up to 2^31 they lie around the text, the cave beginning with the first whole word behind it |
| SoModule.Module.RoundSize | lib/so_util/so_util.c:634 | adding three and masking the low bits rounds a size up to a whole word, wrapping around at the end |
| SoModule.Module.AllocArena | lib/so_util/so_util.c:626-645 | the new heads and the result are those of the allocation function |
| SoModule.Module.BuildTrampoline | lib/so_util/so_util.c:647-675 | the buffer holds exactly the trampoline words, whatever list and base the instruction has |
| SoModule.Module.EmitLoads | lib/so_util/so_util.c:658-672 | the loop over the sixteen mask bits emits the loads in their order, the base held back to the end |
| SoModule.Module.TrampolineLdm | lib/so_util/so_util.c:647-689 | memory and arenas become those of patching one site; no space is the fatal outcome |
| SoModule.Module.FixLdmia | lib/so_util/so_util.c:710-719 | for any symbol address, aligned or not, from which the loop does not step over the end of the address space, memory and arenas are those of the scan from the function's first word |
| SoModule.ScanPatchesAcceptedWords | lib/so_util/so_util.c:711-719 | a completed scan patched exactly the accepted words, each still with its own patch in place, and changed no byte besides them and newly allocated code |
| SoModule.PatchStays | lib/so_util/so_util.c:711-719 | later patches to other words of the text, by this scan or another, leave an earlier branch and trampoline alone |
| SoModule.ScanMakesPatches | lib/so_util/so_util.c:678-685 | when the arenas serve the text, every patch of a completed scan is the trampoline of its word, with a branch that arrives at it |
| Meaning.SiteMeans | lib/so_util/so_util.c:647-688 | in memory where every patch is in place and nothing else changed, running a patched site whose list is not empty and does not hold both base and PC, on data outside the patched code, does what its LDMIA did on the original memory |
| Meaning.RunMeans | lib/so_util/so_util.c:647-719 | every run of the original code that reads no patched code, and at patched sites meets such lists, has a run of the patched code with the same end |
| Meaning.ScanPreservesMeaning | lib/so_util/so_util.c:647-719 | after a completed scan every such site means its LDMIA |
| Meaning.FixedIsPatched | lib/so_util/so_util.c:710-719 | after any functions of a text, each beginning on a word, are fixed one after another, whatever their order or overlap, exactly their accepted words are patched, each patch is in place, and no other byte changed outside new code |
| Meaning.FixedIsRewritten | lib/so_util/so_util.c:710-719 | every word of those functions that decoded to LDM with a base below r13 is now a branch to new code that loads the registers of its list, each from where the LDM finds it, and jumps to the next word; every other byte outside new code is the same |
| Meaning.ScanCompletes | lib/so_util/so_util.c:647-719 | with 72 bytes of the patch arena left for each such word, and the arena within range, a scan completes |
| Meaning.FreshTextIsApart | lib/so_util/so_util.c:192-198 | the text of a loaded segment lies outside both arenas, even where the cave begins right behind it |
| Meaning.LoadedServesCodeIff | lib/so_util/so_util.c:158-198 | in a loaded segment the trampolines of all lengths are always in reach if and only if a trampoline of two words at the end of the cave is in reach of the lowest site that the cave test admits |
| Meaning.LoadedScanPreservesMeaning | lib/so_util/so_util.c:158-719 | under exactly that condition on the segment as it is loaded, a fixed function of its text that begins on a word means the original at every site |
| Meaning.LoadedFixPreservesRuns | lib/so_util/so_util.c:158-719 | and after any number of its functions have been fixed, every run of the original code that reads no patched code and repeats at the patched sites has a run of the fixed code with the same end |
| Meaning.FixAll | lib/so_util/so_util.c:710-719 | fixing one function after another leaves memory and arenas as the scans in that order do; a fatal outcome is theirs too |
| Meaning.LoadAndFix | lib/so_util/so_util.c:158-719 | loading a segment and fixing some of its functions gives the memory of those scans on the fresh arenas; if the segment keeps its trampolines in reach and the functions lie in its text, exactly their LDM instructions are rewritten |
| Relocation.ApplyPointwise | lib/so_util/so_util.c:356-389 | patches to words that share no byte each act on the original word |
| Passes.PassesCommute | lib/so_util/so_util.c:354-546 | two passes whose steps commute pairwise commute as a whole |
| Relocation.BaseIsAdded | lib/so_util/so_util.c:394-414 | after the RELR pass a word that each slot either is or is apart from has the base added once for each time the table denotes it |
| Relocation.AddTimesIsModulo | lib/so_util/so_util.c:399-408 | that total is the sum modulo 2^32 |
| Relocation.BitmapMembers | lib/so_util/so_util.c:391-412 | a bitmap denotes exactly the words whose bits 1 to 31 are set, each once and in increasing order of distance from the cursor |
| Relocation.TableIsItsEntries | lib/so_util/so_util.c:394-414 | the table denotes the slots of its entries in order, where a bitmap begins one word after the last address entry and 31 more for each bitmap between them |
| Relocation.SlotIff | lib/so_util/so_util.c:394-414 | a word is a slot of the table exactly when it is the word of an address entry, or for some bitmap with bit b from 1 to 31 set it is 31 words for each bitmap between, plus b, after the last address entry |
| Relocation.SecondBitmap | lib/so_util/so_util.c:394-414 | with the module at 0x98000000 the table [0x100, 3, 3] denotes 0x98000100, 0x98000104 and 0x98000180 |
| Relocation.UsableIff | lib/so_util/so_util.c:394-404 | short of the end of the address space, the table fails if and only if a bitmap comes first, and then denotes nothing |
| Relocation.AlignedModule | lib/so_util/so_util.c:354-414 | in a module whose tables name aligned words, an aligned word is one of those words or shares no byte with it |
| Relocation.IncreasingHitsOnce | lib/so_util/so_util.c:391-414 | a table denoting increasing addresses denotes each of its words once, and no other word |
| Relocation.LinkIsFirstOffer | lib/so_util/so_util.c:419-442 | the link is the address offered by the least pair of needed name and other module of that name, and 0 if and only if no pair offers one |
| Relocation.RelocateResolveCommute | lib/so_util/so_util.c:354-546 | when the words of the entries share no byte with one another or with a RELR word, relocating and resolving may be done in either order |
| Relocation.EntryIsFinal | lib/so_util/so_util.c:354-546 | after both passes a defined symbol's word is base plus value (plus addend for ABS32), an undefined one's the first table match, else the link, else the stub for a jump slot, else unchanged |
| Relocation.RelIsFinal | lib/so_util/so_util.c:354-546 | the same for a raw entry by the type numbers of the ARM ELF ABI, with the first table match, the link and the stub told apart |
| Relocation.KnownIff | lib/so_util/so_util.c:363-386 | the types that both passes accept are 0, 2, 21, 22 and 23 |
| Relocation.LastEntryDecides | lib/so_util/so_util.c:356-389 | entries act in their order: when several name one word, whatever came before, the last GLOB_DAT or JUMP_SLOT with a defined symbol decides |
| Relocation.ConstantsResolveOnce | lib/so_util/so_util.c:488-546 | however the words of the entries overlap, a module in which no ABS32 import is bound to a linked module alone resolves idempotently |
| Relocation.LoneModuleResolvesOnce | lib/so_util/so_util.c:488-546 | a module with no other module to link to resolves idempotently, however its entries overlap |
| Relocation.OtherWordIsKept | lib/so_util/so_util.c:354-546 | every word apart from the REL tables has only the base added, as often as RELR denotes it |
| Relocation.OtherByteIsKept | lib/so_util/so_util.c:354-546 | a byte of no entry's word and of no RELR word is never changed, whatever overlaps elsewhere |
| Relocation.ResolveIdempotentIff | lib/so_util/so_util.c:488-546 | when the words of the entries are apart from one another, resolving again changes no byte of memory if and only if no ABS32 import is bound to a linked module alone |
| Relocation.SecondResolveAdds | lib/so_util/so_util.c:508-514 | in a module with one such import, each resolve adds the address once more |
| Linker.Image.AddBaseAt | lib/so_util/so_util.c:399-400 | one word, at any address, receives the base |
| Linker.Image.ApplyBitmap | lib/so_util/so_util.c:405-412 | the loop over the bits adds the base to exactly the words the bitmap denotes, in order |
| Linker.Image.ApplyEntry | lib/so_util/so_util.c:395-413 | one entry covers the slots it denotes and leaves the cursor where the next bitmap begins; a bitmap at a null cursor is refused |
| Linker.Image.ApplyRelr | lib/so_util/so_util.c:394-414 | memory is that of the denoted slots up to a failure; it returns -1 exactly when a bitmap meets a null cursor |
| Linker.Image.RelocateWord | lib/so_util/so_util.c:363-388 | the switch changes the one word as its type demands, and only a type outside the five is unknown |
| Linker.Image.RelocateEntry | lib/so_util/so_util.c:356-389 | after entry i memory is that of one patch more |
| Linker.Image.Relocate | lib/so_util/so_util.c:354-417 | memory is that of the REL patches and the RELR pass; the first unknown type is fatal, with the earlier entries applied |
| Linker.ResolveLink | lib/so_util/so_util.c:419-442 | the two nested loops return the first export found |
| Linker.ResolveWord | lib/so_util/so_util.c:505-536 | the word of an undefined import is the one specified: the table overrides the link, the stub is the last resort |
| Linker.Image.ResolveEntry | lib/so_util/so_util.c:490-543 | after entry i memory is that of one patch more, and only an undefined import gets another word |
| Linker.Image.Resolve | lib/so_util/so_util.c:488-546 | memory is that of the resolving patches |
| Unicode.EncodedCharReadsBack | lib/FalsoJNI/converter.c:151-271 | what one code point is encoded to is read back whole, whatever follows, and meets the grammar |
| Unicode.CharDecodes | lib/FalsoJNI/converter.c:207-271 | a character of the RFC 3629 grammar is decoded to the value whose encoding it is |
| Unicode.Decode16UndoesEncode | lib/FalsoJNI/converter.c:86-322 | decoding UTF-16 undoes encoding on every sequence of scalar values |
| Unicode.Decode8UndoesEncode | lib/FalsoJNI/converter.c:151-271 | decoding UTF-8 undoes encoding, and everything encoded is well-formed |
| Unicode.RoundTrip8 | lib/FalsoJNI/converter.c:180-342 | UTF-8 to UTF-16 and back is the identity if and only if the bytes are well-formed by section 4 of RFC 3629; the result always is, and a second pass leaves it alone |
| Unicode.RoundTrip16 | lib/FalsoJNI/converter.c:180-342 | UTF-16 to UTF-8 and back replaces each unpaired surrogate by U+FFFD and changes nothing else |
| Unicode.To16IsNotLonger | lib/FalsoJNI/converter.c:325-342 | UTF-8 never needs more UTF-16 units than it has bytes |
| Unicode.KeptFits | lib/FalsoJNI/converter.c:155-157 | a bounded buffer receives whole encodings of a subsequence of the code points, never more than it holds, and all of them when it is big enough |
| Unicode.AsciiSurvives | lib/FalsoJNI/converter.c:180-342 | each ASCII character survives either conversion in order, whatever surrounds it |
| Unicode.BytesSortAsScalars | lib/FalsoJNI/converter.c:125-178 | the UTF-8 encodings of two scalar values sort as the values do |
| Unicode.UnitsSortAsScalars | lib/FalsoJNI/converter.c:275-322 | a scalar value up to 0xFFFF is one unit, any other a high and a low surrogate, and pairs sort as the values do |
| Unicode.KnownCharacters | lib/FalsoJNI/converter.c:125-322 | the forms of U+20AC and U+1F600 |
| Unicode.BrokenCharIsReplaced | lib/FalsoJNI/converter.c:207-271 | where no character stands, one U+FFFD takes the leading byte and the continuation bytes behind it, at most as many as it announces |
| Unicode.KeptOneMore | lib/FalsoJNI/converter.c:151-178 | one more code point is written whole if there is room left for it and dropped otherwise |
| Unicode.Decode8Resumes | lib/FalsoJNI/converter.c:325-342 | whatever stands before a byte that is no continuation, decoding goes on from there as if it stood alone |
| Unicode.Decode16Resumes | lib/FalsoJNI/converter.c:180-205 | so it does in UTF-16, unless a surrogate pair is cut |
| Converter.SurrogateTests | lib/FalsoJNI/converter.c:18-35 | the surrogate masks test exactly for surrogates, high and low ones, and select the ten value bits |
| Converter.ContinuationTests | lib/FalsoJNI/converter.c:47-52 | the continuation mask tests exactly for continuation bytes, and its complement selects their six bits |
| Converter.PatternTests | lib/FalsoJNI/converter.c:63-72 | a leading byte matches the n-th pattern exactly when it announces n bytes, and the complement of the mask selects its value bits |
| Converter.DecodeUtf16 | lib/FalsoJNI/converter.c:86-121 | the code point and the index left are those of the decoding function |
| Converter.EncodeUtf8 | lib/FalsoJNI/converter.c:151-178 | the whole encoding is written at the index if it fits, and nothing otherwise |
| Converter.WriteForm | lib/FalsoJNI/converter.c:159-175 | writing backwards puts the bytes of the encoding at the index and changes nothing else |
| Converter.Utf16ToUtf8 | lib/FalsoJNI/converter.c:180-197 | a null buffer returns the length of the whole text; a buffer receives the text it has room for, is not touched beyond it, and its length is returned |
| Converter.MatchLead | lib/FalsoJNI/converter.c:211-229 | the loop finds the only pattern the leading byte has |
| Converter.DecodeUtf8 | lib/FalsoJNI/converter.c:207-271 | the code point and the index left are those of the decoding function, for every malformed form too |
| Converter.CheckBits | lib/FalsoJNI/converter.c:253-270 | overlong forms, surrogates and values beyond Unicode become the replacement, all others stay |
| Converter.EncodeUtf16 | lib/FalsoJNI/converter.c:292-322 | one unit or a pair is written if it fits, and nothing otherwise |
| Converter.Utf8ToUtf16 | lib/FalsoJNI/converter.c:325-342 | as Utf16ToUtf8, in the other direction |
| Converter.MeasuredBufferIsEnough | lib/FalsoJNI/FalsoJNI.c:1294 | a measured buffer receives the whole text, and one unit for each byte drops nothing |
| Resampler.MixIsBetween | src/main.c:566-567 | an interpolated value lies between its neighbours, so the cast to int16_t is exact |
| Resampler.MixIsTruncated | src/main.c:566-567 | the step is the product divided by 44100, truncated toward zero |
| Resampler.OutputIsInterpolated | src/main.c:556-568 | for output k, with source and fraction the quotient and remainder of k * 48000 by 44100, its distance from the sample before the source is the fraction of the step to the source, in 44100ths and truncated toward zero; it lies between the two |
| Resampler.BlockBoundary | src/main.c:561-570 | the outputs that fall in block n are those from ceil(3528 n / 5) up to ceil(3528 (n + 1) / 5), at most 706 of them |
| Resampler.OutputsAreStable | src/main.c:556-571 | more input does not change the outputs already determined |
| Resampler.BlockPosition | src/main.c:561-570 | the position inside a block is the position in the whole stream, with the same fraction |
| Resampler.Microphone.LoadBlock | src/main.c:556-560 | the carried sample and the block are the block's stretch of the delayed stream |
| Resampler.Microphone.NextSample | src/main.c:562-567 | the value is the whole-stream output at its position |
| Resampler.Microphone.Resample | src/main.c:561-570 | on a phase below 48000 and a queue below 256 the loop appends exactly the block's outputs; the queue bound never cuts it and the subtraction never wraps |
| Resampler.Microphone.Deliver | src/main.c:573-580 | whole blocks of 256 leave the front of the queue; delivered blocks and queue together stay the same stream |
| Resampler.Microphone.ProcessBlock | src/main.c:556-580 | one turn keeps the invariant: phase below 48000, fewer than 256 queued, everything delivered and queued is the whole-stream output |
| Resampler.Capture | src/main.c:519-581 | for any number of blocks, delivered blocks of 256 followed by the queue are exactly the whole-stream interpolation of all the input |
| Pointers.TrackIsProtocol | src/main.c:901-1087 | following a pointer finds a fault exactly when some call does not fit the one before it about that pointer |
| Pointers.FingersKeepTheirSlots | src/main.c:901-954 | after a frame the count is the number of active slots, each active slot shows its finger's last report, and a finger keeps its slot exactly while it is reported |
| Pointers.RackStaysOnRail | src/main.c:983-1018 | a swipe stays within its rail and the clamp never acts |
| Pointers.ControlFrameAgrees | src/main.c:958-1085 | one frame keeps grabbed and pending apart and each synthetic pointer where the state says; an active swipe means enabled controls and no touch, and disabled controls leave none down |
| Pointers.FrameKeepsInvariant | src/main.c:901-1087 | every frame keeps the invariant of the touch slots and the controls together |
| Pointers.EveryRunObeys | src/main.c:901-1087 | on every run every pointer id's calls form begin, moves, end, and each end repeats the coordinates before it |
| FrameCalls.DisabledFrame | src/main.c:958-981 | controls that are off make no call until TRIANGLE is pressed |
| FrameCalls.SwitchingOff | src/main.c:967-981 | a fresh TRIANGLE switches them off and ends both pointers where they are |
| FrameCalls.StickMoves | src/main.c:983-1018 | the stick begins a swipe at the centre and moves it by 2 rows and one more for each 24 beyond its dead zone, starting again where it would leave the rail; it ends with the stick |
| FrameCalls.StartFrame | src/main.c:958-1035 | START taps play or stop, after ending a drag; a tap is lifted in the next frame before anything else |
| FrameCalls.SelectFrame | src/main.c:958-1040 | SELECT without START taps machine management and moves the focus to the first machine |
| FrameCalls.GrabFrame | src/main.c:958-1085 | a fresh CROSS begins a drag at the focus, which a direction held moves on by 3 in the same frame |
| FrameCalls.LetGoFrame | src/main.c:958-1085 | a second one ends it, and the directions move the focus |
| FrameCalls.PlainFrame | src/main.c:958-1085 | without either, held directions move the drag by 3 each, or pressed and repeating ones the focus by 24, within the screen |
| FrameCalls.RunStaysOnScreen | src/main.c:895-1090 | on every run the focus and the drag stay on the screen |
| FrameCalls.ReportCall | src/main.c:908-944 | a report moves its finger's pointer, else begins one in the first free slot, else is dropped |
| FrameCalls.FingerGetsSlot | src/main.c:901-954 | a finger among the first eight reports has a slot afterwards, unless every slot was or is taken |
| FrameCalls.TouchCalls | src/main.c:901-954 | after the calls of the reports come exactly the ends of the fingers no longer reported, where they last were |
| FrameCalls.UntouchedRun | src/main.c:895-1090 | while nobody touches the panel a frame does to the controls what buttons and stick alone make of them |
| FrameCalls.FirstGrab | src/main.c:895-1090 | TRIANGLE, then CROSS: the run begins pointer 8 at (480, 272) and makes no other call |
| FrameLoop.Loop.ChooseSlot | src/main.c:910-929 | the slot is the finger's own, else the first free one, else none |
| FrameLoop.Loop.TakeReport | src/main.c:908-944 | slots, count and calls are those of one report; a report without a slot changes nothing |
| FrameLoop.Loop.ReadTouches | src/main.c:901-954 | the slots, the count and the calls are those of the touch part of a frame |
| FrameLoop.Loop.ToggleControls | src/main.c:967-981 | the fields and calls are those of the toggle |
| FrameLoop.Loop.SwipeRack | src/main.c:983-1018 | the fields and calls are those of the rack swipe |
| FrameLoop.Loop.TapButton | src/main.c:1020-1040 | the fields and calls are those of a transport tap |
| FrameLoop.Loop.PressCross | src/main.c:1042-1052 | a cross press drops a drag, or starts one at the focus unless a tap is pending |
| FrameLoop.Loop.MoveDirection | src/main.c:1061-1082 | one direction moves the drag or the focus within the screen and keeps its hold count |
| FrameLoop.Loop.MoveDirections | src/main.c:1054-1085 | the focus, the drag and the one move at the end are those of the directions |
| FrameLoop.Loop.RunControls | src/main.c:958-1087 | the fields and calls of everything after the touch panel are those of the control part of a frame |
| FrameLoop.Loop.RunFrame | src/main.c:901-1087 | the whole new state is that of the frame function |
| FrameLoop.RunFrames | src/main.c:895-1090 | the loop on any sequence of frames makes calls that obey the protocol for every pointer |
| Segments.SplitJoins | src/reimpl/path_policy.c:15-27 | splitting a path loses nothing and leaves no separator in a segment |
| Archive.BytesJoin | src/apk_extract.c:20-24 | joining the shifted bytes is the little-endian number |
| Archive.EndFromIsLast | src/apk_extract.c:287-292 | the end record found is the last signature that leaves room for a record, and none is found only if there is none |
| Archive.HeaderAfterSum | src/apk_extract.c:307-335 | the k-th central header is at the directory's offset plus the sizes of the earlier records |
| Archive.AssetIsBelow | src/apk_extract.c:336-352 | every path the walk writes is the destination followed by plain segments, and fits the buffer |
| Archive.AssetStaysBelow | src/apk_extract.c:336-352 | for a destination that ends in a slash, following such a path from any directory leads to the destination and from there down exactly the path's own segments |
| ZipLayout.SafeIff | src/apk_extract.c:26-40 | a relative path is safe exactly when no segment between slashes is empty, "." or ".." and it holds no backslash and no colon |
| ZipLayout.PayloadIff | src/apk_extract.c:358-395 | an entry laid out by section 4.3 of APPNOTE has its content as payload exactly when its data, behind the local header, name and extra field, is that content stored or deflated, and size and checksum agree |
| ZipLayout.StepOfEntry | src/apk_extract.c:307-406 | its header fails the run, is skipped, or yields the asset at the destination followed by what comes after "assets/demo/" in its name |
| ZipLayout.PlanOfZip | src/apk_extract.c:287-356 | an archive makes the run take exactly the steps of its entries, in order |
| ZipLayout.ReadableIff | src/apk_extract.c:280-305 | a file is read exactly if it has an end record that leaves room for a header at the directory's offset |
| ZipLayout.HeadersAreThere | src/apk_extract.c:307-366 | no entry is taken without a signed header that lies in the file, and no data without a signed local header |
| Extraction.WriteFileLeavesPrefix | src/apk_extract.c:65-79 | whatever the device answers, a written file holds the prefix of the data that was accepted before the first failure, all of it exactly on success |
| Extraction.RightSizeIsComplete | src/apk_extract.c:81-85 | in a reachable state a file of the right size has the right content |
| Extraction.AssetWriteIsSound | src/apk_extract.c:395-397 | a write cut anywhere disturbs no other asset and no other file |
| Extraction.WalkIsSound | src/apk_extract.c:307-409 | from any entry on, a run cut anywhere keeps every asset absent, a prefix or the foreign file it was, undoes no complete entry, and reports success only with the marker in place |
| Extraction.RunsAreSound | src/apk_extract.c:268-419 | after any number of interrupted runs every asset is absent, a prefix of its content or the first file of another size; the marker is there only when all entries are complete; no other file changed |
| Extraction.NextRunCompletes | src/apk_extract.c:268-419 | after any interrupted runs, one run on a device that does not fail completes every entry and writes the marker |
| Extraction.PlanIsWellFormed | src/apk_extract.c:268-356 | for a destination that is no prefix of the marker's path and an archive that names no file twice, these results apply to what the archive makes the run do |
| Extraction.WalkMarks | src/apk_extract.c:407-418 | a walk that succeeds has left "ok" and a newline in the marker |
| Extraction.MarkerEndsExtraction | src/apk_extract.c:268-285 | once the marker is there no run changes a file |
| Extraction.SessionEnds | src/apk_extract.c:268-419 | a run that is not cut returns 0 or -1: at once 0 if the marker is there, else 0 only if every header could be read |
| Extraction.BadHeaderFails | src/apk_extract.c:307-419 | on a device that does not fail, a header that cannot be read makes the run return -1 |
| ZipLayout.ExtractsArchive | src/apk_extract.c:268-419 | after any interrupted runs, one run on a device that does not fail leaves every asset of an archive at its place with its own content, and no other file changed |
| ZipLayout.FirstRunSucceeds | src/apk_extract.c:268-419 | a first run that is not interrupted returns success and writes the marker |
| ZipPacking.PackedIsZip | src/apk_extract.c:287-356 | files packed one behind the other, stored, are such an archive |
| ZipPacking.PackedComesBack | src/apk_extract.c:268-419 | files packed under "assets/demo/" come back: one run on an empty device that does not fail leaves each at the destination under the rest of its name, with its own content |
| ApkExtract.UnsafeRelativePath | src/apk_extract.c:26-40 | a path is refused exactly when a segment is empty, "." or "..", or it holds a backslash or a colon |
| ApkExtract.Storage.WriteFile | src/apk_extract.c:65-79 | the file and the outcome are those of writing piece by piece |
| ApkExtract.Storage.FindEnd | src/apk_extract.c:287-292 | the loop finds the last end record that fits |
| ApkExtract.Storage.ReadCentral | src/apk_extract.c:308-318 | a header is read only with its signature, and its fields and the sizes behind it are those at the cursor |
| ApkExtract.Storage.ReadPayload | src/apk_extract.c:358-395 | the checked content of an entry, or nothing if any check fails |
| ApkExtract.Storage.ExtractNamed | src/apk_extract.c:336-406 | names outside the assets are skipped, unsafe or long ones end the run, a file of the right size is kept, and the cursor is restored |
| ApkExtract.Storage.ExtractListed | src/apk_extract.c:319-334 | limits are checked before the name is read, and the next header must lie in the file |
| ApkExtract.Storage.ExtractEntry | src/apk_extract.c:307-407 | one turn does what its header says, and whatever branch it takes the cursor ends at the next header |
| ApkExtract.Storage.WalkDirectory | src/apk_extract.c:302-413 | the loop over the directory and the marker after it do what the specified walk does |
| ApkExtract.Storage.Extract | src/apk_extract.c:268-419 | the files and the result of a whole run are those of the specified session |
| ConfigText.SearchFindsFirst | src/apk_extract.c:223-228 | for a newline-free key, skipping by its length misses no occurrence at the start of a line |
| ConfigText.LinesConcat | src/apk_extract.c:223-259 | a text is its lines put together |
| ConfigText.EditIsLineUpdate | src/apk_extract.c:223-259 | on NUL-free text the edit is the keyed update of its lines: the first line with the key is replaced in place, or the line is appended after closing the last one |
| ConfigText.UpdatedLineIsFirst | src/apk_extract.c:223-259 | the first line with the key is then the given one, where the replaced one was or at the end |
| ConfigText.OtherKeyIsKept | src/apk_extract.c:223-259 | a key of which neither is a prefix of the other keeps its first line |
| ConfigText.EditIsIdempotent | src/apk_extract.c:223-259 | editing twice gives the same text as editing once |
| ConfigText.EditReplacesLine | src/apk_extract.c:223-259 | the first line with the key, and its newline, is replaced in place and nothing else is; but a NUL that cuts the line cuts the file after it too |
| ConfigText.EditAppendsLine | src/apk_extract.c:223-259 | without one the line is appended to the file, behind a newline if that does not end in one |
| ConfigFile.FindKey | src/apk_extract.c:223-228 | the loop is the search, for any text and key |
| ConfigFile.Assemble | src/apk_extract.c:230-259 | the buffer holds exactly the edited text |
| ConfigFile.EnsureConfigLine | src/apk_extract.c:195-266 | an absent file is created with the line, one above 64 KiB is refused, any other is rewritten with the edited text |
| ConfigFile.EnsuredOrPrefix | src/apk_extract.c:195-266 | success leaves the edited text; otherwise the file is unchanged or a prefix of it |
| ConfigFile.EnsureSucceeds | src/apk_extract.c:195-266 | a file of more than 65536 bytes is refused and left alone; any other ends with the edited text on a device that does not fail |
| ConfigFile.AtomicIff | src/apk_extract.c:195-266 | the file ends as it was, present or absent, or with the edited text if and only if it is above the limit, or was not opened for writing, or the writes accepted before the first failure cover the edited text, or what they cover is the old text |
| ConfigFile.EditIsNotAtomic | src/apk_extract.c:204-266 | a file of one line is left empty when the first write fails |
| Fips180.PadFillsBlocks | lib/sha1/sha1.c:111-137 | the padding is the shortest that fills whole blocks with a one bit and the length |
| Fips180.LengthReadsBack | lib/sha1/sha1.c:129-137 | the eight length bytes, read most significant first, are the number of bits |
| Fips180.HashOneMore | lib/sha1/sha1.c:21-106 | one more block is one more computation of the hash |
| Sha1.FeedForward | lib/sha1/sha1.c:71-75 | a block's hash is the one before it plus what the 80 rounds make of that |
| Sha1.Sha1Ctx.constructor | lib/sha1/sha1.c:78-91 | a fresh context has absorbed nothing |
| Sha1.Sha1Ctx.ExpandBlock | lib/sha1/sha1.c:25-30 | the array is the message schedule of the standard |
| Sha1.BytesOfWord | lib/sha1/sha1.c:26 | adding the shifted bytes is joining them, most significant first |
| Sha1.Sha1Ctx.ChRounds | lib/sha1/sha1.c:38-45 | the loop makes rounds 0 to 19 |
| Sha1.Sha1Ctx.ParityRounds | lib/sha1/sha1.c:46-69 | the loops make rounds 20 to 39 and 60 to 79 |
| Sha1.Sha1Ctx.MajRounds | lib/sha1/sha1.c:54-61 | the loop makes rounds 40 to 59 |
| Sha1.Sha1Ctx.Transform | lib/sha1/sha1.c:21-76 | the state becomes the hash computation of section 6.1.2 of FIPS 180-2 on one block |
| Sha1.Sha1Ctx.Absorb | lib/sha1/sha1.c:97-104 | one byte is absorbed; the sixty-fourth transforms the block and empties the buffer |
| Sha1.Sha1Ctx.Update | lib/sha1/sha1.c:93-106 | the bytes are absorbed, with fewer than 64 waiting and the bit count exact modulo 2^64 |
| Sha1.Sha1Ctx.FillRest | lib/sha1/sha1.c:111-126 | through either branch, what is left of the padding is one block that ends with the length |
| Sha1.Sha1Ctx.FillWholeBlock | lib/sha1/sha1.c:119-126 | the second padding branch closes a block of its own and leaves room for the length |
| Sha1.Sha1Ctx.LastBlock | lib/sha1/sha1.c:128-138 | the block with the length is the last of the padded message |
| Sha1.Sha1Ctx.PutLength | lib/sha1/sha1.c:130-137 | the shifted bytes of the bit count go into the last eight bytes, most significant first |
| Sha1.Sha1Ctx.ShiftedByte | lib/sha1/sha1.c:143 | shifting by 24 - 8i and masking gives byte i of the word, most significant first |
| Sha1.Sha1Ctx.Output | lib/sha1/sha1.c:142-148 | the loop writes the five words of the state, most significant byte first |
| Sha1.Sha1Ctx.Final | lib/sha1/sha1.c:108-149 | through either padding branch the output is the digest of everything absorbed |
| Sha1.Sha1Of | lib/sha1/sha1.c:21-149 | a message split into updates in any way has the digest of the standard |
| Sha1Example.DigestOfAbc | lib/sha1/sha1.c:21-149 | the digest of "abc" is that of appendix A.1 of FIPS 180-2 |
| VFormat.FetchReadsBack | src/reimpl/fortify.c:82-102 | a directive reads back the argument laid out at its slot and stops where the rest of the layout begins, for either alignment |
| VFormat.DoubleSlot | src/reimpl/fortify.c:95-101 | a double is read at the least multiple of eight at or after the cursor, round the address space |
| VFormat.ExpandAfter | src/reimpl/fortify.c:60-114 | pieces that take the arguments of a call render exactly those, and what follows reads on where the layout ends |
| VFormat.FormatsItsArguments | src/reimpl/fortify.c:60-114 | a format that takes the arguments of a call, laid out by section 5.5 of the AAPCS, renders exactly those arguments |
| VFormat.SmallerHoldsPrefix | src/reimpl/fortify.c:55-115 | a smaller buffer holds a shorter prefix of the same text, closed by a NUL |
| VFormat.CutIff | src/reimpl/fortify.c:72-78 | a NUL-free format ends in a directive without a conversion if and only if its walk comes to a percent sign with nothing but flags behind it, at most 29 |
| VFormat.CutIsLast | src/reimpl/fortify.c:72-78 | that directive, with those flags, is the last piece, and all other pieces have a conversion |
| VFormat.CutReadsDouble | src/reimpl/fortify.c:74-103 | exactly such a format reads one double beyond the arguments of its finished directives: the one in memory at the next multiple of eight behind them |
| VFormat.CutExamples | src/reimpl/fortify.c:72-78 | "%" and "%5" are cut |
| VFormat.WholeExamples | src/reimpl/fortify.c:67-78 | "%%" and "%5%" are not, and take no argument |
| VFormat.DirectiveIsRead | src/reimpl/fortify.c:60-78 | a percent sign, at most 29 flags and a character behind them are read as that directive; two percent signs stand for one |
| VFormat.PlainTextStays | src/reimpl/fortify.c:60-66 | a text without percent signs is printed as it is |
| VFormat.DirectivePrints | src/reimpl/fortify.c:80-114 | each conversion prints its word as a text, a signed or unsigned number or a pointer, or the double at the next multiple of eight, cut to 255 characters; an unknown one prints itself |
| Buffers.StoredFills | src/reimpl/fortify.c:112-118 | a buffer holds the text, or as much of it as leaves a place for the NUL |
| Formatter.ReadFlags | src/reimpl/fortify.c:72-75 | the flags end at the first other character or when the specification buffer is full |
| Formatter.ReadDirective | src/reimpl/fortify.c:72-78 | flags and conversion are those of the piece at the cursor |
| Formatter.PrintDirective | src/reimpl/fortify.c:82-111 | one directive prints what its argument renders to, clipped to 255 characters, and takes its slots |
| Formatter.AppendText | src/reimpl/fortify.c:112-113 | the buffer holds what fits of the longer text, and the length counts all of it |
| Formatter.TakeArgument | src/reimpl/fortify.c:82-101 | the address arithmetic with its mask, wrapping around like the index, yields the argument and the next address |
| Formatter.AndroidVformat | src/reimpl/fortify.c:48-118 | wherever the argument words lie, the result is the length of the whole text whatever the capacity, the buffer holds what fits closed by a NUL; a negative count is returned at once; null or empty buffers give -1 |
| PathPolicy.ParentIsRefused | src/reimpl/path_policy.c:15-56 | a path with a ".." segment is refused with EACCES |
| PathPolicy.OutputIsAllowed | src/reimpl/path_policy.c:58-95 | every output is a data path, a read-only application path or a plain relative name, goes nowhere up, and fits the buffer |
| PathPolicy.AllowedIsFixpoint | src/reimpl/path_policy.c:47-95 | a path is mapped to itself if and only if it is such a path |
| PathPolicy.MapIsIdempotent | src/reimpl/path_policy.c:47-95 | mapping an output again with the same access and size gives it back |
| PathPolicy.MountsMove | src/reimpl/path_policy.c:60-69 | a path below either Android mount is mapped to the rest of it below the data root, or refused with ENAMETOOLONG |
| PathPolicy.OthersStay | src/reimpl/path_policy.c:71-95 | any other path without parent segments stays as it is if it is the data root or below, an application file to be read or a relative name without a colon, and fits; it is refused with ENAMETOOLONG if it does not fit, EROFS for writing to the application, EACCES else |
| PathPolicy.NothingIsInvalid | src/reimpl/path_policy.c:49-52 | EINVAL is the answer exactly to an empty path or an empty buffer |
| PathPolicy.OutputIsContained | src/reimpl/path_policy.c:47-95 | a data path resolves at or below the data root, and no output resolves above where it starts |
| PathPolicy.HasParentSegment | src/reimpl/path_policy.c:15-27 | the loop finds a ".." segment exactly when there is one |
| PathPolicy.CopyChecked | src/reimpl/path_policy.c:29-45 | a path that fits is copied with its NUL, a longer one is cut and refused |
| PathPolicy.MapPath | src/reimpl/path_policy.c:47-95 | the result is the mapping's with its error; a mapped path is in the buffer with its NUL, a path too long leaves what fits, any other refusal leaves the buffer alone |
| StringEdit.KeptIsWhole | src/utils/utils.c:75-87 | the parts a deletion keeps, put back together with the pattern, are the text |
| StringEdit.KeptHoldsNone | src/utils/utils.c:75-87 | no part that is kept holds an occurrence |
| StringEdit.EditsFromStart | src/utils/utils.c:75-114 | a replacement begins at the start of the text |
| StringEdit.LeftmostIsEdited | src/utils/utils.c:75-114 | the leftmost occurrence is replaced, and what follows it edited in the same way |
| StringEdit.NothingIsEdited | src/utils/utils.c:75-114 | a text without an occurrence stays |
| StringEdit.ReplaceByNothing | src/utils/utils.c:75-114 | replacing by nothing is removing |
| StringEdit.RemovedIsShorter | src/utils/utils.c:75-87 | a deletion is no longer than the text |
| StringEdit.ReplaceAgreesWithRemove | src/utils/utils.c:75-114 | a text of at most 1023 characters fits the buffer when every occurrence is replaced by nothing, and becomes what removing makes of it |
| StringEdit.RemoveFound | src/utils/utils.c:78-86 | while the write cursor is at or behind the read cursor, what is written and what must still follow are the result |
| StringEdit.MoveDown | src/utils/utils.c:81-85 | copying down byte by byte over the gap moves the piece and leaves the unread text alone |
| StringEdit.StrRemove | src/utils/utils.c:75-87 | in place, the string becomes the leftmost non-overlapping deletion; the write cursor stays behind the unread text |
| StringEdit.EmptyNeedleStays | src/utils/utils.c:96-111 | an empty needle is found where the search begins, so the loop does not advance |
| StringEdit.OverrunIff | src/utils/utils.c:89-114 | the buffer is overrun exactly from results of 1024 characters on, and otherwise the target exactly when it has no room for the result and its NUL |
| StringEdit.StrReplace | src/utils/utils.c:89-114 | the string becomes the text with each occurrence, left to right, replaced; the buffer is overrun exactly when the result with its NUL exceeds 1024 bytes or the needle is empty, and otherwise the target exactly when it is too small; with an empty replacement and a text of at most 1023 characters it does what str_remove does |

## Left out

- `hook_thumb`, `so_hash`, `so_symbol` lookup, `reloc_err`, `so_resolve_with_dummy`: small or diagnostic; lookup in another module is a parameter of the model.
- Kernel memory blocks, cache flushes, file descriptors, directory creation: taken as primitives that succeed or end the run.
- Failing memory allocation and failing reads: a read fails only at the end of the file; their effect on the files is that of a run cut at that point.
- Opening the APK: the archive is present in the model.
- Alignment faults: a misaligned PC load or LDM is outside the ARM semantics, as is a switch to Thumb.
- `install_caustic_extra_bundle` and the later deletion of some extracted files in `main`: outside the extraction protocol proved here.
- Physical paths are compared byte by byte; a file system that folds case is not modelled.
- Drawing and frame pacing; held directions count in unbounded naturals.
- The microphone's logging, and the audio port itself.
- `__vsnprintf_chk_bridge` and the other fortify wrappers; 64-bit integer directives, which the formatter reads as one word.
- StringEdit.StrReplace: requires needle or replacement to be non-empty, because the code otherwise loops for ever; after an overrun the model stops.
- SoModule.Module.FixLdmia: requires that the loop's address does not step over the end of the address space, where it would start again from the bottom; Meaning.FixAll and Meaning.LoadAndFix require it of each function.
- CodeArena.ServesTextIff: for alignments up to 2^31, hence for every power of two, and a patch block that does not begin in the first 32 bytes, unless the text ends that far below 2^32; Meaning.LoadedServesCodeIff and the results on loaded code that follow from it are limited in the same way.
- Meaning.FixedIsPatched: requires functions that begin on a word, as ARM code does; from any other address the loop would read and patch across instructions. Meaning.LoadedScanPreservesMeaning and Meaning.LoadedFixPreservesRuns inherit this.
- Meaning.ScanCompletes: a sufficient condition; a scan can also complete with space from the cave.
- ZipLayout.StepOfEntry: for entries with a local header and a name without NUL; ZipLayout.HeadersAreThere and Archive.AssetIsBelow speak of all others.
- Linker.Image.Relocate: the tables are values apart from memory, so entries that overwrite the tables themselves are not modelled.
- OpenGL, JNI tables, audio output, pthread wrappers, settings, loggers: no property of their own.
