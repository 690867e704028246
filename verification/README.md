# A verified model of CustomRPXLoader

CustomRPXLoader puts an `.rpx` payload into memory below 0x00FD0000, patches its PowerPC code, resolves its
imports and jumps to it. This project models that loader in Dafny, together with the parts of the bundled ELFIO
library that it relies on or that keep an ELF file consistent, and proves what they guarantee.

## How the model is laid out

| files | subject |
|---|---|
| `Bits`, `Memory`, `Wrappers` | bitwise operators defined bit by bit on naturals, and the 32-bit big-endian address space as an array of bytes that wraps around |
| `PowerPC` | the user-level instructions that are patched or written as stubs (b, bc, addi, addis, ori, mtspr, bcctr) |
| `ElfUtils` | `elfLinkOne`: relocation kinds, slot search, stub generation, range and sign checks, as methods on the memory array and as functions of the memory image |
| `Relocation` | an independent description of one relocation, after the System V ABI PowerPC Processor Supplement (chapter 4, "Relocation") |
| `RelocationNumbers`, `PowerPCForms` | the same in literal numbers: types, distances, statuses and stored bytes of relocations, and assembled instructions |
| `Execution`, `LinkRun`, `WholeRun`, `PatchedCode`, `FarAddends`, `HeldImports` | what patched code does when executed, and what a whole run of relocations leaves behind |
| `ElfFile`, `Layout`, `LayoutTheorems` | sections, the size and layout passes, the address window |
| `ModuleDataFactory`, `Imports` | `linkSection`, the link pass, `getImportRelocationData` |
| `Loader`, `Containment`, `Footprint` | `load`, `doRelocation`, `do_start`, and what they may write |
| `PayloadRun`, `Payload`, `PayloadImports`, `PayloadCode`, `PayloadSuccess` | the theorems about the started payload, and when it starts |
| `LoaderNumbers` | the loader's tests and addresses in literal numbers and arithmetic modulo 2^32 |
| `Sample`, `SampleLoad` | a concrete payload that meets the conditions of those theorems, and what its calls do; a payload of two sections and the memory it is entered with |
| `Shortcomings` | concrete inputs on which the loader does not do what is intended |
| `Hashing`, `SymbolLookup`, `SampleLookups` | the two ELF hash functions, lookup of a symbol by name, and concrete lookups |
| `SectionData`, `Endianness`, `Fields`, `Records` | the growable section buffer, and fields and records of either class and byte order in it |
| `StringTable`, `SymbolTable`, `RelocationTable`, `Notes` | string, symbol, relocation and note records on it |
| `FileBytes` | what the readers of these records deliver, as numbers in the byte order of the file |
| `SymbolArrange` | moving local symbols to the front while relocations follow, in the bytes of both sections |

`dafny verify dfyconfig.toml` checks the whole project.

Code that changes memory or fields is imperative here as well: methods on the memory array, on section buffers and
on the symbol section, each proved against a specification function or a stated property. Proofs about those
functions carry the theorems.

## The main results

* **Branches work.** After a successful run of relocations over separate fields, a patched `b`/`bl` goes to S + A in
  the final memory, directly or through its stub, with LR as the unlimited branch would leave it and only r11 and CTR
  used on the way (`WholeRun.WholeRunReaches`). For a whole `do_start` that succeeds this is stated from conditions on
  the file (`Payload.PayloadCallReaches`, `PayloadImports.PayloadImportWorks`, `PayloadCode.PayloadConditionalWorks`,
  `PayloadCode.PayloadPairWorks`, `Payload.PayloadLinked`, `Payload.PayloadByte`).
* **When a payload starts** is told exactly, from the file, the system's exports and the stub table before the start
  (`PayloadSuccess.PayloadStartsExactly`); a concrete payload does (`Sample.SampleStarts`).
* **What the loader writes.** Whatever becomes of a start, no byte has changed outside the payload's window, the stub
  table and the fields of the file's relocations (`Containment.StartKeeps`). If every relocation's offset lies in the
  section that it patches (`Containment.FieldsInside`, as in every clean payload, `Containment.CleanFieldsInside`), that
  is the window and the table (`Containment.StartKeepsOutside`). The offset is not checked: see below.
* **The allocator is exact.** Which slot each far branch gets, and whether the run succeeds, is known from the memory
  before the run (`LinkRun.RunAllocates`, `WholeRun.RunSucceedsExactly`).
* **Order does not matter** outside the stub table and the far branches (`WholeRun.OrderDoesNotMatter`,
  `WholeRun.NearRunsAgree`).
* **Loading and symbol resolution are one map** exactly for modules with at most one text section, placed first
  (`LayoutTheorems.MapsAgreeExactly`).
* **Every relocation is handled exactly once** by what the link pass and the import pass work through, exactly when the
  import sections are well-named (`Imports.HandledExactlyOnce`, `Imports.ImportsComplete`).
* **Lookup by name agrees with the linear scan**, whatever symbols the hash index misses or lists
  (`SymbolLookup.GetSymbolByName`); with a complete index the index alone does (`SymbolLookup.HashLookup`,
  `SymbolLookup.GnuHashLookup`).
* **Arranging symbols preserves the meaning of every relocation** (`SymbolArrange.SymbolSection.ArrangeLocalSymbols`).
* **The specifications are anchored.** What the theorems say of relocations, sections, symbols and records through
  functions of the model is also stated in literal numbers, independent of those functions
  (`RelocationNumbers`, `LoaderNumbers`, `FileBytes`, `PowerPCForms`): for instance when a branch is patched directly and
  when it needs a stub (`RelocationNumbers.NearRel24`, `RelocationNumbers.FarRel24Linked`), and what is read from given
  bytes in either byte order (`FileBytes.Symbol32InFile`).
* **Printers and parsers of strings, symbols and notes undo each other** over any run of additions, and setting and
  getting a relocation entry do (`StringTable.AllReadBack`, `SymbolTable.AllNamedReadBack`, `Notes.NotesRoundTrip`,
  `RelocationTable.EntryRoundTrip`).

## Where the code differs from what it is meant to do

* The comment at src/ElfUtils.cpp:102-107 says that slots of imports are pending until all imports are done. The code
  marks them done at once (src/ElfUtils.cpp:136), so all far imports share one slot and only those whose address
  equals the last one's work: `WholeRun.ImportWorksExactly` gives the exact condition,
  `Shortcomings.FirstImportGoesAstray` an input, and `HeldImports.HeldImportsWork` shows that holding the slots until
  the end, as the comment has it, would be right. The model follows the code.
* On the far path the addend is added both to the stub's value and to the branch: the branch enters its stub exactly
  when the addend is 0 (`WholeRun.FarBranchStep`; `Shortcomings.AddendCallMisses` is an input). `FarAddends` has what
  becomes of other addends: whole slots, and a late entry into the own stub. A far value that is not
  word-aligned is not reached, because `bctr` drops the low bits (`WholeRun.FarBranchReaches`;
  `Shortcomings.UnalignedCallMisses` is an input).
* An import from a section whose name is neither .fimport_x nor .dimport_x ends its relocation section without an error
  (src/module/ModuleDataFactory.cpp:227-230): `Imports.ImportsComplete` gives the exact condition and
  `Shortcomings.IllNamedImportVanishes` an input.
* The REL14 mask clears one bit of BO; the branch condition survives exactly when BO does not test CTR for zero, or
  tests it with that bit clear (`PatchedCode.ConditionKept`; `Shortcomings.PatchedBdzFallsThrough` is an input).
* No offset of a relocation is checked against the section that it belongs to (src/module/ModuleDataFactory.cpp:304,
  src/ElfUtils.cpp:30): a relocation changes its field wherever that lies, and is refused for its address only as a
  branch (`Footprint.DataFieldExact`, `Footprint.NearBranchExact`, `Footprint.FarBranchExact`).
  `Shortcomings.StrayRelocationEscapes` is a module that is loaded and changes a word far above the window.
* The guard `destination + sectionSize > destination_address` can wrap around, and so can the sum of the section
  sizes: `LayoutTheorems.GuardExact` and `Shortcomings.HugeModuleEscapes`.
* `get_note` compares its index with the size of the section instead of the number of notes. It reads outside the vector
  of start positions exactly for the indices in between, of which every non-empty section has some
  (`Notes.OutOfBoundsExactly`).
* The record length that `process_section` computes in 32 bits can be 0, and then it does not advance. Parsing terminates
  for every section of a size exactly up to 0x7FFFFFF9 (`Notes.TerminatesExactly`; `Notes.StallingStalls` is an input
  for each greater size).
* `add_note` with a null descriptor and a size other than 0 keeps a start position that parsing does not find
  (`Notes.NullDescriptorIsLost`).
* The doubled capacity of a section is kept in 32 bits. While buffer and insertion stay below 2 GiB it covers the
  contents, for a full buffer exactly then (`SectionData.CoversExactly`); otherwise `insert_data` writes outside its new
  buffer (`SectionData.SectionBuffer.InsertData`).
* A lookup by name on a cyclic hash chain does not return, exactly when the chain leads back before it meets the name, 0
  or the end of the table (`SymbolLookup.HashLookup`; `SymbolLookup.CyclicTableNeverEnds` is an input).
* With an entry size smaller than a relocation entry the last entries reach behind the section
  (`RelocationTable.EntryReadExact`).

The difference of two `int32_t` addresses is taken to wrap around in two's complement, and `char` to be unsigned, as
on the target.

## Model

| member | source | states |
|---|---|---|
| ElfUtils.FindSlot | src/ElfUtils.cpp:100-113 | the slot found is the first whose status is FREE or DONE; statuses are whatever words memory holds |
| ElfUtils.FindFreeSlot | src/ElfUtils.cpp:100-113 | the search loop over memory finds that slot |
| ElfUtils.FillSlot | src/ElfUtils.cpp:125-137 | five word stores make the slot a stub for the value, marked |
| ElfUtils.ElfLinkRel24 | src/ElfUtils.cpp:88-161 | the 24-bit case patches memory as its function of the memory image says, including refusals after a slot was filled |
| ElfUtils.ElfLinkRel14 | src/ElfUtils.cpp:67-87 | the same for the 14-bit case |
| ElfUtils.ElfLinkOne | src/ElfUtils.cpp:25-167 | the same for every relocation kind, and false with memory untouched for unknown kinds |
| Relocation.LinkOneIsRelocate | src/ElfUtils.cpp:34-166 | for every relocation, table and memory, the masks, shifts and checks of the code give the ABI's field values: lo, hi, ha of S+A or S+A-P, or a branch word with the displacement in place; a far branch gets the first available slot if it is in reach |
| RelocationNumbers.NearRel24 | src/ElfUtils.cpp:88-161 | with a distance S+A-P from -0x1FFFFFC to 0x1FFFFFC a 24-bit branch links exactly when the distance is a multiple of 4, whatever the table; memory then has the branch word with that displacement, and is untouched otherwise |
| RelocationNumbers.FarRel24Refused | src/ElfUtils.cpp:88-124 | beyond that distance it is refused with memory untouched when there is no table, no slot has status 0 or 3, or the first one that has is not at most 0x1FFFFFC below |
| RelocationNumbers.FarRel24Linked | src/ElfUtils.cpp:125-161 | otherwise the first slot with status 0 or 3 gets the stub and the mark, and the branch goes to slot + A exactly if that is an aligned displacement of 26 bits; if not, the slot stays filled |
| RelocationNumbers.Rel14InNumbers | src/ElfUtils.cpp:67-87 | a 14-bit branch links exactly for aligned distances of at most 0x7FFC, for the whole memory that results |
| RelocationNumbers.DataInNumbers | src/ElfUtils.cpp:34-66 | types 1 and 78 store S+A, types 4, 5, 6 its low, high and rounded high half, types 253, 252, 251 those of S+A-P, always with success |
| RelocationNumbers.OthersInNumbers | src/ElfUtils.h:29-48 | types 0 and 68 succeed without effect, and every type that is not handled is refused |
| RelocationNumbers.MarksInNumbers | src/common/relocation_defines.h:22-32 | a filled slot is marked 1 by the link pass and 3 by the import phase |
| RelocationNumbers.StatusIsWord | src/common/relocation_defines.h:34-37 | the status of entry i is the big-endian word 20 * i + 16 bytes into the table |
| RelocationNumbers.StoredBytes | src/ElfUtils.cpp:34-41 | a word is stored most significant byte first |
| RelocationNumbers.StoredHalf | src/ElfUtils.cpp:42-66 | so is a half word, in two bytes |
| RelocationNumbers.PatchedWords | src/ElfUtils.cpp:85-159 | concrete branch words with concrete displacements put in place |
| Relocation.Rel14Exact | src/ElfUtils.cpp:67-87 | a 14-bit branch links exactly when its distance is word-aligned and at most 0x7FFC either way; the check at 79-83 never decides |
| Relocation.BranchExact | src/ElfUtils.cpp:144-160 | the alignment and sign checks accept exactly the aligned 26-bit displacements |
| Relocation.FarLinkZeroAddend | src/ElfUtils.cpp:93-160 | a far link with addend 0 succeeds exactly when the first available slot lies at or below the place within 0x1FFFFFC and is congruent to it mod 4 |
| Execution.BranchRuns | src/ElfUtils.cpp:159-159 | executing a relative branch with a patched displacement takes it, and sets LR as the unpatched instruction would |
| Execution.StubRuns | src/ElfUtils.cpp:125-128 | executing the four stub words jumps to the value with its low two bits dropped, changing only r11 and CTR |
| PowerPCForms.Branches | src/ElfUtils.cpp:159-159 | what the words for b, bl and ba do |
| PowerPCForms.ConditionBranches | src/ElfUtils.cpp:85-85 | what the words for beq and bne do, on every condition register |
| PowerPCForms.CountBranches | src/ElfUtils.cpp:85-85 | what the words for bdnz and bdz do, on every CTR |
| PowerPCForms.Arithmetic | src/ElfUtils.cpp:42-66 | what the words for addi, li, lis and ori do |
| PowerPCForms.Moves | src/ElfUtils.cpp:125-128 | what the words for mtctr, mtlr and bctrl do |
| LinkRun.RelocateEntry | src/ElfUtils.cpp:100-137 | a relocation changes no table entry but the one it fills, whether it succeeds or not |
| LinkRun.RelocateRange | src/ElfUtils.cpp:36-166 | a relocation changes no byte outside its field and the table |
| LinkRun.RunAllocates | src/ElfUtils.cpp:100-137 | over a successful run the far branches that keep their slot consume the available slots from the front, one each |
| LinkRun.RunKeepsEntry | src/ElfUtils.cpp:100-137 | a slot that is not available at the start (FIXED, IN_PROGRESS or garbage) is never touched by any run |
| LinkRun.RunKeepsRange | src/module/ModuleDataFactory.cpp:248-311 | bytes outside all fields and the table survive any run |
| LinkRun.RunImage | src/module/ModuleDataFactory.cpp:150-159 | at the end of a successful run over separate fields every relocation is in place: the ABI's function of the bytes before the run, with its own stub for a far branch, never overwritten later |
| WholeRun.NearBranchReaches | src/ElfUtils.cpp:144-160 | a near branch in place goes to S+A in one step |
| WholeRun.FarBranchStep | src/ElfUtils.cpp:138-159 | a far branch goes to slot + A first, which is its stub exactly when A is 0 |
| WholeRun.FarBranchReaches | src/ElfUtils.cpp:93-160 | with A = 0 it runs through the stub in five steps and arrives at S exactly when S is word-aligned |
| WholeRun.WholeRunReaches | src/module/ModuleDataFactory.cpp:150-159 | every branch of a successful run works in the final memory, exactly if a far one's value is aligned |
| WholeRun.RunSucceedsExactly | src/ElfUtils.cpp:93-160 | a run succeeds exactly when every near relocation is acceptable and every far one reaches the slot it will be given, told from the memory before the run |
| WholeRun.ImportsShareOneSlot | src/ElfUtils.cpp:132-137 | an import run leaves the available slots as they were, writes only the first of them, and leaves the stub of the last far import there |
| WholeRun.ImportBranchRuns | src/main.cpp:167-206 | after an import run every far import's branch ends at the last far import's address |
| WholeRun.ImportWorksExactly | src/ElfUtils.cpp:100-137 | a far import works exactly when its address is aligned and equals the last far import's |
| HeldImports.HeldImportsWork | src/ElfUtils.cpp:102-107 | with slots held IN_PROGRESS until all imports are done and then turned to IMPORT_DONE, every far import works in the memory after that, and its slot can be handed out again |
| HeldImports.HeldSlotsDiffer | src/ElfUtils.cpp:102-107 | different held imports have different slots |
| HeldImports.TakenSlotsSurvive | src/ElfUtils.cpp:102-107 | a slot that was taken and not pending before keeps its stub and its status |
| WholeRun.FinalByte | src/module/ModuleDataFactory.cpp:248-311 | each final byte outside table and far branches is the ABI's byte of its field, or unchanged |
| WholeRun.OrderDoesNotMatter | src/module/ModuleDataFactory.cpp:248-311 | two successful runs of the same relocations in different orders agree on all those bytes |
| WholeRun.NearRunsAgree | src/module/ModuleDataFactory.cpp:248-311 | with near relocations only, success and the whole memory are independent of the order |
| PatchedCode.Decode14 | src/ElfUtils.cpp:85-85 | a patched conditional branch keeps opcode, BI, AA, LK and every BO bit but BO3, and its displacement reads back |
| PatchedCode.ConditionKept | src/ElfUtils.cpp:85-85 | the branch condition is kept for every processor state exactly when BO2 is set or BO3 was clear |
| PatchedCode.ConditionalBranchReaches | src/ElfUtils.cpp:67-87 | after a run such a branch goes to S+A or falls through as its condition says |
| PayloadCode.PayloadConditionalWorks | src/ElfUtils.cpp:67-87 | so it does in the memory that a clean payload is entered with |
| PatchedCode.HaLoRecombine | src/ElfUtils.cpp:42-66 | an addis/addi pair patched with HA and LO computes S+A (or S+A-P for GHS_REL16) for every 32-bit value |
| PatchedCode.HiLoRecombine | src/ElfUtils.cpp:42-66 | a lis/ori pair patched with HI and LO computes it |
| PatchedCode.RelativeSourcesAgree | src/ElfUtils.cpp:34-66 | two GHS_REL16 places see the same relative value exactly when their addends differ as their addresses do |
| PayloadCode.PayloadPairWorks | src/ElfUtils.cpp:42-66 | in the memory that a clean payload is entered with, an addis/addi or lis/ori pair with the halves of one value computes it |
| Layout.SizeOfModule | src/module/ModuleDataFactory.cpp:58-68 | the size pass computes the room of the allocated sections modulo 2^32; `LayoutTheorems.RoomAdds` and `RoomOfOne` say what that is |
| LayoutTheorems.RoomOfOne | src/module/ModuleDataFactory.cpp:58-68 | the room of one section is its size and one byte more if it is allocated, and 0 if not |
| LayoutTheorems.RoomAdds | src/module/ModuleDataFactory.cpp:58-68 | the room of two lists of sections is the sum of their rooms |
| SampleLoad.TwoRooms | src/module/ModuleDataFactory.cpp:58-75 | 0x7F bytes of text and 0x80 bytes of data need 0x101 bytes, and the target address is 0x00FCFE00 |
| SampleLoad.TwoSectionsStart | src/main.cpp:92-165 | such a payload, whatever its bytes, is entered at 0x00FCFE00, with the data right behind the text and no other byte changed |
| LoaderNumbers.KindsInNumbers | src/module/ModuleDataFactory.cpp:58-92 | which types, flags, names and addresses make a section allocated, placed, text, data or a relocation section, and what bytes it has in memory |
| LoaderNumbers.SectionInNumbers | src/module/ModuleDataFactory.cpp:92-140 | where one section is loaded, when that fails or halts, and what is recorded of it, modulo 2^32 |
| LoaderNumbers.TargetInNumbers | src/module/ModuleDataFactory.cpp:75-75 | the target address is the multiple of 0x100 at or below the end less the room |
| Layout.PlaceSections | src/module/ModuleDataFactory.cpp:75-148 | the layout loop copies, zero-fills, guards and records as the placement function says |
| LayoutTheorems.LayoutFormula | src/module/ModuleDataFactory.cpp:92-123 | every placed section is loaded at target + preceding text + (address - region start), having passed both guards |
| LayoutTheorems.PlaceIsLoadedAt | src/module/ModuleDataFactory.cpp:95-105 | destination + r_offset is the loaded address of the virtual address r_offset |
| LayoutTheorems.MapsAgreeExactly | src/module/ModuleDataFactory.cpp:75-112 | every byte of every section loads where linking puts a symbol there, exactly when there is at most one non-empty text section and it comes first |
| LayoutTheorems.EntryPointAgrees | src/module/ModuleDataFactory.cpp:78-81 | the entry point is where its text byte was loaded |
| LayoutTheorems.GuardExact | src/module/ModuleDataFactory.cpp:116-123 | a section that passed the guards is inside the window exactly when destination + size does not wrap around |
| LayoutTheorems.TargetBelow | src/module/ModuleDataFactory.cpp:75-75 | the target address is a multiple of 0x100 and leaves the room and less than 0x100 bytes more |
| LayoutTheorems.GuardsContain | src/module/ModuleDataFactory.cpp:58-123 | if the sizes do not wrap around, a section that passes the guards is inside the window, whatever becomes of the later ones |
| LayoutTheorems.WindowContains | src/module/ModuleDataFactory.cpp:58-123 | if the sizes do not wrap around, a successful layout has every section inside the window |
| Containment.PlaceKeepsOutside | src/module/ModuleDataFactory.cpp:85-148 | whether the layout succeeds, fails or halts, no copy or zero-fill changes a byte outside the window |
| Containment.LoadKeepsOutside | src/module/ModuleDataFactory.cpp:32-175 | load, with any outcome, and the import phase after it change no byte outside the window, the table and the fields of the file's relocations |
| Containment.StartKeeps | src/main.cpp:105-134 | nor does do_start as a whole, whether the payload is entered, given up or the loader halts |
| Containment.StartKeepsOutside | src/main.cpp:105-134 | if every relocation's field lies in the section that it patches, do_start changes no byte outside the window and the table, with any outcome |
| Containment.CleanFieldsInside | src/module/ModuleDataFactory.cpp:248-304 | a clean payload meets that condition, for everything that either pass may patch |
| Footprint.DataFieldExact | src/ElfUtils.cpp:34-66 | for a relocation that is not a branch, a byte off the table is kept in every memory exactly when it is not in the field |
| Footprint.NearBranchExact | src/ElfUtils.cpp:67-160 | the word of a near or conditional branch is kept in every memory exactly when the relocation is refused |
| Footprint.FarBranchExact | src/ElfUtils.cpp:93-160 | the word of a far branch is kept in every memory exactly when no slot of the table is in its reach |
| Containment.TitleIdIsKept | src/main.cpp:97-98 | the title id stored at 0x00FFFFF8 is still there at the end, with any outcome, unless a relocation of the file names it |
| Containment.ClearsInWindow | src/main.cpp:123-130 | what is cleared at the end of any successful start lies inside the window, above the table |
| Containment.BssHoldsZeros | src/main.cpp:123-130 | when any payload is entered, the last placed sections named .bss and .sbss hold nothing but zeros |
| LayoutTheorems.DisjointSections | src/module/ModuleDataFactory.cpp:92-131 | with text first at 0x02000000 sections with disjoint virtual addresses are disjoint in memory |
| LayoutTheorems.ImageHolds | src/module/ModuleDataFactory.cpp:125-131 | the image holds every section that is loaded apart from the others |
| ModuleDataFactory.LinkEntries | src/module/ModuleDataFactory.cpp:253-308 | the entry loop applies, skips, refuses or halts in order |
| LoaderNumbers.ResolveInNumbers | src/module/ModuleDataFactory.cpp:280-295 | values from 0x02000000 count from the text, from 0x10000000 from the data, from 0xC0000000 they are imports, 0 stays 0, and the rest is not handled |
| LoaderNumbers.EntryInNumbers | src/module/ModuleDataFactory.cpp:253-304 | an entry halts without a symbol, is refused exactly for values between 0 and 0x02000000 or section indices above 0xFF00 other than 0xFFF1, and is otherwise applied with that address |
| LoaderNumbers.SymbolsInNumbers | src/module/ModuleDataFactory.cpp:245-262 | the symbol of an entry is taken from the section that the low 16 bits of sh_link name |
| ModuleDataFactory.LinkSection | src/module/ModuleDataFactory.cpp:244-313 | linkSection processes every section whose sh_info is the index |
| ModuleDataFactory.LinkModule | src/module/ModuleDataFactory.cpp:150-159 | the link pass processes every allocated section |
| Imports.ImportNameExact | src/module/ImportRPLInformation.h:34-54 | a section name is accepted exactly when it is .fimport_ or .dimport_ followed by the library name |
| Imports.GetSectionImports | src/module/ModuleDataFactory.cpp:195-238 | the entry loop returns the deferred entries, ending a section early at an ill-named import and halting at a missing symbol |
| Imports.GetImportRelocationData | src/module/ModuleDataFactory.cpp:177-242 | the whole collection, with names taken from the import sections |
| Imports.ImportsHaltExactly | src/module/ModuleDataFactory.cpp:195-230 | the collection halts exactly when an entry without a symbol comes before the first ill-named import of its section |
| LoaderNumbers.LibraryInNumbers | src/module/ModuleDataFactory.cpp:181-230 | the library of an import is x for a symbol in a section of type 0x80000002 named .fimport_x or .dimport_x, and none otherwise |
| Imports.DeferredTarget | src/module/ModuleDataFactory.cpp:234-235 | the shifted destination and offset denote the place linkSection would have patched |
| Imports.HandledExactlyOnce | src/module/ModuleDataFactory.cpp:150-240 | what the link pass works through and what the import pass returns are different relocation entries; together they are all of them exactly when the import sections are well-named |
| Imports.ImportsComplete | src/module/ModuleDataFactory.cpp:224-230 | the import pass returns as many relocations as there are imports exactly when the import sections are well-named, and fewer otherwise, without failing |
| Imports.ImportsFollowIds | src/module/ModuleDataFactory.cpp:190-240 | the list returned is, in order, the import entries of each section up to its first ill-named one |
| Loader.Load | src/module/ModuleDataFactory.cpp:32-175 | load as a whole, from sections to module data |
| Loader.DoRelocation | src/main.cpp:167-206 | acquiring each library once and remembering its handle gives the same memory and result as acquiring per import |
| LoaderNumbers.AddressInNumbers | src/main.cpp:175-195 | an import resolves exactly to the non-zero address that the system exports by the symbol's name under the library's handle |
| Loader.DoStart | src/main.cpp:92-165 | do_start from the title id and the end of the loader's code to the entry point, with halting and reverting outcomes |
| LoaderNumbers.TableInNumbers | src/main.cpp:97-115 | the table holds 500 entries of 20 bytes from the next multiple of 0x100, and the payload may use what lies above a multiple of 0x10000 behind it, below 0x00FD0000 |
| PayloadRun.WindowAboveTable | src/main.cpp:105-115 | the table ends below the payload's window, also after rounding down |
| PayloadRun.ImportRunKeepsFixed | src/main.cpp:167-206 | no import phase, successful or not, touches a slot that was not available |
| PayloadRun.StartIsRun | src/main.cpp:115-134 | a successful start is one successful run of all relocation entries over the loaded image, then the clearing of .bss and .sbss |
| PayloadSuccess.LayoutSucceedsExactly | src/module/ModuleDataFactory.cpp:85-123 | the layout succeeds exactly when every placed section is in a known region and passes both guards, whatever memory holds |
| PayloadSuccess.LayoutStopsExactly | src/module/ModuleDataFactory.cpp:85-123 | if it does not succeed, the first section that does not pass decides: in no region the load is given up, otherwise the loader halts |
| PayloadSuccess.ActsStop | src/module/ModuleDataFactory.cpp:253-308 | the first act of the link pass that does not succeed decides: a missing symbol halts, anything else gives the load up |
| PayloadSuccess.StartGivesUp | src/main.cpp:115-134 | a start of any payload is given up, instead of halting, exactly when there is no room, the first section that does not pass is in no region, or the link pass fails |
| PayloadSuccess.StartsAsRun | src/main.cpp:115-134 | any payload is entered exactly when it has room, the layout succeeds, every symbol and import resolves and the run of all relocations succeeds on the loaded image |
| PayloadSuccess.ResolvableExactly | src/module/ModuleDataFactory.cpp:253-304 | both passes resolve everything exactly when the symbols of the file and the exports of the system do |
| PayloadSuccess.PayloadStartsExactly | src/main.cpp:92-165 | a clean payload is entered exactly when it can be, told from the file, the system and the stub table before the start |
| PayloadRun.RunIsSeparate | src/module/ModuleDataFactory.cpp:92-112 | relocation fields that are apart in the file are apart in memory and off the table |
| Payload.PayloadLinked | src/module/ModuleDataFactory.cpp:150-159 | after a successful start of a clean payload every linked relocation is in place in the final memory, with its symbol's address |
| Payload.PayloadImported | src/main.cpp:169-200 | every near import is in place with the address of the system's export |
| Payload.PayloadBranchWorks | src/ElfUtils.cpp:88-161 | the payload's linked branches work when it is entered, near ones with any addend, far ones with addend 0 exactly if aligned |
| Payload.SymbolIsLoaded | src/module/ModuleDataFactory.cpp:280-295 | the address linking gives a symbol, and the entry point returned, are where those bytes were loaded |
| Payload.PayloadCallReaches | src/module/ModuleDataFactory.cpp:244-313 | a call to a byte that the payload defines, named by a symbol of the same region and any addend, takes one step to the place where that byte was loaded |
| Payload.ImageHoldsSections | src/module/ModuleDataFactory.cpp:125-131 | the loaded image of a clean payload holds every placed section |
| Payload.PayloadByte | src/module/ModuleDataFactory.cpp:85-159 | every byte that no relocation names is, in the final memory, the byte of the file |
| PayloadImports.FarImportsShareStub | src/main.cpp:167-206 | after the link pass and the import phase every far import goes through the first slot that the link pass left available, which jumps to the last far import's value |
| PayloadImports.PhaseIsPlan | src/main.cpp:169-200 | the import phase performs, in order, the branches that file and system describe: from the loaded place of each import entry to the address of its export |
| PayloadImports.PayloadImportWorks | src/main.cpp:115-134 | after a successful start of a clean payload a call to the system works exactly when it is near, or its export is aligned and equal to that of the last far import; near calls with any addend |
| Sample.SampleStarts | src/main.cpp:92-165 | a payload with one linked and one imported call starts in any memory whose first slot is available |
| Sample.MainIsCalled | src/module/ModuleDataFactory.cpp:244-313 | its linked call arrives at main in one step |
| Sample.SystemIsCalled | src/main.cpp:167-206 | its imported call arrives at the system's function through a stub in five steps |
| Shortcomings.FirstImportGoesAstray | src/ElfUtils.cpp:132-137 | two far imports link successfully and the first call ends in the second function |
| FarAddends.OtherSlotRuns | src/ElfUtils.cpp:125-139 | with an addend of whole slots a far branch goes through another slot's stub, and works exactly if that leads to S+A, aligned |
| FarAddends.SecondWordRuns | src/ElfUtils.cpp:125-139 | with addend 4 it enters its stub at the second instruction and arrives at r11 with the low half of the value or-ed in |
| FarAddends.ThirdWordRuns | src/ElfUtils.cpp:125-139 | with addend 8 it arrives at what r11 held |
| FarAddends.FourthWordRuns | src/ElfUtils.cpp:125-139 | with addend 12 it arrives at what CTR held |
| FarAddends.StatusRuns | src/ElfUtils.cpp:125-139 | with addend 16 it arrives at the slot's status word, which is no instruction |
| Shortcomings.AddendCallMisses | src/ElfUtils.cpp:125-139 | a far call to four bytes behind a function links, and running it arrives at r11 with 4 or-ed in, elsewhere for every r11 with another high half |
| Shortcomings.PatchedBdzFallsThrough | src/ElfUtils.cpp:85-85 | a bdz links, and with CTR at 1 the patched word falls through where the original would branch |
| Shortcomings.StrayRelocationEscapes | src/module/ModuleDataFactory.cpp:304-304 | a module with an offset outside its section is loaded and changes a word far above the window |
| Shortcomings.UnalignedCallMisses | src/ElfUtils.cpp:125-128 | a far call to an unaligned address links, and running it arrives two bytes before it |
| Shortcomings.IllNamedImportVanishes | src/module/ModuleDataFactory.cpp:227-230 | a module with an ill-named import loads, and the import is neither applied nor returned |
| Shortcomings.HugeModuleEscapes | src/module/ModuleDataFactory.cpp:58-123 | a section of 0xFFFFFFFF bytes passes every guard and is not inside the window |
| Hashing.StepFolds | src/elfio/elfio_utils.hpp:166-171 | the shifts and masks of one iteration fold the top nibble back in and leave a value below 2^28 |
| Hashing.ElfHash | src/elfio/elfio_utils.hpp:161-173 | elf_hash is the gABI hash of the C string, below 2^28 |
| Hashing.ElfGnuHash | src/elfio/elfio_utils.hpp:176-182 | elf_gnu_hash is 5381 * 33^n plus the base-33 sum of the bytes, mod 2^32 |
| SampleLookups.KnownSysvHash | src/elfio/elfio_utils.hpp:161-173 | elf_hash of "printf" is 0x077905A6 |
| SampleLookups.KnownGnuHash | src/elfio/elfio_utils.hpp:176-182 | elf_gnu_hash of "printf" is 0x156B2BB8 |
| SymbolLookup.HashLookup | src/elfio/elfio_symbols.hpp:289-324 | on any table: it does not return exactly when the chain leads back to itself before it stops; what it finds has the name; on an acyclic table that chains every named symbol it succeeds exactly when the name is present |
| SymbolLookup.AcyclicEnds | src/elfio/elfio_symbols.hpp:307-318 | on an acyclic table every walk stops |
| SymbolLookup.CyclicTableNeverEnds | src/elfio/elfio_symbols.hpp:307-318 | a table on which the lookup of an absent name does not return |
| SymbolLookup.BloomExact | src/elfio/elfio_symbols.hpp:352-359 | the Bloom test is passed exactly when bits h % width and h / 2^shift % width of word h / width % n are set, for a filter of n words |
| SymbolLookup.GnuHashLookup | src/elfio/elfio_symbols.hpp:328-391 | on any table: what it finds has the name, and it stays inside the chains if buckets start there and the last chain word ends one; on a well-formed table (bucket h % n, filter word h / width % n, in arithmetic) it finds the lowest hashed symbol of the name, or none if there is none |
| SampleLookups.SysvSampleLookup | src/elfio/elfio_symbols.hpp:289-324 | on a concrete complete index a name is found behind another in its chain, and an absent one missed |
| SampleLookups.GnuSampleLookup | src/elfio/elfio_symbols.hpp:328-391 | on a concrete complete index with two filter words, of which one is empty, both names are found and an absent one missed |
| SampleLookups.GnuSampleFilters | src/elfio/elfio_symbols.hpp:352-359 | its filter passes the hashes of the two names and not that of the third |
| SymbolLookup.GetSymbolByName | src/elfio/elfio_symbols.hpp:90-131 | whatever symbols the index misses or lists: if lookup by name returns, it succeeds exactly when the linear scan does, with the same symbol when names are unique; it does not return exactly on a chain that leads back before the name |
| RelocationTable.PackExact | src/elfio/elfio_relocation.hpp:322-372 | r_info packing and unpacking are inverse exactly for symbol indices below 2^24 (ELF32) |
| RelocationTable.EntryRoundTrip | src/elfio/elfio_relocation.hpp:322-410 | an entry's bytes read back as the entry, for REL and RELA, both classes and both byte orders |
| RelocationTable.GetEntry | src/elfio/elfio_relocation.hpp:87-118 | reads the entry at an index, for any entry size of the section's header, refuses, or reads behind the section |
| FileBytes.Relocation32InFile | src/elfio/elfio_relocation.hpp:322-372 | offset, symbol, type and signed addend of a 32-bit entry are the numbers at their places in the bytes, in the byte order of the file |
| FileBytes.Relocation64InFile | src/elfio/elfio_relocation.hpp:322-372 | the same for a 64-bit entry |
| RelocationTable.EntryReadExact | src/elfio/elfio_relocation.hpp:71-82 | with the entry size of the structure these are the entries of the section, and a greater one stays inside |
| RelocationTable.SetEntry | src/elfio/elfio_relocation.hpp:189-221 | overwrites that entry, with offset and addend cut to the class, and nothing else |
| RelocationTable.SwapSymbols | src/elfio/elfio_relocation.hpp:295-310 | in the bytes of the section every entry naming one of two symbols is made to name the other, all else kept |
| SymbolArrange.SwapKeepsMeaning | src/elfio/elfio_relocation.hpp:295-310 | swapping two symbols and their references keeps every entry's offset, type, addend and symbol contents |
| SymbolArrange.InfoByte | src/elfio/elfio_symbols.hpp:515-528 | the info that decides is byte 12 of a 32-bit entry and byte 4 of a 64-bit one |
| SymbolArrange.SymbolSection.ArrangeLocalSymbols | src/elfio/elfio_symbols.hpp:501-545 | in the bytes of both sections: the table is permuted so that, behind the null symbol, those with info < 0x10 come first and those with info >= 0x10 last; the return value and sh_info are the partition point (the number of old entries with info < 0x10), and every relocation keeps its meaning |
| SectionData.SectionBuffer.SetData | src/elfio/elfio_section.hpp:121-135 | the contents become the data given, except in a NOBITS section |
| SectionData.SectionBuffer.InsertData | src/elfio/elfio_section.hpp:157-186 | the contents become the old ones with the data inserted at pos, in place or in a new buffer, and the bytes copied are counted; it writes out of bounds exactly when the 32-bit capacity does not cover the contents |
| SectionData.SectionBuffer.AppendData | src/elfio/elfio_section.hpp:144-147 | the data is appended, or written out of bounds in the same case |
| SectionData.CoversExactly | src/elfio/elfio_section.hpp:161-170 | the capacity covers the contents while buffer and insertion stay below 2 GiB, and for a full buffer only then |
| SectionData.GrowthInNumbers | src/elfio/elfio_section.hpp:161-170 | the capacity is kept while the contents stay below it, and otherwise is twice the sum of capacity and insertion |
| SectionData.AppendAll | src/elfio/elfio_section.hpp:144-186 | any run of append_data on an empty section, below 1 GiB, leaves the data joined and copies at most three bytes for each byte that ends up there |
| StringTable.AddString | src/elfio/elfio_strings.hpp:43-62 | the string and its NUL are appended, after a leading NUL in an empty table, and its offset returned |
| StringTable.GetString | src/elfio/elfio_strings.hpp:43-78 | reads the string at an offset if a NUL ends it inside the section |
| StringTable.AddedReadsBack | src/elfio/elfio_strings.hpp:43-78 | an added string is read back at its offset and all earlier strings stay readable |
| StringTable.AllReadBack | src/elfio/elfio_strings.hpp:43-78 | after any run of additions every string is read back |
| Endianness.Swap32Reverses | src/elfio/elfio_utils.hpp:94-104 | the 32-bit conversion reverses the bytes |
| Endianness.ConvertTwice | src/elfio/elfio_utils.hpp:94-104 | converting twice is the identity, with or without conversion |
| Endianness.ConvertHalfTwice | src/elfio/elfio_utils.hpp:116-125 | the same for 16 bits |
| Endianness.Swap64Reverses | src/elfio/elfio_utils.hpp:67-83 | the 64-bit conversion reverses the bytes |
| Endianness.Convert64Twice | src/elfio/elfio_utils.hpp:67-92 | converting 64 bits twice is the identity |
| FileBytes.EncodingsInFile | src/elfio/elfio_utils.hpp:61-64 | fields of files of encoding 1 have their least significant byte first, of encoding 2 last |
| FileBytes.WordInFile | src/elfio/elfio_utils.hpp:94-104 | a 32-bit field is read as the number that its bytes are in the byte order of the file |
| FileBytes.HalfInFile | src/elfio/elfio_utils.hpp:116-125 | the same for 16 bits |
| FileBytes.WideInFile | src/elfio/elfio_utils.hpp:67-92 | the same for fields of 32 or 64 bits by class |
| SymbolTable.AddSymbol | src/elfio/elfio_symbols.hpp:173-201 | the entry is appended, after a null entry in an empty table, and its index returned |
| SymbolTable.GetSymbolEntry | src/elfio/elfio_symbols.hpp:41-64 | reads the entry at an index, for any entry size of the section's header; one below that of the structure leaves no symbols |
| FileBytes.Symbol32InFile | src/elfio/elfio_symbols.hpp:428-467 | every field of a 32-bit symbol is the number at its place in the bytes, in the byte order of the file |
| FileBytes.Symbol64InFile | src/elfio/elfio_symbols.hpp:428-467 | the same for a 64-bit symbol |
| FileBytes.NullSymbolInFile | src/elfio/elfio_symbols.hpp:173-201 | the null entry put into an empty table is 16 or 24 bytes of zeros |
| SymbolTable.AllNamedReadBack | src/elfio/elfio_symbols.hpp:216-227 | after any run of additions, in either byte order, every symbol is read back with its name and fields |
| Notes.ProcessSection | src/elfio/elfio_note.hpp:132-164 | parsing any section gives the positions of the records it recognises, or does not end where a computed length is 0 |
| Notes.TerminatesExactly | src/elfio/elfio_note.hpp:151-162 | parsing terminates for all sections of a size exactly when the size is at most 0x7FFFFFF9 |
| Notes.ParsesUpToMax | src/elfio/elfio_note.hpp:132-164 | up to that size start positions are at least 12 bytes apart, the computed lengths not wrapping around |
| Notes.PositionsRise | src/elfio/elfio_note.hpp:132-164 | in any section that is parsed start positions increase and are those of records inside it |
| Notes.AddedNote | src/elfio/elfio_note.hpp:97-164 | a note added to any section that is parsed to its end is found at its start position, behind the others, and read back |
| Notes.FoundStays | src/elfio/elfio_note.hpp:59-94 | bytes appended later change no note that get_note returned |
| Notes.NoteAccessor.AddNote | src/elfio/elfio_note.hpp:97-128 | the record is appended and its start position kept; unless a null descriptor comes with a size, parsing still gives the kept positions |
| Notes.NullDescriptorIsLost | src/elfio/elfio_note.hpp:118-126 | with a null descriptor and a non-zero size parsing does not find the record that was written |
| Notes.NoteAccessor.GetNote | src/elfio/elfio_note.hpp:59-94 | for every index: the note, a refusal, or a read out of bounds |
| FileBytes.NoteInFile | src/elfio/elfio_note.hpp:59-94 | sizes, type, name and descriptor that are read from given bytes, in the byte order of the file, and when the note is refused |
| FileBytes.ScanInFile | src/elfio/elfio_note.hpp:150-162 | when a record is recognised and where the next one starts, from its bytes |
| FileBytes.RecordInFile | src/elfio/elfio_note.hpp:103-126 | every byte that add_note appends |
| Notes.OutOfBoundsExactly | src/elfio/elfio_note.hpp:65-69 | after parsing, get_note reads out of bounds exactly for indices from the number of notes up to the size of the section |
| Notes.NotesRoundTrip | src/elfio/elfio_note.hpp:59-164 | from an empty section, after any additions, reparsing yields the kept positions and get_note the notes |

## Left out

- File reading, logging, splash screen and ProcUI: input and output; a file is a given sequence of parsed sections.
- Kernel patching and assembly: hardware registers and system calls.
- OSDynLoad_Acquire and OSDynLoad_FindExport: the functions of a `System` value; cache flushes are no-ops, OSFatal is a halting outcome.
- Decompression of sections: sections are taken as decompressed.
- 64-bit ELF files in the loader: it takes 32-bit files only; the ELFIO tables are modelled for both classes.
- Parsing of section headers and of relocation sections from file bytes: sections carry the entries that get_entry delivers; for a section that is neither REL nor RELA these are arbitrary, as the uninitialised variables of the code are.
- Byte order of the hash sections: `SymbolLookup` works on their words after conversion, and on names that are C strings without embedded NUL.
- SectionData.SectionBuffer.InsertData: allocation failure is excluded; what memory holds after an out-of-bounds write is not modelled, and what appends to a section requires that there is none.
- SectionData.SectionBuffer.SetData: a null data pointer is not modelled.
- SymbolArrange.SymbolSection.ArrangeLocalSymbols: the callback is swap_symbols on one relocation section; other callbacks are not modelled.
- SymbolLookup.GetSymbolByName: the empty name is excluded, and so are hash sections shorter than their headers say.
- PayloadImports.PayloadImportWorks: far calls with an addend other than 0 are not covered; `FarAddends` says where they go.
- Lookup of a symbol by value, and the array, dynamic, modinfo and versym accessors: smaller variants of the same ideas.
- Time: the number of loop iterations of the lookups is not modelled.
