# Verified model of a kernel integrity checker

The program rebuilds the code a guest's Linux kernel, its modules and its processes should hold in
memory, and compares that reference with the guest page by page. This project models its four
connected parts and proves what they promise.

* **Module loading** (`ModuleNames`, `Modinfo`, `ModuleLoader`, `LoaderSafety`, `LoaderLiveness`,
  `LoaderCompletion`, `ModuleFiles`, `KernelThreads`). Worker threads take names from a shared list, claim
  a name with an empty map entry, load its dependencies while they hold the claim, and publish the object.
  The model is a transition system with one step per critical section; every theorem is about all
  interleavings of any number of workers. `ModuleFiles` configures it from the bytes of `.modinfo` sections.
  `KernelThreads` is the recursive code of one thread, on memory the other threads change between its
  critical sections: it takes exactly the protocol's steps.
* **Reference image** (`Relocation`, `Alternatives`, `PatchSites`, `Paravirt`, `SmpLocks`,
  `KernelText`, `Nops`, `Handover`). Each loader pass overwrites bytes of the file or of the text.
  Each is shown to be a list of writes (`Patching`), which gives what every site holds, what is left
  alone, and when order and repetition do not matter. `RelocatedFile`, `AltTables`, `ParavirtSites` and
  `BuiltText` say the same of the tables themselves: which fields, instructions, call sites and bytes of the
  text are written for given section headers, CPU features and guest state, and what they then mean.
* **Page comparison** (`PageScan`, `SkipScan`, `LegalPages`, `Spacing`, `Detection`, `Integrity`, `UserPages`).
  The kernel
  scan skips ahead after each tolerated difference; its verdict is characterised exactly. `LegalPages` and
  `Spacing` say for which arrangements of jump labels and locks no legal page is ever reported. `Detection`
  says what must be reported: changes that nothing in the reference bytes and the records can excuse.
  `Integrity` and `BuiltText` join this with the passes that build the text.
* **Libraries of a process** (`LibraryFiles`, `LibraryCycles`, `Libraries`, `Tokens`): when the memoised
  depth-first load ends, what it does on every disk on which it ends, the dependency query, and the search path.

`Bytes`, `Patching`, `Graphs`, `Sections` and `Options` hold what the others share. Integers are unbounded; every
truncation of the program is written out (`% TWO_32`, `% TWO_64`, `Int32`). Host pointers are offsets
into the mapped file. Where the program updates a buffer or an object in place, so does the model, and
the method is tied to a function of the old state; the lemmas are about that function.

Acyclic dependencies are given by a ranking; `Graphs.AcyclicIff` shows that one exists exactly if no
name that is reached lies on a cycle.

`dafny verify dfyconfig.toml` checks the project.

## What the proofs found

Where the code differs from what its comments or its purpose suggest, the model follows the code.

* Loading completes under some schedule exactly if the dependencies are acyclic and every file exists,
  and then it completes under every fair one (`CompletionIff`, `FairCompletes`). With no reported
  processors nothing is loaded although the closing assertion passes (`CompleteIff`).
* After accepting a 5-byte site the scan moves on by six bytes, because its skip of five is followed by
  the loop's increment. For an arrangement of labels and locks on a page of the kernel's text, at any
  address, every legal page is accepted exactly if labels start at least six bytes apart (eight with the K8
  table, where a label's difference may begin at its third byte), no lock stands directly before a label,
  none stands up to four bytes before one where the byte before the lock can be the opcode of a call, and no
  label runs out of the page at 0xffffffff81001000 that the scan ignores (`SpacedIff`, which also says which
  distances that page makes harmless; `SpacedElsewhere` is the rule away from it). All but the clause on
  calls fail whatever the call rule leads to (`ReportedForAnyTarget`). `SevenBytesFail`,
  `LockBeforeLabelFails` and `LabelOutOfIgnoredPage` are legal pages of the kernel that are reported.
* The call rule of the scan reads the displacement one byte behind the operand and without its sign.
  For a call that really leads to the routine it fires exactly if the misread displacement is one less
  than the real one modulo 2^64 (`CallRuleIff`), whatever memory holds (`CallRuleIsBlind`);
  `GenuineCallMissed` is a call it does not recognise.
* `containsElfAddress` includes the end address, so a lock record may name the byte behind the text, and
  the pass overwrites it (`ByteBehindText`, with an input in `ByteBehindTextChanges`).
* A self-relative pointer written by relocation is followed correctly exactly if truncation to 32 bits
  loses as much of the pointer as of the two sections' skew, for `.altinstructions` exactly if the distance
  fits (`LockPointerRoundTrip`, `AltPointerRoundTrip`; `FarLockMissed` is a record that is not).
* A call moved out of a replacement keeps its target modulo 2^32 exactly if the skew of the section that
  holds the replacement is the correction the code makes: the skew of `.altinstr_replacement` inside that
  section, none elsewhere (`MovedCallIff`; `ThirdSectionLosesTarget`).
* The names a `.modinfo` section asks for are those its first `depends` record lists, except that a record
  without `=` makes the code step over its terminator and take a record that follows at once for the list
  (`RequestsOfRendering`, `ListedIff`; `BareKeyIsSteppedOver`).
* A module's name is searched for as a regular expression: of names without other metacharacters, the
  pattern finds other files too exactly if there is a dot in the name (`OnlySpellingsIff`, `DotMatchesMore`).
* The load of libraries ends exactly if no cycle lies along dependencies before which, in every file on
  the way, nothing is missing or cyclic (`EndsIff`; `SelfIsEndless`).
* A symbol's value below its section's address is taken for an offset. A field is right exactly if the value
  is such an offset, or the section's address vanishes in the field (`RelocationCorrect`;
  `ValueAboveBaseStays`). Values are resolved at most once exactly if they are not below the base or adding
  the base does not wrap around (`ResolveOnceIff`; `WrappedTwice`).
* `R_X86_64_32` is stored eight bytes wide; the psABI's field is four (`Word32StoredWide`).
* Relocation of a file goes through exactly if every relocation has a known type and a symbol whose section
  exists (`RunsThroughIff`); an absolute symbol ends in an error before the code's own switch is reached,
  because the section is looked up first (`AbsoluteSymbolStops`).

## Model

| member | source | states |
|---|---|---|
| `ModuleNames.FilePattern` | src/kernel.cpp:139-149 | The in-place replacement loop turns a name into the pattern that has a character class for every dash or underscore. |
| `ModuleNames.OneModuleIff` | src/kernel.cpp:49-50 | Two names have one normal form, which holds no dash, exactly if they differ in nothing but dashes for underscores. |
| `ModuleNames.PatternMatchesSpellings` | src/kernel.cpp:139-149 | The pattern of a name whose only metacharacters are dots matches exactly the spellings of the name, anything within a line standing for a dot. |
| `ModuleNames.OnlySpellingsIff` | src/helpers.cpp:104-133 | It finds nothing but spellings of the name exactly if there is no dot in it. |
| `ModuleNames.DotMatchesMore` | src/helpers.cpp:104-133 | A file that is taken for another module. |
| `ModuleNames.SameNormalFormSamePattern` | src/kernel.cpp:49-50 | Names that normalise alike search for the same pattern, and with no metacharacters but dots it finds each of them. |
| `ModuleLoader.ReachedInv` | src/kernel.cpp:48-99 | The inductive invariant (ownership, stacks along dependencies, logs, wanted names, the list) holds after every schedule of any number of workers. |
| `LoaderSafety.ClaimIff` | src/kernel.cpp:52-66 | An entry is null exactly if its name is on some worker's stack of activations. |
| `LoaderSafety.SingleOwner` | src/kernel.cpp:52-66 | No name is on two stacks, nor twice on one. |
| `LoaderSafety.ParsedOnce` | src/kernel.cpp:65-77 | No file is parsed twice, and a published object was parsed for its own name. |
| `LoaderSafety.EntryKept` | src/kernel.cpp:79-81 | Entries are never removed, and a published pointer never changes, however the run goes on. |
| `LoaderSafety.DependenciesFirst` | src/elfmoduleloader.cpp:66-71 | All dependencies of a published module are published, and were so before it. |
| `LoaderSafety.KeysAreNormal` | src/kernel.cpp:49-50 | The map holds names without dashes only. |
| `LoaderSafety.FinalState` | src/kernel.cpp:117-127 | Once all workers have returned, the keys are exactly the names reachable from the list and no entry is null. |
| `LoaderSafety.CompleteIff` | src/kernel.cpp:101-127 | The joined map is complete exactly if there was a worker or nothing to load. |
| `LoaderLiveness.LowestOwnerActs` | src/kernel.cpp:53-60 | The owner of a claim of lowest rank is never waiting. |
| `LoaderLiveness.DeadlockFree` | src/kernel.cpp:52-83 | With acyclic dependencies some worker can take a non-spinning step in every reachable state that is neither finished nor aborted. |
| `LoaderLiveness.StepDrops` | src/kernel.cpp:86-99 | A non-spinning step lowers the measure by exactly one, and a spinning step changes nothing. |
| `LoaderLiveness.ActionsAreCounted` | src/kernel.cpp:86-99 | In every schedule the non-spinning steps are exactly what the measure has lost. |
| `LoaderLiveness.SameNumberOfActions` | src/kernel.cpp:101-119 | Every complete run takes the same number of non-spinning steps, whatever the interleaving. |
| `LoaderCompletion.FairStops` | src/kernel.cpp:101-119 | With acyclic dependencies every fair infinite schedule reaches a state where all workers have returned or the program aborted. |
| `LoaderCompletion.FairCompletes` | src/kernel.cpp:101-127 | If moreover no file is missing, every fair schedule ends with all workers returned. |
| `LoaderCompletion.CompletionIff` | src/kernel.cpp:101-127 | Some schedule loads everything exactly if dependencies are acyclic and every file exists. |
| `LoaderCompletion.LoadsIffNoCycle` | src/kernel.cpp:52-73 | The same said of names: no module reachable from the list depends on itself by any chain, and each has a file. |
| `LoaderCompletion.MissingFileAborts` | src/kernel.cpp:68-73 | With a file missing, every fair schedule over acyclic dependencies ends in the failed assertion. |
| `ModuleFiles.LoadsFromSections` | src/elfmoduleloader.cpp:29-64 | From section bytes to the joined map: if `.modinfo` sections describe the dependencies, loading completes exactly if these have no cycle and every file exists, and then under every fair schedule. |
| `KernelThreads.Kernel.LoadModule` | src/kernel.cpp:48-84 | The recursive load, as one thread runs it among the others, by exactly the protocol's steps: it returns with its object in the map, or the program was aborted or the turns ran out before the thread returned. |
| `KernelThreads.Kernel.Wait` | src/kernel.cpp:53-63 | The spin loop ends with the published object, its turns being the protocol's idle steps, unless the program was aborted or the turns ran out. |
| `KernelThreads.Kernel.LoadDependencies` | src/elfmoduleloader.cpp:52-61 | One recursive load after the other brings the thread from its first dependency behind its last, with its caller's activations untouched, unless the program was aborted or the turns ran out. |
| `KernelThreads.Kernel.LoadModuleThread` | src/kernel.cpp:86-99 | A thread either leaves its loop, and then has returned in the protocol, or it is still running there when the program was aborted or the turns are over. |
| `KernelThreads.RunThread` | src/kernel.cpp:86-99 | Under any order of turns a thread's code returns exactly if the protocol's worker does. |
| `KernelThreads.LoadAllModules` | src/kernel.cpp:101-127 | Every thread runs its recursive code under one order of turns; all join exactly if the protocol does, and then the closing assertion holds. |
| `Tokens.SplitOfJoin` | src/elfmoduleloader.cpp:52-59 | Splitting a join of non-empty names without the delimiter gives these names, wherever the text stands. |
| `Tokens.SplitKeepsText` | src/taskmanager.cpp:348-359 | For any text the tokens together are the text without its delimiters. |
| `Tokens.SplitIsPlain` | src/taskmanager.cpp:348-359 | Every token is non-empty and holds no delimiter. |
| `Tokens.SearchPath.SetLibraryDir` | src/taskmanager.cpp:348-359 | The loop appends every directory of the colon-separated text, in order, behind the root path. |
| `Tokens.LibraryDirsOfJoin` | src/taskmanager.cpp:348-359 | A colon join of non-empty colon-free names adds exactly these names. |
| `Modinfo.StrTok` | src/elfmoduleloader.cpp:52-59 | One in-place cut yields the first token and leaves the rest; only the delimiter behind it becomes a NUL. |
| `Modinfo.LoadDependencies` | src/elfmoduleloader.cpp:29-64 | The loop asks for what the section requests, and all it changes is commas into NULs. |
| `Modinfo.RequestsOfRendering` | src/elfmoduleloader.cpp:40-63 | Of any NUL-padded rendering of records exactly this is requested: the list of the first record with the key, or the text behind it if that record is the bare key. |
| `Modinfo.ListedIff` | src/elfmoduleloader.cpp:40-63 | What is requested is what the first record with the key lists, exactly unless it is the bare key and a record with a name follows at once. |
| `Modinfo.BareKeyIsSteppedOver` | src/elfmoduleloader.cpp:40-63 | A section in which the module's own name record is asked for. |
| `Modinfo.NamesRequested` | src/elfmoduleloader.cpp:40-63 | If that record is the key, one character and a comma join of names, exactly these names are requested in order. |
| `Modinfo.LastTerminatorIsOptional` | src/elfmoduleloader.cpp:40-63 | A section whose last record is not terminated asks for the same as with the terminator. |
| `Nops.IdealNops` | src/kernel_headers.cpp:8-56 | The bytes behind every pointer of both index tables are the NOP of that length. |
| `Nops.AddNops` | src/paravirt_patch.cpp:36-46 | The loop writes exactly the padding of the given length and nothing else. |
| `Nops.TableNops` | src/kernel_headers.cpp:8-30 | Every table entry is a sequence of whole NOP instructions. |
| `Nops.AtomicIsOneInstruction` | src/kernel_headers.cpp:8-30 | The atomic NOP is one instruction; the plain 5-byte NOP is so exactly in the P6 table. |
| `Nops.RecommendedForm` | src/kernel_headers.cpp:8-30 | The long entries of the P6 table are the multi-byte NOPs the SDM recommends, each one instruction with zero displacement. |
| `Nops.PrefixedForm` | src/kernel_headers.cpp:8-30 | The K8 entries are one or two prefixed NOPs, the atomic one a single instruction. |
| `Nops.IdealNopsGenuine` | src/kernel_headers.cpp:8-56 | So every pointer of both index tables leads to whole NOP instructions, as the theorems on padding assume. |
| `Nops.FillIsNops` | src/paravirt_patch.cpp:36-46 | Padding of any length decodes as whole NOP instructions. |
| `Nops.FillChunks` | src/paravirt_patch.cpp:36-46 | Padding of any length is one table entry for every eight bytes begun. |
| `Relocation.ElfFile64.ApplyRelocations` | src/elffile64.cpp:307-341 | The loop over the sections performs the relocations of the allocated sections in order, and stops where the code does. |
| `Relocation.ElfFile64.ApplyRelaOnSection` | src/elffile64.cpp:343-404 | The loop over one section with its cached symbol section is the sequence of its relocations. |
| `Relocation.ElfFile64.ApplyRela` | src/elffile64.cpp:457-591 | One turn, with the cached section, resolves the symbol in the table and writes the field of its type. |
| `Relocation.RunsThroughIff` | src/elffile64.cpp:457-591 | A run of relocations goes through exactly if each has a known type and a symbol whose section exists in the file's own table. |
| `Relocation.AbsoluteSymbolStops` | src/elffile64.cpp:457-591 | A run that names an absolute symbol stops. |
| `Relocation.ResolveOnceIff` | src/elffile64.cpp:535-541 | Resolving a value twice is resolving it once exactly if it is not below the base or the sum does not wrap. |
| `Relocation.WrappedTwice` | src/elffile64.cpp:535-541 | A base and a value that is taken for an offset twice. |
| `Relocation.ResolvesIff` | src/elffile64.cpp:535-541 | A symbol defined in the file resolves to its address exactly if its value is below the base and the sum does not wrap, or the base is zero. |
| `Relocation.SectionRelativeSettles` | src/elffile64.cpp:535-541 | A section-relative symbol ends with its base added exactly once. |
| `Relocation.RelocationIsWrites` | src/elffile64.cpp:389-577 | However many relocations name a symbol, the image is the list of writes computed from the file's own symbol table. |
| `Relocation.RelocationCorrect` | src/elffile64.cpp:543-577 | A disjoint R_X86_64_64, 32S or PC32 field of an exported or defined symbol decodes to S+A, or S+A-P, truncated to the field, exactly if the symbol is undefined in the file, its value is below its section's address, or that address vanishes in the field; PC32 in `.altinstructions` has its own rule. |
| `Relocation.ValueAboveBaseStays` | src/elffile64.cpp:535-541 | A file in which the field is wrong. |
| `Relocation.RelocationFrame` | src/elffile64.cpp:548-577 | Every byte outside the fields is unchanged. |
| `Relocation.RelocationOrder` | src/elffile64.cpp:319-336 | The order of the relocations across all sections affects neither image nor symbols. |
| `Relocation.Word32StoredWide` | src/elffile64.cpp:556-558 | The eight-byte store of R_X86_64_32 is the specified four-byte one exactly if the next four bytes already hold the upper half. |
| `RelocatedFile.JobIff` | src/elffile64.cpp:319-341 | The relocations performed are exactly the records of the RELA tables for allocated sections. |
| `RelocatedFile.FieldsHold` | src/elffile64.cpp:389-591 | In a file with known types, settled symbols and disjoint fields every record's field holds its calculation, S + A, S + A - P or A by the type's number, in the width the code stores. |
| `RelocatedFile.RestStays` | src/elffile64.cpp:548-577 | Every byte in no record's field stays. |
| `RelocatedFile.GoesThroughIff` | src/elffile64.cpp:319-341 | The pass goes through exactly if no table stops it and every record has a known type and a symbol whose section exists. |
| `Handover.AltPointerRoundTrip` | src/elfkernelspaceloader.cpp:84-85 | A relocated .altinstructions pointer, followed by the patcher, leads to the same symbol's place exactly if the distance fits 32 signed bits. |
| `Handover.LockPointerRoundTrip` | src/elfkernelspaceloader.cpp:148-155 | A relocated .smp_locks record, followed by the lock pass, leads to the lock's byte in the file exactly if truncation takes the same from the distance and from the sections' skew. |
| `Alternatives.ApplyAltinstr` | src/elfkernelspaceloader.cpp:75-113 | The loop over the table is the sequence of its enabled replacements. |
| `Alternatives.CorrectOperand` | src/elfkernelspaceloader.cpp:98-104 | The two read-modify-writes of the operand in the buffer leave the moved displacement, truncated once. |
| `Alternatives.MovedCallIff` | src/elfkernelspaceloader.cpp:95-104 | A moved call reaches the same guest target modulo 2^32 exactly if the skew of the section that holds its replacement is the correction made. |
| `Alternatives.MovedCallKept` | src/elfkernelspaceloader.cpp:95-104 | So it does for every replacement in `.altinstr_replacement`, and for one in the text itself. |
| `Alternatives.ThirdSectionLosesTarget` | src/elfkernelspaceloader.cpp:95-104 | A call whose replacement lies in a third section and whose target is lost. |
| `Alternatives.MovedCallExact` | src/elfkernelspaceloader.cpp:95-104 | In these cases the target is the same exactly if it is within reach of the new place. |
| `Alternatives.TailIsNops` | src/elfkernelspaceloader.cpp:106-111 | Behind the moved replacement the instruction decodes as NOPs. |
| `Alternatives.AltApplied` | src/elfkernelspaceloader.cpp:75-113 | After the pass every enabled instruction holds its replacement, computed from the unpatched file. |
| `Alternatives.AltFrame` | src/elfkernelspaceloader.cpp:75-113 | Bytes outside the enabled instructions are unchanged. |
| `AltTables.EntryIsRead` | src/elfkernelspaceloader.cpp:75-91 | The fields of a printed table entry are read back: the two places, the feature, the two lengths. |
| `AltTables.OnIsReplaced` | src/elfkernelspaceloader.cpp:75-113 | An instruction whose feature the guest has holds its moved replacement and then whole NOPs. |
| `AltTables.OffStays` | src/elfkernelspaceloader.cpp:78-81 | A byte of no instruction whose feature the guest has stays. |
| `AltTables.CallStaysCall` | src/elfkernelspaceloader.cpp:95-104 | A moved 5-byte call is a call that leads where it led exactly if its section has the skew that is corrected. |
| `AltTables.PlainIsKept` | src/elfkernelspaceloader.cpp:89-105 | Any other replacement is moved as it is. |
| `Paravirt.GetCallDestination` | src/paravirt_patch.cpp:114-147 | The lookup struct by struct is one index into the structs laid end to end, or zero behind them. |
| `Paravirt.ParavirtNativePatch` | src/paravirt_patch.cpp:201-236 | The buffer holds the patch at its start and is otherwise unchanged; the result is the bytes used. |
| `Paravirt.UsedWithinSite` | src/paravirt_patch.cpp:56-112 | No patch uses more bytes than the site has, so the padding never underflows. |
| `Paravirt.BranchTarget` | src/paravirt_patch.cpp:79-84 | A placed call or jump leads to its target modulo 2^32, and exactly if it is within reach. |
| `Paravirt.ApplyParainstr` | src/paravirt_patch.cpp:238-294 | The loop patches the sites in order up to the first that is too long. |
| `PatchSites.SiteDecodes` | src/paravirt_patch.cpp:279-292 | A patched site is its code followed by whole NOPs; a site kept is unchanged. |
| `PatchSites.SiteApplied` | src/paravirt_patch.cpp:259-293 | Over disjoint sites every site holds its own image, computed from the unpatched file. |
| `PatchSites.PatchAllFrame` | src/paravirt_patch.cpp:259-293 | Only bytes inside sites change. |
| `PatchSites.PatchAllTwice` | src/paravirt_patch.cpp:259-293 | A second pass over the table changes nothing. |
| `PatchSites.PatchAllOrder` | src/paravirt_patch.cpp:259-293 | Every permutation of the table, with repetitions, gives the same image. |
| `ParavirtSites.NativeSite` | src/paravirt_patch.cpp:201-236 | The first native operation of a site's type is there, with whole NOPs behind it, exactly if it fits; otherwise the site is unchanged. |
| `ParavirtSites.EmptySite` | src/paravirt_patch.cpp:159-167 | A site without a function, or with the empty one, becomes whole NOPs. |
| `ParavirtSites.IdentitySite` | src/paravirt_patch.cpp:168-177 | An identity function becomes its move, if it fits. |
| `ParavirtSites.JumpSite` | src/paravirt_patch.cpp:178-190 | The operations that do not return become a jump to their function. |
| `ParavirtSites.CallSite` | src/paravirt_patch.cpp:191-197 | Any other function is called, exactly if the site may clobber all that it may and has room for the call. |
| `ParavirtSites.RestStays` | src/paravirt_patch.cpp:259-293 | Bytes of no site stay. |
| `SmpLocks.ElfText.ApplySmpLocks` | src/elfkernelspaceloader.cpp:116-166 | The loop over the records writes the prefix for the CPU state and records offsets on the first run only. |
| `SmpLocks.LocksApplied` | src/elfkernelspaceloader.cpp:143-165 | Exactly the bytes named by a record become the prefix, and exactly these are recorded. |
| `SmpLocks.NamedIff` | src/elfkernelspaceloader.cpp:143-155 | The bytes named are those from the first of the text to the one behind it that one of the 4-byte records leads to. |
| `SmpLocks.LockPointerIff` | src/elfkernelspaceloader.cpp:150-155 | A record leads to the lock's byte in the file exactly if truncation takes the same from its distance and from the sections' skew. |
| `SmpLocks.FarLockMissed` | src/elfkernelspaceloader.cpp:150-155 | A record that does not lead to its lock. |
| `SmpLocks.ByteBehindText` | src/elfkernelspaceloader.cpp:143-165 | A record that leads to the end address overwrites the byte behind the text and records its offset. |
| `SmpLocks.ByteBehindTextChanges` | src/elfkernelspaceloader.cpp:143-165 | A file where this happens. |
| `KernelText.Loader.ApplyJumpEntries` | src/elfkernelspaceloader.cpp:169-242 | The nested loops visit the matching labels in order, write each site and record on the first run only. |
| `KernelText.JumpBytesDecode` | src/elfkernelspaceloader.cpp:225-235 | The stored jump leads to the recorded target exactly if it is within signed 32-bit range. |
| `KernelText.JumpLabelsApplied` | src/elfkernelspaceloader.cpp:183-240 | Every matched site ends as a jump to its target when enabled and as NOPs otherwise. |
| `KernelText.JumpLabelsFrame` | src/elfkernelspaceloader.cpp:183-240 | Bytes outside matched sites are unchanged. |
| `KernelText.JumpLabelsOrder` | src/elfkernelspaceloader.cpp:183-240 | The order of both tables does not change the text. |
| `KernelText.SiteRecorded` | src/elfkernelspaceloader.cpp:226-230 | The validator's map holds exactly the visited sites with their displacements. |
| `KernelText.FirstRecordStays` | src/elfkernelspaceloader.cpp:226-230 | Of several labels at one address the first that is visited is recorded, whatever the tables hold. |
| `KernelText.DestinationsIff` | src/elfkernelspaceloader.cpp:226-230 | The recorded destinations are the targets of the visited labels. |
| `KernelText.Loader.ApplyMcount` | src/elfkernelspaceloader.cpp:26-40 | The loop overwrites every recorded call site with a 5-byte NOP. |
| `KernelText.McountApplied` | src/elfkernelspaceloader.cpp:26-40 | Every ftrace call site ends as whole NOPs when sites do not overlap. |
| `PageScan.ValidateCodePage` | src/kernelvalidator.cpp:378-500 | The irregular loop yields the verdict of the scan. |
| `PageScan.IntactIff` | src/kernelvalidator.cpp:378-500 | Nothing is reported exactly if a set of accepted run heads, none in another's window, accounts for every run of differences. |
| `PageScan.ReportIff` | src/kernelvalidator.cpp:378-500 | An offset is reported exactly if everything before it is accounted for so and no rule accepts it. |
| `PageScan.EveryDifferenceExplained` | src/kernelvalidator.cpp:378-500 | A differing byte of a page without report follows another, lies in the window of a head the scan visited, or lies behind the initialised content. |
| `PageScan.CallRuleIff` | src/kernelvalidator.cpp:422-436 | For a call that leads to the routine the call rule fires exactly if the misread displacement is one less than the real one. |
| `PageScan.CallRuleIsBlind` | src/kernelvalidator.cpp:422-436 | Where it fires, the difference is let pass whatever memory holds. |
| `PageScan.GenuineCallMissed` | src/kernelvalidator.cpp:422-436 | A call to the routine that the rule does not recognise. |
| `PageScan.LowestDifferenceDecides` | src/kernelvalidator.cpp:378-500 | The lowest differing byte is always examined, and is where the scan stops exactly if no rule covers it. |
| `PageScan.IdenticalPageIntact` | src/kernelvalidator.cpp:378-500 | An equal page is intact; where no rule applies only an equal page is. |
| `Detection.ChangeIsReported` | src/kernelvalidator.cpp:378-500 | The lowest difference of a page is reported if it is not in the ignored page, at no recorded label or lock, and the reference has no 5-byte NOP around it, neither pattern at it and no call opcode before it. |
| `Detection.LooksBehindLabel` | src/kernelvalidator.cpp:417-420 | Behind a recorded label that holds a NOP or its jump, the next such change is reported from six bytes on. |
| `Detection.LooksBehindAtomic` | src/kernelvalidator.cpp:395-402 | The same behind a NOP that became the atomic one. |
| `Detection.LooksBehindPatterns` | src/kernelvalidator.cpp:411-415 | The same behind the two patterns. |
| `Detection.LooksBehindCall` | src/kernelvalidator.cpp:422-436 | Behind a call of the routine it is five bytes. |
| `Detection.LooksBehindLock` | src/kernelvalidator.cpp:457-464 | Behind a recorded lock it is the very next byte. |
| `Detection.LooksBehindOneByte` | src/kernelvalidator.cpp:389-409 | The same in the ignored page and behind an operand prefix at the page's start. |
| `Detection.LoneChangeIff` | src/kernelvalidator.cpp:378-500 | A page in which one byte is changed is intact for the scan exactly if the change is one of six kinds, given by bytes and records; any other is reported. |
| `LegalPages.LegalPageIntact` | src/kernelvalidator.cpp:378-500 | A page whose two sides are legal states of the same labels and locks, spaced given where the call rule fires, is never reported. |
| `Spacing.SpacedIff` | src/kernelvalidator.cpp:378-500 | For every page address: an arrangement of labels and locks has no legal page of the kernel's text that is reported, for any target of the call rule, exactly if it is spaced. |
| `Spacing.ReportedForAnyTarget` | src/kernelvalidator.cpp:378-500 | If it is not spaced even without the clause on calls, a page is reported for every target of the call rule. |
| `Spacing.SpacedElsewhere` | src/kernelvalidator.cpp:389-393 | Away from the ignored page being spaced is the distances alone. |
| `Spacing.SevenBytesFail` | src/kernelvalidator.cpp:396-402 | A legal page of the kernel's text with labels seven bytes apart that is reported. |
| `Spacing.LockBeforeLabelFails` | src/kernelvalidator.cpp:385-388 | A legal page of the kernel's text with a lock directly before a label that is reported. |
| `Spacing.LabelOutOfIgnoredPage` | src/kernelvalidator.cpp:390-393 | A legal page, the first two megabytes of a kernel's text, with a label that runs out of the ignored page, that is reported. |
| `Integrity.BuildIsWellBuilt` | src/elfkernelloader.cpp:36-97 | The lock pass, the ftrace pass and the label pass together leave every site in a legal state. |
| `Integrity.NoFalseAlarm` | src/kernelvalidator.cpp:350-516 | A reference built under one static-key and lock state is accepted against memory in any other legal state, on every page that no label straddles and whose own sites are spaced, given where the call rule fires on the built bytes. |
| `Integrity.OtherBuildIsLegal` | src/elfkernelloader.cpp:36-97 | The text as built under any other guest state is such legal memory. |
| `BuiltText.BuiltLabelMeans` | src/elfkernelspaceloader.cpp:183-240 | In the finished text an enabled label is the jump to its target if that is in reach, any other whole NOPs. |
| `BuiltText.BuiltCallSite` | src/elfkernelspaceloader.cpp:26-40 | Every recorded ftrace call site is whole NOPs in the finished text. |
| `BuiltText.BuiltLockByte` | src/elfkernelspaceloader.cpp:116-166 | Every byte of `.text` that a record names is the lock prefix for the guest's CPUs. |
| `BuiltText.BuiltRest` | src/elfkernelloader.cpp:36-97 | Every other byte is the file's. |
| `BuiltText.LoneFlipIff` | src/kernelvalidator.cpp:457-464 | Where memory is the built text but for one flipped lock prefix, the scan lets that pass exactly at bytes that lock records name, in the ignored page and where the call rule fires, and reports this byte everywhere else. |
| `Integrity.ValidJmpLabelIff` | src/kernelvalidator.cpp:327-348 | At a recorded label within range the validator accepts exactly the two NOPs and a jump to the recorded target. |
| `UserPages.ValidateCodePage` | src/processvalidator.cpp:717-749 | The loop ends for every pattern of unmapped pages, is silent exactly if every mapped text byte is equal, and otherwise reports the first that is not. |
| `UserPages.ValidateSegment` | src/elfuserspaceloader.cpp:19-32 | For a segment that fits its mapping: with the whole pages that are kept of it, silence means that on every mapped page the segment and what follows it in the file, to the end of the mapping, are in memory. |
| `Libraries.TaskManager.LoadLibrary` | src/taskmanager.cpp:367-418 | On every disk on which it ends the load has the outcome of the recursion `Load`, adds only reachable libraries, parses each file at most once, keeps the map closed, and fails exactly if something reachable is missing. |
| `Libraries.TaskManager.LoadDependencies` | src/elfuserspaceloader.cpp:96-120 | The loop has the outcome of the recursion `LoadAll`; afterwards the library has its loaded dependencies in the order of its file, or something reachable is missing. |
| `Libraries.LoadFirst` | src/taskmanager.cpp:367-418 | From an empty map, if any bound on the depth is enough, the outcome is that of `Load` under it, and the keys are exactly the reachable libraries, each parsed once. |
| `LibraryCycles.EndsIff` | src/taskmanager.cpp:367-418 | The load ends exactly if no cycle lies along dependencies before which everything is good. |
| `LibraryCycles.EndsIffNoCycle` | src/taskmanager.cpp:367-418 | Without a cycle it ends whatever is missing; with nothing missing, only then. |
| `LibraryCycles.SelfIsEndless` | src/taskmanager.cpp:367-418 | A library that needs itself, whose load does not end. |
| `Libraries.FirstPathIff` | src/elfuserspaceloader.cpp:122-133 | The depth-first search finds a path exactly to what is reachable. |
| `Libraries.FirstPathIsFirst` | src/elfuserspaceloader.cpp:122-133 | At every library on it the path takes the first dependency that leads to the target. |
| `LibraryFiles.LeadsToIff` | src/elfuserspaceloader.cpp:96-120 | A file leads to an ELF file exactly if that is what the search finds for a name it asks for. |
| `Libraries.IsDependency` | src/elfuserspaceloader.cpp:122-133 | The recursive query returns the number of libraries on the depth-first path, zero if there is none. |

## Left out

- libvmi, libdwarf, DWARF navigation, regular expressions and file search are parameters: guest memory, section addresses, exported symbols, CPU features, the files that are found.
- `ModuleLoader` follows the claim map and the list only; the symbol store that parallel loads share is not part of this model.
- `ModuleLoader` does not model exceptions thrown while a module is parsed (a missing section, for instance), which would end the thread.
- `Relocation.ElfFile64.ApplyRelocations`: the model is the ET_REL path without a process; ET_EXEC and ET_DYN files look for their target section by a heuristic that the code marks as provisional.
- `Relocation.RelocationCorrect` is about the types whose calculation is the psABI's; for RELATIVE, IRELATIVE, COPY and R_X86_64_32 `RelocatedFile.FieldsHold` says what the code stores.
- `Relocation.State` keeps one symbol table, apart from the patched bytes, and relocation records apart from them too; files whose fields overlap these tables are not modelled.
- `PageScan.Tolerated`: five-byte comparisons that would run past the page end count as no match; the code reads on.
- `Alternatives.ApplyAltinstr` and the other passes start where the section was found; the exception for a missing section is not modelled.
- `Paravirt.ParavirtNativePatch` takes the machine code of the native operations and the struct offsets as parameters; they come from inline assembly and DWARF.
- `KernelText.Loader.ApplyJumpEntries`: guest records are given with their key's state; for modules the code stops at an assertion before the loop does anything.
- `Integrity.NoFalseAlarm` takes the file's bytes before the lock pass as they are, whatever the passes before it did; ftrace call sites apart from labels and locks.
- `ModuleNames.PatternMatchesSpellings`: names with metacharacters of regular expressions other than the dot, which the pattern does not escape, are left out of what is said about matching; the syntax they form is that of the regular expression library.
- `Modinfo.LoadDependencies` collects the names instead of calling the loader; memory behind the section reads as NUL.
- `KernelThreads.Kernel` runs one thread's code at a time: what the others do in their turns is the protocol's step.
- `Libraries.TaskManager` holds libraries only; executables and the vDSO enter the same map in the program.
- `UserPages.ValidateCodePage` starts where the loader for the mapping was chosen, and reads return the mapped prefix of a range.
- `initData`, data and stack pages, pointer classification, disassembly, option parsing and all output are not modelled.
