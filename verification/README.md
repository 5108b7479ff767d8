# x86emu: the engines under the emulator

x86emu runs x86-32 and x86-64 user-mode programs. Under its instruction loop sit a handful of small
stateful engines, each of which has to agree with something far simpler than itself. This project
models those engines in Dafny and proves that they do.

| files | engine | what it is proved against |
|---|---|---|
| `AddressSpace`, `FlatMemory`, `MemoryCore`, `GuestMemory`, `MemoryRuns`, `MemoryUnderlay` | guest memory: a sparse page table with pages backed on first touch, contiguous mappings, a read and a write translation cache, watched code pages, a pre-image journal | one flat partial map from addresses to bytes, and one cell at a time |
| `Unwinder`, `UnwindCodes`, `Prologue`, `FrameUnwind`, `StackWalk` | the x64 unwinder and its frame loops | a forward semantics of prologues, and the stack of calls in progress |
| `Stream`, `StateRecords`, `StateLayout`, `SavedState`, `StateIO`, `Snapshot`, `Emulator` | the saved state: tagged sections, and memory kept as carried pages, pages left to files, and blanks | the emulator that was saved, and the format field by field |
| `WideMath`, `Alu`, `Shifts`, `ShiftBits`, `Cpu`, `StringOps`, `StringFills`, `StringFaults` | 128-bit arithmetic, flags, condition codes, shifts, group 3, the string instructions | integer arithmetic, single bits, n-limb numbers, memmove, the repeated fill, first deciding element |
| `PageAllocator`, `PageCalls`, `PageMemory`, `Heap`, `HeapCalls` | the mmap window and the heap | disjoint ranges, and blocks that keep their bytes |
| `Pipes`, `PipeCalls` | pipe ends shared across descriptor tables | tables and queues with no counts at all |
| `Wildcard`, `CommandLine`, `Utf` | the wildcard matcher, the command-line splitter, UTF-16 and UTF-8 | the recursive meaning of a pattern, the argument list, the units and the bytes |

`Bytes` and `Wrappers` hold little-endian numbers and `Option`.

Where the program changes things in place, the model does too. `GuestMemory.Memory`, `Cpu.Cpu`,
`Unwinder.Context`, `Stream.Writer`, `Stream.Reader`, `Emulator.Emulator`, `PageAllocator.Pages`,
`Heap.Heap` and `Pipes.Processes` are classes with the program's fields, and each method's
postcondition equates the new state with a function of the old one; the theorems are about those
functions and about runs of them. The two translation caches are arrays, and released host memory is
really gone from the model, so that a stale pointer into it could not be followed.

Machine words are integers with the wrap-around written out: in the unwinder, the allocators and the
string instructions where they compute addresses, and in memory where `map`, `unmap` and
`map_contiguous` compute the end of a range. Reads and writes go on above 2^64 instead of at zero.

## Where the code falls short of the plain statement

Each of these has an exact condition, a concrete input that misses it, or both.

- Mapping pages underneath a contiguous mapping has two effects that a flat memory would not have: a
  page of zeros written there later can be lost, because the zero-page skip looks at the hidden slot,
  and the hidden page comes back, blank, when the mapping is dropped by its other end
  (`MemoryUnderlay.UnderlayLosesZeros`, `MemoryUnderlay.UnderlayReturns`; exactly when, for one
  operation, `MemoryUnderlay.SkipShows` and `MemoryUnderlay.UnmapShows`). A run agrees with the flat
  memory all along exactly when it does no such mapping: `NoUnderlay`, `MemoryUnderlay.UnderlayExact`.
- A range that passes 2^64 is, but for one page it may come round to, neither mapped nor unmapped:
  `map` and `unmap` walk over exactly the pages of the range when it does not pass 2^64
  (`AddressSpace.WalkedExact`, `AddressSpace.TopMapsNothing`).
- A state file cut at a section boundary, or within a section's first twelve bytes, is accepted
  (`SavedState.CutAccepted`).
- 64-bit IDIV accepts quotients that do not fit when the signs differ (`Cpu.IdivRight`,
  `Cpu.IdivMisses`).
- The carry flag of SAR at a count of at least the operand's width is the bit below the sign
  (`Shifts.SarCarryRight`, `Shifts.SarCarryMisses`).
- RCR by one leaves the overflow flag as it was; rotates and shifts by one set it as the manual has it
  but for RCR, and there exactly when it held the right value before (`Shifts.OverflowByOne`,
  `Shifts.OverflowMisses`).
- Sizes within a page of 2^64 round up to nothing in the page allocator, and within 15 bytes in the
  heap: the call succeeds and hands out no bytes (`PageAllocator.AllocExact`,
  `PageAllocator.AllocLies`, `Heap.AllocExact`, `Heap.AllocLies`).
- The sum of the frontier, or of the heap's end, and a large request can wrap past the limit test:
  the call succeeds, and the frontier or the end moves down (`PageAllocator.AllocExact`,
  `PageAllocator.AllocWraps`, `Heap.AllocExact`, `Heap.AllocWraps`). When the sum passes 2^64 nothing
  is mapped for the range handed out (`PageMemory.AllocMapsNothing`). Heap operations are served exactly when neither happens
  (`Heap.TraceExact`).
- A free of more bytes than were allocated unmaps its neighbours' pages (`PageMemory.FreeTakesNext`),
  unless it is so much more that the range passes 2^64 (`PageMemory.FreePastTop`). Live ranges stay
  mapped exactly when the range freed passes 2^64 or reaches into no other (`PageMemory.FreeKeepsMapped`).
- A partial free followed by a whole one lets two live ranges share a page
  (`PageAllocator.FreeExact`, `PageAllocator.PartialFreeShares`).
- The wildcard matcher compares a literal star in a name with the star of a pattern before treating
  it as a wildcard (`Wildcard.NamesExact`). The pattern `*.*` matches every name, dot or none.
- Units with an unpaired surrogate survive the round trip, but what is written for them is not
  well-formed UTF-8 (`Utf.PairedExact`, `Utf.LoneSurrogate`).

## How the pieces are stated

- **Memory.** `Space` is what memory means: a flat map from page numbers to pages, the set of
  page-table slots, and the extents of the contiguous mappings. `Valid()` ties the page table, the spans, the caches
  and the host blocks to it; in particular a cache entry, whatever it holds, leads to the block its
  page has now, a watched page is neither in the write cache nor in a span, and the write cache is
  empty while the journal is open. `Seen` says that every watched page that was changed or lost was
  reported to the observer; `Journaled` that every page that changed has its opening contents in the
  journal.
- **Unwinding.** A context holds the sixteen integer registers and both halves of the sixteen XMM
  registers. `Exec` runs one prologue step forward; `Undo` takes it back. `Live` says that an
  activation was interrupted: its unwind data lies in memory as the compiler wrote it, the steps that
  have run are those the offset says, and the rest of the function has kept what the prologue saved.
- **Saved state.** A section is read by a `Get` function from a feed of bytes that fails for good at
  the first short read, and written by a `Put` function in front of whatever follows. `Apply` is one
  section, `Fold` a list of them, `Load` a file.
- **Allocators.** `PageAllocator.Sound` is the invariant of the window: ranges page-aligned, below the frontier,
  pairwise disjoint, and adding up with the alignment gaps to the frontier's advance. `Heap.Sound` says that
  blocks lie apart inside the heap.
- **Pipes.** `System` has tables and queues only. `Ok` says that the counts in `Core` count the
  descriptors and ends that are there.
- **Calls.** `PipeCalls`, `PageCalls` and `HeapCalls` say what each call answers and changes in terms
  of descriptors, queues, ranges and blocks alone, without the functions the classes are proved
  against; `ShiftBits` does the same for shifts with bits, and `StateLayout` for records with fields.

The unwind data follows Microsoft's document "x64 exception handling", sections "struct UNWIND_INFO",
"struct UNWIND_CODE", "Chained unwind info structures" and "Unwind procedure". The arithmetic follows
the Intel Software Developer's Manual, Volume 2A section 3.3 (CMPS, IDIV, IMUL) and Volume 2B section
4.3 (MOVS, RCL/RCR/ROL/ROR, REP, SAL/SAR/SHL/SHR, SCAS). UTF-8 is the grammar in section 4 of RFC 3629, UTF-16
sections 2.1 and 2.2 of RFC 2781. Command lines are quoted as CommandLineToArgvW documents.

## Model

| member | source | states |
|---|---|---|
| `MemoryRuns.CellRight` | src/memory.cpp:30-176 | after any run of map, unmap, map_contiguous, reset, clone_from, mark_code_page, bulk and sized reads and writes that maps nothing underneath a contiguous mapping, ranges that pass 2^64 included, an address is mapped exactly when a one-address-at-a-time reference says so, and holds the byte last written there, or zero if none was since it was mapped |
| `MemoryRuns.Execute` | src/memory.h:314-362 | the real class, driven through a run from empty, sized accesses and watched pages included, ends with the memory the reference gives and shows the guest, at every step, the bytes or the fault address that memory calls for, whatever its two caches held |
| `MemoryRuns.Perform` | src/memory.cpp:30-176 | one operation on the real memory has the meaning and the outcome the flat memory gives it, and reports what it does to watched pages |
| `MemoryRuns.Continue` | src/memory.h:204-223 | over any run from any memory, every watched page that changed, lost its bytes or stopped being watched was reported by a write, unmap or flush notification |
| `MemoryRuns.RunPlain` | src/memory.cpp:73-86 | a run that maps nothing under a contiguous mapping keeps page table and mappings apart, each page under at most one mapping |
| `MemoryUnderlay.UnderlayExact` | src/memory.cpp:30-176 | a run agrees with the one-address reference all along, however its memory is accessed at each point, exactly when neither it nor a run it clones from maps anything under a contiguous mapping |
| `MemoryUnderlay.UnderlayShows` | src/memory.cpp:30-39 | one map() leaves memory right for every later access exactly when no contiguous mapping lies over the range |
| `MemoryUnderlay.SkipShows` | src/memory.cpp:164-171 | one write leaves memory as a plain store would exactly when every page it skips under a contiguous mapping was already zero |
| `MemoryUnderlay.UnmapShows` | src/memory.cpp:41-54 | one unmap() takes away exactly the pages it should, exactly when no mapping it drops whole was hiding a page-table slot outside the range |
| `MemoryUnderlay.UnderlayLosesZeros` | src/memory.cpp:168-171 | a concrete run that maps a page under a contiguous mapping, after which a page of zeros is written and the old byte stays |
| `MemoryUnderlay.UnderlayReturns` | src/memory.cpp:45-55 | a concrete run after which a page hidden that way comes back when the mapping is dropped by its other end |
| `MemoryRuns.RunAndRollBack` | src/memory.h:193-202 | a run of mappings, reads and writes under the journal, rolled back from it, leaves every page that was mapped byte for byte as it was |
| `MemoryRuns.Restored` | src/memory.h:193-202 | if the journal holds the opening contents of every page that changed, putting it back gives the opening memory |
| `GuestMemory.Memory.constructor` | src/memory.h:373-386 | a new memory is empty and valid |
| `GuestMemory.Memory.HostPtr` | src/memory.h:314-319 | an address resolves exactly when its page is mapped, to that page's current block, and an observer is told before a watched page can be written; an open journal takes the page first |
| `GuestMemory.Memory.HostPtrSlow` | src/memory.cpp:94-141 | an address the cache does not answer resolves exactly when its page is mapped: contiguous mappings before the page table, memory behind the page on first touch, the write cache bypassed while the journal is open, an observer told before a watched page can be written |
| `GuestMemory.Memory.Locate` | src/memory.cpp:99-125 | finds a page where it is: in a span, backed, or reserved and then backed with zeros |
| `GuestMemory.Memory.Announce` | src/memory.cpp:126-129 | the first write to a watched page is reported, and the page is watched no longer |
| `GuestMemory.Memory.SpanFor` | src/memory.h:225-229 | finds a span exactly for the pages inside one |
| `GuestMemory.Memory.JournalPage` | src/memory.cpp:130-136 | the first write to a page records its contents, later ones leave the record alone |
| `GuestMemory.Memory.BackPage` | src/memory.cpp:121-125 | a reserved page gets a zeroed block without changing what it reads as |
| `GuestMemory.Memory.TlbFlush` | src/memory.h:327-338 | both caches end empty, no page is watched, and the observer is told |
| `GuestMemory.Memory.FlushWriteTlb` | src/memory.h:323-325 | the write cache ends empty |
| `GuestMemory.Memory.Read` | src/memory.cpp:143-154 | a bulk read returns the whole range when all of it is mapped, otherwise faults at the first unmapped address; it changes no byte |
| `GuestMemory.Memory.Write` | src/memory.cpp:156-176 | a bulk write stores up to the first unmapped page and faults there; watched pages are reported and journalled |
| `GuestMemory.Memory.WriteChunk` | src/memory.cpp:160-174 | one page-sized piece of a write, skipped when it is zeros over an untouched page |
| `GuestMemory.Memory.SkipIs` | src/memory.cpp:164-171 | passing over a page of zeros aimed at a slot that nothing has touched is storing it, except under a contiguous mapping, where it leaves the page as it was |
| `GuestMemory.Memory.Load` | src/memory.h:340-346 | a read within one page |
| `GuestMemory.Memory.Store` | src/memory.h:353-360 | a write within one page, reported and journalled |
| `GuestMemory.Memory.ReadSized` | src/memory.h:162-169 | a sized read is the little-endian value of its bytes, or faults at the first unmapped one, across pages or not |
| `GuestMemory.Memory.WriteSized` | src/memory.h:170-177 | a sized write stores its little-endian bytes as far as memory is mapped, and says where it faulted |
| `GuestMemory.Memory.Map` | src/memory.cpp:30-39 | absent pages of the range appear as zeros, present ones keep their bytes, and a range that passes 2^64 maps none; a named range is recorded |
| `GuestMemory.Memory.Unmap` | src/memory.cpp:41-71 | the pages walked over go, every contiguous mapping touched goes whole, stale translations go with them, and watched pages are reported; where the range ends is 64-bit arithmetic |
| `GuestMemory.Memory.DropTouched` | src/memory.cpp:45-51 | every span the range touches is dropped, and only those |
| `GuestMemory.Memory.EraseSlots` | src/memory.cpp:52-70 | the slots of the range are erased along with any translation of them |
| `GuestMemory.Memory.MapContiguous` | src/memory.cpp:73-86 | the range, widened to whole pages, is cleared and becomes one zeroed mapping, unless it reaches 2^64 |
| `GuestMemory.Memory.Reset` | src/memory.h:257-262 | the address space, its regions and its caches end empty |
| `GuestMemory.Memory.CloneFrom` | src/memory.h:233-251 | this memory takes the meaning and the regions of another, sharing none of its blocks |
| `GuestMemory.Memory.SetCodeObserver` | src/memory.h:212 | the observer is registered |
| `GuestMemory.Memory.MarkCodePage` | src/memory.h:217-223 | a page is watched unless a span holds it, and then no cached translation lets it be written unseen |
| `GuestMemory.Memory.JournalBegin` | src/memory.h:198 | the journal opens empty with no write translation cached |
| `GuestMemory.Memory.JournalEnd` | src/memory.h:199 | the journal closes and keeps what it holds |
| `GuestMemory.Memory.RollBack` | src/memory.h:200-202 | putting the journal's pages back gives each page its opening contents |
| `GuestMemory.Memory.IsMapped` | src/memory.h:85-87 | true exactly of mapped pages |
| `GuestMemory.Memory.RangeFree` | src/memory.h:96-104 | true exactly when no page of a non-empty range is mapped |
| `GuestMemory.Memory.PageData` | src/memory.cpp:220-225 | the bytes of a page that has memory behind it; every other mapped page is zero |
| `GuestMemory.Memory.MappedPages` | src/memory.cpp:205-218 | every mapped page, once, in order |
| `GuestMemory.Memory.LivePages` | src/memory.cpp:189-203 | every page with memory behind it, once, in order; the mapped pages left out are zero |
| `GuestMemory.Memory.SetRegionFile` | src/memory.cpp:178-187 | the most recent region with that base takes the file, no other changes |
| `GuestMemory.Later` | src/memory.h:193-223 | that every watched page lost or changed was reported, and every changed page journalled, carries over from one stretch of a run to the next |
| `AddressSpace.StoredTwice` | src/memory.cpp:160-174 | writing two adjoining pieces is writing them as one |
| `AddressSpace.NextChunkWritten` | src/memory.cpp:160-174 | a write cut at page boundaries, pages skipped or not, leaves what the whole write leaves |
| `AddressSpace.StoredSkip` | src/memory.cpp:164-171 | storing zeros over a zero page changes nothing |
| `AddressSpace.UnmappedIs` | src/memory.cpp:41-71 | dropping the touched spans and then erasing the slots is what unmapping means |
| `AddressSpace.TouchesShares` | src/memory.cpp:41-51 | an extent is touched when it shares a byte with the range |
| `AddressSpace.TouchesWrapped` | src/memory.cpp:41-51 | the same for a range that passes 2^64, whose end has come round |
| `AddressSpace.Rounds` | src/memory.cpp:73-78 | the page boundaries a mapping is widened to |
| `AddressSpace.WalkedExact` | src/memory.cpp:30-54 | map and unmap walk over exactly the pages of a range when it does not pass 2^64 |
| `AddressSpace.WalkedIs` | src/memory.cpp:30-54 | map and unmap walk from the page of the first byte to the page of the last, in 64 bits |
| `AddressSpace.OnPageExact` | src/memory.cpp:30-54 | a page is in a range exactly when one of its bytes is |
| `AddressSpace.ContiguousAt` | src/memory.cpp:73-93 | a page of a range given to map_contiguous is blank and under a contiguous mapping when the range ends below the topmost page; a range that comes up to 2^64 makes no mapping that is ever found |
| `AddressSpace.TopMapsNothing` | src/memory.cpp:30-37 | two pages from the topmost one: neither is mapped |
| `FlatMemory.StoredAt` | src/memory.cpp:156-176 | after a store each address holds the stored byte if it is in range and its old one otherwise |
| `FlatMemory.ReachIs` | src/memory.cpp:143-176 | an access reaches exactly as far as its first unmapped address |
| `FlatMemory.StoredBoth` | src/memory.cpp:156-176 | adjoining stores can be made in either order |
| `MemoryCore.PokeOk` | src/memory.cpp:156-176 | storing into a page's block keeps page table, contiguous mappings and blocks consistent, and changes that page alone |
| `MemoryCore.AddOk` | src/memory.cpp:73-86 | adding a contiguous mapping keeps page table, mappings and blocks consistent |
| `MemoryCore.DropOk` | src/memory.cpp:45-51 | dropping a contiguous mapping keeps page table, mappings and blocks consistent |
| `MemoryCore.EraseOk` | src/memory.cpp:54-55 | erasing a page-table slot keeps page table, mappings and blocks consistent |
| `MemoryCore.UnmapClears` | src/memory.cpp:75-79 | after the unmap inside map_contiguous, no slot and no span is left in the range |
| `FrameUnwind.UnwindRecovers` | src/exceptions.cpp:167-342 | for every prologue of the documented shape, chained and interrupted anywhere in or after it, unwinding gives back the return address, the stack pointer and every wanted register, with the frame base as establisher; and the handler of the outermost parent and the place of its data, exactly when its flags name the kind asked for |
| `Prologue.UndoAll` | src/exceptions.cpp:211-311 | undoing, last first, the steps that have run gives back the stack pointer and every register put away or left alone |
| `Prologue.UndoStep` | src/exceptions.cpp:220-268 | undoing one step restores what that step changed |
| `FrameUnwind.ChainUndone` | src/exceptions.cpp:186-335 | read from memory, a chain of fragments undoes the applicable codes of the first and all codes of its parents, and ends with the last parent's handler |
| `FrameUnwind.PartUndone` | src/exceptions.cpp:187-311 | one fragment read from memory undoes exactly the codes at or before the interruption point |
| `FrameUnwind.RunIntact` | src/exceptions.cpp:206-209 | running a prologue whose words do not overlap leaves them, and the return address, in memory for the unwinder |
| `UnwindCodes.DecodeAll` | src/exceptions.cpp:211-311 | walking encoded codes in memory, slots and operands included, is undoing the codes they encode |
| `UnwindCodes.DecodeOne` | src/exceptions.cpp:212-310 | one encoded code is decoded to its own effect and its own number of slots |
| `Unwinder.OtherCodes` | src/exceptions.cpp:253-296 | the codes for a machine frame, an epilogue and the spare one: what each undoes and how many slots it takes |
| `Unwinder.UnwindCut` | src/exceptions.cpp:182-341 | a chain of more than thirty-two fragments is left where thirty-two have got to, with no handler |
| `Unwinder.Context.constructor` | src/exceptions.cpp:114-123 | a context holds the registers and instruction pointer it is given |
| `Unwinder.UndoCode` | src/exceptions.cpp:212-309 | one code changes the context as its effect says, or faults |
| `Unwinder.UndoCodes` | src/exceptions.cpp:211-311 | the loop over codes |
| `Unwinder.UndoOne` | src/exceptions.cpp:187-334 | one pass of the chain: header, frame base, codes, and what follows them |
| `Unwinder.VirtualUnwind` | src/exceptions.cpp:167-342 | the whole of one frame: the chain, the handler and its data, and the return |
| `StackWalk.SearchTable` | src/exceptions.cpp:142-160 | the loop is the binary search |
| `StackWalk.LookupFunctionEntry` | src/exceptions.cpp:135-161 | the entry found is that of the first module holding the address |
| `StackWalk.SearchFinds` | src/exceptions.cpp:140-160 | in a sorted table the search returns the one record covering the address, and none when none covers it |
| `StackWalk.LookupFinds` | src/exceptions.cpp:135-161 | with sorted tables the lookup gives the function of the first image holding the address that covers it, and none when none does |
| `StackWalk.HolderFirst` | src/modules.cpp:118-122 | the image that decides is the first whose bytes the address is among |
| `StackWalk.UnwindLeaf` | src/exceptions.cpp:350-354 | a leaf frame pops its return address |
| `StackWalk.WalkFrames` | src/exceptions.cpp:364-488 | the frame loop visits the frames of the walk, with the handler each would be shown, up to 256 or the target frame |
| `StackWalk.StepRecovers` | src/exceptions.cpp:368-417 | one turn of the loop takes a call in progress to its caller, and shows its frame with establisher and handler, or nothing for a leaf |
| `StackWalk.WalkReaches` | src/exceptions.cpp:368-417 | on a stack of calls mixing leaves and table frames, any number of turns short of the target reach the frame that many callers up, having shown exactly the table frames passed, in order, and the walk goes on from there |
| `StackWalk.WalkRecovers` | src/exceptions.cpp:445-488 | on a stack of n frames mixing leaves and table frames, n turns recover the n-th caller and its nonvolatile registers, XMM6 to XMM15 included, and show every table frame with its establisher and handler |
| `StackWalk.WalkStops` | src/exceptions.cpp:462-484 | a walk with a target stops at the first frame whose establisher is the target, with that frame's own context, having shown the frames up to it |
| `StackWalk.WalkEnds` | src/exceptions.cpp:368-371 | a stack of at most 256 frames whose outermost return address is zero is walked to its end |
| `Emulator.SaveThenLoad` | src/state.cpp:176-710 | a save succeeds exactly when no pipe is open and no list is too long to count, and loading it elsewhere gives the records and pages as saved, every thread field by field, with any extra page blank and inside a recorded region |
| `SavedState.SaveLoads` | src/state.cpp:195-698 | loading the file a save writes gives every section's fields back, whatever order its tables were listed in |
| `SavedState.RunningIsLive` | src/state.cpp:250-578 | loading the file gives every thread its own record field by field: the running one with the live processor's context, one that a predicate holds runnable and waiting for nothing, all else unchanged |
| `SavedState.ReopenedIs` | src/state.cpp:598-620 | the descriptors reopened are those neither closed nor directories nor standard, in order |
| `SavedState.TagsSpell` | src/state.cpp:32-39 | the magic and the section tags are what they spell |
| `SavedState.UnknownSkipped` | src/state.cpp:494-703 | a section with an unknown tag put anywhere before the end leaves the outcome of the load the same |
| `SavedState.CutAccepted` | src/state.cpp:494-708 | a file cut inside a section is refused exactly when the section's tag and length are whole and its body is not; cut at a boundary it is accepted without an end mark |
| `SavedState.OthersRefused` | src/state.cpp:479-491 | a file too short for its header, with another magic or another version, is refused |
| `Emulator.ReadHeader` | src/state.cpp:480-491 | the header is accepted exactly when the magic and the version are right |
| `SavedState.WholeLoads` | src/state.cpp:494-703 | a whole file loads as its sections do, one after another |
| `SavedState.SectionsTaken` | src/state.cpp:494-500 | reading framed sections is applying them in order and then going on with what follows them |
| `SavedState.SectionsApplied` | src/state.cpp:195-698 | each section read back sets its own fields to what was saved |
| `SavedState.MemoryApplied` | src/state.cpp:349-698 | the memory sections read back rebuild the regions, the mapped pages and the carried pages |
| `Emulator.Emulator.SaveState` | src/state.cpp:176-469 | the file written is the framed sections of what the emulator holds, its memory taken whole |
| `Emulator.Emulator.TakeMemory` | src/state.cpp:350-445 | the memory part of a save, in the words of the file |
| `Emulator.Emulator.LoadState` | src/state.cpp:473-710 | loading sets the fields and rebuilds the memory as the sections say, or refuses |
| `Emulator.Emulator.LoadSections` | src/state.cpp:494-707 | the loop over sections: END stops it, a body cut short or a short section refuses the file, and fewer than twelve bytes left end it |
| `Emulator.Emulator.LoadSection` | src/state.cpp:500-702 | one section, by its tag; an unknown tag changes nothing, and a section that is short is refused |
| `Emulator.Emulator.LoadRegions` | src/state.cpp:621-642 | the address space is emptied and laid out again from all the regions read so far |
| `Emulator.Emulator.LoadMapped` | src/state.cpp:643-647 | every listed page that is not mapped is mapped blank |
| `Emulator.Emulator.LoadPages` | src/state.cpp:648-689 | the carried pages are written, and then the pages left to files are read back |
| `Emulator.Emulator.LoadFds` | src/state.cpp:598-620 | descriptors that were not closed, directories or standard are asked to be reopened |
| `Emulator.Emulator.LoadThreads` | src/state.cpp:544-578 | the threads and the current one are replaced by those read |
| `Emulator.Emulator.LoadRecords` | src/state.cpp:502-620 | a section of the emulator's own fields sets those fields and leaves the memory alone |
| `Emulator.Emulator.Reopen` | src/state.cpp:600-620 | of the descriptors read, exactly those neither closed nor directories nor standard are reopened, in order |
| `Emulator.ListTable` | src/state.cpp:231-232 | a table is listed whole, in whatever order it iterates |
| `StateIO.SaveFile` | src/state.cpp:189-464 | the bytes written are the header, the eight framed sections and the end mark |
| `StateIO.FramePages` | src/state.cpp:427-445 | the streamed page section carries the length it was given in advance |
| `StateIO.PagesLength` | src/state.cpp:427-428 | the length computed for the page section is its length |
| `StateIO.WriteThreads` | src/state.cpp:250-300 | each thread is written as it is, the running one with the processor's live context |
| `StateIO.WriteCpu` | src/state.cpp:203-222 | the processor section holds the processor's record |
| `StateIO.WriteAllo` | src/state.cpp:225-241 | the allocator section holds the allocators' record |
| `StateIO.WriteSyncs` | src/state.cpp:303-319 | the sync section holds the waitable objects and the named ones |
| `StateIO.WriteThread` | src/state.cpp:253-298 | one thread's record |
| `StateIO.WriteFds` | src/state.cpp:327-346 | the descriptors section |
| `StateIO.WritePlaces` | src/state.cpp:350-359 | the regions section |
| `StateIO.WriteCarried` | src/state.cpp:434-437 | the carried pages, each with its number |
| `StateIO.ReadCpu` | src/state.cpp:502-520 | the processor is read field by field |
| `StateIO.ReadAllo` | src/state.cpp:521-543 | the allocators are read field by field, live ranges into a table |
| `StateIO.ReadThreads` | src/state.cpp:544-578 | the threads are read, and a current thread out of range becomes the first |
| `StateIO.ReadSyncs` | src/state.cpp:579-597 | the waitable objects and their names are read into tables |
| `StateIO.ReadThread` | src/state.cpp:550-575 | one thread's record, its slots as far as they go |
| `StateIO.ReadFds` | src/state.cpp:599-614 | the descriptors, as far as they go |
| `StateIO.ReadPlaces` | src/state.cpp:622-631 | the regions, as far as they go |
| `StateIO.ReadCarried` | src/state.cpp:652-655 | the carried pages, as far as they go |
| `StateIO.ReadLive` | src/state.cpp:531-535 | the live ranges, each stored under its base, a later one replacing an earlier |
| `StateRecords.CpuBack` | src/state.cpp:203-520 | a processor record is read back as written, whatever follows it |
| `StateRecords.AlloBack` | src/state.cpp:225-543 | the allocators' record is read back as written, the live ranges listed in any order |
| `StateRecords.ThreadBack` | src/state.cpp:253-576 | a thread's record is read back as written, its thread-local slots included |
| `StateRecords.ThreadsBack` | src/state.cpp:250-578 | the list of threads is read back as written, except that a current thread out of range becomes the first |
| `StateRecords.SyncsBack` | src/state.cpp:303-597 | the waitable objects and the named ones are read back as written, listed in any order |
| `StateRecords.FdsBack` | src/state.cpp:327-614 | the open descriptors are read back as written |
| `StateRecords.PlacesBack` | src/state.cpp:352-655 | a region's record and a carried page are read back as written, whatever follows them |
| `StateRecords.PagesBack` | src/state.cpp:432-671 | the carried pages and the list of those left to files are read back as written |
| `StateRecords.TableBack` | src/state.cpp:231-535 | storing a table's entries one by one gives the table back, whatever the order |
| `StateRecords.ListBack` | src/state.cpp:229-530 | a counted list of records that are each read back is read back |
| `StateLayout.FileLayout` | src/state.cpp:123-193 | the header and a section, field by field |
| `StateLayout.SectionsInOrder` | src/state.cpp:200-446 | which sections a file holds, in which order |
| `StateLayout.CpuLayout` | src/state.cpp:203-222 | the processor, field by field: which, in which order, how wide |
| `StateLayout.AlloLayout` | src/state.cpp:225-241 | the allocators, field by field |
| `StateLayout.ThreadsLayout` | src/state.cpp:250-252 | what comes before the thread records |
| `StateLayout.ThreadLayout` | src/state.cpp:253-298 | a thread, field by field |
| `StateLayout.SyncsLayout` | src/state.cpp:303-319 | the waitable objects and their names: counts, records and the next handle, in order |
| `StateLayout.SyncLayout` | src/state.cpp:303-319 | a waitable object and a name, field by field |
| `StateLayout.FdLayout` | src/state.cpp:327-346 | a descriptor, field by field |
| `StateLayout.PlaceLayout` | src/state.cpp:350-437 | a region and a carried page, field by field |
| `StateLayout.PagesLayout` | src/state.cpp:430-445 | the carried pages, then the list of those left to files |
| `Stream.FieldsBack` | src/state.cpp:46-119 | every kind of field is read back as written, whatever follows |
| `Stream.Reader.Block` | src/state.cpp:96-101 | a block is handed over only when it is all there; otherwise the reader fails and stays failed, never past its buffer |
| `Stream.Reader.Number` | src/state.cpp:106-112 | a number is taken only when all its bytes are there; otherwise it reads as zero and the reader fails for good |
| `Stream.Reader.Str` | src/state.cpp:87-93 | a string is taken only when its length and all its bytes are there; otherwise it reads as empty and the reader fails for good |
| `Stream.Writer.Raw` | src/state.cpp:59-62 | the buffer grows by exactly those bytes |
| `Snapshot.Restores` | src/state.cpp:349-689 | from what a save takes, every page mapped then comes back with its bytes, and any other page that comes back is blank and in a recorded region, stale and overlapping regions included |
| `Snapshot.SaveMemory` | src/state.cpp:350-420 | every live page is left out if blank, named if its file still has it, and carried otherwise |
| `Snapshot.Classify` | src/state.cpp:388-414 | one page goes to exactly one of three lots: left out if blank, left to its file if the file still has it, carried otherwise |
| `Snapshot.FindHome` | src/state.cpp:399-404 | the first region with a file that holds the address |
| `Snapshot.LoadMemory` | src/state.cpp:635-689 | the memory rebuilt is what the snapshot spells, and the regions are recorded again |
| `Snapshot.SaveThenLoad` | src/state.cpp:349-689 | a memory saved and loaded into another: the same bytes, blank extras inside recorded regions, the same regions |
| `Snapshot.LayRegions` | src/state.cpp:635-642 | the address space is emptied and the regions laid in order, each with its file |
| `Snapshot.EnsurePages` | src/state.cpp:644-647 | pages that are not mapped are mapped blank, the others left alone |
| `Snapshot.FillPages` | src/state.cpp:651-662 | carried pages are mapped if need be and written |
| `Snapshot.RefillPages` | src/state.cpp:664-689 | pages left to files are read back through the same first-match region; unreadable ones are left alone |
| `Snapshot.OriginalIs` | src/state.cpp:399-408 | the page a file has for an address is that of the first region that has a file and holds the address, at the region's offset plus the distance from its base |
| `Snapshot.LaidAs` | src/state.cpp:635-640 | a region recorded as contiguous is laid as one blank contiguous mapping; any other maps what was not mapped and makes no such mapping |
| `Snapshot.LaidBlank` | src/state.cpp:635-642 | laying regions maps blank pages, inside them and nowhere else |
| `Snapshot.WritePage` | src/state.cpp:660-661 | a page that is not blank is written whatever lies over it |
| `WideMath.MulExact` | src/cpu.cpp:82-91 | the 128-bit product is exact |
| `WideMath.MulS64` | src/cpu.cpp:104-108 | the signed 128-bit product is exact |
| `WideMath.NegU128` | src/cpu.cpp:98-102 | negation modulo 2^128 |
| `WideMath.AbsU64` | src/cpu.cpp:93-96 | the magnitude, of the smallest number too |
| `WideMath.DivU128` | src/cpu.cpp:112-129 | fails exactly for a zero divisor or a quotient of more than 64 bits, and otherwise gives quotient and remainder |
| `WideMath.DivideProduct` | src/cpu.cpp:82-129 | dividing a product by a nonzero factor gives the other factor and no remainder |
| `Cpu.Cpu.Mul` | src/cpu.cpp:441-463 | the register pair holds the full product; CF and OF say whether it needs the upper half |
| `Cpu.Cpu.Imul` | src/cpu.cpp:464-488 | the register pair holds the full signed product; CF and OF say whether the lower half does not |
| `Cpu.Cpu.Div` | src/cpu.cpp:489-511 | an error exactly for a zero divisor or a quotient too large, with nothing changed; otherwise quotient and remainder |
| `Cpu.Cpu.Idiv` | src/cpu.cpp:512-543 | an error as coded, with nothing changed; otherwise the truncated quotient and the remainder, in two's complement |
| `Cpu.Cpu.IdivWide` | src/cpu.cpp:521-532 | the 64-bit case through the 128-bit division: sign, magnitude, and an error exactly for a quotient of more than 64 bits, or of like signs and more than 63 |
| `Cpu.Cpu.MulWide` | src/cpu.cpp:443-448 | the 64-bit product through the 128-bit multiplication |
| `Cpu.Cpu.ImulWide` | src/cpu.cpp:466-472 | the 64-bit signed product through the 128-bit multiplication |
| `Cpu.Cpu.DivWide` | src/cpu.cpp:497-502 | the 64-bit division through the 128-bit one |
| `Cpu.IdivRight` | src/cpu.cpp:521-538 | the overflow test agrees with the manual exactly outside 64-bit divisions of unlike signs whose quotient magnitude lies strictly between 2^63 and 2^64 |
| `Cpu.IdivMisses` | src/cpu.cpp:526-530 | a division inside that family that is accepted |
| `Cpu.QuotRem` | src/cpu.cpp:512-543 | division truncates toward zero and the remainder has the dividend's sign |
| `Cpu.GroupRegisters` | src/cpu.cpp:441-543 | which bytes of which registers the double-width operand, the quotient and the remainder are |
| `Cpu.SignedPairIs` | src/cpu.cpp:512-520 | the double-width operand as a signed number |
| `Cpu.IdivFitsExact` | src/cpu.cpp:512-543 | a quotient fits when a number in range is one, with a remainder smaller than the divisor and signed like the dividend |
| `Cpu.WriteRead` | src/cpu.h:340-369 | a register write is read back at its size and touches no other register |
| `Cpu.WriteWhole` | src/cpu.h:346-369 | what a write leaves of the whole register: 32 bits clear the upper half, 16 and 8 keep the rest, and 4 to 7 without REX name second bytes |
| `Cpu.ReadPart` | src/cpu.h:340-359 | which part of which register a read takes |
| `Cpu.Cpu.Execute` | src/cpu.cpp:293-334 | result and flags of the eight operations, with their meaning for operands in range: sum or difference with carry or borrow in CF, every bit of OR, AND and XOR, the half carry in AF, ZF, SF and PF those of the result, DF untouched |
| `Alu.OperateMeans` | src/cpu.cpp:293-334 | for operands in range each of the eight operations gives the exact sum or difference with its carry or borrow, or the OR, AND or XOR of every bit; ZF, SF, PF and AF are those of the result, and DF stays |
| `Alu.AddExact` | src/cpu.cpp:225-247 | result and carry flag are the sum with its carry in, OF says it does not fit signed, and ZF and SF describe it |
| `Alu.SubExact` | src/cpu.cpp:249-259 | result and carry flag are the difference with its borrow in, OF says it does not fit signed, and ZF and SF describe it |
| `Alu.CmpDecides` | src/cpu.cpp:268-287 | after CMP each condition code decides the comparison it is named for, unsigned and signed, at every width |
| `Alu.ResultDecides` | src/cpu.cpp:268-288 | the condition codes for sign, parity and zero decide those of the result, for all eight operations |
| `Alu.AddChain` | src/cpu.cpp:299-312 | ADD then ADC over n limbs is addition, with CF the carry out |
| `Alu.SubChain` | src/cpu.cpp:313-327 | SUB then SBB over n limbs is subtraction, with CF exactly when the first number is smaller |
| `Cpu.Cpu.Shift` | src/cpu.cpp:336-414 | rotates and shifts by a masked count, with the flags they leave, against their arithmetic meaning |
| `Cpu.Cpu.RotateCarryLeft` | src/cpu.cpp:360-369 | the RCL loop rotates carry and operand together |
| `Cpu.Cpu.RotateCarryRight` | src/cpu.cpp:370-378 | the RCR loop rotates carry and operand together, to the right |
| `Cpu.Cpu.Rotate` | src/cpu.cpp:346-359 | ROL and ROR, from two shifts |
| `Cpu.Cpu.ShiftLeft` | src/cpu.cpp:379-391 | SHL is multiplication modulo 2^width, CF the last bit shifted out, at every masked count |
| `Cpu.Cpu.ShiftRight` | src/cpu.cpp:392-411 | SHR and SAR divide, rounding down |
| `Shifts.RotateCarryUndone` | src/cpu.cpp:360-378 | RCL and RCR by one count undo each other, on operand and carry |
| `Shifts.RotateUndone` | src/cpu.cpp:346-359 | ROL and ROR undo each other |
| `Shifts.RotStep` | src/cpu.cpp:362-366 | rotating by one, repeated, is rotating |
| `Shifts.RotUndo` | src/cpu.cpp:346-378 | rotating the rest of the way round restores the number |
| `Shifts.SarDivides` | src/cpu.cpp:400-411 | SAR is signed division rounding down, at counts beyond the width too |
| `Shifts.SarCarryRight` | src/cpu.cpp:402-405 | SAR's carry flag is the last bit shifted out exactly when the count is below the width or the two top bits agree |
| `Shifts.SarCarryMisses` | src/cpu.cpp:402-405 | the byte 0x80 shifted right by eight: the carry flag is not the last bit shifted out |
| `Shifts.OverflowByOne` | src/cpu.cpp:346-411 | for each of the eight rotates and shifts by one, OF is the manual's, unless it is RCR and OF was not already what the manual asks |
| `Shifts.OverflowMisses` | src/cpu.cpp:370-378 | RCR of the byte 0x80 by one: the manual sets OF, the code leaves it clear |
| `Shifts.ShlBeyond` | src/cpu.cpp:383-386 | SHL past the width gives zero and shifts out a zero |
| `ShiftBits.CountMasked` | src/cpu.cpp:339-340 | the count keeps its lowest six bits for a 64-bit operand, and five for the others |
| `ShiftBits.RolBits` | src/cpu.cpp:346-352 | ROL: where each bit of the result comes from, and the flags |
| `ShiftBits.RorBits` | src/cpu.cpp:353-359 | ROR: where each bit of the result comes from, and the flags |
| `ShiftBits.RclBits` | src/cpu.cpp:360-369 | RCL: each bit of the result and the carry, among the operand's bits and the old carry |
| `ShiftBits.RcrBits` | src/cpu.cpp:370-378 | RCR: the same to the right |
| `ShiftBits.ShlBits` | src/cpu.cpp:379-391 | SHL: each bit of the result, the last bit out in CF, and the other flags |
| `ShiftBits.ShrBits` | src/cpu.cpp:392-399 | SHR: each bit of the result, the last bit out in CF, and the other flags |
| `ShiftBits.SarBits` | src/cpu.cpp:400-411 | SAR: each bit of the result, copies of the sign from the top, CF as coded, and the other flags |
| `StringOps.DoStringOp` | src/cpu.cpp:586-637 | the instruction with its prefixes, registers, flags, memory and fault address included, is the repetition of its element |
| `StringOps.DoElement` | src/cpu.cpp:596-625 | one element of each of the five instructions |
| `StringOps.OpcodePairs` | src/cpu.cpp:596-623 | which opcode is which instruction |
| `StringOps.MovsForward` | src/cpu.cpp:593-636 | REP MOVS upward, to at or below the source or clear of it, is memmove; the count ends zero and the pointers n elements on |
| `StringOps.MovsBackward` | src/cpu.cpp:593-636 | REP MOVS downward, to at or above the source or clear of it, is memmove; the count ends zero and the pointers n elements down |
| `StringOps.CompareStops` | src/cpu.cpp:593-636 | a repeated CMPS or SCAS stops at the first element that decides it or after the last, with count, pointers and the flags of that comparison |
| `StringFills.MovsFillsUp` | src/cpu.cpp:593-636 | REP MOVS upward into its own path, by at least one element, repeats the bytes between source and destination |
| `StringFills.MovsFillsDown` | src/cpu.cpp:593-636 | REP MOVS downward into its own path, by at least one element, repeats the bytes between destination and source |
| `StringFills.StosFills` | src/cpu.cpp:593-636 | REP STOS in either direction fills the range with the accumulator, and leaves the count at zero and RDI past it |
| `StringFills.LodsLoads` | src/cpu.cpp:593-636 | REP LODS leaves the last element read in the accumulator, the count at zero and RSI past it, and memory alone |
| `StringFaults.SourceFaults` | src/cpu.cpp:593-623 | an element that cannot be read faults at its first unmapped byte, and nothing has changed |
| `StringFaults.ComparedFaults` | src/cpu.cpp:611-623 | the same for the other side of a comparison |
| `StringFaults.StoreFaults` | src/cpu.cpp:596-605 | an element that cannot be stored whole is stored up to its first unmapped byte and faults there, with the pointers where they were |
| `StringFaults.RepeatFaults` | src/cpu.cpp:593-636 | a repetition that faults at its k-th element leaves the count of the elements still to be done, that one included, so that it can be restarted |
| `PageAllocator.AllocExact` | src/emulator.cpp:823-866 | an allocation leaves the window sound and returns 0 or a range of at least the size asked for, exactly when no 64-bit rounding or sum wraps or the limit test refuses |
| `PageAllocator.ReserveExact` | src/emulator.cpp:868-877 | a reservation leaves the window sound and returns 0 or a range of at least the size asked for, exactly when no 64-bit rounding or sum wraps or the limit test refuses |
| `PageAllocator.FreeExact` | src/emulator.cpp:879-898 | a free keeps the window sound exactly when it gives back a whole live range or nothing |
| `PageAllocator.RunSound` | src/emulator.cpp:823-898 | over any run of such operations live, free and reserved ranges are whole pages below the frontier, none overlap, and with the alignment gaps they add up to the frontier's advance |
| `PageAllocator.AllocApart` | src/emulator.cpp:823-866 | a range handed out shares no byte with any live or reserved range |
| `PageMemory.FreeKeepsMapped` | src/emulator.cpp:879-898 | a free leaves every other live range mapped exactly when the range it unmaps is empty, passes 2^64, or meets no live range but the one it gives back |
| `PageMemory.AllocKeepsMapped` | src/emulator.cpp:823-866 | an allocation none of whose sums wraps leaves every live range mapped, the new one included |
| `PageMemory.RunKeepsMapped` | src/emulator.cpp:823-898 | over a run of operations that fit, live ranges stay mapped at every point exactly when every free passes 2^64 or reaches into no other live range |
| `PageMemory.AllocMapsNothing` | src/emulator.cpp:860-865 | granted from the frontier with a sum past 2^64, an allocation hands out a range and maps none of it |
| `PageMemory.FreeTakesNext` | src/emulator.cpp:879-898 | a free of two pages where one was allocated: it fits, and does not spare the next allocation |
| `PageMemory.FreePastTop` | src/emulator.cpp:879-898 | a free whose range passes 2^64 over a live range: it fits, and spares it |
| `PageAllocator.ChoiceIs` | src/emulator.cpp:838-847 | the range reused is a smallest of those large enough, and the frontier serves only what none can |
| `PageAllocator.AllocLies` | src/emulator.cpp:825-836 | the largest size is granted and hands out no bytes |
| `PageAllocator.AllocWraps` | src/emulator.cpp:860-865 | a request whose sum passes 2^64 is granted at the frontier, which moves down |
| `PageCalls.AllocAnswers` | src/emulator.cpp:823-866 | what an allocation whose sums do not wrap answers: the first of the smallest free ranges that hold the pages, cut from its front, or else the frontier at the least multiple of the alignment, unless that passes the limit; and what is left of the window |
| `PageCalls.AllocAligned` | src/emulator.cpp:826-836 | an address handed out under an alignment of more than a page is the least multiple of it from the old frontier up |
| `PageCalls.ReserveAligned` | src/emulator.cpp:868-877 | an address reserved is the least multiple of its alignment, and of a page, from the old frontier up |
| `PageCalls.ReserveAnswers` | src/emulator.cpp:868-877 | what a reservation whose sums do not wrap answers, and what is left of the window |
| `PageCalls.AlignedLeast` | src/emulator.cpp:830-871 | the aligned frontier is the least multiple at or above it, or zero when the rounding passes 2^64 |
| `PageCalls.FreeAnswers` | src/emulator.cpp:879-898 | what a free gives back: the live range that starts at the page whole, if it is no longer, otherwise the pages the bytes touch, when they lie below the frontier |
| `PageCalls.FreedPages` | src/emulator.cpp:879-882 | the bytes a free unmaps are the whole pages it touches; past 2^64 none, or one page |
| `PageAllocator.PartialFreeShares` | src/emulator.cpp:888-897 | a partial free followed by a whole one lets two live ranges share a page |
| `PageAllocator.BestFits` | src/emulator.cpp:843-847 | the scan chooses a smallest range that is large enough |
| `PageAllocator.Pages.constructor` | src/emulator.cpp:89-90 | a new window has nothing handed out |
| `PageAllocator.Pages.AllocPages` | src/emulator.cpp:823-866 | the allocator as it runs: the new window, the address, and the pages mapped, none when the sum passes 2^64 |
| `PageAllocator.Pages.FindBest` | src/emulator.cpp:843-847 | the loop over the free list |
| `PageAllocator.Pages.ReservePages` | src/emulator.cpp:868-877 | a reservation moves the frontier and maps nothing |
| `PageAllocator.Pages.FreePages` | src/emulator.cpp:879-898 | the pages are unmapped, none when the range passes 2^64, and the range, whole or partial, goes to the free list |
| `Heap.Heap.constructor` | src/emulator.cpp:108 | a new heap is empty |
| `Heap.Heap.Alloc` | src/emulator.cpp:804-821 | a free block large enough or a new one; when the request fits the heap stays sound and backed and every block keeps its bytes |
| `Heap.Heap.Free` | src/emulator.cpp:911-914 | the block is free and no byte changes |
| `Heap.Heap.Realloc` | src/emulator.cpp:921-934 | a step of the bookkeeping whenever no memory faults; when the request fits, for any address, no block but the one copied to changes, and none at all when nothing is copied; the result is large enough, and it starts with the old bytes if the address was a block |
| `Heap.AllocKeeps` | src/emulator.cpp:804-821 | blocks stay disjoint and inside the heap, and the one handed out is large enough and was not in use |
| `Heap.AllocExact` | src/emulator.cpp:804-821 | an allocation keeps the heap sound and gives 0 or a block of at least the size asked for exactly when a free block serves and the rounding does not wrap, or the limit test refuses, or neither the rounding nor the sum wraps |
| `Heap.AllocLies` | src/emulator.cpp:805-819 | the largest size on an empty heap is granted a block of no bytes |
| `Heap.AllocWraps` | src/emulator.cpp:815-819 | a request whose sum passes 2^64 is granted, and the end of the heap moves below its base |
| `Heap.OpExact` | src/emulator.cpp:804-934 | an operation on a sound heap leaves it sound, with what it returned as large as was asked for, exactly when the allocation inside it, if any, meets that condition |
| `Heap.OpKeeps` | src/emulator.cpp:804-934 | one operation that meets the condition keeps each block where and as large as it was |
| `Heap.TraceExact` | src/emulator.cpp:804-934 | over any run of heap_alloc, heap_free and heap_realloc, every call is served with the heap sound exactly when every call meets the condition |
| `Heap.TraceKeeps` | src/emulator.cpp:804-934 | over such a run every block stays where it is and as large as it was |
| `Heap.TraceContents` | src/emulator.cpp:804-934 | over a run whose calls each keep the blocks they do not copy to, as heap_realloc is shown to, a block that nothing is copied to keeps its bytes |
| `Heap.FillKeeps` | src/emulator.cpp:927-930 | filling a block changes no other |
| `Heap.AllocBacks` | src/emulator.cpp:816-819 | allocation backs the block and changes no byte of any other |
| `HeapCalls.AllocAnswers` | src/emulator.cpp:804-821 | what an allocation whose sums do not wrap answers: a free block that is large enough, whole, or else the end of the heap, in multiples of 16, unless that passes the limit; and what changes |
| `HeapCalls.FreeAnswers` | src/emulator.cpp:911-914 | the block of that address is free, if there is one, and nothing else changes |
| `HeapCalls.ReallocAnswers` | src/emulator.cpp:921-934 | a block that is large enough stays; otherwise the call is refused and nothing changes, or moves to a large enough block that was not in use and frees the old one |
| `Pipes.CountsHolders` | src/files.h:31-50 | an end's count is positive exactly when some table still refers to it |
| `Pipes.FirstInFirstOut` | src/files.cpp:257-383 | over any run, what came out of a pipe followed by what is still in it is what went in |
| `Pipes.NeverHeldAgain` | src/files.cpp:283-308 | an end that no table holds is never held again |
| `Pipes.EndOfFileStays` | src/files.cpp:341-344 | once a read would find end of file, every later one does |
| `Pipes.Inherited` | src/files.cpp:283-301 | a table comes to hold an end only from a table that held it, or by making the pipe |
| `Pipes.StepSane` | src/files.cpp:257-495 | every operation keeps queues, histories and descriptors consistent |
| `Pipes.EraseOk` | src/files.h:41-50 | dropping a descriptor, and the end with its last one, keeps every count right |
| `Pipes.PutOk` | src/files.h:41-50 | adding a descriptor for an end in use keeps every count right |
| `Pipes.FirstOk` | src/files.h:44-46 | the first descriptor of an end keeps every count right |
| `Pipes.Processes.constructor` | src/files.cpp:99-120 | a table starts with the standard streams |
| `Pipes.Processes.AllocSlot` | src/files.cpp:148-153 | the lowest free descriptor from 3, or -1 |
| `Pipes.Processes.MakePipe` | src/files.cpp:257-281 | both ends at the two lowest descriptors, or an error and no change |
| `Pipes.Processes.Close` | src/files.cpp:327-334 | the descriptor goes, or an error |
| `Pipes.Processes.Dup` | src/files.cpp:479-495 | the copy replaces what was at the target, without close-on-exec |
| `Pipes.Processes.Install` | src/files.cpp:283-291 | another descriptor, of this table or any other, replaces what was there, without close-on-exec |
| `Pipes.Processes.Clone` | src/files.cpp:293-301 | the new table holds every descriptor of the old |
| `Pipes.Processes.CloseCloexec` | src/files.cpp:303-308 | exactly the marked descriptors go |
| `Pipes.Processes.MarkCloexec` | src/syscalls.cpp:616-619 | the descriptor is marked close-on-exec, and nothing else changes |
| `Pipes.Processes.Start` | src/files.cpp:99-120 | a process starts with the standard streams in a table of its own |
| `Pipes.Processes.Exit` | src/files.h:47 | a table goes with all its descriptors |
| `Pipes.Processes.Read` | src/files.cpp:336-352 | read() from a pipe is the reference's read of it, which `PipeCalls.ReadAnswers` and `PipeCalls.ReadRefused` say outright |
| `Pipes.Processes.Write` | src/files.cpp:372-383 | write() to a pipe is the reference's write to it, which `PipeCalls.WriteAnswers` and `PipeCalls.WriteRefused` say outright |
| `PipeCalls.ReadAnswers` | src/files.cpp:336-352 | a read of at least one byte gives 0 exactly when the queue is empty and no descriptor of any table can write to it, the retry code exactly when it is empty and one can, and otherwise as many bytes from the front of the queue as were asked for and are there |
| `PipeCalls.ReadRefused` | src/files.cpp:336-340 | a read gives the bad-descriptor code exactly when the descriptor is not open for reading; of nothing it gives 0; neither changes anything |
| `PipeCalls.WriteAnswers` | src/files.cpp:372-382 | a write of at least one byte gives the broken-pipe code exactly when no descriptor of any table can read the pipe, and otherwise all of it joins the end of the queue |
| `PipeCalls.WriteRefused` | src/files.cpp:372-376 | a write gives the bad-descriptor code exactly when the descriptor is not open for writing; of nothing it gives 0; neither changes anything |
| `PipeCalls.MakePipeAnswers` | src/files.cpp:257-281 | exactly when two descriptors from 3 up are free, the lowest becomes the read end and the next the write end of a new, empty pipe; otherwise too many files, and nothing changes |
| `PipeCalls.CloseAnswers` | src/files.cpp:327-334 | exactly the open descriptors can be closed, and that one alone goes |
| `PipeCalls.DupAnswers` | src/files.cpp:479-495 | a copy without close-on-exec at the named descriptor, or the lowest free one; which error when; a descriptor copied onto itself is left alone |
| `PipeCalls.InstallDoes` | src/files.cpp:283-291 | the descriptor becomes a copy of the other without close-on-exec, and nothing else changes |
| `PipeCalls.CloneDoes` | src/files.cpp:293-301 | the new table holds the same descriptors, marks included |
| `PipeCalls.CloexecDoes` | src/files.cpp:303-309 | exactly the marked descriptors go, the others as they were |
| `PipeCalls.MarkDoes` | src/syscalls.cpp:616-619 | the mark is set, and nothing else changes |
| `PipeCalls.StartDoes` | src/files.cpp:99-121 | a new table can read 0 and write 1 and 2, and holds no pipe |
| `PipeCalls.ExitDoes` | src/files.h:47 | a table goes with its process, and nothing else |
| `Wildcard.MatchesGlob` | src/hooks_win32_fs.cpp:48-68 | for names without a star, going back to the last star only decides exactly what * and ? mean under ASCII case folding, for every pattern but *.* |
| `Wildcard.NamesExact` | src/hooks_win32_fs.cpp:48-68 | a name is matched as every such pattern means exactly when it has no star of its own |
| `Wildcard.Match` | src/hooks_win32_fs.cpp:48-68 | the loop terminates and returns the matcher's decision |
| `Wildcard.SearchRight` | src/hooks_win32_fs.cpp:52-67 | at every point, the search succeeds exactly when the pattern after the last star matches some later suffix |
| `Wildcard.FoldsLetters` | src/hooks_win32_fs.cpp:51 | two characters fold alike exactly when they are the same or one letter in two cases |
| `Wildcard.EverythingMatches` | src/hooks_win32_fs.cpp:49 | the two patterns that match every name |
| `CommandLine.SplitBuilt` | src/hooks_process.cpp:23-82 | splitting a line built from any arguments, quoted by doubling backslashes or bare where that is allowed, gives back exactly those arguments |
| `CommandLine.SpeltRead` | src/hooks_process.cpp:48-82 | however an argument is spelled, with quotes turned on and off anywhere, doubled quotes between quotes and backslashes before quotes or not, it is read as what its pieces mean, up to the blank that ends it |
| `CommandLine.SplitLine` | src/hooks_process.cpp:23-82 | the loops compute the split |
| `CommandLine.TakeArgument` | src/hooks_process.cpp:46-78 | one argument, its backslash runs, quotes and toggling included |
| `CommandLine.TakeQuoted` | src/hooks_process.cpp:32-35 | a quoted program name |
| `CommandLine.TakeBare` | src/hooks_process.cpp:36-38 | a bare program name |
| `CommandLine.EscapedRead` | src/hooks_process.cpp:49-77 | between quotes an escaped argument is read back and its closing quote ends it |
| `CommandLine.BareRead` | src/hooks_process.cpp:49-77 | an argument without blanks and quotes is read back as it stands |
| `CommandLine.ProgramRead` | src/hooks_process.cpp:31-39 | the program name is read back |
| `Utf.UnitsSurvive` | src/guest_printf.cpp:325-376 | any 16-bit units, unpaired surrogates included, survive the way to UTF-8 and back |
| `Utf.BytesSurvive` | src/guest_printf.cpp:325-376 | well-formed UTF-8 (RFC 3629) survives the way to 16-bit units and back |
| `Utf.PairedExact` | src/guest_printf.cpp:325-350 | what is written is well-formed UTF-8 exactly when every surrogate is paired |
| `Utf.LoneSurrogate` | src/guest_printf.cpp:325-350 | a lone high surrogate is written as bytes that are not well-formed UTF-8 |
| `Utf.EncodeUtf8` | src/guest_printf.cpp:325-350 | the loop spells each code point |
| `Utf.DecodeUtf8` | src/guest_printf.cpp:352-376 | the loop reads code points back as units |
| `Utf.DecodeOne` | src/guest_printf.cpp:356-366 | one leading byte and as many following bytes as there are |
| `Utf.SpellBack` | src/guest_printf.cpp:333-346 | a code point that was spelled is read back, whatever follows it |
| `Utf.BytesRead` | src/guest_printf.cpp:356-367 | any leading byte but a stray one says how many bytes follow, and those are read whatever they are, as far as they go |
| `Utf.StrayRead` | src/guest_printf.cpp:356-374 | a leading byte that is none is read alone, as the replacement character, and what follows is read afresh |
| `Utf.UnitsRead` | src/guest_printf.cpp:368-374 | what is read becomes one unit up to 0xFFFF and a pair standing for it above, for values past the code points too |
| `Utf.FormSpelled` | src/guest_printf.cpp:356-374 | a well-formed sequence is the spelling of the scalar value it is read as |

## Left out

Weaker than the code's promise:

- MemoryRuns.CellRight: assumes that no `map` goes underneath a contiguous mapping; `MemoryUnderlay.UnderlayExact` says that nothing less will do.
- MemoryRuns.RunAndRollBack: covers mappings, marks, and bulk and sized accesses under the journal; an `unmap`, `map_contiguous`, `reset` or clone in between releases pages the journal cannot bring back.
- GuestMemory.Memory.HostPtr: addresses are unbounded, so an access that passes 2^64 goes on above it, where the source goes on at zero; `GuestMemory.Memory.Read`, `GuestMemory.Memory.Write`, their sized forms, and the reads and writes of a run are the same.
- GuestMemory.Memory.MapContiguous: a range that rounds out to 2^64 bytes or more is not modelled, and a mapping that reaches 2^64, which the source keeps but never finds again, is left out of the memory.
- FrameUnwind.UnwindRecovers: machine frames and interruption inside an epilogue are outside; what the codes for them undo is `Unwinder.OtherCodes`.
- Unwinder.UndoCode: a near XMM save also overwrites the running processor's own XMM register; only the context's is modelled.
- Unwinder.Context.constructor: the context record is an object beside guest memory, so a record that overlaps the stack or the unwind data it is unwinding by is not captured.
- StackWalk.WalkFrames: every handler shown a frame declines it; the guest code it would run is opaque.
- Emulator.Emulator.SaveState: refuses a list or section of 2^64 elements or bytes, which no host can hold.
- Emulator.Emulator.LoadState: on refusal says nothing of the fields already overwritten, and of the descriptors to be reopened records only which they are.
- Emulator.Emulator.LoadPages: reads the whole section before it writes any page, so which pages a short section got written before the refusal is not captured.
- Emulator.SaveThenLoad: the memory's page numbers and region bounds fit 64-bit words and its names are byte strings.
- Snapshot.Restores: assumes the mapped files read the same at load as at save.
- Cpu.Cpu.Idiv: the 32-bit division of -2^63 by -1, undefined in C++, is a divide error in the model, and the 64-bit negation of 2^63 wraps.
- PageAllocator.RunSound: an alignment above a page is a power of two, as the declaration asks.
- PageMemory.RunKeepsMapped: no contiguous mapping reaches above the window's base, and pages committed by hand into reserved ranges play no part.
- Heap.TraceExact: `set_brk` is not among the operations; it can grow over blocks handed out.
- Heap.Heap.Alloc: which of several free blocks is reused is left open, as the hash table's order leaves it.
- Pipes.Processes.Install: a descriptor is not installed over itself, where the source would read the entry after erasing it.
- Pipes.Processes.Read: the descriptor, when it can be read at all, is a pipe's; host streams are opaque. `Pipes.Processes.Write` is the same.
- StringFills.MovsFillsUp: MOVS into its own path by less than one element is outside, and so it is for `StringFills.MovsFillsDown`.
- Shifts.OverflowByOne: the overflow flags of rotates and shifts by more than one are as coded, and no meaning is claimed for them.
- CommandLine.SplitBuilt: characters are compared one by one; the encoding of the command line plays no part.

Not modelled:

- The instruction decoder and dispatcher (`Cpu::step`, `execute_0f`), SSE, x87, the translator and its direct access to the caches: only the observer interface that translation relies on is here.
- Threads, processes and their scheduling, system calls, and the Win32, C runtime and libc hooks beyond the functions named above.
- Host files, paths, environment, time and console: the contents of mapped files are a parameter, `Disk`.
- Raw host pointers into contiguous mappings, held by callers outside the emulator.
- Watchpoints, tracing, profiling, memory dumps and messages to the host's error stream.
- Sorting of page lists: `std::sort` is the function that gives the ascending list of a set.
- State the file does not carry: the heap's block table, FILE tables, exit handlers, GDT slots, observer and journal.
- The 32-bit `fs:[0]` exception chain, the unhandled-exception path, and the consolidating callback after an unwind.
- printf and scanf formatting, floating point, and the digests.
