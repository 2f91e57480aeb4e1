# Verified models of sparreal-os

This project models the parts of sparreal-os where a mistake is both easy to make and hard to see, and proves
what they promise. Everything is plain Dafny; `dafny verify dfyconfig.toml` checks it.

* **Page tables** (`page-table-generic`). A table is a tree of frames in a frame memory. `PageTree` reads the tree
  off the memory and defines the partial function from virtual addresses to physical ones that it stands for
  (`Lookup`, periodic in the span of the table). `PageMap`, `PageUnmap`, `PageDealloc` and `PageWalk` are the walks of the
  source on the memory; `MapSpec`, `BlockChoice`, `UnmapSpec`, `UnmapIff`, `UnmapLeft`, `UnmapOverflow`, `RoundTrip`,
  `WalkSpec`, `WalkEntries` and `WalkStart` say what they do to the tree and to the function or what they list; `MapHeap`
  and `UnmapHeap` connect memory and tree. `PageTable` is the public interface and `TableRuns` whole lives of a table.
  `Paging` holds the geometry and the law an entry codec has to obey, `PteCodecs` the encoders of x86_64 and RISC-V Sv39
  that obey it, `PteLayout` their words bit by bit, `UnmapGaps` and `WalkGaps` concrete calls on which `unmap` and a walk
  miss what they are asked for.
* **Memory map and boot allocator** (`ranges-ext`, `someboot`). `RangeMap` is the in-place range list, `BootMemory` the
  bump allocator that reports to it.
* **Timers** (`sparreal-kernel`). `Timers` is the one-shot timer core with its hardware timer and the history of calls
  and answers, `Ticks` the conversions between ticks and durations.
* **Async executor** (`sparreal-kernel`). `Executor`, with wakes arriving between any two critical sections and during
  a poll, and the history of spawns, wakes and polls.
* **Block requests** (`rd-block`, `ramdisk`). `BlockLog` and `BlockFutures` are the read and write futures over any
  device, `RamDisk` the device that turns them into an array of blocks.
* **NVMe queue pair** (`nvme`). `Nvme`, host and controller on two rings with a phase tag.

## Conventions

`Whole(p)` is `p`. It keeps the verifier from taking `p` apart where a lemma has already proved it in one piece. A
definition of the form `forall t {:trigger OpenX(t)} :: OpenX(t) ==> ...` is the formula after the arrow; it stays closed
until a proof writes `assert OpenX(0)`. `USIZE_LIMIT` is 2^64.

A property that the code does not have is stated with a concrete input on which it fails and with the exact condition
under which it holds: `UnmapGaps.UnmapCanMiss`, `UnmapCanOverclear` and `UnmapCanOverflow` beside `UnmapIff.UnmapExactIff`
and `UnmapOverflow.UnmapOverflowsIff`; `WalkGaps.WalkCanMiss` beside `WalkStart.StartExactIff`;
`Nvme.FailureReportedAsSuccess` beside `Nvme.ReportIsRight`; `RangeMap.FullListLosesTail` beside the Capacity clauses of
`RangeMap.RangeVec.MergeAdd`; and `Executor.PolledTwice` beside `Executor.NoSpuriousPoll`.

Whole runs are proved on chains: a run returns its answers together with the states between the calls, and its contract
says of every call what it answered and what it did to the state. What a run amounts to is then a theorem about all such
chains or histories (`TableRuns.AgreesIffTidy`, `Timers.ExactlyOnce`, `Executor.NoLostWakeup`,
`Executor.NoSpuriousPoll`, `Executor.RunServes`).

Where code and comments differ, the model follows the code. `unmap` is documented as clearing the range it is given; it
clears that range exactly when the walk is clean. The executor documents that woken tasks come first; the derived order
puts them last, which has no effect because every queued entry is a woken one (`Executor.OldestFirst`).

## Model

| member | source | states |
|---|---|---|
| Paging.MakeMetaWf | crates/page-table-generic/src/frame.rs:80-93 | the constants of any `TableMeta` give level sizes that multiply up: one table of a level covers as many entries as its index can select |
| Paging.MakeMetaIndex | crates/page-table-generic/src/frame.rs:96-125 | the index computed by shifting and masking is the entry number of the address within its table |
| PteCodecs.X86RoundTrip | crates/someboot/src/arch/x86_64/paging.rs:35-94 | every field of the decoded entry in terms of the encoded one: what is kept, what is coarsened, what is lost |
| PteCodecs.X86Recovers | crates/someboot/src/arch/x86_64/paging.rs:35-94 | address, size bit and rights survive if and only if the entry is valid and its address is page aligned and below 2^52; of the other attributes `read` becomes true and the memory Device or Normal |
| PteCodecs.X86Lawful | crates/someboot/src/arch/x86_64/paging.rs:35-99 | the x86_64 encoder satisfies the law the generic table relies on, for address, kind and every attribute of an entry |
| PteCodecs.Sv39RoundTrip | crates/someboot/src/arch/riscv64/mod.rs:50-111 | every field of the decoded Sv39 entry; a table pointer carries no rights |
| PteCodecs.Sv39Recovers | crates/someboot/src/arch/riscv64/mod.rs:50-111 | address, size bit and rights survive if and only if the entry is valid, the address page aligned and a block has some right; what is writable becomes dirty and all memory Normal |
| PteCodecs.Sv39Lawful | crates/someboot/src/arch/riscv64/mod.rs:50-116 | the Sv39 encoder satisfies the same law |
| PteCodecs.Instances | crates/someboot/src/arch/x86_64/paging.rs:104-109 | the x86_64 and Sv39 table types have the level sizes, frame length and largest block of the source and meet every condition put on a geometry: well-formed, walks fit into usize, and top-level entries and whole tables divide 2^64 |
| PteLayout.X86Layout | crates/someboot/src/arch/x86_64/paging.rs:20-73 | the encoded word as a sum of bits at literal places: 0 valid, 1 writable, 2 user, 3 and 4 uncached, 5 accessed, 6 dirty, 7 block, 8 global, 12 to 51 the address, 63 a leaf that is not executable, and no other |
| PteLayout.X86Reads | crates/someboot/src/arch/x86_64/paging.rs:75-98 | each field decoded from any word, from literal bit places |
| PteLayout.Sv39Layout | crates/someboot/src/arch/riscv64/mod.rs:33-84 | the encoded Sv39 word as a sum of bits: 0 to 7 are V, R, W, X, U, G, A and D, the page number starts at 10; a table pointer has V and the page number only, an invalid entry is 0 |
| PteLayout.Sv39Reads | crates/someboot/src/arch/riscv64/mod.rs:86-116 | each field decoded from any word, from literal bit places; a directory entry with a right is a block |
| PageTree.AbsFrame | crates/page-table-generic/src/frame.rs:64-73 | a subtree does not change when only frames outside its footprint are written |
| FrameStores.FrameStore.NewFrame | crates/page-table-generic/src/frame.rs:34-46 | for any policy of the allocator: a refusal if and only if there is no frame or it does not want to, and then no frame moved; otherwise a frame leaves the free set and is zeroed; every call is one request |
| FrameStores.FrameStore.Release | crates/page-table-generic/src/lib.rs:22-22 | only an allocated frame can be released, and it goes back to the free set |
| PageMap.OpenTable | crates/page-table-generic/src/map.rs:136-169 | the child table for an address: found, newly linked, or refused under a block or because the allocator refused; a pointer that is written carries the attributes of the template |
| PageMap.MapFinal | crates/page-table-generic/src/map.rs:77-134 | one block or page is added to the mapped prefix, with the attributes of the template as far as the codec keeps them, or the call stops with a conflict and leaves the tree alone |
| PageMap.MapTable | crates/page-table-generic/src/map.rs:136-192 | one child table takes its share of the range and the prefix grows by exactly what it mapped |
| PageMap.MapRange | crates/page-table-generic/src/map.rs:68-196 | success or error, a prefix of the range is mapped to consecutive physical addresses whatever mix of blocks and pages was used, with every attribute of the template that the codec keeps, every address of it by an entry of the best level (`BlockChoice.Chosen`), it was unmapped before, every other translation is unchanged, every word written, table pointers too, encodes the attributes of the template, and new frames come from the allocator, one request each and one more when it refused |
| BlockChoice.FinalChosen | crates/page-table-generic/src/map.rs:77-134 | a block or page written where it fits is the largest entry that is allowed, inside the range and aligned on both sides, for every address in it |
| BlockChoice.TableChosen | crates/page-table-generic/src/map.rs:136-192 | where the loop descends no block of its own level fits, and the choices made inside the child for its share of the range are those for the whole range |
| BlockChoice.BestBelow | crates/page-table-generic/src/map.rs:171-187 | cutting the range at the entry of a table changes no choice below that table |
| MapSpec.MapStep | crates/page-table-generic/src/map.rs:72-193 | overlaying one more entry on a mapped prefix is overlaying the longer prefix |
| MapSpec.OverlayCompose | crates/page-table-generic/src/map.rs:189-192 | two adjacent overlays with adjacent targets are one overlay |
| PageUnmap.FrameIsEmpty | crates/page-table-generic/src/map.rs:293-301 | true if and only if no slot of the table is valid |
| PageUnmap.UnmapRange | crates/page-table-generic/src/map.rs:201-290 | the memory afterwards represents exactly the tree of `UnmapTree`, emptied tables are released and unlinked, for a range within the table (as always below the root) the answer is "empty" if and only if the table has no valid entry, and the call overflows exactly when `UnmapOverflows` |
| UnmapSpec.UnmapTree | crates/page-table-generic/src/map.rs:201-290 | the walk on trees keeps the shape and only ever removes entries |
| UnmapSpec.UnmapExact | crates/page-table-generic/src/map.rs:201-290 | if the first page is mapped and neither end splits a block, the range is erased and every other translation stays |
| UnmapIff.UnmapExactIff | crates/page-table-generic/src/map.rs:201-290 | for a range anywhere that does not come back to the entry it starts in: it is erased and nothing else if and only if, on the tree before the call, the walk neither skips a mapped page nor meets a block that sticks out |
| UnmapIff.CleanIff | crates/page-table-generic/src/map.rs:206-282 | the same from any position of the walk inside a table |
| UnmapIff.RestSame | crates/page-table-generic/src/map.rs:206-282 | a round of the walk changes no entry the walk comes to later, so that the condition can be read off the tree before the call |
| UnmapIff.OnEntryIff | crates/page-table-generic/src/map.rs:201-290 | such a range, from the start of an entry, used or not, is erased and nothing else if and only if its end splits no block |
| UnmapIff.MappedIff | crates/page-table-generic/src/map.rs:201-290 | such a range, from a mapped page, if and only if neither end splits a block |
| UnmapSpec.NoOverflow | crates/page-table-generic/src/map.rs:237-252 | a range that ends one top-level entry below 2^64 never overflows |
| UnmapOverflow.UnmapOverflowsIff | crates/page-table-generic/src/map.rs:237-252 | in the last window of the table below 2^64 the arithmetic overflows if and only if the last entry is in use and the walk comes to it; from the start of an entry that is whenever the range reaches into the last entry |
| UnmapOverflow.BoundaryOverflowsIff | crates/page-table-generic/src/map.rs:237-252 | from any top-level boundary it overflows if and only if the range reaches into the last entry, that entry is in use, and the walk has not passed its slot before |
| UnmapOverflow.EarlyOverflowsIff | crates/page-table-generic/src/map.rs:206-283 | from anywhere before the last window it overflows if and only if the range reaches into the last entry, the walk passes the slot of that entry once before, in the middle of a table, and of that table an entry before the one it enters is in use or part of the first table it comes to inside is left (`UnmapLeft.Left`, on the tree before the call) |
| UnmapLeft.ClearsRest | crates/page-table-generic/src/map.rs:206-283 | from an entry boundary the walk clears every entry to the end of the table, whatever was in it, so that the table ends up empty if and only if nothing was in use before |
| UnmapLeft.LeftIff | crates/page-table-generic/src/map.rs:206-283 | from any address to the end of a table, something is left if and only if an entry before the first one was in use, or something is left of the first table that lies a whole number of entries further on |
| UnmapGaps.UnmapCanMiss | crates/page-table-generic/src/map.rs:215-221 | an unaligned start on an unmapped entry can step over a mapped page of the range |
| UnmapGaps.UnmapCanOverclear | crates/page-table-generic/src/map.rs:225-244 | one page of a block is asked for and the whole block is cleared |
| UnmapGaps.UnmapCanOverflow | crates/page-table-generic/src/map.rs:237-242 | in the last entry below 2^64 the address arithmetic overflows |
| RoundTrip.MappedEnds | crates/page-table-generic/src/map.rs:68-196 | what `map` has just written starts and ends on entry boundaries |
| RoundTrip.TranslationRestored | crates/page-table-generic/src/map.rs:68-290 | unmapping what was just mapped restores every translation |
| RoundTrip.TreeRestored | crates/page-table-generic/src/map.rs:68-290 | if no table below the root was empty, it restores the tree frame for frame |
| RoundTrip.SameTree | crates/page-table-generic/src/map.rs:259-277 | two trees over the same entries with the same translations and no empty tables are equal |
| PageDealloc.DeallocateChildren | crates/page-table-generic/src/frame.rs:166-204 | every table frame below is released and every other entry keeps its value |
| PageDealloc.DeallocateRecursive | crates/page-table-generic/src/frame.rs:150-156 | exactly the frames of the tree are released, each once |
| PageTables.TranslateIsLookupAt | crates/page-table-generic/src/frame.rs:229-262 | the walk down from any table finds the final entry stored for the address, its level, address and attributes, or reports not mapped, as the tree says |
| PageTables.TranslateIsLookup | crates/page-table-generic/src/table.rs:323-349 | `translate` computes the function the tree stands for and returns the word stored for the address at the level of its entry, which is valid and decodes to the base and the attributes of the translation |
| PageTables.FinalIsTranslated | crates/page-table-generic/src/frame.rs:229-262 | conversely, a final entry stored for an address is the one the walk down returns |
| PageTables.PathUnique | crates/page-table-generic/src/map.rs:141-169 | in a table every frame is reached by one path only |
| PageTables.PathExists | crates/page-table-generic/src/map.rs:141-169 | every frame of the footprint is reached |
| PageTables.New | crates/page-table-generic/src/table.rs:18-21 | succeeds if and only if the allocator grants a frame; a new table owns that zeroed frame and translates nothing, or nothing changed |
| PageTables.PageTable.Map | crates/page-table-generic/src/table.rs:87-112 | each argument error if and only if its condition; ownership kept on success and error, and no frame outside the table written or taken; success if and only if all of the range is mapped; a mapped prefix otherwise; every address of it has the largest entry that fits and the attributes of the template as far as the codec keeps them; every word written, table pointers too, encodes the template; one request for each new frame and one more on no memory; why the walk stopped, no memory only where a table is missing on the way to the next page and the allocator refused the last request; an overflow if and only if the last page ends past usize |
| PageTables.PageTable.Unmap | crates/page-table-generic/src/table.rs:128-150 | each argument error if and only if its condition and then nothing changed; ownership kept and no other frame touched; the tree afterwards; exactly when the range was erased and nothing else; exactly when the arithmetic overflows |
| PageTables.PageTable.Deallocate | crates/page-table-generic/src/table.rs:287-289 | exactly the frames of the table go back to the allocator |
| PageTables.OtherTable | crates/page-table-generic/src/lib.rs:19-25 | a second table on the same allocator translates as before, owns its frames as before and shares none with the first |
| PageTables.PanicMeans | crates/page-table-generic/src/table.rs:128-150 | the conditions for an overflow of `unmap`, by the table and the range before the call |
| PageTables.UnmapMeans | crates/page-table-generic/src/table.rs:114-150 | conditions for the documented effect of `unmap`: sufficient for any range, exact for one that does not come back to the entry it starts in |
| TableRuns.MapTranslates | crates/page-table-generic/src/table.rs:323-349 | after `map`, `translate` answers for every address: shifted and with the new attributes in the mapped part, address and attributes as before elsewhere |
| TableRuns.MapShifts | crates/page-table-generic/src/table.rs:360-363 | the k-th byte of the range translates to the k-th byte of the target, by an entry with the new attributes |
| TableRuns.MapThenUnmap | crates/page-table-generic/src/table.rs:87-150 | `unmap` after `map` restores all translations, and the tree with its frames if no table was empty; in the last window it overflows if and only if the range reaches into the last top-level entry, elsewhere never below it |
| TableRuns.Run | crates/page-table-generic/src/table.rs:87-150 | any sequence of `map` and `unmap` calls up to the first that panics: each answer, the tree each call leaves, how much of its range took effect, how many frames it asked for and when it panics; no memory only when all frames are in the table or the allocator refused the last request, and where a table was missing; frames are conserved and other tables untouched; if every `unmap` was tidy the table translates as a flat function on which the last writer wins |
| TableRuns.Life | crates/page-table-generic/src/table.rs:18-35 | from `new` to `drop`: created if and only if the allocator grants a frame; the same chain of calls, requests included, from an empty table; memory and allocator end up as they were |
| TableRuns.AgreesStep | crates/page-table-generic/src/table.rs:87-150 | one more call on the table is one more call on the flat function if and only if it changed the translations accordingly |
| TableRuns.AgreesIffTidy | crates/page-table-generic/src/table.rs:87-150 | for ranges that do not come back to the entry they start in: the table agrees with the flat function after every call if and only if every `unmap` of the run was tidy |
| PageWalk.Walker.Next | crates/page-table-generic/src/walk.rs:77-161 | the iterator with its explicit stack yields the entries of the recursive listing one by one |
| PageWalk.Walker.Advance | crates/page-table-generic/src/walk.rs:86-158 | one step takes the head off the listing or changes nothing, and makes progress |
| WalkSpec.ExtentsList | crates/page-table-generic/src/walk.rs:77-161 | the final entries are strictly ascending, do not overlap, agree with the translation over their whole extent and cover all that is mapped |
| WalkSpec.FinalsAreExtents | crates/page-table-generic/src/table.rs:216-221 | what `walk_valid` keeps are the final entries of the tree |
| WalkEntries.WalkStores | crates/page-table-generic/src/walk.rs:97-157 | every listed entry, final or not, is the word stored for its address at its level, aligned to its size, and is marked final exactly when it translates |
| WalkEntries.WalkReaches | crates/page-table-generic/src/walk.rs:77-161 | every entry of every table that can be reached is listed by a walk from 0 |
| PageWalk.WalkValid | crates/page-table-generic/src/table.rs:216-221 | both together, for the whole table, and each listed entry is the word stored for its address |
| WalkStart.StartRoundsUp | crates/page-table-generic/src/walk.rs:97-108 | a walk from `start` lists the final entries from the next boundary of the root table on |
| WalkStart.StartExactIff | crates/page-table-generic/src/walk.rs:105-108 | it lists every mapping at or above `start` if and only if none begins between `start` and that boundary |
| WalkGaps.WalkCanMiss | crates/page-table-generic/src/walk.rs:105-108 | a table that maps one page at 0x1000: a walk that starts there lists nothing, wherever it ends |
| TableRuns.WalkMatchesTranslate | crates/page-table-generic/src/table.rs:216-349 | an address translates if and only if a listed entry covers it, and to the address the entry says; `translate` returns the very entry that is listed |
| RangeMap.RangeVec.FindPair | crates/ranges-ext/src/lib.rs:42-69 | the first pair of touching items of one kind, or there is none |
| RangeMap.RangeVec.MergeSameKind | crates/ranges-ext/src/lib.rs:40-94 | ends with nothing left to merge and the same kind at every address |
| RangeMap.MergeKinds | crates/ranges-ext/src/lib.rs:72-88 | replacing two touching items by their hull changes no address |
| RangeMap.NoTouchIsRuns | crates/ranges-ext/src/lib.rs:36-40 | a list with nothing to merge consists of exactly the maximal runs of its function |
| RangeMap.RangeVec.Cut | crates/ranges-ext/src/lib.rs:116-144 | an overlapping item becomes what is left of it outside the new range, in order, or the list is full and the right part is lost |
| RangeMap.RangeVec.CutAll | crates/ranges-ext/src/lib.rs:97-148 | the walk trims every item, or stops at the first that refuses with the ones before it trimmed |
| RangeMap.TrimAllHas | crates/ranges-ext/src/lib.rs:101-148 | trimming removes the new range from the function and nothing else |
| RangeMap.PushedKinds | crates/ranges-ext/src/lib.rs:150-151 | trimming and pushing is overlaying |
| RangeMap.TrimAllLength | crates/ranges-ext/src/lib.rs:121-131 | at most one of disjoint items is split |
| RangeMap.CutConservative | crates/ranges-ext/src/lib.rs:108-114 | a walk that stops early changes no address outside the new range and gives no address a kind |
| RangeMap.FullListLosesTail | crates/ranges-ext/src/lib.rs:128-130 | a full list of one item that loses addresses outside the new range |
| RangeMap.RangeVec.MergeAdd | crates/ranges-ext/src/lib.rs:96-155 | success is overlay, in the form of the maximal runs; Conflict if and only if some address of the new range lies in an item of another kind that may not be overwritten, with the first such item; Capacity if and only if the trimmed list has no room, never with two free places; what is left behind in each case, and that addresses outside the new range are lost if and only if the list was full and the new range lies strictly inside an item |
| BootMemory.BootRam.Alloc | crates/someboot/src/mem/ram.rs:22-34 | the answer, the new cursor and the granted block are those of the cursor function |
| BootMemory.ReplyIsLowest | crates/someboot/src/mem/ram.rs:22-34 | the answer is the lowest aligned place at or above the cursor, and none if and only if no aligned place fits below the end |
| BootMemory.GrantedSeparate | crates/someboot/src/mem/ram.rs:22-61 | over any steps the granted blocks lie inside RAM, above the first cursor, ascending and disjoint |
| BootMemory.NoGaps | crates/someboot/src/mem/ram.rs:22-93 | no memory is skipped: after any steps the cursor is where the last block ends, or at the page boundary after it once a flush has come, and a flush reports everything up to there |
| BootMemory.BootRam.UsedRangeInside | crates/someboot/src/mem/ram.rs:80-86 | the used range, rounded up to pages, leaves the RAM range only if its end is not page aligned |
| BootMemory.BootRam.Flush | crates/someboot/src/mem/ram.rs:44-61 | the map is overlaid with the used range; it conflicts only where rounding sticks out of an unaligned RAM range and is refused for room only on a nearly full map; afterwards no block is free |
| BootMemory.BootRam.MemoryMapSetup | crates/someboot/src/mem/mod.rs:185-199 | the kind of every address afterwards; no free descriptor overlaps a block that was ever returned; a conflict only from an unaligned RAM end or a console on foreign memory, and always in the latter case |
| BootMemory.BootRam.constructor | crates/someboot/src/mem/ram.rs:70-77 | where the cursor starts, for any free range over the size limit |
| BootMemory.PickFree | crates/someboot/src/mem/mod.rs:133-142 | finds a free range over the size limit if and only if there is one |
| BootMemory.FreeRangeFits | crates/kernutil/src/memory.rs:89-91 | a range that is free everywhere meets no descriptor that could refuse it |
| BootMemory.Boot | crates/someboot/src/mem/ram.rs:22-86 | over any sequence of allocations and flushes every allocation gets the answer of the cursor it meets, the final map gives every address the kind of the last descriptor put on it, no granted block is free, and why a boot stops |
| Timers.TimerManager.NextTimerId | crates/sparreal-kernel/src/os/time/timer.rs:186-194 | the search ends on the first id from the counter on that is not pending, even after the counter wrapped |
| Timers.TimerManager.ScheduleAt | crates/sparreal-kernel/src/os/time/timer.rs:82-106 | both maps gain the timer, all invariants hold although the hardware is armed only for a new earliest deadline |
| Timers.TimerManager.ScheduleAfter | crates/sparreal-kernel/src/os/time/timer.rs:66-73 | overflow if and only if the deadline leaves usize, and then nothing changed, the hardware included |
| Timers.TimerManager.Cancel | crates/sparreal-kernel/src/os/time/timer.rs:108-124 | true if and only if the timer was pending; it leaves both maps and the invariants hold |
| Timers.TimerManager.HandleIrq | crates/sparreal-kernel/src/os/time/timer.rs:126-145 | exactly the due timers, in (deadline, id) order, with their callbacks; at least one if the interrupt came when it was programmed |
| Timers.TimerManager.ArmHardwareTimer | crates/sparreal-kernel/src/os/time/timer.rs:148-166 | the interrupt comes at the earliest deadline if that is more than a tick and more than 1/10000 s away, otherwise 1/10000 s after arming in whole ticks but at least one; it is off without timers |
| Timers.HowLate | crates/sparreal-kernel/src/os/time/timer.rs:148-160 | with timers pending the interrupt is on, not before the earliest deadline, and for no pending timer later than its deadline unless it is one tick or at most 1/10000 s after arming |
| Timers.TimerManager.Snapshot | crates/sparreal-kernel/src/os/time/timer.rs:168-180 | all pending timers in (deadline, id) order with the time left |
| Timers.ExactlyOnce | crates/sparreal-kernel/src/os/time/timer.rs:66-145 | in every history of calls and answers a scheduled timer is, at every later time, pending with its callback, or ended by exactly one call: an interrupt not before its deadline, or a cancel that answered true |
| Timers.FiredCallbacks | crates/sparreal-kernel/src/os/time/timer.rs:126-145 | an interrupt returns the callbacks of exactly the timers it ends, in (deadline, id) order, each as scheduled |
| Timers.StepKeeps | crates/sparreal-kernel/src/os/time/timer.rs:66-145 | pending timers keep their ids and callbacks, and leave only by their own cancel or a due interrupt |
| Timers.IrqFindsDue | crates/sparreal-kernel/src/os/time/timer.rs:148-160 | an interrupt at the programmed time finds a due timer |
| Timers.Run | crates/sparreal-kernel/src/os/time/timer.rs:57-195 | any sequence of calls: every answer and every change of the pending timers is that of the step relation, with consecutive handles, and after every call the hardware is armed for the earliest, by that call or as before it |
| Ticks.TicksToDurationExact | crates/sparreal-kernel/src/os/time/mod.rs:23-28 | the two-part computation is one quotient rounded down |
| Ticks.DurationToTicksExact | crates/sparreal-kernel/src/os/time/mod.rs:30-35 | the two-part saturating computation is one quotient rounded down and capped |
| Ticks.TicksRoundTrip | crates/sparreal-kernel/src/os/time/mod.rs:23-35 | back and forth never gains a tick and loses at most one per started GHz |
| Ticks.DurationToTicksMonotone | crates/sparreal-kernel/src/os/time/mod.rs:30-35 | longer durations never give fewer ticks |
| Executor.SingleCpuExecutor.Enqueue | crates/sparreal-kernel/src/os/async/executor.rs:27-32 | a wake is queued at most once and enters the history |
| Executor.SingleCpuExecutor.SpawnTask | crates/sparreal-kernel/src/os/async/executor.rs:135-172 | the new task is registered, queued and owed a poll, even with wakes in between |
| Executor.SingleCpuExecutor.ProcessWakeQueue | crates/sparreal-kernel/src/os/async/executor.rs:273-293 | the queue is drained, every registered task of it has an entry in the heap, the new entries are not older than the call, and nothing owed is forgotten |
| Executor.SingleCpuExecutor.Poll | crates/sparreal-kernel/src/os/async/task.rs:172-193 | exactly one poll begins and ends, only its task stops being owed, wakes during it stay owed |
| Executor.SingleCpuExecutor.ShouldExecute | crates/sparreal-kernel/src/os/async/executor.rs:206-228 | polled if and only if woken or the last poll in the history began more than the timeout ago; a dropped entry recorded nothing |
| Executor.ReadyMeans | crates/sparreal-kernel/src/os/async/task.rs:78-87 | when a task counts as expired, by the history; the branch for tasks that never ran never decides |
| Executor.NoSpuriousPoll | crates/sparreal-kernel/src/os/async/executor.rs:187-252 | between two consecutive polls of a task in a run there is a wake of it, or a wake was still in the wake queue when the first began, or more than the timeout lies between them |
| Executor.FirstPoll | crates/sparreal-kernel/src/os/async/executor.rs:135-157 | the first poll of a task comes after it was spawned or woken |
| Executor.PolledTwice | crates/sparreal-kernel/src/os/async/executor.rs:255-293 | a concrete run with two polls at the same time and no wake between them: the wake came after the queue was drained and before the first poll |
| Executor.SingleCpuExecutor.ProcessOneTask | crates/sparreal-kernel/src/os/async/executor.rs:187-252 | the top entry is popped, a woken task is polled, at most that task is, and completed tasks leave the registry |
| Executor.SingleCpuExecutor.Tick | crates/sparreal-kernel/src/os/async/executor.rs:255-270 | ten entries are popped or all there are, and no other entry leaves; every popped entry of a task that was woken, expired, queued or spawned in the tick led to a poll begun in the tick, and no other poll began; every registered task of the wake queue has moved to the heap or was popped; every task owed a poll still is, or its poll began in this tick; an older entry is popped or moves up by as many places as were popped |
| Executor.NoLostWakeup | crates/sparreal-kernel/src/os/async/executor.rs:187-293 | every wake of a live task in the history is followed by a poll of it, or the task is in the wake queue, or in the heap and woken |
| Executor.WokenIsOwed | crates/sparreal-kernel/src/os/async/executor.rs:187-293 | a live task whose last wake was not followed by a poll is among those the history owes a poll |
| Executor.TaskCount | crates/sparreal-kernel/src/os/async/executor.rs:330-332 | `task_count` is the number of spawns in the history less the number of polls that completed |
| Executor.OldestFirst | crates/sparreal-kernel/src/os/async/executor.rs:65-85 | the heap yields the entry that was woken first |
| Executor.OnePlaceForward | crates/sparreal-kernel/src/os/async/executor.rs:80-85 | every round brings a waiting entry one place forward, whatever the polled future spawned |
| Executor.SingleCpuExecutor.ServeEntry | crates/sparreal-kernel/src/os/async/executor.rs:187-252 | an entry with n entries before it is popped within n + 1 rounds, and by then its task has been polled if it was woken or expired at the start |
| Executor.SingleCpuExecutor.ServeInTicks | crates/sparreal-kernel/src/os/async/executor.rs:255-293 | once the clock has passed its timestamp, an entry with n entries before it is popped within n / 10 + 1 ticks, whatever is woken meanwhile, and by then its task has been polled if it was woken or expired at the start |
| Executor.NewerIsBehind | crates/sparreal-kernel/src/os/async/executor.rs:273-293 | what `process_wake_queue` adds comes behind every entry older than the clock |
| Executor.Run | crates/sparreal-kernel/src/os/async/executor.rs:255-293 | any sequence of spawns, wakes and ticks with wakes in between leaves its trace call by call: the state each call starts and ends in, the entry and the debt a spawn makes, the queued wake, what a tick pops and polls; no wake is lost, every poll has a reason (`NoSpuriousPoll`), none begins after one of its task has completed, and the registry holds what was spawned and has not completed |
| Executor.RunServes | crates/sparreal-kernel/src/os/async/executor.rs:187-293 | in every such run a woken or expired task whose entry is older than the clock and has n entries before it is polled by the n / 10 + 1st tick after that, whatever is spawned and woken meanwhile |
| BlockFutures.ReadFuture.Poll | driver/block/rd-block/src/lib.rs:259-343 | pending only after a Retry and then resumable; ready with one result per block in order, each with the buffer submitted for that block or the error of a call for it; nothing accepted or completed twice |
| BlockFutures.ReadFuture.SubmitOne | driver/block/rd-block/src/lib.rs:274-302 | allocation and submission of one block under every answer |
| BlockFutures.ReadFuture.PollOne | driver/block/rd-block/src/lib.rs:310-331 | the buffer is there to take, and the completion is consumed once |
| BlockFutures.ReadFuture.Collect | driver/block/rd-block/src/lib.rs:334-342 | every block has a result to take out |
| BlockFutures.WriteFuture.Poll | driver/block/rd-block/src/lib.rs:369-431 | the same for writes, with the data given for the block |
| BlockFutures.WriteFuture.SubmitOne | driver/block/rd-block/src/lib.rs:374-399 | submission of one block under every answer |
| BlockLog.CoreAccept | driver/block/rd-block/src/lib.rs:286-289 | an accepted block was not accepted before |
| BlockLog.CoreComplete | driver/block/rd-block/src/lib.rs:312-331 | a consumed completion was not consumed before |
| BlockFutures.SplitBlocks | driver/block/rd-block/src/lib.rs:210-218 | the slices are whole blocks for consecutive block numbers, and joined they are the data |
| RamDisks.RamQueue.constructor | driver/block/ramdisk/src/lib.rs:35-60 | the initial disk |
| RamDisks.NewRamBlocks | driver/block/ramdisk/src/lib.rs:38-42 | block i is filled with the low byte of i |
| RamDisks.RamQueue.SubmitRequest | driver/block/ramdisk/src/lib.rs:155-199 | the update in place is the transition of the device model |
| RamDisks.RamQueue.PollRequest | driver/block/ramdisk/src/lib.rs:201-212 | likewise for polling |
| RamDisks.PutBlockAt | driver/block/ramdisk/src/lib.rs:165-192 | writing one block changes that block only |
| RamDisks.LatestWrite | driver/block/ramdisk/src/lib.rs:155-212 | after any calls every block holds what was written to it last |
| RamDisks.ReadContents | driver/block/ramdisk/src/lib.rs:167-179 | a buffer keeps what its read put there |
| RamDisks.OpenIsCompleted | driver/block/ramdisk/src/lib.rs:201-212 | an accepted request stays completed until it is polled |
| RamDisks.NeverStalled | driver/block/ramdisk/src/lib.rs:155-212 | the disk never makes a future wait |
| RamDisks.WriteBlocks | driver/block/rd-block/src/lib.rs:205-220 | ready at once; the blocks in range are updated, the others refused, the rest of the disk unchanged |
| RamDisks.ReadBlocks | driver/block/rd-block/src/lib.rs:188-195 | ready at once; every delivered buffer holds its block, the disk is unchanged, and with buffers available exactly the blocks past the end are refused |
| RamDisks.WriteThenRead | driver/block/rd-block/src/lib.rs:188-220 | a read returns the latest write |
| Nvme.QueuePair.SubmitAdminData | driver/block/nvme/src/queue.rs:248-251 | the ring holds the last commands and the doorbell follows |
| Nvme.QueuePair.Complete | driver/block/nvme/src/queue.rs:320-326 | a completion if and only if a new one was posted, never a stale entry |
| Nvme.QueuePair.Consume | driver/block/nvme/src/queue.rs:331-337 | head and expected phase follow the number of completions consumed |
| Nvme.QueuePair.SpinForComplete | driver/block/nvme/src/queue.rs:328-343 | ends for every finite delay of the controller, with the completion of the command under way |
| Nvme.QueuePair.CommandSync | driver/block/nvme/src/queue.rs:253-269 | the k-th call reports the answer to the k-th command, and all commands have been executed once and in order |
| Nvme.QueuePair.Post | driver/block/nvme/src/queue.rs:257-258 | with two or more entries the controller always finds room for its completion |
| Nvme.NextSlot | driver/block/nvme/src/queue.rs:320-326 | the slot of the next completion carries the wrong phase until it is written |
| Nvme.HoldsNext | driver/block/nvme/src/queue.rs:284-292 | a ring keeps the last items through any number of wraps |
| Nvme.RunCommands | driver/block/nvme/src/queue.rs:248-343 | any number of commands through any number of wraps |
| Nvme.ReportIsRight | driver/block/nvme/src/queue.rs:208-210 | the report agrees with the status field if and only if code and type are zero or the code is odd |
| Nvme.FailureReportedAsSuccess | driver/block/nvme/src/queue.rs:208-210 | a status that is reported as success and is none |

## Left out

- TLB flushes, `deallocate_range` (a stub in the source) and `dealloc_entry_recursive` are not modelled.
- PageWalk.Walker.Next: for tables of at most 8 levels, which is what the walker's stack holds, and frames whose entries all have addresses below 2^64; a deeper stack drops tables silently, and beyond 2^64 the address of an entry overflows.
- PageWalk.Walker.Advance: the same.
- PageWalk.WalkValid: the same, and pages of at least two bytes.
- PageTables.PageTable.Map: the caller owes a template and addresses that the codec can encode; the source does not check them, and `PteCodecs.X86Recovers` and `Sv39Recovers` say exactly which entries come back as something else. An address overflow is modelled as a panic; a build that wraps instead is not covered.
- PageTables.PageTable.Unmap: likewise for the overflow. Its exact conditions are for geometries whose top-level entries and whole tables divide 2^64, as all powers of two do (`PteCodecs.Instances`).
- UnmapSpec.NoOverflow: one direction; both are in `UnmapOverflow`.
- UnmapIff.UnmapExactIff: a range that comes back to the entry it starts in, which takes more bytes than one table covers less the offset in the first entry, has only the sufficient condition of `UnmapSpec.UnmapExact`, which holds for any range.
- UnmapIff.OnEntryIff: the same.
- UnmapIff.MappedIff: the same.
- TableRuns.AgreesIffTidy: the same for its ranges; `TableRuns.Run` covers any range in the sufficient direction.
- The LoongArch encoder (its table pointers decode as invalid) and the AArch64 encoder are not part of this model.
- RangeMap.RangeVec.MergeAdd: for non-empty new ranges; an empty one is not covered.
- BootMemory.BootRam.Alloc: addresses are unbounded, as the sums cannot overflow for physical addresses below 2^63.
- BootMemory.Boot: flushed ranges and the console get a kind other than Free, and the console is not empty, as in all callers; sorting the map, which changes only the order of the descriptors, and the device tree that fills it are not modelled.
- Timers.Run: fewer than 2^64 - 2 calls, so that the id counter does not wrap; after that a handle can be given out again. Tick counts are parameters, callbacks are values.
- Executor.Run: the Waker path only; `TaskHandle::wake`, `wake_by_id`, the global instance and whether tasks eventually finish are not modelled, and task ids do not wrap.
- BlockFutures.ReadFuture.SubmitOne: a buffer that is dropped after a refusal does not return to the pool, since the pool may answer anything anyway; wakers and interrupts are not modelled.
- RamDisks.ReadBlocks: one queue on the disk; several queues that share it are not modelled.
- Nvme.QueuePair.CommandSync: command encodings, identify data, DMA and controller reset are not modelled; completions carry a result and a status only.
- e1000, rd-net, PCIe, UART, GIC, ACPI, EFI, assembly and build scripts are not modelled.
