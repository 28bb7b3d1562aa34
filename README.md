# Nachos demand paging, address spaces and thread primitives in Dafny

This project models the core of a Nachos kernel (Java), as five pieces of
sequential bookkeeping:

- **Demand paging** (`vmprocess.dfy`, module `VMProcess`).
  - The class `PageManager` holds the static state of `VMProcess`: the
    inverted page table (IPT) of `{ppn, index, process, pinned}` rows, the
    clock cursor `evictPage`, and the swap-slot allocator (`freeSwapList`
    and the end-of-file counter `numOfSwap`).
  - Alongside the statics it holds the swap file, a map from slot to page
    bytes; the page tables of all processes, a map from process to entries;
    main memory, a byte array; and the free-frame pool.
  - Each operation is proved against the same operation written as a
    function on a `Paging` value (`EvictStep`, `LoadStep`, `FaultIn`).
    The invariant `PagingValid` is proved about those functions: the page
    tables and the IPT describe the same mapping in both directions, and
    every frame is either free or held by exactly one row.
  - The clock is a function too (`Inspect`, `ClockRun`, `Scan`). It is
    proved to take a victim within two passes whenever some row is
    unpinned.
- **The user address space** (`userprocess.dfy`, module `UserProcess`).
  - Page-by-page copying between virtual memory and a buffer, stated on
    the closed form `Clipped`.
  - String extraction up to the first zero byte.
  - The layout that `load` computes: section contiguity, page count and
    the argv page. `Load` stores the arguments, and the lemmas say where
    each argv entry and each string ends up.
  - The loading and unloading of sections.
  - The 16-slot descriptor table used by create, open and close, and the
    argument checks that read and write share.
- **Alarm** (`alarm.dfy`): the two parallel lists of threads and wake
  times. `waitUntil` registers, the timer interrupt scans, and `cancel`
  removes. Readied threads are returned as output.
- **Condition2** (`condition2.dfy`): a FIFO queue of waiters. "Lock held"
  is a ghost flag (`Machine.Lock`); woken threads are returned as output.
- **Rendezvous** (`rendezvous.dfy`): the list of pending exchanges. One
  call of `exchange` is a sequence of steps. A thread arrives and possibly
  blocks; when woken it runs the same step again.

`machine.dfy` holds the shared vocabulary: bytes, the 1024-byte page,
translation entries, executable sections, the frame pool and the lock.

Conventions:

- Threads and processes are opaque handles.
- Sleeping is a returned outcome: `Blocked`, `EvictBlocked`, `LoadBlocked`,
  or `Stalled` for a copy whose fault-in slept. Resuming is the next call.
- A Java exception in the source (an index past an array, `IPT.get(-1)`,
  a null entry) is an explicit outcome: `Faulted`, `SectionsFaulted`,
  `LoadFaulted`, or `None`.
- The current time, the executable's sections, the file system's `open`
  and the contents of memory are parameters.

Behaviour modelled as the code has it, where it differs from what its
comments or a reader might expect:

- handleCreate/handleOpen test for an empty name with a Java reference
  comparison (`filename == ""`). That never holds for a string just read,
  so an empty name is passed to the file system. Only a name longer than
  256 bytes, or a failed open, gives -1.
- The non-paging `loadSections` puts the nine stack and argument pages
  after the last section page. Without section pages its ninth store
  falls past the end of the table and throws (`FaultedTable`).
- The paging `read/writeVirtualMemory` pins the IPT row of the frame a
  non-resident entry still names, which may belong to another page by
  now. After the fault-in it only unpins the row of the new frame, so the
  stale pin stays (`FaultIn`).
- Read-only pages are written by `writeVirtualMemory` like any other.
- Nothing in the modelled code appends to `freeSwapList`, so its head is
  only ever consumed.

## Model

| member | source | states |
|---|---|---|
| Machine.CopyToFrame | nachos/vm/VMProcess.java:204 | a page copy changes exactly the bytes of the target frame, which then holds the page |
| Machine.ZeroPage | nachos/vm/VMProcess.java:252 | a fresh page buffer is pageSize zero bytes |
| Alarm.Alarm.WaitUntil | nachos/threads/Alarm.java:65-75 | a negative duration registers nothing and does not block; otherwise (thread, now + x) is appended to both lists, which keep equal lengths, and the thread blocks |
| Alarm.Alarm.TimerInterrupt | nachos/threads/Alarm.java:36-51 | the readied threads are exactly the due registrations in table order; the table becomes exactly the non-due registrations, order and pairing kept |
| Alarm.Alarm.Cancel | nachos/threads/Alarm.java:87-101 | an unregistered thread gives false and no change; a registered one has its first row removed from both lists at the same index, is readied and gives true |
| Alarm.IndexOf | nachos/threads/Alarm.java:89 | the lowest index holding the thread, -1 exactly when it is absent |
| Alarm.DueIff | nachos/threads/Alarm.java:40-47 | a registration is readied iff it is in the table and its wake time is at most now |
| Alarm.WaitingIff | nachos/threads/Alarm.java:40-47 | a registration survives iff it is in the table and its wake time is after now |
| Alarm.ScanPartitions | nachos/threads/Alarm.java:40-47 | readied and surviving rows together are the table as a multiset: nothing lost or duplicated |
| Alarm.NothingDueSurvives | nachos/threads/Alarm.java:40-47 | after a scan no surviving row is due |
| Condition2.Condition2.constructor | nachos/threads/Condition2.java:24-27 | a new condition variable has its lock and no waiters |
| Condition2.Condition2.Sleep | nachos/threads/Condition2.java:35-44 | requires the lock; the caller joins the tail of the queue and holds the lock on return |
| Condition2.Condition2.Wake | nachos/threads/Condition2.java:50-59 | requires the lock; the head is removed and readied (FIFO), and an empty queue is left as it is |
| Condition2.Condition2.WakeAll | nachos/threads/Condition2.java:65-71 | requires the lock; every waiter is readied in queue order and the queue ends empty |
| Condition2.Condition2.SleepFor | nachos/threads/Condition2.java:81-86 | requires the lock; releases it and registers (thread, now + timeout) with the alarm, blocking iff timeout >= 0; the queue is untouched |
| Condition2.Condition2.SleepForResume | nachos/threads/Condition2.java:87-89 | a pending registration of the thread is cancelled (its first row removed), none otherwise; the lock is held again |
| Rendezvous.TagExist | nachos/threads/Rendezvous.java:57-64 | the lowest index whose entry has the tag, -1 exactly when no entry has it |
| Rendezvous.Rendezvous.FindTag | nachos/threads/Rendezvous.java:57-64 | the search loop returns TagExist's answer |
| Rendezvous.Rendezvous.Exchange | nachos/threads/Rendezvous.java:34-55 | one pass of exchange does what Step says: append and block without an entry; else return the stored value, and delete an answered entry or overwrite, mark and wake an unanswered one |
| Rendezvous.StepIsolatesTags | nachos/threads/Rendezvous.java:36-52 | a step on one tag leaves the entries of every other tag unchanged |
| Rendezvous.StepKeepsTagsUnique | nachos/threads/Rendezvous.java:36-52 | steps keep at most one pending entry per tag |
| Rendezvous.TwoPartyExchange | nachos/threads/Rendezvous.java:18-55 | A(X) blocks, B(Y) returns X and wakes A, A resumes and returns Y, and the list is back as it was, so the tag is free again |
| UserProcess.CopyLoop | nachos/userprog/UserProcess.java:166-188 | the copy loop, one page-bounded chunk per round, on values: no contract of its own; CopyLoopIsClipped states its meaning |
| UserProcess.Clipped | nachos/userprog/UserProcess.java:158-188 | the count read/writeVirtualMemory returns, in closed form: 0 outside [0, maxVA), a fault once the copy reaches pageTable[numPages], otherwise the request cut at the end of the space; ClippedBounds, ClippedOutsideAndInside and ClippedStep state its meaning |
| UserProcess.CopyLoopIsClipped | nachos/userprog/UserProcess.java:158-188 | the copy loop moves exactly the closed-form amount Clipped: the requested bytes clipped to the address space, or a fault past the page table |
| UserProcess.ClippedBounds | nachos/userprog/UserProcess.java:166-188 | a copy never moves more than length bytes, and only bytes inside numPages * pageSize |
| UserProcess.ClippedOutsideAndInside | nachos/userprog/UserProcess.java:158-160 | an address below 0 or at or past the bound moves 0 bytes; a request inside the space moves all of its bytes |
| UserProcess.ClippedStep | nachos/userprog/UserProcess.java:177-186 | each chunk is positive, stays within its page and the request, and the rest of the transfer continues after it |
| UserProcess.BoundAdmitsAddressPastTheEnd | nachos/userprog/UserProcess.java:158 | with two pages, address 2048 passes the bound and a one-byte copy indexes pageTable[2] (fault) instead of returning 0 |
| UserProcess.CorrectedCopyNeverFaults | nachos/userprog/UserProcess.java:158-188 | with the bound numPages * pageSize a copy from inside the space never faults and moves min(length, bytes left in the space) |
| UserProcess.ArrayCopy | nachos/userprog/UserProcess.java:180 | System.arraycopy between distinct arrays: the target range gets the source bytes, the rest is unchanged |
| UserProcess.ReadPage | nachos/userprog/UserProcess.java:166-183 | one round copies min(length, pageSize - offset, remaining) bytes from the page's frame and extends the filled part of the buffer |
| UserProcess.WritePage | nachos/userprog/UserProcess.java:232-244 | one round copies min(length, pageSize - offset, remaining) bytes into the page's frame and extends the stored part |
| UserProcess.TranslateInjective | nachos/userprog/UserProcess.java:169-171 | with distinct frames, distinct virtual addresses map to distinct physical addresses |
| UserProcess.TranslateRun | nachos/userprog/UserProcess.java:169-171 | the addresses up to the end of a page lie side by side in its frame |
| UserProcess.WriteThenRead | nachos/userprog/UserProcess.java:151-250 | reading back n bytes that were written at the same virtual address yields the written bytes |
| UserProcess.FilledBytes | nachos/userprog/UserProcess.java:151-189 | a filled buffer holds the virtual bytes at vaddr |
| UserProcess.NulIndex | nachos/userprog/UserProcess.java:117-120 | the first zero byte's position, or the length; no zero byte before it |
| UserProcess.FirstNul | nachos/userprog/UserProcess.java:117-120 | the search loop finds NulIndex of the bytes read |
| UserProcess.CString | nachos/userprog/UserProcess.java:117-122 | a string exists iff a zero byte was read; it is the bytes before the first zero and contains no zero |
| UserProcess.StringFromBytes | nachos/userprog/UserProcess.java:111-123 | the string read is the one the maxLength + 1 bytes read hold |
| UserProcess.StringAtTerminated | nachos/userprog/UserProcess.java:111-123 | a string found has at most maxLength bytes, none zero; they are the virtual bytes from vaddr on, followed by a zero byte |
| UserProcess.UserProcess.ReadVirtualMemoryString | nachos/userprog/UserProcess.java:111-123 | reads maxLength + 1 bytes and returns the string they hold (StringAt), passing on a fault |
| UserProcess.InitialFiles | nachos/userprog/UserProcess.java:31-39 | sixteen slots: console input at 0, console output at 1, slots 2 to 15 empty |
| UserProcess.UserProcess.constructor | nachos/userprog/UserProcess.java:31-39 | a new process has the initial descriptor table and no pages |
| UserProcess.LowestEmpty | nachos/userprog/UserProcess.java:484-489 | the lowest empty slot, every slot before it taken; -1 exactly when all sixteen are taken |
| UserProcess.UserProcess.PlaceFile | nachos/userprog/UserProcess.java:484-490 | the file goes into the lowest empty slot, whose index is returned; a full table is unchanged and gives -1 |
| UserProcess.UserProcess.HandleOpen | nachos/userprog/UserProcess.java:467-517 | handleCreate and handleOpen (the `create` flag): a name that faults passes the fault on; an unterminated name or a failed open gives -1 with no change; otherwise the file goes into the lowest empty slot, or -1 when the table is full |
| UserProcess.UserProcess.HandleClose | nachos/userprog/UserProcess.java:519-527 | an occupied slot in 0..15 is emptied and 0 returned; any other descriptor gives -1 with no change |
| UserProcess.UserProcess.CheckTransferArgs | nachos/userprog/UserProcess.java:529-540 | handleRead's and handleWrite's (569-581) opening checks, in their order: -1 exactly when the descriptor is outside 0..15, its slot is empty, count < 0 or buf is outside [0, numPages * pageSize); 0 (go on) otherwise |
| UserProcess.UserProcess.TransferArgsOkMeansMapped | nachos/userprog/UserProcess.java:529-540 | arguments passing handleRead/handleWrite's checks name an open file and a buffer on a page of the table, from which a copy of the rest of that page moves every byte |
| UserProcess.FirstGap | nachos/userprog/UserProcess.java:280-289 | the first section that does not start at the running page count; all before it do |
| UserProcess.FirstGapContiguous | nachos/userprog/UserProcess.java:280-289 | the sections are contiguous from page 0 iff there is no gap |
| UserProcess.UserProcess.CheckSections | nachos/userprog/UserProcess.java:280-289 | the contiguity loop answers true iff the sections are contiguous, numPages counting the pages before the first gap |
| UserProcess.ComputeArgsSize | nachos/userprog/UserProcess.java:292-298 | the argument-size loop computes the sum of 4 + length + 1 over the arguments |
| UserProcess.IntBytesRoundTrip | nachos/userprog/UserProcess.java:326 | the four little-endian bytes of a 32-bit value decode to it |
| UserProcess.IntFromBytesRoundTrip | nachos/userprog/UserProcess.java:326 | four bytes are the encoding of the value they decode to |
| UserProcess.ArgvEntryLayout | nachos/userprog/UserProcess.java:319-333 | argv[i] at 4i from the start of the argument page holds the address of string i, past argv[] and the strings before it |
| UserProcess.ArgvStringLayout | nachos/userprog/UserProcess.java:319-333 | at that address lie the bytes of argument i followed by one zero byte |
| UserProcess.SectionImageAt | nachos/userprog/UserProcess.java:357-371 | page i of section s is loaded as page SectionPages(before s) + i, with its section's read-only flag |
| UserProcess.BuiltTable | nachos/userprog/UserProcess.java:354-377 | the table loadSections builds: page v valid in the v-th frame taken, read-only iff a page of a read-only section |
| UserProcess.FaultedTable | nachos/userprog/UserProcess.java:373-377 | without section pages the stack pages occupy entries 1..8 and entry 0 is never set |
| UserProcess.BuiltTableMapped | nachos/userprog/UserProcess.java:366-376 | a table built from valid pool frames lies in memory with distinct frames |
| UserProcess.LoadUnloadRestoresPool | nachos/userprog/UserProcess.java:385-395 | loading and then unloading gives the pool back the same multiset of frames |
| UserProcess.LoadSectionPage | nachos/userprog/UserProcess.java:363-370 | one page goes into the next free frame and becomes a valid entry |
| UserProcess.LoadSectionLoop | nachos/userprog/UserProcess.java:356-372 | the section loop loads every section page into consecutive pool frames, vpn ending at the last one |
| UserProcess.LoadStackPages | nachos/userprog/UserProcess.java:373-377 | the nine stack and argument pages get the next frames; the loop faults iff there are no section pages |
| UserProcess.UserProcess.LoadSections | nachos/userprog/UserProcess.java:345-380 | too few free frames changes nothing; otherwise the table is BuiltTable, each section frame holds its page and nothing else changes, or the table is FaultedTable when there are no section pages |
| UserProcess.UserProcess.UnloadSections | nachos/userprog/UserProcess.java:385-395 | every frame returns to the pool in table order; an entry never set throws after the frames before it are returned |
| UserProcess.UserProcess.ReadVirtualMemory | nachos/userprog/UserProcess.java:151-189 | returns Clipped; byte j of the filled part is the memory byte of virtual address vaddr + (j - offset), and the rest of data is unchanged |
| UserProcess.UserProcess.WriteVirtualMemory | nachos/userprog/UserProcess.java:217-250 | returns Clipped; each stored virtual address holds its data byte, and memory is unchanged where no stored address maps |
| UserProcess.UserProcess.Load | nachos/userprog/UserProcess.java:262-336 | fails iff the file does not open, the sections are not contiguous, the arguments exceed a page, or memory is short; on success numPages = pages + 9, initialSP = (pages + 8) * pageSize, and the sections and argv layout are in memory |
| UserProcess.UserProcess.LoadImage | nachos/userprog/UserProcess.java:305-333 | after the checks: counts in the stack and argument pages, loads the sections and stores the arguments |
| UserProcess.UserProcess.LoadArguments | nachos/userprog/UserProcess.java:319-333 | argc and argv are set and the argument page holds the argv layout; the section frames are untouched |
| UserProcess.UserProcess.StoreBytes | nachos/userprog/UserProcess.java:327-331 | a store inside the argument page changes only the stored bytes of its frame |
| UserProcess.UserProcess.WriteArg | nachos/userprog/UserProcess.java:325-333 | one pass stores the pointer to string i and then the string and its zero byte |
| UserProcess.UserProcess.WriteArgs | nachos/userprog/UserProcess.java:319-333 | all arguments are stored and no other frame changes |
| UserProcess.StoredInLastPage | nachos/userprog/UserProcess.java:327-331 | a store within the last page splices its bytes into that frame and changes no other frame |
| UserProcess.ArgsInPlace | nachos/userprog/UserProcess.java:319-333 | once every argument is stored, the argument page read through the table is argv[] followed by the strings |
| VMProcess.FindIndexOfPPN | nachos/vm/VMProcess.java:443-449 | the lowest row holding the frame, -1 exactly when no row does |
| VMProcess.PageManager.FindIndex | nachos/vm/VMProcess.java:443-449 | the search loop returns FindIndexOfPPN's answer |
| VMProcess.FindRow | nachos/vm/VMProcess.java:443-449 | with distinct frames, looking a row's frame up finds that row |
| VMProcess.AllPinned | nachos/vm/VMProcess.java:491-497 | true iff every row is pinned |
| VMProcess.PageManager.AllRowsPinned | nachos/vm/VMProcess.java:491-497 | the loop returns AllPinned's answer |
| VMProcess.PageManager.constructor | nachos/vm/VMProcess.java:469-481 | the statics start empty: no row, no swap slot, the cursor at 0 |
| VMProcess.PageManager.LoadSections | nachos/vm/VMProcess.java:47-61 | the process gets numPages entries, all invalid with vpn = ppn = -1 and every flag clear; nothing else changes |
| VMProcess.NewTableKeepsConsistent | nachos/vm/VMProcess.java:52-58 | adding such a table keeps the paging bookkeeping consistent |
| VMProcess.Inspect | nachos/vm/VMProcess.java:124-156 | one inspection of evictionClock's inner loop, on values; InspectSteps states its meaning |
| VMProcess.ClockRun | nachos/vm/VMProcess.java:121-157 | k inspections from a cursor, stopping at the first victim; ClockRunKeeps, ClockRunClears, PassClears and VictimStays state its meaning |
| VMProcess.Scan | nachos/vm/VMProcess.java:121-166 | the whole scan: with every row pinned, no victim and no change (the thread sleeps after a pass that changes nothing, AllPinnedPass); otherwise inspections until the first victim, which VictimWithinTwoPasses places within two passes; ScanResult states its meaning |
| VMProcess.InspectSteps | nachos/vm/VMProcess.java:124-156 | an inspection takes the row iff it is unpinned and unused; otherwise the cursor advances by one modulo the IPT size and the used bit is cleared iff the row is unpinned |
| VMProcess.PageManager.InspectRow | nachos/vm/VMProcess.java:124-156 | one inspection of the scan does what Inspect says |
| VMProcess.PageManager.ClockPass | nachos/vm/VMProcess.java:124-157 | one pass of IPT.size() inspections does what ClockRun says, stopping at the first victim |
| VMProcess.ClockRunKeeps | nachos/vm/VMProcess.java:122-157 | the clock keeps its cursor on the table and stops only on an unpinned row whose page is unused |
| VMProcess.ClockRunClears | nachos/vm/VMProcess.java:122-157 | the clock only clears used bits; nothing else changes |
| VMProcess.ClockRunLeavesOthers | nachos/vm/VMProcess.java:122-157 | entries that no row names are never touched |
| VMProcess.VictimStays | nachos/vm/VMProcess.java:151-153 | once a victim is taken the scan has ended |
| VMProcess.PassClears | nachos/vm/VMProcess.java:124-157 | k victim-less inspections move the cursor k rows on and leave every passed unpinned row unused |
| VMProcess.NothingToClear | nachos/vm/VMProcess.java:124-157 | once no unpinned row is used, further victim-less inspections pass only pinned rows and change nothing |
| VMProcess.VictimWithinTwoPasses | nachos/vm/VMProcess.java:122-165 | with some row unpinned the clock takes a victim within two full passes |
| VMProcess.AllPinnedPass | nachos/vm/VMProcess.java:158-165 | with every row pinned a pass takes no victim and changes nothing (the thread sleeps) |
| VMProcess.ScanResult | nachos/vm/VMProcess.java:121-166 | the scan takes a victim iff some row is unpinned; the victim is unpinned and unused, the cursor stays on it, and only used bits were cleared |
| VMProcess.PageManager.RunClock | nachos/vm/VMProcess.java:121-166 | the nested scan loops leave the victim, tables and cursor that Scan gives |
| VMProcess.AllocateSlot | nachos/vm/VMProcess.java:140-149 | the swap slot for a dirty victim: the head of freeSwapList, else numOfSwap, which is then incremented; AllocateSlotFresh states its meaning |
| VMProcess.SwapOut | nachos/vm/VMProcess.java:134-150 | a dirty victim's frame written to the allocated slot, a clean one written nowhere; SwapOutKeeps states its meaning |
| VMProcess.Evicted | nachos/vm/VMProcess.java:133-150 | the victim's entry after eviction: invalid, and a dirty one holds its swap slot in vpn; LoadedEntryMaps and SwapRoundTrip use it |
| VMProcess.AllocateSlotFresh | nachos/vm/VMProcess.java:140-149 | the slot given out (head of freeSwapList, else numOfSwap, incremented) is in the file and cannot be given out again |
| VMProcess.SwapOutKeeps | nachos/vm/VMProcess.java:134-150 | writing out a victim keeps the swap file well formed, puts a dirty page's slot in use, and leaves every slot already in use unchanged |
| VMProcess.SwapRoundTrip | nachos/vm/VMProcess.java:201-207 | a dirty page evicted and faulted back in gets its bytes back from the slot its entry holds |
| VMProcess.EvictAt | nachos/vm/VMProcess.java:132-153 | the victim branch of evictionClock on a Paging value; EvictStepVictimState states its meaning |
| VMProcess.EvictStep | nachos/vm/VMProcess.java:114-168 | evictionClock on a Paging value: -1 with a free frame, sleep when every row is pinned, otherwise Scan's victim evicted by EvictAt; EvictStepNoVictim, EvictStepVictim, EvictStepVictimState and EvictStepShape state its meaning |
| VMProcess.PageManager.EvictVictim | nachos/vm/VMProcess.java:132-153 | the victim branch does what EvictAt says: entry invalid, dirty page written to a newly allocated slot held in vpn, cursor one past the row, frame returned |
| VMProcess.PageManager.EvictionClock | nachos/vm/VMProcess.java:114-168 | evictionClock does what EvictStep says |
| VMProcess.EvictStepNoVictim | nachos/vm/VMProcess.java:116-164 | -1 iff the pool has a frame, sleep iff the pool is empty and every row is pinned, and in both cases nothing changes |
| VMProcess.EvictStepVictim | nachos/vm/VMProcess.java:132-153 | the victim is the scan's stopping row, unpinned, its page valid and unused; its frame is returned |
| VMProcess.EvictStepVictimState | nachos/vm/VMProcess.java:132-153 | the victim's entry is evicted to the allocated slot, a dirty frame is written to swap, and the cursor moves to (v + 1) mod the IPT size |
| VMProcess.EvictStepShape | nachos/vm/VMProcess.java:114-168 | evictionClock keeps the processes and table sizes, and the victim's frame is found at the victim's row |
| VMProcess.PageManager.LocateSectionPage | nachos/vm/VMProcess.java:217-226 | the nested section loop finds SectionOf's section, and the page's index inside it |
| VMProcess.SectionOf | nachos/vm/VMProcess.java:217-226 | the first section, in order, covering the page; -1 exactly when none does |
| VMProcess.LoadedEntryMaps | nachos/vm/VMProcess.java:201-260 | a loaded entry is valid, used and maps the frame; a dirty page keeps its other fields; a section page takes its read-only flag and is clean; a zero-filled page is writable and clean |
| VMProcess.PageManager.FillFrame | nachos/vm/VMProcess.java:197-260 | the frame receives the bytes of the page's source (swap slot, section page or zeros), the entry becomes LoadedEntry, and nothing outside the frame changes |
| VMProcess.PageManager.RecordFrame | nachos/vm/VMProcess.java:235-245 | after an eviction the row holding the frame is handed to the page, unpinned; otherwise a new unpinned row is appended |
| VMProcess.PageManager.LoadPage | nachos/vm/VMProcess.java:170-276 | loadPage reaches the state LoadStep gives, keeps the invariant, and changes memory exactly in the chosen frame, which gets the page's bytes |
| VMProcess.LoadStep | nachos/vm/VMProcess.java:170-276 | loadPage on a Paging value: the frame EvictStep gives (pool head or victim's frame), the bytes of the page's source, the entry LoadedEntry, and the IPT row recorded as 235-245 do on every path, the swap path included (corrected, see Findings); LoadStepKeepsValid, LoadStepBlocks, LoadStepEntry, LoadStepFromPool and LoadStepFromVictim state its meaning |
| VMProcess.LoadStepKeepsValid | nachos/vm/VMProcess.java:170-276 | loadPage keeps the paging invariant: every frame free or held by one row, and rows and entries agreeing |
| VMProcess.VictimLoadKeepsValid | nachos/vm/VMProcess.java:183-245 | loading into a victim's frame keeps the invariant |
| VMProcess.LoadStepBlocks | nachos/vm/VMProcess.java:163-174 | loadPage blocks iff the pool is empty and every row is pinned, and then changes nothing |
| VMProcess.LoadStepEntry | nachos/vm/VMProcess.java:197-260 | the loaded page's entry is LoadedEntry for its source, and the bytes written are that source's bytes |
| VMProcess.LoadStepMaps | nachos/vm/VMProcess.java:205-259 | after loadPage the page's entry is valid and maps the frame chosen |
| VMProcess.LoadStepFromPool | nachos/vm/VMProcess.java:183-194 | with a free frame, loadPage takes the pool's head, appends a row for it and changes only the page's entry |
| VMProcess.LoadStepFromVictim | nachos/vm/VMProcess.java:183-194 | with the pool empty and a row unpinned, the victim's frame is used, its row handed over, and the cursor moves past it |
| VMProcess.EvictStepLeavesInvalid | nachos/vm/VMProcess.java:122-157 | evictionClock changes a non-resident entry in its used bit at most |
| VMProcess.DirtyRecordAsWritten | nachos/vm/VMProcess.java:208-212 | the swap path's IPT update faults exactly when no row holds the frame |
| VMProcess.DirtyRecordAfterEviction | nachos/vm/VMProcess.java:208-212 | after an eviction the as-written swap path updates the IPT as LoadStep does |
| VMProcess.DirtyRecordFromPoolFaults | nachos/vm/VMProcess.java:208-212 | with a free frame the as-written swap path always faults |
| VMProcess.DirtyRecordFaultWitness | nachos/vm/VMProcess.java:208-212 | a valid state with a swapped-out page and a free frame, on which the as-written path faults and LoadStep loads the page and keeps the invariant |
| VMProcess.FaultIn | nachos/vm/VMProcess.java:320-332 | one copy round's pin and fault-in on a Paging value: pin the row of the frame the entry names, and for a non-resident page run LoadStep and pin the new frame's row; FaultInKeepsValid, FaultInBlocks and FaultInResident state its meaning |
| VMProcess.FaultInKeepsValid | nachos/vm/VMProcess.java:320-332 | the pin and fault-in of a copy round keeps the invariant and the tables' shape |
| VMProcess.FaultInBlocks | nachos/vm/VMProcess.java:320-332 | a round blocks only on a non-resident page, and then only the first pin has happened |
| VMProcess.FaultInResident | nachos/vm/VMProcess.java:320-332 | after a fault-in that did not block, the page is resident in the frame to copy, which lies in memory and whose row is pinned |
| VMProcess.SetPin | nachos/vm/VMProcess.java:323-325 | only the pinned flag of the row holding the frame changes; without such a row nothing changes |
| VMProcess.PinKeepsConsistent | nachos/vm/VMProcess.java:323-325 | pinning and unpinning keep the paging bookkeeping consistent |
| VMProcess.PageManager.Pin | nachos/vm/VMProcess.java:323-325 | the pin sets the flag as SetPin says and keeps the invariant |
| VMProcess.PageManager.PinAndLoad | nachos/vm/VMProcess.java:320-332 | the round's fault-in reaches the state FaultIn gives; memory changes only when a page is loaded, and then exactly in its frame |
| VMProcess.PageManager.FaultPage | nachos/vm/VMProcess.java:320-332 | reaches exactly the state FaultIn gives, loaded iff FaultIn loads; a loaded page is resident in the returned frame, whose row is pinned; memory changes at most in that frame, and not at all when the load blocks |
| VMProcess.PageManager.CopyOutAndUnpin | nachos/vm/VMProcess.java:341-346 | the chunk's bytes are copied from the frame into data and the row unpinned; no other byte of data changes |
| VMProcess.PageManager.CopyInAndUnpin | nachos/vm/VMProcess.java:423-428 | the chunk's bytes land in the frame and the row is unpinned; no other byte of memory changes |
| VMProcess.PageManager.ReadChunk | nachos/vm/VMProcess.java:320-347 | one read round: the page is resident, data[off..off + n) holds its frame's bytes at the page offset, and nothing else of data changes |
| VMProcess.PageManager.WriteChunk | nachos/vm/VMProcess.java:406-429 | one write round: the page is resident and its frame holds the n data bytes at the page offset; memory changes only in that frame |
| VMProcess.PageManager.ReadVirtualMemory | nachos/vm/VMProcess.java:304-360 | the count is Clipped unless a fault-in slept; the lock is released exactly on a normal return; data changes only in the bytes moved |
| VMProcess.PageManager.WriteVirtualMemory | nachos/vm/VMProcess.java:388-441 | the count is Clipped unless a fault-in slept; the lock is released exactly on a normal return |
| VMProcess.EnterCopyAsWritten | nachos/vm/VMProcess.java:308-314 | a copy proceeds iff 0 <= vaddr < maxVA, and the lock stays held on the early return too |
| VMProcess.EnterCopy | nachos/vm/VMProcess.java:308-314 | the corrected entry: the lock is held exactly when the copy proceeds |
| VMProcess.RemoveRow | nachos/vm/VMProcess.java:81-82 | IPT.remove at the index the lookup gives removes exactly the row holding the frame |
| VMProcess.UnloadStep | nachos/vm/VMProcess.java:78-85 | one loop pass: an invalid page changes nothing; a resident page's row is found among the rows left and only that row is removed |
| VMProcess.UnloadRows | nachos/vm/VMProcess.java:78-85 | the rows left are exactly the other processes' rows |
| VMProcess.UnloadKeepsConsistent | nachos/vm/VMProcess.java:66-88 | unloading keeps the bookkeeping consistent: frames back in the pool, their rows gone, the table dropped |
| VMProcess.UnloadKeepsRow | nachos/vm/VMProcess.java:78-85 | another process's resident page keeps its row |
| VMProcess.PageManager.ReleaseFrame | nachos/vm/VMProcess.java:80-82 | the frame goes to the end of the pool and the row the lookup finds is removed |
| VMProcess.PageManager.ReleaseFrames | nachos/vm/VMProcess.java:78-85 | every resident frame returns to the pool in page order and its row leaves the IPT; rows plus free frames stay the same number |
| VMProcess.PageManager.UnloadSections | nachos/vm/VMProcess.java:66-88 | unloadSections keeps the invariant, returns the process's frames, removes their rows and drops its table |

## Left out

- VMProcess.handleException and the syscall dispatch: these read processor registers. Page faults enter the model through loadPage directly. As written, handleException sets `pageTable[vpn].vpn = vpn` before loadPage, which overwrites the swap slot of a dirty page. That overwrite is not modelled.
- Process lifecycle (exec, join, exit, halt, newUserProcess), initRegisters, and save/restoreState: these create and join threads or write processor state.
- The file-transfer loops of handleRead and handleWrite after their opening checks: they call into the file system. The checks themselves are modelled (CheckTransferArgs).
- handleUnlink: it calls into the file system.
- The COFF reader, the swap file's I/O, the console and the file system. They become values: sections with their page bytes, a map from slot to page, and an `open` function parameter.
- UserKernel's free-frame list is not part of this model. It is a sequence: getNextFreePage takes the head and addFreePage appends.
- Real blocking and locking: KThread, Lock, interrupt disabling and the forking self-tests. A lock is a ghost "held" flag, a wakeup is an output, and sleeping is a returned outcome. When a copy stalls, the remaining rounds that would run after the thread is woken are not modelled. `cv.wake()` calls in the paging code are not modelled, because they only ready waiters.
- The per-call `new Lock()` in loadPage and loadSections: it gives no exclusion. The code is modelled as sequential.
- Debug output (printPageTable, printIPT, println) and the numOfSwapAcess counter: they have no effect on the state.
- The timer: the current time is a parameter.
- Java 32-bit overflow in address and page arithmetic, e.g. `numPages * (pageSize + 1) - 1`: integers are unbounded. Only Lib.bytesFromInt's 32-bit encoding is written out.
- The page table left behind by VMProcess.unloadSections: the source keeps the exited process's table, so its entries stay marked valid and keep naming frames that are back in the pool. The model removes the process from `pageTables` instead (PageManager.UnloadSections). Nothing reads that table again: handleExit (UserProcess.java:453) ends the thread after unloadSections, and no IPT row names the process any more (UnloadRows).
- nachos/test/exec1.c: it only makes syscalls.
- VMProcess.PageManager.ReadVirtualMemory: it states the count and that data changes only in the bytes moved, but not which memory bytes the data receives. A later round's fault-in may evict the page an earlier round copied from, so the whole copy has no single memory snapshot. Each round's bytes are stated by ReadChunk.
- VMProcess.PageManager.WriteVirtualMemory: it states the count but not the final memory or swap contents, for the same reason. Each round's effect is stated by WriteChunk.
- VMProcess.PageManager.ReadChunk: its effect is stated through FaultPage, i.e. residency, the pin and the frame's change, not as the exact FaultIn state. PinAndLoad carries the exact statement.
- VMProcess.PageManager.WriteChunk: stated through FaultPage the same way.
- The top-level VM copies call EnterCopy, the corrected entry that releases the lock on the early return (see Findings).

## Findings

| source | as written | input that shows it | evidently intended | confidence | as-written member | corrected member |
|---|---|---|---|---|---|---|
| nachos/userprog/UserProcess.java:158 | the bound is `numPages * (pageSize + 1) - 1`, which lets through addresses past the last page | numPages = 2, vaddr = 2048, length = 1: the bound check passes and `pageTable[2]` is indexed, which throws instead of returning 0 | the bound `numPages * pageSize` | not executed | UserProcess.BoundAdmitsAddressPastTheEnd | UserProcess.CorrectedCopyNeverFaults |
| nachos/vm/VMProcess.java:313-314 | read/writeVirtualMemory acquire cvLock and return 0 on an out-of-range address without releasing it | vaddr = -1: the call returns 0 with cvLock still held by the caller, so the next cvLock.acquire finds the lock held | release cvLock before the early return | not executed | VMProcess.EnterCopyAsWritten | VMProcess.EnterCopy |
| nachos/vm/VMProcess.java:208-212 | loadPage's swap path always looks its frame up in the IPT, and `IPT.get(-1)` throws when no row holds it | a page evicted dirty to slot 0 while frame 0 is back in the pool: evictionClock returns -1, the frame comes from the pool and has no row | test IPTFull as the section and zero-fill paths do: hand over the row after an eviction, append one otherwise | not executed | VMProcess.DirtyRecordFaultWitness | VMProcess.PageManager.RecordFrame |
