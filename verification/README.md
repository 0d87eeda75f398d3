# Verification of hvexec

hvexec runs an x86-64 program inside a hardware virtual machine and mediates its system calls.
This project models four parts of it in Dafny and proves what they promise.

**Guest memory (`src/vm_mem.c`).** `VmMem.VmMem` is the region list, a first-fit allocator and byte
transfers over it, on linked nodes and host arrays, with `Valid()` tying them to the ghost memory
`mem`. The four-level page table lives in that same memory: `PageTable` says what its bytes are for a
tree of tables, and `map_gva` and `gva_to_gpa` are proved to be map override and map lookup.
The proof goes from allocator freshness through disjoint table pages and little-endian entries to
the tree (`PageTable.Radix`) and the page map (`PageTable.PagesOf`). `Processor` is the hardware's own
walk, written from the manual and not from the code, and finds the same page map in those bytes.

**Start-up and hand-off (`src/loader.c`, `src/hvexec.c`, `src/vcpu.c`, `src/boot.asm`).** `Launch` is
`main` up to `vcpu_run`, on the same memory object; `Boot` is the guest's first pops.

**The exit loop (`src/vcpu.c`, `src/emu.c`, `src/emu_syscall.c`).** Handlers and loop are methods on
the CPU object, proved equal to one transition function; `RunLaws` proves whole-run laws about any
sequence of exits that the loop can produce, and `EndToEnd` applies them to the guest that start-up leaves.

**The Mach-O walk (`src/macho_parser.c`) and the pi spigot with its integer printing
(`test/test_pidigits.c`, `test/stdlib.h`).**

Sources are cited by path and line. Bit masks are written as arithmetic: bits 12 and up of `x` are
`x / 0x1000`, bits 12 to 51 are `x / 0x1000 % 2^40`, and `x | 3` is `x / 4 * 4 + 3`.
Addresses are integers with the 64-bit wrap written out (`Words.Wrap`).

Assumptions about the host:

- The memory object keeps a log `requests` of everything it asks of `valloc`, `hv_vm_map`, `malloc` and
  `mmap`, and a constant `policy`, of which nothing is known, that answers the n-th request
  (`VmMem.Grants`). Contracts say which requests are made and that a call succeeds exactly when
  its inputs allow it and `AllGranted` holds of its requests.
- A range that ends above 2^52 is never granted: the limit of physical addresses in section 4.5 of the
  Intel SDM, Volume 3A.
- Pages from `valloc` read as zero (`VmMem.VmMem.Valloc`); `map_gva` takes a zero entry as absent.
- Where `map_gva` ignores a refused allocation, the model goes on with a garbage address as the code does;
  `Valid()` survives, and nothing is claimed about the tables.
- `mmap` reports failure as MAP_FAILED, so the null tests at `src/loader.c:43` and `src/loader.c:104` never
  fire. `Loader.LoadMachObj` returns -1 for a refused `mmap`; the code gets there one step later, because
  `hv_vm_map` refuses the unaligned pointer. `load_raw` after a failed `mmap` is not modelled.
- The array element that the spigot never initialises is the parameter `top`, from 0 to 214748.

Where code and prose disagree the model follows the code: `doc/report.tex:196` says RIP moves on every
handled exit, and `VcpuRun.OnExit` leaves it alone for interrupts, EPT violations, and moves to CR4 or
CR8, as `src/vcpu.c:306-331` and `src/emu.c:163-168` do. `test/test_pidigits.c:70` prints a group without
leading zeros, so `Pidigits.Printed` is not always the decimal text of `Pidigits.Number`.

## Model

| member | source | states |
|---|---|---|
| `PageTable.DecodeIsIndex` | src/vm_mem.c:72-86 | the decoded indices are eight times the entry of the page number at levels 4 to 1 |
| `PageTable.DecodeKeeps48` | src/vm_mem.c:72-86 | the five decoded parts reassemble the low 48 bits of the address |
| `PageTable.EntryAfterSet` | src/vm_mem.c:201-202 | an entry store changes that entry and no other entry of any table page |
| `PageTable.RadixRoot` | src/vm_mem.c:168-177 | a zero page is a complete one-table tree |
| `PageTable.RadixFrame` | src/vm_mem.c:426-449 | memory changes outside the table pages leave the tree as it is |
| `PageTable.RadixSet` | src/vm_mem.c:190-233 | every entry store of the mapping loop turns a correct table tree into a correct one with exactly that child added or retargeted |
| `PageTable.SetEntrySame` | src/vm_mem.c:196-202 | rewriting a present entry stores the bytes that were there |
| `PageTable.OneReference` | src/vm_mem.c:190-230 | above the page level, a table is named by exactly one entry, its parent's, at exactly one level |
| `PageTable.WalkIsTranslate` | src/vm_mem.c:316-338 | the walk over the bytes in memory returns the page map's frame with the offset kept, whatever the entry variable held |
| `Processor.EntryOnPath` | src/vm_mem.c:201-233 | every entry on a page's path is the next table's or the page's address plus 3, PRESENT and WRITE, or zero when there is none |
| `Processor.ProcessorFindsPages` | src/vm_mem.c:156-242 | the processor's walk, which tests PRESENT and WRITE at every level, reaches every mapped page at its frame and faults on every other address |
| `PageMap.MapRunLookup` | src/vm_mem.c:179-237 | overriding a run maps its i-th page to the i-th frame and leaves every page at another distance as before |
| `PageMap.TableCount` | src/vm_mem.c:168-230 | the tables number one plus the distinct 27-, 18- and 9-bit prefixes of the mapped page numbers |
| `PageMap.PrefixShifts` | src/vm_mem.c:79-85 | those prefixes are the page number shifted right by 9, 18 and 27 bits |
| `PageMap.StoreChild` | src/vm_mem.c:190-230 | following or allocating a table and storing its entry keeps the tree correct and every byte outside the tables unchanged |
| `PageMap.StoreLeaf` | src/vm_mem.c:232-233 | storing a page's entry keeps the tree correct and every byte outside the tables unchanged |
| `VmMem.VmMem.FindFreeMemRegion` | src/vm_mem.c:49-70 | returns a page-aligned address with room for the request, and no lower address of any alignment has room |
| `VmMem.FreeIffUnbacked` | src/vm_mem.c:58-66 | a range is free exactly when none of its addresses is backed |
| `VmMem.VmMem.MapGpa` | src/vm_mem.c:251-307 | keeps the list sorted, disjoint, aligned and linked; asks the host exactly when npages is at least 1 and no region overlaps, and succeeds exactly when the range is free and both requests are granted; a failure changes nothing |
| `VmMem.VmMem.FindSlot` | src/vm_mem.c:254-263 | finds the first region ending above the address and its predecessor |
| `VmMem.VmMem.LinkIn` | src/vm_mem.c:288-299 | inserting through the head or a predecessor's next puts the node at its place in the list |
| `VmMem.VmMem.VmMemAlloc` | src/vm_mem.c:121-154 | backs zero pages at the lowest free address; its requests are exactly valloc, hv_vm_map at that address and malloc, up to the first refusal, so the overlap branch of map_gpa is never taken; fails exactly for npages 0 or a refusal |
| `VmMem.VmMem.GpaToHva` | src/vm_mem.c:340-358 | null exactly for unbacked addresses, otherwise the byte's own place in its region's buffer: the early exit misses nothing |
| `VmMem.VmMem.VmMemRead` | src/vm_mem.c:401-424 | copies exactly the longest backed prefix, also across regions, and leaves the rest of the buffer |
| `VmMem.VmMem.VmMemWrite` | src/vm_mem.c:426-449 | stores exactly the longest backed prefix, changes no other guest byte, and keeps the page tables when it avoids them |
| `VmMem.VmMem.GvaToGpa` | src/vm_mem.c:316-338 | computes the walk over memory for every address, with failed reads keeping stale bytes, and the page map's translation for mapped pages |
| `VmMem.VmMem.NextTable` | src/vm_mem.c:190-199 | the table an entry names, or, when it names none and the host grants the requests, a fresh zero page in a region of its own at the lowest free address |
| `VmMem.VmMem.Descend` | src/vm_mem.c:190-202 | one level of the loop: unless the host refuses, the tree gains at most that child, one region per new table, other bytes kept |
| `VmMem.VmMem.DescendFor` | src/vm_mem.c:190-230 | unless the host refuses, a level on a page's path keeps the mapped pages and allocates only tables that the path needs |
| `VmMem.VmMem.StorePage` | src/vm_mem.c:232-233 | the last store maps the page and leaves no table without a mapped page below it |
| `VmMem.VmMem.MapPage` | src/vm_mem.c:179-237 | unless the host refuses, one iteration overrides the page map at one page |
| `VmMem.VmMem.EnsureRoot` | src/vm_mem.c:168-177 | allocates the PML4 once; fails, as the only way map_gva can, exactly when the host refuses that |
| `VmMem.VmMem.MapGva` | src/vm_mem.c:156-242 | unless the host refuses a request, the page map is overridden for all npages pages across any table boundaries, and the processor finds exactly that map in the tables; one region is allocated per new table, and no byte outside the tables changes; every request is for one page at the lowest free address |
| `VmMem.VmMem.VmMemInit` | src/vm_mem.c:365-393 | asks for one allocation of all pages and then only for single pages; unless the host refuses, it succeeds exactly when there are pages and they are free at 0; pages 0 to n - 1 are then backed by zeros, hold no table, and are mapped from page 0 on |
| `VmMem.VmMem.VmMemVerify` | src/vm_mem.c:451-469 | over any range, mapped or not, it passes exactly when the walk of every byte is backed, and stops at the first that is not |
| `VmMem.ScannedMapped` | src/vm_mem.c:451-469 | over mapped pages that is: every translated byte is backed, whatever was stale |
| `MemLaws.ReadAfterWrite` | src/vm_mem.c:401-449 | reading what was written returns it as far as memory is backed, and no other byte changed |
| `MemLaws.LastWriteWins` | src/vm_mem.c:426-449 | after a sequence of writes the last is what is read, and what it does not touch is as before it |
| `MemLaws.WritesKeepTranslation` | src/vm_mem.c:316-338 | any sequence of writes that avoids the tables leaves every mapped page walking to its frame |
| `MemLaws.RunTranslates` | src/vm_mem.c:156-242 | each byte of a mapped run translates to the same byte of its target exactly when the target lies below 2^52 |
| `MemLaws.OthersTranslate` | src/vm_mem.c:156-242 | pages outside the run translate as before |
| `MemLaws.HostContiguous` | src/emu_syscall.c:68-90 | for a buffer on an affine run inside one region, every byte is backed and its host address is the buffer's plus its index |
| `MemLaws.AffineStraight` | src/vm_mem.c:156-242 | buffers on affinely mapped pages are straight |
| `MemLaws.HostContiguousIff` | src/emu_syscall.c:68-90 | for any mapped buffer, the host finds every guest byte at its index exactly when the translation is straight and lies in one region; a straight buffer in two regions runs past the end of the first one's host buffer |
| `MemLaws.StartedWalks` | src/hvexec.c:122-207 | after start-up and any later writes that avoid the tables, the walk over memory is the identity on the first 64 KB and on the image, exactly when the image ends at or below 2^48 |
| `MemLaws.HandOffWalks` | src/boot.asm:130-149 | for every started guest CR3 is the PML4 address, and the pops into the kernel's cells leave the walk the identity |
| `MemLaws.LaunchedHandOff` | src/boot.asm:130-149 | after start-up and the pops the kernel's cells hold entry, argc and argv, with the arguments intact, and CR3 is the PML4 address exactly when that is below 4 GB |
| `Identity.IdentityHolds` | src/loader.c:110-127 | images that end at or below 2^48 leave start-up with the identity mapping |
| `Identity.StartupIdentityIff` | src/loader.c:110-127 | start-up is the identity on low memory and image exactly when the image ends at or below 2^48 |
| `Loader.Mmap` | src/loader.c:102-108 | a mapped file is its bytes followed by zeros to the end of the page; the mapping fails exactly when the host refuses |
| `Loader.LoadRaw` | src/loader.c:48-52 | copies the file and fails exactly when part of the range is not backed |
| `Loader.MapImage` | src/loader.c:110-127 | asks for the image's place, unless a region overlaps it, and then only for single pages; unless the host refuses, it succeeds exactly for a file that is not empty and whose place is free; the image is then backed and identity-mapped at 4 GB, apart from every table, with earlier memory kept |
| `Loader.LoadMachObj` | src/loader.c:67-134 | sets the entry from the file's first LC_MAIN and maps the page-rounded image; asks for the file's mapping, then as `MapImage`; unless the host refuses, it succeeds exactly for a file that is not empty and whose place is free |
| `Vcpu.Cpu.SetupIa32` | src/vcpu.c:40-158 | every register and control field it writes, the GDT at 0 and the low half of the PML4 address on the stack |
| `Vcpu.Cpu.Push` | src/vcpu.c:408-428 | stores below RSP and moves it, exactly when the place is backed |
| `Vcpu.Cpu.Push64` | src/vcpu.c:436-440 | the same for eight bytes |
| `Hvexec.LayoutArgv` | src/hvexec.c:171-198 | the argv loop fails exactly when some pointer or string has no room |
| `Hvexec.ArgvLayout` | src/hvexec.c:171-198 | within the size limits every pointer is 0x7200 plus the lengths before it, every string is intact, and nothing outside 0x7100 to 0x8000 changes |
| `Hvexec.LaunchMemory` | src/hvexec.c:145-207 | GDT, boot stack, arguments, kernel and image survive each other's writes in the order of start-up |
| `Hvexec.FourTables` | src/hvexec.c:122 | the sixteen pages of start-up take four tables |
| `Hvexec.InitMemory` | src/hvexec.c:122-127 | asks for sixteen pages at 0 and then for single pages; on success the image's place is free; unless the host refuses, it succeeds, memory is backed from 0 without a gap, and the PML4 is one of the four pages behind it |
| `Hvexec.Prepare` | src/hvexec.c:122-150 | the same requests; unless the host refuses, a kernel of at most 32 KB is loaded, with the CPU and low memory set up |
| `Hvexec.PushStartup` | src/hvexec.c:200-207 | the three pushes leave argv, argc and entry below the PML4 address |
| `Hvexec.Launch` | src/hvexec.c:122-207 | asks in turn for sixteen pages at 0, single pages, the file and its place, and single pages; unless the host refuses, with inputs that fit, main succeeds exactly for an application that is not empty, and leaves GDT, boot stack, arguments, kernel, image, page map, regions, registers and control fields as the guest expects them, with no table in low memory or image |
| `Boot.Guest.HandOff` | src/boot.asm:130-149 | six pops copy 24 bytes of stack to the cells, the seventh loads CR3 and is pushed back |
| `Boot.HandOffRecovers` | src/boot.asm:130-149 | the pops undo the pushes for every 64-bit entry and argc |
| `Emu.EmuRdmsr` | src/emu.c:56-81 | the method is its transition function, which `RunLaws.RdmsrReturnsHistory` gives in full |
| `Emu.EmuWrmsr` | src/emu.c:83-111 | the method is its transition function, which `RunLaws.WrmsrWrites` gives in full |
| `Emu.EmuMovCr` | src/emu.c:113-172 | the method is its transition function, which `RunLaws.MovToCr0Writes`, `RunLaws.MovToCr0Bits` and `RunLaws.LeavesGuestAlone` give in full |
| `Emu.LongModeBits` | src/emu.c:140-148 | entering long mode sets LMA, NXE and SCE and no other bit of EFER |
| `Emu.HasBitMeans` | src/emu.c:136-145 | bit k is the k-th binary digit |
| `Emu.CpuidShowsLongMode` | src/emu.c:174-188 | a guest that asks for the highest extended leaf and then for that leaf learns of long mode and of no other feature, and nothing else but RIP has changed |
| `Syscalls.Resolve` | src/emu_syscall.c:74 | the host pointer of a guest address is the walk's address at its own place in its region, or null; for a mapped page that is its translation |
| `Syscalls.ServeCall` | src/emu_syscall.c:85-95 | asks the plugin if there is one, calls the host unless it answered 0, and sets RAX |
| `Syscalls.EmuSyscall` | src/emu_syscall.c:30-207 | the four handlers with every error path: the buffer check is that of vm_mem_verify, and the pointer passed on is that of the guest's address |
| `VcpuRun.ReadOp` | src/vcpu.c:357-364 | whether the two bytes before RCX are a SYSCALL instruction |
| `VcpuRun.HvVcpuRun` | src/vcpu.c:264 | the guest's turn makes its stores into backed memory, and nothing else |
| `VcpuRun.HandleOther` | src/vcpu.c:348-381 | the default branch |
| `VcpuRun.HandleExit` | src/vcpu.c:288-382 | the exit switch is the transition function, which the laws from `RunLaws.StopsExactly` on give branch by branch |
| `VcpuRun.VcpuRun` | src/vcpu.c:260-384 | for every finite behaviour of guest, plugin and host, the loop makes the exits of a run, each on the machine's own memory after the stores up to then, and logs exactly its events |
| `RunLaws.SyscallBytes` | src/vcpu.c:361-364 | the word test holds exactly for the bytes 0f 05 in backed memory |
| `RunLaws.HostCallIff` | src/emu_syscall.c:60-207 | an exit reaches the host exactly when the guest made a supported, admitted call that the plugin leaves to it: once, with its registers' arguments; RIP is then RCX, RAX the result, and everything else the guest's own |
| `RunLaws.PluginHandles` | src/emu_syscall.c:85-95 | a call the plugin handles never reaches the host and returns the plugin's result; everything else is the guest's own |
| `RunLaws.StopsExactly` | src/vcpu.c:288-383 | the loop stops exactly on HLT, an exception with vector 0, another MSR, a default exit without SYSCALL, and an unsupported, unverified or quit call; the guest is then as it was, behind its SYSCALL if there was one |
| `RunLaws.LeavesGuestAlone` | src/vcpu.c:306-331 | interrupts, EPT violations, and control-register exits other than MOV to CR0 change nothing |
| `RunLaws.MovesRip` | src/vcpu.c:302-322 | VMCALL moves RIP by the instruction length, an exception with a vector by 2, and nothing else changes |
| `RunLaws.CpuidAnswers` | src/emu.c:174-188 | CPUID answers two leaves, moves RIP by 2, and changes nothing else |
| `RunLaws.RunEndsExactly` | src/vcpu.c:260-384 | no exit but the last is one that ends a run, and a run that ends before its turns do ends on one |
| `RunLaws.OneHostCallPerAuthorisedExit` | src/vcpu.c:260-384 | over every run the host calls number the authorised exits |
| `RunLaws.ExitOfEvent` | src/vcpu.c:260-384 | every host call of a run belongs to one authorised exit and names that exit's call |
| `RunLaws.ServedPath` | src/emu_syscall.c:107-126 | an authorised open passes the place of the path's first byte, or null where none is backed |
| `RunLaws.ServedBuffer` | src/emu_syscall.c:68-90 | an authorised read or write of a mapped buffer has every byte backed, and the host is passed the place of the first |
| `RunLaws.HostTouchesGuestBytes` | src/emu_syscall.c:175-198 | over a mapped buffer the host touches exactly the guest's bytes if and only if the translation is straight and lies in one region |
| `RunLaws.RunStaysPaged` | src/vcpu.c:260-384 | page tables and regions hold at every exit while the guest keeps off the tables |
| `RunLaws.ProcessorAgrees` | src/vcpu.c:260-384 | there the processor finds exactly the page map |
| `RunLaws.MediatedRun` | src/vcpu.c:260-384 | every host call of such a run belongs to an authorised exit whose mapped RCX - 2 translates to 0f 05, and touches exactly a mapped buffer if and only if that is straight and in one region |
| `RunLaws.EferHistory` | src/emu.c:83-172 | EFER is the last value written, EDX above EAX, in long mode exactly when paging was turned on since with LME set |
| `RunLaws.EntryControlHistory` | src/emu.c:145-157 | VM-entry bit 9 is set exactly when some such CR0 write occurred, and is never cleared |
| `RunLaws.RdmsrReturnsHistory` | src/emu.c:56-81 | RDMSR returns the two halves of the value that the history determines, moves RIP by 2, and changes nothing else |
| `RunLaws.WrmsrWrites` | src/emu.c:83-111 | after WRMSR of EFER its halves are EAX and EDX, RIP has moved by 2, and nothing else changed |
| `RunLaws.RdmsrReadsWrmsr` | src/emu.c:56-111 | RDMSR reads what WRMSR wrote, as long as paging is not turned on under LME in between |
| `RunLaws.MovToCr0Writes` | src/emu.c:128-162 | CR0 and its shadow receive the register that the qualification names, for each of the sixteen, and RIP moves by 3 |
| `RunLaws.MovToCr0Bits` | src/emu.c:136-158 | turning paging on under LME sets LMA, NXE, SCE and VM-entry bit 9, and no other bit of either ever changes |
| `RunLaws.StartsOutside` | src/vcpu.c:40 | the initial VM-entry controls have bit 9 clear |
| `EndToEnd.StartedIsPaged` | src/hvexec.c:122-207 | start-up leaves the tables and regions that the run laws assume |
| `EndToEnd.StartedProcessor` | src/hvexec.c:122-207 | under any writes that avoid the tables, the processor maps the first 64 KB and an image ending at or below 2^48 to themselves, and faults everywhere else below 2^48 |
| `EndToEnd.StartedGuest` | src/vcpu.c:40-160 | the registers and control fields of a started guest, RIP at the kernel's first byte, and kernel and image where the processor finds them |
| `EndToEnd.StartedArgv` | src/hvexec.c:171-198 | pointer i of argv is at 0x7100 + 8i, names its string, and lies behind the one before |
| `EndToEnd.StartedGdt` | src/vcpu.c:94-107 | the four descriptors at 0 |
| `EndToEnd.StartedBuffer` | src/loader.c:110-127 | in a started guest with an image ending at or below 2^48, a mapped buffer is straight and in one region exactly when it does not wrap around 2^48, which only an image ending right there allows |
| `EndToEnd.StartedCallsAreExact` | src/vcpu.c:260-384 | a started guest that keeps off the tables: every host call is authorised, and the host touches exactly the guest's buffer for every mapped buffer that does not wrap around 2^48, and for no other |
| `EndToEnd.StartedEntryControl` | src/vcpu.c:40 | from start-up on, VM-entry bit 9 is set exactly when some CR0 write entered long mode |
| `Stdlib.DigitsAreCanonical` | test/stdlib.h:72-78 | the digits have the number's value, are below the base and have no leading zero |
| `Stdlib.CanonicalIsDigits` | test/stdlib.h:72-78 | and they are the only such digits |
| `Stdlib.CharOfDigit` | test/stdlib.h:77 | digits print as 0 to 9 and a to z |
| `Stdlib.Reverse` | test/stdlib.h:37-49 | reverses a prefix in place and leaves the rest |
| `Stdlib.PrintDigits` | test/stdlib.h:72-78 | leaves the digits of the number in reverse |
| `Stdlib.Itoa` | test/stdlib.h:51-90 | leaves the signed numeral and its terminator, and touches no byte after it |
| `Stdlib.Atoi` | test/stdlib.h:16-35 | parses the text without int overflow whenever the text is in range |
| `Stdlib.AtoiOfItoa` | test/stdlib.h:16-90 | parsing undoes printing, and overflows no int exactly when the magnitude is at most 2147483599 |
| `Pidigits.Pass` | test/test_pidigits.c:32-44 | 10000 times the old value is the carry out plus the new value, remainders are reduced, and every intermediate value fits an int |
| `Pidigits.WeightStep` | test/test_pidigits.c:36-43 | (2i - 1) w(i) is (i - 1) w(i - 1), the step of the division by 2i - 1 and the product with i - 1 |
| `Pidigits.PassConserves` | test/test_pidigits.c:31-48 | one pass with its truncation keeps emitted, remaining and dropped value in balance |
| `Pidigits.Pidigits` | test/test_pidigits.c:20-51 | over the whole run the groups, the pending carry and the scaled dropped tails sum to 10000^m times the initial value; the tails are worth at most `LostLimit`; from length 7 on every group is in 0..10000 |
| `Pidigits.LimitStep` | test/test_pidigits.c:31 | dropping 14 terms per pass keeps what is lost below (11k + 252) / 2^k at length k, because 10000 is less than 2^14 |
| `Pidigits.EmittedIsFloor` | test/test_pidigits.c:31-48 | for lengths that are multiples of 14, as 2800 is, the emitted number is 10000^(m - 1) times the initial value rounded down, or one less, and never less when the last carry is below 9748 |
| `Pidigits.Print` | test/test_pidigits.c:65-72 | every group's text fits the eight-byte buffer, and the output is the decimal numerals of the groups, in order and nothing else |
| `Pidigits.PrintedIsNumber` | test/test_pidigits.c:65-72 | when all groups have four digits, the output read as one numeral is their base-10000 number |
| `Stdlib.ShortText` | test/test_pidigits.c:55-70 | numbers up to 10000 print in at most five characters |
| `MachO.ObjFile.LoadBytes` | src/macho_parser.c:67-72 | the bytes at the offset, zero past the end of the file; a negative seek leaves the position, and the position ends behind what was read |
| `MachO.ObjFile.ReadSegmentCommands` | src/macho_parser.c:186-225 | the loop is the walk over the command chain, for every file |
| `MachO.ObjFile.ReadMachHeader` | src/macho_parser.c:228-260 | takes the number of commands from the header and starts behind it |
| `MachO.ObjFile.ReadEntryPointCmd` | src/macho_parser.c:262-272 | fails on fat files and otherwise walks |
| `MachO.FirstMainIsFirst` | src/macho_parser.c:212-217 | the first LC_MAIN of a list, or none among the first n |
| `MachO.WalkFindsFirst` | src/macho_parser.c:186-225 | on serialised commands the walk finds the first LC_MAIN among the first n, at the sum of the sizes before it |
| `MachO.EntryIsFirstMain` | src/macho_parser.c:228-272 | the parser succeeds exactly when one of the first ncmds commands is LC_MAIN, and returns the first |
| `MachO.NativeFileEntry` | src/macho_parser.c:228-272 | behind the 32-byte header of a file starting with 0xfeedfacf, or the 28-byte one of 0xfeedface, the first 0x80000028 among the first ncmds commands, and nothing exactly when there is none |
| `MachO.FatFileHasNone` | src/macho_parser.c:40-42 | files starting with 0xcafebabe or 0xbebafeca have none |
| `MachO.EntryOfMain` | src/macho_parser.c:212-216 | the entry read is the one the command was serialised with |

## Left out

- VmMem.VmMem.MapGva: says nothing of the page map when the host refused a request inside the loop, because the code goes on with an uninitialised table address; `Valid()` still holds.
- VmMem.VmMem.VmMemAlloc: requires npages below 2^52, because a size that wraps 64 bits makes the code record a region larger than its buffer.
- VmMem.VmMem.MapGpa: requires a buffer of exactly npages pages that backs no other region, because two regions over one buffer have no byte of their own.
- VmMem.VmMem.VmMemWrite: the source bytes are a value, so a source buffer that is itself guest memory is not modelled; lengths are below 2^31, as the int counter needs.
- MachO.ObjFile.ReadEntryPointCmd: requires this machine's byte order, because the byte-swapping functions are not part of this model.
- VcpuRun.VcpuRun: covers every finite run; what a host or plugin call stores into guest memory is part of the guest's next turn.
- Syscalls.EmuSyscall: records pointer, flag and descriptor arguments as register values, apart from the int descriptor of read and write.
- Stdlib.Itoa: negative numbers in bases other than 10, and the least int, which the code cannot negate.
- Pidigits.EmittedIsFloor: only for lengths that are multiples of 14; for others `Pidigits.LostLimit` is larger. That the initial value is 1000 times pi, up to its own tail, is analysis and not part of this model.
- Pidigits.Pidigits: lengths up to 53701, as far as the bounds proved here keep later passes within int; the code uses 2800.
- Register and VMCS accesses of the hypervisor API that fail, the rest of the VMCS constants, and the EPT.
- `unmap_gva`, `unmap_gpa` and `vm_mem_destroy`, which are stubs, and all dumping and logging.
- Option parsing, opening files, and loading plugins: files are byte sequences, callbacks arbitrary answers.
- `test/string.h`, the small test programs, and the boot code after the pops.
