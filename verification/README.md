# Verification of the guest kernel, its hypervisor, the checksum update and the RAM disk

The main subject is the small x86-64 guest kernel of `kvm_test/kvm-kernel-example`: a best-fit
heap, four-level page tables whose tables come from that heap, memory mappings backed by it, an
ELF loader on top of the mappings, and the way a program's arguments travel from the command line
to the first user stack. Beside it stand the hypervisor's hypercall protocol, the incremental
Internet checksum of `ebpf-http`, and the request loop of the RAM disk `sampleblk/day2`.

Each operation is described on values by a function with the source's branches, error codes and
panics. Where the source changes state in place, a class or a loop refines that function: `Arena`
(linked free list), `Kernel` (heap, tables and RAM together), `Hypervisor` (descriptor array and
static variables), `Device` (disk array), and the loops of `UserAccess`, `Arguments` and
`UserStack`. The theorems are about the functions, so they hold of the methods.

| file | content |
|---|---|
| Machine.dfy | how calls end, 64-bit and page arithmetic, error numbers |
| Heap.dfy, Arena.dfy | the allocator on values, and with its linked list |
| Paging.dfy | entries, walks, the tree of tables, boot tables |
| Memory.dfy, Mapping.dfy, Protect.dfy | heap, tables and RAM together; add_trans_user, mmap, mprotect |
| FileMap.dfy | sys_mmap with its hypercalls |
| Runs.dfy | runs of all of these from boot; what is disjoint from what |
| Kernel.dfy | the same operations in place |
| UserAccess.dfy | access_ok, access_string_ok |
| Loader.dfy | load_binary |
| ByteMemory.dfy, Arguments.dfy | bytes, words and strings; copy_argv and the pointers of switch_user |
| UserView.dfy, UserStack.dfy | memory as the user sees it; create_elf_info through the page tables |
| ProcessStart.dfy | switch_user, sys_open, sys_execve; from boot to a running program |
| Hypercall.dfy | OUT/IN protocol and descriptor map |
| Checksum.dfy | incremental checksum |
| RamDisk.dfy | request loop |

Choices of the model:

- Integers are unbounded; 64-bit and 32-bit wrap-around is written out where a value can wrap
  (`Place`, `LastByte`, `W`, `ToInt32`, `Pos`). Address 0 is the null pointer.
- The heap is assumed to start on a page boundary and to be shorter than 2^32 bytes, as the
  hypervisor hands it over; the arena lies above the first 2MB and inside the 1GB kernel window.
- kmalloc clears its result even when that is null. The kernel's code and data stand at address 0,
  so such a call has an outcome of its own, `Erased`, after which no run goes on; `Heap.KmallocInv`
  says exactly when it happens, `Memory.ErasureHits` what it hits, `Runs.BootErased` gives an input.
- Chunk headers, page tables and RAM bytes are kept apart in the state. `Runs.Separated` is the
  justification: in every reachable state they share no byte, but for the next point.
- A page that `switch_user` maps may reach beyond its chunk. Such frames are recorded as loose
  (`Pins`); `ProcessStart.StartPageInside` says exactly when this happens, and `Runs.Separated`
  what such a frame can share bytes with: never a page table.
- `sys_mmap` checks only the first page of a fixed range, although `add_trans_user` relies on it to
  have checked all; the code is modelled as it is, and `FileMap.FixedRangePanics` says exactly when
  the range panic is reached.
- read and write hypercalls share one static variable, so the protocol is stated per variable.
- The host is a parameter: the bytes of a file, the answer of a system call, its errno.

## Model

| member | source | states |
|---|---|---|
| Heap.RunSafe | kvm_test/kvm-kernel-example/kernel/mm/kmalloc.c:23-133 | over every run of kmalloc and kfree by callers that free only live blocks: no panic is reached; the kernel is erased exactly when some request for 0 < len < 2^32 bytes finds no room; until then the heap stays tiled, sorted and phased, its extent is the initial one, and live plus free plus top bytes equal the initial length |
| Heap.KmallocInv | kvm_test/kvm-kernel-example/kernel/mm/kmalloc.c:111-121 | every kmalloc on such a heap returns a fresh chunk with at least len usable bytes, on a page boundary when asked for, every other live chunk untouched; or returns null with nothing changed, only for no bytes or for 2^32 and more; or, exactly when 0 < len < 2^32 bytes find no room, clears len bytes from address 0; the chunk is the least multiple of 0x80 that holds len and 16 bytes more |
| Heap.KfreeInv | kvm_test/kvm-kernel-example/kernel/mm/kmalloc.c:123-133 | kfree of null changes nothing; of a live block it never panics, and only that block stops being live: the last chunk merges into top with the free list as it was, any other joins the sorted free list with top as it was |
| Heap.TakenAndFreed | kvm_test/kvm-kernel-example/kernel/mm/kmalloc.c:78-133 | a block taken from top and freed at once leaves the heap exactly as it was |
| Heap.KfreePanics | kvm_test/kvm-kernel-example/kernel/mm/kmalloc.c:32-37 | on any heap kfree panics exactly on a size field that is 0, 2^32 or more, or no multiple of 16 |
| Heap.FetchPanics | kvm_test/kvm-kernel-example/kernel/mm/kmalloc.c:50-54 | on any heap the walk of the free list panics exactly when such a size comes before every chunk that fits |
| Heap.BadAlignment | kvm_test/kvm-kernel-example/kernel/mm/kmalloc.c:93 | any other alignment panics, unless the length makes kmalloc give up before |
| Heap.UnalignedRequest | kvm_test/kvm-kernel-example/kernel/mm/kmalloc.c:87-92 | refused exactly when neither a free chunk nor top fits; a fitting free chunk is used before top, and the one carved is a smallest that fits; else the chunk is cut from the start of top |
| Heap.AlignedRequest | kvm_test/kvm-kernel-example/kernel/mm/kmalloc.c:93-108 | the memory is the first page start that leaves room for a header after top, refusal happens exactly when gap plus chunk do not fit, and a refusal restores top, top size and free list exactly |
| Heap.GapFreed | kvm_test/kvm-kernel-example/kernel/mm/kmalloc.c:99-107 | freeing the gap chunk merges it back into top when the request failed, and otherwise leaves it on the free list before the new chunk |
| Heap.AlignedFits | kvm_test/kvm-kernel-example/kernel/mm/kmalloc.c:93-108 | a page-aligned request with a page to spare is served and costs no more than its chunk and that page |
| Heap.UnalignedFits | kvm_test/kvm-kernel-example/kernel/mm/kmalloc.c:87-92 | a request that fits into top is served and costs no more than its chunk |
| Heap.ChunkSizesValid | kvm_test/kvm-kernel-example/kernel/mm/kmalloc.c:32-37 | every chunk size is a multiple of 16 and at least 0x70, so a free-list header fits and the size panics cannot fire |
| Heap.CarvePhased | kvm_test/kvm-kernel-example/kernel/mm/kmalloc.c:55-68 | splitting a free chunk keeps the boundary phases modulo 0x80 that the size bound rests on |
| Heap.OnePhaseChange | kvm_test/kvm-kernel-example/kernel/mm/kmalloc.c:97-107 | at most one chunk has a size that is no multiple of 0x80, and that chunk is free |
| Heap.CoveredOnce | kvm_test/kvm-kernel-example/kernel/mm/kmalloc.c:6-14 | every address between min_addr and top lies in exactly one chunk |
| Heap.Conservation | kvm_test/kvm-kernel-example/kernel/mm/kmalloc.c:23-133 | live bytes, free bytes and top bytes add up to the arena |
| Heap.InsertSortedKeeps | kvm_test/kvm-kernel-example/kernel/mm/kmalloc.c:39-48 | insertion keeps the list sorted and free of duplicates and adds exactly the new chunk |
| Heap.InsertSortedAt | kvm_test/kvm-kernel-example/kernel/mm/kmalloc.c:39-48 | the new chunk goes before the first one that is not smaller, all others keep their order |
| Heap.BestFit | kvm_test/kvm-kernel-example/kernel/mm/kmalloc.c:50-76 | the first fit found on the sorted list is a best fit |
| Heap.CarveKeeps | kvm_test/kvm-kernel-example/kernel/mm/kmalloc.c:55-68 | carving leaves the heap well formed; exactly the front of the chunk becomes live, with the size asked for |
| Heap.InitInv | kvm_test/kvm-kernel-example/kernel/mm/kmalloc.c:23-30 | the allocator starts exactly on non-zero page-multiple lengths, and then empty, at that address, with that length, and with the invariant |
| Arena.Arena.InsertSorted | kvm_test/kvm-kernel-example/kernel/mm/kmalloc.c:39-48 | walking the links with two pointers and relinking inserts where the list description says |
| Arena.Arena.FetchSortedBin | kvm_test/kvm-kernel-example/kernel/mm/kmalloc.c:50-76 | the walk, unlinking and split refine the description on values and never panic on a valid arena |
| Arena.Arena.MallocTop | kvm_test/kvm-kernel-example/kernel/mm/kmalloc.c:78-85 | refines the description on values |
| Arena.Arena.IntKmalloc | kvm_test/kvm-kernel-example/kernel/mm/kmalloc.c:87-108 | refines the description on values, with the same panics |
| Arena.Arena.Kmalloc | kvm_test/kvm-kernel-example/kernel/mm/kmalloc.c:111-121 | refines the description on values, the erasure on a refused request included; with a legal alignment it does not panic and leaves the arena valid, and as it was when refused |
| Arena.Arena.Kfree | kvm_test/kvm-kernel-example/kernel/mm/kmalloc.c:123-133 | refines the description on values, with the same panics; freeing a live block leaves the arena valid |
| Arena.Arena.InitAllocator | kvm_test/kvm-kernel-example/kernel/mm/kmalloc.c:23-30 | panics exactly on a bad length, else builds an empty arena, valid for a start on a page boundary and less than 4GB |
| Arena.ChainSplice | kvm_test/kvm-kernel-example/kernel/mm/kmalloc.c:39-48 | relinking splices one node into the list and keeps all other links |
| Arena.ChainUnlink | kvm_test/kvm-kernel-example/kernel/mm/kmalloc.c:58-59 | relinking removes exactly one node from the list |
| Paging.WordFaithful | kvm_test/kvm-kernel-example/kernel/mm/translate.h:15-22 | an entry read back from its 64-bit word is the entry, for frame, flags and the 2MB mask |
| Paging.EntryWords | kvm_test/kvm-kernel-example/kernel/mm/translate.c:52-54 | the words of directory entries, of 2MB pages and of last-level entries for each protection, in numbers |
| Paging.TranslateMeaning | kvm_test/kvm-kernel-example/kernel/mm/translate.c:78-95 | translate gets through exactly when every entry on the path is present, for users open to users, for writes writable, and leads to the frame of the last |
| Paging.PhysicalMeaning | kvm_test/kvm-kernel-example/kernel/mm/translate.c:98-102 | physical takes 0x8000000000 off an address of the kernel's slot, and panics below it |
| Paging.IndicesName | kvm_test/kvm-kernel-example/kernel/mm/translate.c:25-30 | four table indices agree exactly when two addresses are on the same page of the 48-bit space |
| Paging.PathsInjective | kvm_test/kvm-kernel-example/kernel/mm/translate.c:33-55 | the tables reachable from cr3 form a tree: different index paths lead to different tables |
| Paging.LinkOwned | kvm_test/kvm-kernel-example/kernel/mm/translate.c:39-47 | hanging a fresh table into an absent user cell keeps the tree and the kernel's entries |
| Paging.LinkTranslate | kvm_test/kvm-kernel-example/kernel/mm/translate.c:39-47 | hanging a fresh table into an absent user cell changes no translation |
| Paging.LeafTranslate | kvm_test/kvm-kernel-example/kernel/mm/translate.c:52-54 | writing a last-level entry decides the translation of its page and of no other |
| Paging.KernelWindow | kvm_test/kvm-kernel-example/kernel/mm/translate.c:78-102 | physical agrees with the full walk on the 1GB window; no user walk enters the kernel's 512GB slot or the first 2MB |
| Paging.BootOwned | kvm_test/kvm-kernel-example/kernel/mm/translate.c:8-17 | the tables of setup_paging and init_pagetable are a tree with the kernel's entries in place |
| Memory.AllocCore | kvm_test/kvm-kernel-example/kernel/mm/kmalloc.c:111-121 | kmalloc never panics; it erases the kernel exactly when 0 < len < 2^32 bytes find no room, and returns null, with nothing changed, only for other lengths; else the memory lies in RAM and is cleared, and every byte of every other live chunk and of the kernel keeps its value |
| Memory.ErasureHits | kvm_test/kvm-kernel-example/hypervisor/hypervisor.c:65-76 | in every state the first 2MB, the tables at cr3 among them, stand at their own addresses for the kernel to write: a clearing from address 0 hits each of them below its length |
| Mapping.DescendGood | kvm_test/kvm-kernel-example/kernel/mm/translate.c:39-47 | one level of the walk keeps every invariant and ends in an open directory entry; no panic can happen, only the erasure when there is no room for a table |
| Mapping.AddTransUserCorrect | kvm_test/kvm-kernel-example/kernel/mm/translate.c:33-55 | v's page leads to p's for exactly the accesses prot allows, every other address translates as before; on user addresses nothing but the erasure for want of a table can go wrong, on others it panics |
| Mapping.AddTransUserSucceeds | kvm_test/kvm-kernel-example/kernel/mm/translate.c:33-55 | with room for three tables it does not panic |
| Mapping.AddedGuarded | kvm_test/kvm-kernel-example/kernel/mm/translate.c:52-54 | after add_trans_user a user reads the page exactly for protections 1, 3, 5 and 7, the kernel writes it exactly for 2, 3, 6 and 7, a user writes it exactly for 3 and 7 |
| Mapping.KernelSlotClosed | kvm_test/kvm-kernel-example/kernel/mm/translate.c:44 | the kernel's slot panics with the invalid-address panic |
| Mapping.MapPagesCorrect | kvm_test/kvm-kernel-example/kernel/mm/mmap.c:21-22 | the loop maps the whole range in order although tables are allocated in the middle of it |
| Mapping.MmapCorrect | kvm_test/kvm-kernel-example/kernel/mm/mmap.c:11-24 | panics exactly on a bad length, returns 0 with nothing changed exactly for 2^32 bytes or more, erases the kernel without room for the block; else maps addr+j to one fresh cleared block at j for all j below len and nothing else |
| Mapping.MmapSucceeds | kvm_test/kvm-kernel-example/kernel/mm/mmap.c:11-24 | with room for the block and three tables a page, the mapping is made |
| Mapping.MmapAccounted | kvm_test/kvm-kernel-example/kernel/mm/mmap.c:11-24 | mmap takes one block and page tables, and no other memory |
| Mapping.ChosenFirst | kvm_test/kvm-kernel-example/kernel/mm/mmap.c:16-20 | the first range the kernel chooses ends at 0x7ffff7fff000 |
| Protect.ModifyPermissionCorrect | kvm_test/kvm-kernel-example/kernel/mm/translate.c:57-73 | fails exactly on an unmapped user page; else only that page's permissions change, not where it leads |
| Protect.MprotectCorrect | kvm_test/kvm-kernel-example/kernel/mm/mmap.c:26-34 | -EINVAL exactly on an unaligned address, 0 exactly when all pages are mapped user pages, else -EACCES with the pages before the first bad one changed |
| Protect.ProtectedGuarded | kvm_test/kvm-kernel-example/kernel/mm/translate.c:69-71 | the same after mprotect, for every address of its pages, which lead where they led |
| FileMap.HpReadGood | kvm_test/kvm-kernel-example/kernel/hypercalls/hp_read.c:5-13 | a read into a cleared block puts the file's bytes there and touches nothing else that is live |
| FileMap.SeekMeaning | kvm_test/kvm-kernel-example/hypervisor/hypercall.c:159-172 | -9 for a closed descriptor, the offset below 2^31, else minus the errno left behind |
| FileMap.HostReadMeaning | kvm_test/kvm-kernel-example/hypervisor/hypercall.c:114-129 | a read whose buffer is not inside guest memory changes nothing, else exactly the delivered bytes arrive |
| FileMap.ReadCorrect | kvm_test/kvm-kernel-example/kernel/syscalls/sys_mmap.c:25-32 | one translation of the start address is a valid target for the whole read |
| FileMap.ProtectFilled | kvm_test/kvm-kernel-example/kernel/syscalls/sys_mmap.c:29-30 | the final mprotect never fails and gives exactly the new pages their protection |
| FileMap.SysMmapCorrect | kvm_test/kvm-kernel-example/kernel/syscalls/sys_mmap.c:9-33 | a decision table for all arguments: -22, the length panic and -12 each with its exact condition and nothing changed; below 2^32 bytes the erasure without room, the range panic only for a range with a page that is no user page, else the mapping with its bytes and protection, or, when the descriptor is closed or the host's answer to a large offset reads as an error, that error with the pages left read-write |
| FileMap.SysMmapAccounted | kvm_test/kvm-kernel-example/kernel/syscalls/sys_mmap.c:9-33 | sys_mmap takes one block and page tables, and no other memory: the parameter blocks are given back, also when the seek fails |
| FileMap.FixedRangePanics | kvm_test/kvm-kernel-example/kernel/syscalls/sys_mmap.c:16-21 | given memory, a fixed mapping that starts on a user page panics exactly when a later page is no user page |
| FileMap.LengthPanics | kvm_test/kvm-kernel-example/kernel/syscalls/sys_mmap.c:13-20 | the length panic happens exactly when the arguments pass the checks and the length lies in the last page below 2^64 |
| FileMap.SysMmapSucceeds | kvm_test/kvm-kernel-example/kernel/syscalls/sys_mmap.c:9-33 | with room for block, tables and two parameter blocks, user pages and a host that can seek, the mapping is made |
| Runs.RunSafe | kvm_test/kvm-kernel-example/kernel/mm/kmalloc.c:87-133 | over every legal run of kmalloc, kfree, add_trans_user, mmap, mprotect and sys_mmap the consistency panics, physical's among them, are unreachable, only a sys_mmap can panic at all, and every state reached before memory runs out is safe |
| Runs.RunFromBoot | kvm_test/kvm-kernel-example/kernel/kernel_main.c:55-62 | the same from boot, with the kernel window intact and closed to users in every state reached before memory runs out |
| Runs.Separated | kvm_test/kvm-kernel-example/kernel/mm/translate.c:33-55 | in every safe state tables are apart from each other, from every frame that a user address leads to in any mode, loose frames included, and from every chunk not their own; a frame lies in one mapped chunk apart from every other, or is loose and shares bytes at most with chunks that begin on its page after its own chunk's end |
| Runs.ChosenIsUser | kvm_test/kvm-kernel-example/kernel/mm/mmap.c:16-20 | an address the kernel chooses consists of user pages whenever there is memory for it |
| Runs.ChosenPlace | kvm_test/kvm-kernel-example/kernel/mm/mmap.c:16-20 | a range the kernel chooses ends exactly where the last one it chose began |
| Runs.BootSafe | kvm_test/kvm-kernel-example/kernel/kernel_main.c:55-62 | the boot state is safe |
| Runs.BootErased | kvm_test/kvm-kernel-example/kernel/mm/kmalloc.c:111-121 | at boot with 2MB of heap a legal mmap of 2MB erases the kernel |
| Runs.BootPanics | kvm_test/kvm-kernel-example/kernel/syscalls/sys_mmap.c:13-21 | at boot, a fixed range of two pages into the kernel's slot reaches the range panic, and a length of 2^64-1 the length panic |
| Kernel.Kernel.constructor | kvm_test/kvm-kernel-example/kernel/kernel_main.c:55-62 | boot builds the tables and a valid empty arena above the kernel |
| Kernel.Kernel.Kmalloc | kvm_test/kvm-kernel-example/kernel/mm/kmalloc.c:111-121 | allocation and clearing in place refine the description on values; on a refused request the kernel's first 2MB are overwritten as far as len goes |
| Kernel.Kernel.Clear | kvm_test/kvm-kernel-example/kernel/utils/string.c:18-22 | the clearing loop zeroes exactly the range |
| Kernel.Kernel.FillKernelWindow | kvm_test/kvm-kernel-example/kernel/mm/translate.c:8-17 | the loop builds the kernel's window |
| Kernel.Kernel.AddTrans | kvm_test/kvm-kernel-example/kernel/mm/translate.c:33-55 | refines the description on values, with the same panics and erasures |
| Kernel.Kernel.ChangePermission | kvm_test/kvm-kernel-example/kernel/mm/translate.c:57-73 | refines the description on values |
| Kernel.Kernel.MapBlock | kvm_test/kvm-kernel-example/kernel/mm/mmap.c:11-24 | refines the description on values, with the same panics and erasures |
| Kernel.Kernel.ProtectRange | kvm_test/kvm-kernel-example/kernel/mm/mmap.c:26-34 | refines the description on values, with the same codes |
| Kernel.Kernel.Seek | kvm_test/kvm-kernel-example/kernel/hypercalls/hp_lseek.c:5-13 | takes and gives back its parameter block as described on values |
| Kernel.Kernel.Read | kvm_test/kvm-kernel-example/kernel/hypercalls/hp_read.c:5-13 | takes and gives back its parameter block and fills RAM as described on values |
| Kernel.Kernel.MapFile | kvm_test/kvm-kernel-example/kernel/syscalls/sys_mmap.c:9-33 | refines the description on values, with the same errors, panics and erasures |
| Kernel.Kernel.MapSegments | kvm_test/kvm-kernel-example/kernel/syscalls/sys_execve.c:31-51 | the loop over program headers refines the description on values |
| Kernel.Kernel.LoadFile | kvm_test/kvm-kernel-example/kernel/syscalls/sys_execve.c:16-59 | refines the description on values, with the same errors, panics and erasures |
| UserAccess.CheckAccess | kvm_test/kvm-kernel-example/kernel/mm/uaccess.c:7-14 | the page loop computes the access predicate, wrap-around included |
| UserAccess.AccessOkMeaning | kvm_test/kvm-kernel-example/kernel/mm/uaccess.c:7-14 | for every non-empty range below 2^64, accepted exactly when every byte is a user byte that translates with the permission, also across the kernel's slot |
| UserAccess.AccessOkWraps | kvm_test/kvm-kernel-example/kernel/mm/uaccess.c:7-14 | a range over the end of the address space is never all accessible, and is accepted exactly when both ends are user addresses and a shared page translates |
| UserAccess.AccessOkEmpty | kvm_test/kvm-kernel-example/kernel/mm/uaccess.c:7-14 | an empty range is accepted exactly when both neighbouring bytes are user bytes and a page it cuts translates |
| ByteMemory.StringLength | kvm_test/kvm-kernel-example/kernel/utils/string.c:9-16 | the loop computes strnlen |
| ByteMemory.StrnlenMeaning | kvm_test/kvm-kernel-example/kernel/utils/string.c:9-16 | strnlen is the distance to the first zero byte within the bound |
| ByteMemory.NumLast | kvm_test/kvm-kernel-example/hypervisor/hypervisor.c:225-229 | words are little-endian |
| UserAccess.AccessStringMeaning | kvm_test/kvm-kernel-example/kernel/mm/uaccess.c:17-26 | terminates, and accepts exactly when a zero byte follows with every byte up to it readable |
| UserAccess.KernelReads | kvm_test/kvm-kernel-example/kernel/mm/translate.c:78-95 | where a user walk gets through, a kernel walk gets to the same place |
| Loader.HeaderChecked | kvm_test/kvm-kernel-example/kernel/syscalls/sys_execve.c:20-29 | from the header's bytes alone: which test fails with which code, and that type 2 loads at 0 and type 3 at 0x555555554000 |
| Loader.PhdrBytes | kvm_test/kvm-kernel-example/kernel/syscalls/sys_execve.c:30-41 | the fields of a program header by their bytes, and when it is one to load |
| Loader.HeaderNumbers | kvm_test/kvm-kernel-example/kernel/syscalls/sys_execve.c:22-31 | entry point and number of headers by their bytes |
| Loader.FlagNumbers | kvm_test/kvm-kernel-example/kernel/mm/translate.c:104-110 | segment flags 4, 2, 1 become protections 1, 2, 4 |
| Loader.ImageBytes | kvm_test/kvm-kernel-example/kernel/syscalls/sys_execve.c:33-41 | byte k of a segment in its page image is the file's byte below filesz and zero from there to memsz |
| Loader.LoadSegmentCorrect | kvm_test/kvm-kernel-example/kernel/syscalls/sys_execve.c:32-51 | an accepted segment is shown with the protection of its flags, and no other address or live byte changes |
| Loader.LoadSegmentCodes | kvm_test/kvm-kernel-example/kernel/syscalls/sys_execve.c:38-50 | which code a proper segment that is not loaded gets, and when |
| Loader.LoadSegmentsCorrect | kvm_test/kvm-kernel-example/kernel/syscalls/sys_execve.c:31-51 | later segments leave earlier ones in place |
| Loader.LoadBinaryCorrect | kvm_test/kvm-kernel-example/kernel/syscalls/sys_execve.c:16-59 | after a successful load every PT_LOAD segment of a page-disjoint file reads as file bytes then zeros for exactly the accesses its flag bits allow, the stack is a cleared read-write region that no segment leads into, other addresses keep their translation |
| Loader.LoadBinarySucceeds | kvm_test/kvm-kernel-example/kernel/syscalls/sys_execve.c:16-59 | with a stated amount of memory, every file whose header passes the checks and whose segments are proper, non-empty, on user pages of their own and off the stack is loaded |
| Loader.LoadBinaryRefused | kvm_test/kvm-kernel-example/kernel/syscalls/sys_execve.c:16-29 | a file whose header fails the checks is refused with their code and maps nothing |
| Arguments.PushStringsLayout | kvm_test/kvm-kernel-example/hypervisor/hypervisor.c:218-222 | pushed strings stand in order, apart, exactly below the old stack pointer |
| Arguments.CopyArgvCorrect | kvm_test/kvm-kernel-example/hypervisor/hypervisor.c:212-234 | argc at rsp, then the pointers, null, and the strings in order up to the stack's top; the vector ends on the last multiple of 16 at or below the first string |
| Arguments.RelocateWords | kvm_test/kvm-kernel-example/kernel/kernel_main.c:46-47 | every pointer moves by the distance from argv to sp |
| Arguments.RelocateWraps | kvm_test/kvm-kernel-example/kernel/kernel_main.c:46-47 | whatever the words are, each moves by sp - argv in 64-bit arithmetic |
| Arguments.SwitchUserCorrect | kvm_test/kvm-kernel-example/kernel/kernel_main.c:36-52 | the argument block appears at sp with the same strings in the same order and a null pointer after the last |
| Arguments.CopyArguments | kvm_test/kvm-kernel-example/hypervisor/hypervisor.c:212-234 | the loops compute the described memory and rsp |
| Arguments.MoveArguments | kvm_test/kvm-kernel-example/kernel/kernel_main.c:45-48 | the loop and the copy compute the described memory |
| UserView.StoreThrough | kvm_test/kvm-kernel-example/kernel/syscalls/sys_execve.c:86-87 | storing through the page tables is storing in the user's view of memory |
| UserView.PokeView | kvm_test/kvm-kernel-example/kernel/syscalls/sys_execve.c:84-109 | the kernel's byte-by-byte stores into a window do not fault, are stores in the user's view, and change no RAM outside the window |
| UserView.PokeFaults | kvm_test/kvm-kernel-example/kernel/utils/string.c:24-31 | a store of the kernel faults exactly when one of its addresses is no 48-bit address or is not writable for the kernel |
| UserStack.CountReadable | kvm_test/kvm-kernel-example/kernel/syscalls/sys_execve.c:61-71 | through the access checks, counts the strings of every vector the user can read |
| UserStack.CountSound | kvm_test/kvm-kernel-example/kernel/syscalls/sys_execve.c:61-71 | whatever passes the access checks is a readable vector of that many strings |
| UserStack.CountRefuses | kvm_test/kvm-kernel-example/kernel/syscalls/sys_execve.c:61-71 | the count fails exactly when no readable vector starts there |
| UserStack.CopiesAreStrings | kvm_test/kvm-kernel-example/kernel/syscalls/sys_execve.c:84-94 | copying through the page tables is pushing the vector's strings in the user's view, without a fault, when they lie off the written part of the stack |
| UserStack.CreateElfInfoCorrect | kvm_test/kvm-kernel-example/kernel/syscalls/sys_execve.c:76-111 | for every pair of vectors that pass the access checks and every stack window they fit on: given room for the copy array, rsp is ready on the initial process stack of section 3.4.1 of the System V AMD64 psABI without the auxiliary vector, as user walks of the new state see it: rsp aligned to 16 and at its exact place, argc, argument pointers, null, environment pointers, null, each to an intact copy, copies apart; the invariants hold and nothing else is written, in the view or behind it |
| UserStack.VectorsRefused | kvm_test/kvm-kernel-example/kernel/syscalls/sys_execve.c:78-81 | create_elf_info refuses, with nothing changed, exactly when one of its vectors cannot be read |
| UserStack.CountEach | kvm_test/kvm-kernel-example/kernel/syscalls/sys_execve.c:61-71 | the loop computes the count or the fault |
| UserStack.CopyEach | kvm_test/kvm-kernel-example/kernel/syscalls/sys_execve.c:84-94 | the loops compute the pushed copies |
| UserStack.PokeEach | kvm_test/kvm-kernel-example/kernel/syscalls/sys_execve.c:104-105 | the word loop computes the pushed words or the fault |
| UserStack.LayOutStack | kvm_test/kvm-kernel-example/kernel/syscalls/sys_execve.c:76-111 | computes the described state, errors, faults and erasures included |
| ProcessStart.StartPageCorrect | kvm_test/kvm-kernel-example/kernel/kernel_main.c:38-43 | the page for user data is mapped one to one, read-write, with every invariant kept |
| ProcessStart.StartPageInside | kvm_test/kvm-kernel-example/kernel/kernel_main.c:39-43 | the mapped frame lies inside its chunk exactly when more than 0xff0 bytes were asked for |
| ProcessStart.StartPageSucceeds | kvm_test/kvm-kernel-example/kernel/kernel_main.c:38-43 | with room for the page and three tables it is mapped |
| ProcessStart.SwitchToUserCorrect | kvm_test/kvm-kernel-example/kernel/kernel_main.c:36-52 | for every argument block of at most a page, the page holds the relocated block, and argv[0] of the kernel's copy is its first pointer |
| ProcessStart.SysOpenCorrect | kvm_test/kvm-kernel-example/kernel/syscalls/sys_open.c:8-15 | for a name the user can read, the host is asked for exactly that name, the copy of the name is given back, and everything live and every invariant is kept |
| ProcessStart.OpenFaults | kvm_test/kvm-kernel-example/kernel/syscalls/sys_open.c:8-15 | sys_open answers -14, with nothing changed, when no string starts at the path, and otherwise only the file, the host's error or -12 |
| ProcessStart.StackWindow | kvm_test/kvm-kernel-example/kernel/syscalls/sys_execve.c:53-57 | after load_binary the stack is a window of the view with nothing of the arguments behind it, and the view leads to live memory |
| ProcessStart.ArgumentsOnStack | kvm_test/kvm-kernel-example/kernel/syscalls/sys_execve.c:76-111 | create_elf_info on the argument page passes its checks and puts the arguments on the stack as all user walks see it |
| ProcessStart.ExecveCorrect | kvm_test/kvm-kernel-example/kernel/syscalls/sys_execve.c:114-121 | sys_execve with the block on its page runs the file named by the first argument: image in place, arguments on the stack; with a stated amount of memory it does run |
| ProcessStart.ExecveMissing | kvm_test/kvm-kernel-example/kernel/syscalls/sys_execve.c:115-116 | sys_execve of a file the host does not have fails with the host's error and maps nothing |
| ProcessStart.ExecveRefused | kvm_test/kvm-kernel-example/kernel/syscalls/sys_execve.c:118-119 | sys_execve of a file whose header fails the checks fails with their code and maps nothing |
| ProcessStart.CopiedArgs | kvm_test/kvm-kernel-example/hypervisor/hypervisor.c:212-234 | what copy_argv leaves is an argument block, at most a page long when the arguments are |
| ProcessStart.ArgumentsArrive | kvm_test/kvm-kernel-example/kernel/kernel_main.c:36-62 | end to end from the bytes copy_argv leaves in RAM through boot, switch_user, sys_open, load_binary and create_elf_info: whenever the program runs, its image is in memory and the user finds the same strings in the same order on a writable first stack, with an empty environment; with a stated amount of memory it does run |
| Hypercall.ProtocolCorrect | kvm_test/kvm-kernel-example/hypervisor/hypercall.c:60-69 | over every run of exits an IN succeeds exactly when its static variable holds an unanswered OUT, and delivers the latest OUT's result |
| Hypercall.DeliveredOnce | kvm_test/kvm-kernel-example/hypervisor/hypercall.c:65-69 | a second IN in a row fails |
| Hypercall.ResultsAreReal | kvm_test/kvm-kernel-example/hypervisor/hypercall.c:78-172 | no handler result equals the sentinel |
| Hypercall.OpenResult | kvm_test/kvm-kernel-example/hypervisor/hypercall.c:78-102 | the assertions' exact condition; -23 when no descriptor is free, minus errno when the host cannot open the file, else the lowest free descriptor is mapped to the host's and is the answer |
| Hypercall.RwResult | kvm_test/kvm-kernel-example/hypervisor/hypercall.c:114-129 | for all addresses and lengths: a range outside guest memory, wrapped ranges included, is refused first with -13, then a bad descriptor with -9; else the host's answer counts and no descriptor changes; the assertions' exact condition |
| Hypercall.EmptyAtEnd | kvm_test/kvm-kernel-example/hypervisor/hypercall.c:114-129 | writing nothing from the end of guest memory fails the assertion in the initial state |
| Hypercall.CloseResult | kvm_test/kvm-kernel-example/hypervisor/hypercall.c:143-157 | -9 for a descriptor that is not open; else it is closed whatever the host answers, and the host's answer counts |
| Hypercall.LseekResult | kvm_test/kvm-kernel-example/hypervisor/hypercall.c:159-172 | -9 or the host's answer, no descriptor changes; the assertion's exact condition |
| Hypercall.CloseFrees | kvm_test/kvm-kernel-example/hypervisor/hypercall.c:143-157 | close makes the descriptor and no other unusable, and free for the next open |
| Hypercall.FdsStayDistinct | kvm_test/kvm-kernel-example/hypervisor/hypercall.c:46-58 | over every run with a host that hands out only closed descriptors, open guest fds map to distinct open host fds |
| Hypercall.Hypervisor.InitMap | kvm_test/kvm-kernel-example/hypervisor/hypercall.c:48-58 | the loop sets up the three standard descriptors once |
| Hypercall.Hypervisor.LowestFree | kvm_test/kvm-kernel-example/hypervisor/hypercall.c:87-89 | the loop finds the lowest free descriptor |
| Hypercall.Hypervisor.OnOut | kvm_test/kvm-kernel-example/hypervisor/hypercall.c:78-172 | the handlers in place refine the description on values, assertions included |
| Hypercall.Hypervisor.OnIn | kvm_test/kvm-kernel-example/hypervisor/hypercall.c:65-69 | delivers and clears the static variable, or fails and changes nothing |
| Checksum.UpdateCorrect | ebpf-http/http-parse-complete.c:216-225 | for every list of 16-bit words and every change of one, the update equals the checksum recomputed as in section 1 of RFC 1071 exactly when the changed list is not all zero; otherwise it is the other zero |
| Checksum.TwoFoldsEnough | ebpf-http/http-parse-complete.c:222-223 | two additions of the carries are the full one's complement fold of three words |
| Checksum.FlagsSuffice | ebpf-http/http-parse-complete.c:203-215 | get_tcp_flag leaves out ece and cwr, and an update with its words equals an update with the header's words while these bits stay |
| Checksum.NoChange | ebpf-http/http-parse-complete.c:264-272 | an update with an unchanged word keeps the checksum exactly when that is not 0xffff |
| RamDisk.SegmentsFlat | lktm/drivers/block/sampleblk/day2/sample_blk.c:89-100 | transferring segment by segment is one flat write, or fills the buffers with the disk's bytes in order |
| RamDisk.ServeFlat | lktm/drivers/block/sampleblk/day2/sample_blk.c:70-106 | one request equals one flat copy or changes nothing, and its status is its own exactly when it is rejected, has a segment, or no error is left over |
| RamDisk.QueueFlat | lktm/drivers/block/sampleblk/day2/sample_blk.c:60-107 | for every queue of the block layer: disk and buffers as after the flat copies in order; a request's status is its own exactly when it does not inherit, that is unless it has no segments and the last earlier request that was rejected or had segments was rejected, and then it is that error |
| RamDisk.WrapAccepted | lktm/drivers/block/sampleblk/day2/sample_blk.c:80-87 | beyond what the block layer promises: a request out of bounds is accepted exactly when it runs over 2^64 and its wrapped end lies inside the disk |
| RamDisk.ErrorLeaks | lktm/drivers/block/sampleblk/day2/sample_blk.c:63-103 | on every disk, a request without segments after a rejected one is ended with the other's error |
| RamDisk.Device.CopyIn | lktm/drivers/block/sampleblk/day2/sample_blk.c:52-53 | the copy loop writes exactly the buffer at pos |
| RamDisk.Device.Transfer | lktm/drivers/block/sampleblk/day2/sample_blk.c:89-100 | the segment loop on the array refines the description on values |
| RamDisk.Device.HandleQueue | lktm/drivers/block/sampleblk/day2/sample_blk.c:60-107 | the request loop on the array refines the description on values |

## Left out

- Kernel.Kernel.Kmalloc: what a refused request clears is stated for the first 2MB; the addresses after them belong to the user or are not mapped.
- What a processor does after the kernel's code has been overwritten.
- Protect.ModifyPermissionCorrect: stated for user addresses, the only ones mprotect passes; on a 2MB kernel page the code would take the page for a table.
- Mapping.AddTransUserCorrect: stated for page-aligned p, which every caller passes; an unaligned p would set flag bits.
- Arena.Arena.Kfree: not stated for a block that is on the free list already, which would close the list into a cycle.
- Loader.LoadBinaryCorrect: stated for file offsets below 2^31, since the seek hypercall carries 32 bits and its answer is a signed int, and for segments with filesz at most memsz, as the format asks; segments must keep off each other's pages and off the stack.
- ProcessStart.ArgumentsArrive: stated for argument blocks of at most one page, all that switch_user maps, and for programs whose segments keep off that page; its memory bound counts three tables for every page mapped.
- Hypercall.FdsStayDistinct: the host is assumed never to hand out a descriptor that is open, and closing always frees it.
- RamDisk.QueueFlat: segments must add up to the request and the request must not run over 2^64, as the block layer guarantees; RamDisk.WrapAccepted says what the test lets through without the latter.
- The parameter blocks of hypercalls are allocated and freed, but their bytes are passed as arguments.
- Short reads and read errors of the host on a regular file.
- sys_close, sys_read, sys_write and sys_exit: thin wrappers over the access checks and the hypercalls.
- sys_open and create_elf_info in place: their loops work on values of the state, not on the `Kernel` object.
- UserStack.CreateElfInfoCorrect: the copy array is taken and given back, but its contents are a sequence; stated for less than 2^32 bytes of it, since for more kmalloc returns null and the pointers would go to address 0.
- Faults on reads: create_elf_info reads an address that no longer translates as zero; the theorems keep what is read off what is written.
- Exit and panic hypercalls, and the fall-through to -ENOSYS.
- KVM calls, registers, segments, MSRs, inline assembly and the system-call entry.
- http_filter, xdp_prog1 apart from the checksum, and the Python scripts: packet input and output.
- The BPF loaders, samplefs, sampleblk day1, tracers, XDP drop and security-group examples, sockmap programs and test modules: single-branch logic or helpers that are not part of this repository.
