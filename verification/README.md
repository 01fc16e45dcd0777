# axKernel: verified models

This project models seven algorithmic parts of the axKernel repository in Dafny and proves what
they promise. Each part follows the shape of its C code: structures that are updated in place are
classes, and every method is tied to a specification on values whose laws are proved as lemmas.

| file | what it holds |
|---|---|
| `BPlusTrees.dfy` | B+ trees as values: entries, leaves, shape, contexts, the map a tree stands for |
| `NodeArena.dfy` | node cells in memory, and when memory represents a tree in a context |
| `IndexSteps.dfy`, `Rebalancing.dfy` | what single writes of insertion and deletion do to that relation |
| `NameIndex.dfy` | the name index itself: search, insertion, deletion, all rebalancing |
| `IndexLaws.dfy` | the leaf chain, conservation of nodes, the per-node shape, runs against a plain map |
| `Heap.dfy` | the first-fit allocator with split and two-sided merging |
| `PopCount.dfy`, `MemoryMap.dfy` | the 64-bit bit count and the 2-bit memory map built on it |
| `ProcessTable.dfy` | process creation on top of the heap and the memory map |
| `Scheduler.dfy` | ring queues, `pm_run`, `pm_awake`, the timer tick |
| `ImageLoader.dfy`, `ImageWriter.dfy` | ELF loading and `brk_call`; images written from a list of segments |
| `VirtQueue.dfy`, `EventQueues.dfy`, `InputDriver.dfy` | the virtqueue protocol, its queue in memory, the driver over all devices |
| `CharacterRing.dfy` | the character ring between the interrupt handler and the reader |
| `Lines.dfy` | the line rasteriser |
| `Arithmetic.dfy` | facts about products, quotients and remainders that several parts use |

## How the parts are modelled

**Name index.** Node pointers are keys of a map `mem` from addresses to node records, so that every
shifting loop, child write and parent write of the source is an update of a cell. A ghost tree says
what the cells represent. The two hash functions are arbitrary. Nodes come from the verified heap.
`Room` counts the nodes that the heap can still provide, `Budget` adds those in use, and
`NodesNeeded` is the number of nodes that the splits of an insertion create. Two flags describe the
last insertion: `oom` if it needed more nodes than there were, `torn` if it got some of them. An
insertion that is denied without being torn leaves the index as it was, and later operations go on
with it. Defensive branches that the invariant makes unreachable (a missing parent, a child that is
not found) are assertions.

**Heap.** Headers live at offsets into the 100 KiB area; the ghost block list is what the links
spell out. `size + 24` is assumed not to wrap 32 bits.

**Memory map.** The 16384 bytes are an array of 8-bit vectors and the words built from them 64-bit
vectors, with the masks, shifts and the multiplication of the source. `mm_find` keeps its
accumulator in 16 bits; `AddressOf` says so, and `AddressExact` and `FullMapWraps` say when this
matters. The input of `FullMapWraps` is one for `mm_creat` as an interface: the repository itself
calls it only from `pm_create`, with 1024 KiB and for at most 24 processes, so that its own calls
stay far below the limit (`ProcessTable.Run`).

**Process table.** `Valid` counts the units of the memory map: those taken before the first process
(`units0`) and eight for every slot in use. Together with the bound of 24 slots this keeps all
addresses exact for any number of calls, given only `units0` and the base address.

**Virtqueue.** The shared rings, the device and the driver form a state machine of nine atomic
steps; a run is any interleaving of enabled steps. The device conforms to section 2.6 of VIRTIO 1.1
but is otherwise arbitrary: it fetches descriptors, fills buffers, completes them in any order with
any length, and exposes any number of completions at a time. Buffers are eight bytes, which the
driver decodes. Ghost histories with indices that do
not wrap are compared with the 16-bit indices in memory. `EventQueue` performs each step on arrays.
`InputDriver` works on several such queues in memory, which share no array; between any two of its
steps the devices execute the next batch of a script, which stands for a finite supply of events.
A ghost sequence of protocol states mirrors the queues and carries the invariant. A queue that was
laid out for a device that then failed has no descriptor in play, so that nothing ever happens to it.

**Character ring.** Likewise a state machine with separate steps for admitting, writing and
publishing, and for noticing, reading and releasing. The class runs the producer inside the
consumer at every point where an interrupt can come.

**Line.** The framebuffer is an array; the loop is proved against a closed form: after `k` rounds
each coordinate has moved `k * d / m`, rounded to the nearest integer.

**Image loader.** Images are byte sequences whose header fields are decoded in little-endian order.
The sums of header fields are assumed not to wrap 64 bits (`NoWrap`); the test of the program header
table adds in 64 bits as the source does. Bitwise `and` is defined on unbounded integers
(`AndBits`). The entry point is checked only after the segments were copied, so a load that fails
there has already written the process's memory; the contract of `Process.Load` says so.

**Scheduler.** `schedule_proc` returns the first process it picked, and the interrupt handler stores
that result in `current_proc`. When the picked process carries the signal state a second process is
taken from the queue and forgotten (`SignalLoses`); no code in the repository sets that state.

## Model

| member | source | states |
|---|---|---|
| IndexLaws.Run | src/tools/fs.c:202-679 | for any run of insertions, deletions and searches on a valid index, every answer and the final contents are those of a plain map; the states in between form a trace from the first to the last in which an insertion is denied exactly when the splits it causes need more nodes than the heap has, uses exactly that many otherwise, and no operation loses a node; the run stops only where some but not all of those nodes could be had; neither happens while there are at least as many nodes, in use or free, as bindings |
| IndexLaws.TracedRun | src/tools/fs.c:202-679 | any chain of such steps answers as a map, and the nodes in use and free never become fewer |
| BPlusTrees.EnoughNodes | src/tools/fs.c:106-310 | the nodes of a tree and those that one more insertion creates are together never more than its entries, unless it creates none |
| IndexLaws.ChainLaw | src/tools/fs.c:284-307 | from the leaf that first children lead to, `next` visits every live leaf cell exactly once in tree order and then ends, and the entries met ascend strictly |
| IndexLaws.LiveIsReachable | src/tools/fs.c:36-48 | a node cell is live exactly when child links lead to it from the root, and all paths to leaves have equal length |
| IndexLaws.ShapeLaw | src/tools/fs.c:313-652 | every live node has 2 to 3 entries or 1 to 3 keys, its children name it as parent, and each separator is the key found by going left all the way below its right child |
| BPlusTrees.DepthIsLogarithmic | src/tools/fs.c:50-74 | a tree with h inner levels holds at least 2^h entries, so a descent takes at most log2(n) levels |
| NameIndexing.NameIndex.SearchLeaf | src/tools/fs.c:50-74 | the descent ends, after exactly as many levels as the tree has, in the one leaf around which all keys are on the proper side of the searched key |
| NameIndexing.NameIndex.Search | src/tools/fs.c:654-679 | a slot is returned exactly when the map binds the fnv key with the same djb key, and it holds the bound value |
| NameIndexing.NameIndex.Insert | src/tools/fs.c:202-311 | from any usable index, refuses exactly the present keys and those whose splits need more nodes than the heap has, and otherwise adds one binding and takes exactly that many nodes; a heap without room for one node leaves the index as it was, and so do a NULL root or name; heap blocks of others are untouched |
| NameIndexing.NameIndex.SplitLeaf | src/tools/fs.c:263-310 | a full leaf with its new entry becomes two leaves in the same tree position, with the entries in order and the full shape restored up to the root |
| NameIndexing.NameIndex.AddParent | src/tools/fs.c:106-200 | linking a new right sibling restores shape and exact separators through any number of splits, and keeps the order of all entries |
| NameIndexing.NameIndex.SplitRoot | src/tools/fs.c:165-186 | a full root keeps its address, gets two fresh children, and the tree holds the same entries at one more level |
| NameIndexing.NameIndex.Delete | src/tools/fs.c:615-652 | succeeds exactly when both hashes match, removes exactly that binding, and keeps shape, chain and the set of other heap blocks |
| NameIndexing.NameIndex.FixUp | src/tools/fs.c:322-340 | the separators of a node and all its ancestors become the exact minima, and no entry moves |
| NameIndexing.NameIndex.BalanceLeaf | src/tools/fs.c:508-613 | a leaf left with one entry is repaired by borrowing or merging on either side, with the entries and their order unchanged and freed nodes returned to the heap |
| NameIndexing.NameIndex.BalanceInner | src/tools/fs.c:376-506 | an inner node left with too few children is repaired by borrowing, merging, climbing or root collapse; the climb ends; entries and order are unchanged |
| NameIndexing.NameIndex.CollapseRoot | src/tools/fs.c:376-400 | the root becomes a copy of its only child, whose children are re-parented and whose cell is freed, with the same entries |
| KernelHeap.Heap.Alloc | src/global/alloc.c:37-76 | returns the payload of the lowest free block of at least size + 24 bytes and NULL exactly when there is none; what is granted is the size asked for, or the whole block if the rest could not hold a header and a byte; the block list and the live payloads change in that one place |
| KernelHeap.Heap.Free | src/global/alloc.c:78-105 | the block and its free neighbours become one free block, and exactly that payload stops being live |
| KernelHeap.TakenWellFormed | src/global/alloc.c:45-68 | allocation keeps the blocks tiling the heap with no two free neighbours |
| KernelHeap.ReleasedWellFormed | src/global/alloc.c:83-103 | freeing keeps the blocks tiling the heap with no two free neighbours |
| KernelHeap.LiveDisjoint | src/global/alloc.c:5-16 | live payloads overlap neither each other nor any header |
| KernelHeap.FreeUndoesAlloc | src/global/alloc.c:45-103 | freeing what was just allocated restores the block list exactly |
| KernelHeap.FreeAllInAnyOrder | src/global/alloc.c:83-103 | freeing all live payloads in any order, from any well-formed heap, leads to the single initial block |
| KernelHeap.RoomServes | src/global/alloc.c:37-76 | first fit can serve n requests of a size one after the other if and only if n is at most the sum over the free blocks of their size divided by it |
| KernelHeap.RoomTaken | src/global/alloc.c:45-68 | an allocation lowers that sum by exactly one, whether or not the block is split |
| KernelHeap.RoomForOthers | src/global/alloc.c:45-68 | for requests of any other size an allocation costs at most the portions in its bytes and one more |
| KernelHeap.RoomReleased | src/global/alloc.c:83-103 | a release raises that sum at least by the portions of the released block |
| PopCount.CntExact | include/tools/_asm.h:8-14 | `cnt` is the number of set bits of every 64-bit word |
| PopCount.LanesWeigh | src/manage/mm.c:116-119 | counting the odd and the even bits separately, the latter twice, gives the sum of all 32 two-bit fields |
| MemoryMapping.MaskedWeight | src/manage/mm.c:130-133 | the mask of the last word keeps exactly the fields below the searched entry |
| MemoryMapping.MemoryManager.RegularPush | src/manage/exmm.c:13-27 | exactly the two bits of the entry at the top change, to the pushed value, and the 16-bit top advances |
| MemoryMapping.MemoryManager.Create | src/manage/mm.c:28-56 | a request is refused exactly when it is empty or its entries would pass index 0xFFFF, and then nothing changes; otherwise its entries hold its units in shares of three, all earlier prefix sums stay, and the total grows by ceil(val/128) |
| MemoryMapping.MemoryManager.Find | src/manage/mm.c:96-141 | the address is base + 128 KiB times the sum of all entries below, modulo 2^16, plus the offset, for every map content and entry |
| MemoryMapping.AddressExact | src/manage/mm.c:103-138 | the address is the true one if and only if the sum is below 65536 |
| MemoryMapping.AddressWraps | src/manage/mm.c:103-138 | 65536 units more lead to the same address |
| MemoryMapping.RequestInNumbers | src/manage/mm.c:32-45 | a request takes the least number of 128 KiB units that hold it and the least number of entries that hold those, and is refused when they would reach index 0xFFFF |
| MemoryMapping.FullMapWraps | src/manage/mm.c:103-138 | 129 requests of the largest size to `mm_creat` are all granted and the last gets the address of the first |
| MemoryMapping.Run | src/manage/mm.c:28-56 | any series of requests gets the planned grants, and afterwards every handle still leads to its own first unit |
| MemoryMapping.Consecutive | src/manage/mm.c:47-53 | each grant starts exactly where the units granted before it end |
| MemoryMapping.Disjoint | src/manage/mm.c:47-53 | two grants of a run never share a unit |
| ProcessTable.ProcessManager.Create | src/manage/pm.c:25-119 | takes the lowest free slot; fails exactly when no page table or no memory can be had, and then slot, heap blocks and memory map are as before; other processes keep their control blocks |
| ProcessTable.AtMost24 | src/manage/pm.c:74-82 | at most 24 slots are ever in use, since each owns a page table in the heap |
| ProcessTable.ProcessManager.FindSlot | src/manage/pm.c:30-48 | the search always ends at one of the first 25 slots, so the control block index stays in the table |
| ProcessTable.RegionsDisjoint | src/manage/pm.c:84-113 | in every state of the table the 1 MiB regions below the stack pointers of two processes are disjoint and lie between the base and the units that 24 processes can take |
| ProcessTable.RegionIsUnits | src/manage/pm.c:84-113 | the MiB below a stack pointer is exactly the eight units granted to the process |
| ProcessTable.LoadInto | src/global/meta.c:141-254 | loading an image into one process of the table writes no byte of the memory of another |
| ProcessTable.Run | src/manage/pm.c:25-119 | in any series of calls, call i succeeds if and only if the heap had room for more than i page tables and the map for i + 1 regions; every process keeps its own id and entry point (1, 2, 3 and so on in an empty table), at most 24 exist, and the memory of all of them is disjoint |
| ProcessTable.FreshRoom | src/global/alloc.c:18-25 | a heap as initialised has room for exactly 24 page tables |
| Scheduling.RingQueue.Push | src/tools/dstruc.c:5-17 | appends to the queued bytes, or drops the byte when the queue is full |
| Scheduling.RingQueue.Pop | src/tools/dstruc.c:19-33 | removes and returns the oldest byte, or 0 from an empty queue |
| Scheduling.ProcessManager.Run | src/manage/expm.c:16-42 | takes from the high queue first, then the low one, and falls back to the root process for empty queues and ids out of range |
| Scheduling.ProcessManager.OnTimer | src/global/meta.c:307-328 | a timer tick does to both ring queues and the current process what `Tick` does to sequences |
| Scheduling.TickRotates | src/global/meta.c:307-328 | a tick moves the first of high + low + [current] to the end, and loses nobody |
| Scheduling.TickInOrder | src/global/meta.c:307-328 | in every state: the first waiting process runs, or process 1 if none waits or the id is 0 or 255; the one that ran joins the end unless the low queue is full; a signal drops one more |
| Scheduling.OnlyKnownRun | src/manage/expm.c:16-42 | from the boot state, any run of awakenings of existing processes and of ticks only runs existing processes |
| Scheduling.RoundRobin | src/global/meta.c:307-328 | after n ticks the n-th process of that order runs, cyclically; the one at low position k after exactly \|high\| + k + 1 ticks |
| Scheduling.ConservedWhen | src/global/meta.c:307-328 | without a signal, a tick keeps all processes if and only if a queue is not empty, its first id is in range, and the current process fits in the low queue |
| Scheduling.SignalLoses | src/global/meta.c:315-320 | a picked process in the signal state costs the queues one process |
| ImageLoading.Process.Load | src/global/meta.c:141-254 | memory is written exactly when header, segments and layout are accepted, and then holds all segments, inside the process's own MiB less the stack reserve; the process fields are set exactly when the entry point is accepted too |
| ImageWriting.ReadsBack | src/global/meta.c:113-156 | an image written field by field from an entry point and a list of segments has a valid header, and its table reads back as that list |
| ImageWriting.ValidExactly | src/global/meta.c:113-138 | which bytes make a header valid |
| ImageWriting.LoadWritten | src/global/meta.c:141-254 | loading a written image: it is accepted exactly under inequalities on its segments, every byte of memory is then that of the last segment covering it, in file order and followed by zeros, and entry point, heap and limit are given in numbers |
| ImageLoading.Process.CopySegment | src/global/meta.c:235-241 | the destination holds the file bytes and then zeros, and nothing else changes |
| ImageLoading.PlacedAt | src/global/meta.c:221-242 | every byte of memory is the byte of the file, at the same distance into the last segment covering it, or zero behind the file part, and untouched if no segment covers it |
| ImageLoading.LayoutApart | src/global/meta.c:202-233 | after acceptance every segment lies between the process start and the heap start, the heap start is aligned and not above the limit, and the check of the copy pass never fires |
| ImageLoading.AlignedUpIsLeast | src/global/meta.c:205-209 | for an alignment that is a power of two the load base is the least multiple not below the process start |
| ImageLoading.AlignedUpBits | src/global/meta.c:205-209 | for every alignment the load base has exactly the bits of start + mask that the mask does not have |
| ImageLoading.Process.Brk | src/handler/syscall.c:81-99 | returns the old break and advances it by the size exactly when old break plus size is at most the limit; a zero size only reports |
| ImageLoading.AllGranted | src/handler/syscall.c:81-99 | all calls of a series are granted if and only if their sizes together fit below the limit |
| ImageLoading.GrantsApart | src/handler/syscall.c:81-99 | over any series of calls the break stays between heap start and limit, and two granted areas never share a byte |
| VirtQueue.ChooseLayout | src/tools/virtio.c:101-139 | the size is the largest power of two up to 256 that the device accepts; the three parts lie apart inside the storage, the used ring where section 2.6.2 puts it |
| VirtQueue.StepKeeps | src/tools/vhid.c:546-574 | every step of driver or device keeps the invariant on indices, slots, buffers and descriptors |
| VirtQueue.RunLaw | src/tools/vhid.c:516-583 | in every interleaving each descriptor is in exactly one place, and the driver has received the oldest completions, once each, in order, with their contents |
| VirtQueue.StoreSlotIsFree | src/tools/vhid.c:569-572 | the available slot the driver writes holds nothing the device has still to read |
| VirtQueue.CompleteSlotIsFree | src/tools/vhid.c:546-549 | the used slot the device writes holds nothing the driver has still to read |
| VirtQueue.TakesOldest | src/tools/vhid.c:546-557 | the element read is the oldest unread completion, its descriptor is in range, and its buffer still holds the event |
| VirtQueue.NothingLost | src/tools/vhid.c:541-544 | the two 16-bit indices agree exactly when the driver has received everything exposed |
| VirtQueue.SizeMatters | src/tools/vhid.c:546-571 | slot numbers survive the 16-bit wrap if and only if the size divides 65536 |
| EventQueues.EventQueue.SetUp | src/tools/vhid.c:353-418 | the size is the largest power of two up to 256 that the device accepts; if its other queue is accepted too, all buffers are offered and nothing is used, the initial state of the protocol; if not, nothing is offered |
| EventQueues.EventQueue.DriverStep | src/tools/vhid.c:541-574 | each access of the driver to the queue in memory is the step of the protocol, with the element and event read from the arrays |
| EventQueues.EventQueue.TakeUsed | src/tools/vhid.c:546-550 | the in-memory step is the step of the protocol, and keeps its invariant |
| EventQueues.DecodedBack | src/tools/vhid.c:45-50 | the three fields are read from the eight bytes of a buffer in little-endian order, and determine them |
| EventQueues.EventBytes | src/tools/vhid.c:556-564 | the length that counts as complete is the least number of bytes that determines the event |
| InputDriving.InputDriver.GetEvent | src/tools/vhid.c:516-583 | on the queues in memory, serves the first device from the cursor that is pending, takes exactly its oldest completion and returns the descriptor, under arbitrary device activity in between; 0 only if nobody was pending |
| InputDriving.InputDriver.ServeUntil | src/tools/vhid.c:529-577 | repeated calls serve a pending device after at most count - 1 calls that serve others, whatever the devices do meanwhile; every call takes one completion of the device it serves and none of the others |
| InputDriving.BypassedAtMost | src/tools/vhid.c:529-577 | the order in which those calls move the cursor passes over a waiting device no more often than its distance from the cursor |
| InputDriving.InputDriver.constructor | src/tools/vhid.c:378-444 | queues as initialisation can leave them (missing, laid out without buffers, or ready) form a valid idle driver with nothing delivered yet |
| InputDriving.InputDriver.IrqHandle | src/tools/vhid.c:473-514 | ends, and a served interrupt leaves its device with no exposed completion; no completion made, exposed or received before is lost, and every well-formed event received from any device has reached the key handler once and in order, truncated ones never |
| CharacterRing.StepKeeps | src/tools/vhid.c:295-309 | every step of producer or consumer keeps the ring invariant |
| CharacterRing.WriteIsSafe | src/tools/vhid.c:300-306 | the producer never writes a slot holding an unread character |
| CharacterRing.FetchIsOldest | src/tools/vhid.c:461-469 | the slot the consumer reads holds the oldest unread character |
| CharacterRing.RunLaw | src/tools/vhid.c:295-471 | in every interleaving the output is a prefix of the admitted characters, and the drop counter is the number of the others modulo 2^32 |
| CharacterRing.DroppedWhenFull | src/tools/vhid.c:300-304 | a character is turned away exactly when 256 others wait |
| CharacterRing.AdmittedWhen | src/tools/vhid.c:295-309 | each character of a burst is admitted exactly if fewer than 256 wait when it arrives |
| CharacterRing.CharacterQueue.GetCharacter | src/tools/vhid.c:446-471 | whatever arrives before, between and after its accesses, the reader gets exactly the next character, or nothing exactly when all admitted ones were read; every arrival is admitted exactly if fewer than 256 wait, and stays so |
| Lines.Display.DrawLine | src/manage/gm.c:181-230 | colours exactly those cells of the framebuffer whose column c % width and row c / width is a pixel of the line, nothing if an end is off the screen, and ends |
| Lines.CoversExactly | src/manage/gm.c:205-227 | which pixels belong to the line, in numbers: those between the ends that are, for their step along the longer axis, nearest to the ideal line |
| Lines.HalfPixel | src/manage/gm.c:205-227 | 2 * abs(dx * j - dy * i) <= max(dx, dy) after i steps in x and j in y |
| Lines.Connected | src/manage/gm.c:205-227 | the max(dx, dy) + 1 pixels are all different and each is next to the one before |
| Lines.Ends | src/manage/gm.c:205-227 | the first pixel is one end, and the other end is met by the last pixel only |
| Lines.InBox | src/manage/gm.c:205-227 | all pixels lie in the bounding box of the ends |
| Lines.NextPixel | src/manage/gm.c:213-226 | the two tests on the error term advance each axis exactly when the rounded ideal position advances |
| Lines.Reversed | src/manage/gm.c:181-230 | drawing from the other end gives the same pixel exactly where the ideal line is not half way between two |

## Left out

- NameIndexing.NameIndex.Insert: when the first of several node allocations succeeds and a later one fails above the leaf level, the contract gives the result and the untouched heap blocks only, since the source does not undo such a split; a root leaf keeps its bindings and one node is lost (`LeakedOne`).
- MemoryMapping.MemoryManager.Create: the handle 0 is also the answer of a refused request, as in the source; callers tell the two apart by the stack top.
- ImageLoading.Process.Load: header sums that wrap 64 bits, that of the program header table included, are outside the contract (`NoWrap`), since the source would then read outside the image.
- InputDriving.InputDriver.IrqHandle: an interrupt line whose first device has no queue at all is outside the contract; `vhid_init` enables such a line only for another device that shares it, and the handler would then read the unset `queue->used` of the first.
- ImageWriting.LoadWritten: the greatest alignment among the loaded segments is 0, 1 or a power of two; for other alignments `AlignedUpBits` says what the load base is, and the accepting inequalities are not spelled out.
- NULL pointers for the output parameters of `vhid_get_event` and `vhid_getchar`, and for the stack argument of `mm_creat`.
- Turning key codes into characters, shift and caps lock state: tables without invariants.
- Interrupt status and acknowledge registers, queue notifications, barriers: foreign effects; barriers appear as boundaries between steps.
- `gpu_resource_flush` after a line, and the other drawing routines.
- `mm_free`, `MMv5_regu_pop`, the irregular stack and `pm_delete`: unfinished in the source.
- `ptp` and the message calls: they take whichever process heads the low queue, so no conservation law holds.
- Directory lists and file windows, device-tree parsing, the other drivers and the remaining system calls.
- The hash functions themselves, `vq_setup_v2`, printing.
