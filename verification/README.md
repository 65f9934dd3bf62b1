# Verified models of the kernel's hard cores

This project models the parts of an xv6-derived multiprocessor kernel, its TCP/IP stack
and two of its user programs in which correctness is hardest to see from the code, and
proves what each of them is for. `dafny verify dfyconfig.toml` checks all of it.

| module | models | main results |
|---|---|---|
| Blocks, Counting, Options | 32-bit words overlaid on disk blocks; sizes of sets | PutGet |
| BufferCache | kernel/bio.c | Cache.Bread, Cache.Brelse, StampsFollow |
| RedoLog | the disk side of kernel/log.c, with crashes | CrashAtomic, RunAtomic, RecoverIdempotent |
| LogAdmission | begin_op, log_write, end_op by any number of operations | NeverPanics, SafeExactlyWhenBigEnough, AdmitsExactly |
| Log | kernel/log.c over the buffer cache | Log.Update, Log.Commit, Log.RecoverFromLog, NoSizeIsSafe |
| Collector | the copying collector of user/lisp/lisp.c | Heap.GcCollect, CollectionInvisible, Heap.GcAlloc |
| SExpr | its reader, printer and interning | RoundTrip, SpaceDecides, LispEqualExact |
| Allocator | ulib/umalloc.c | Heap.Malloc, Heap.Free, FreeUndoesCut |
| Bitmap, Inodes, FileLayer | kernel/fs/fs1.c | File.Writei, File.Readi, File.Itrunc, OtherFilesSame |
| Volume | kernel/fs/fs1.c over kernel/log.c | WriteFile, TruncateFile, CommitFile |
| FileWrite | filewrite of kernel/file.c over that | Write |
| SleepWakeup | sleep and wakeup of kernel/proc.c over kernel/spinlock.c | NoLostWakeup, WakeupDelivered, TestsBeforeLeaving |
| Scheduler | the scheduler loop of kernel/proc.c | BoundedWait, BoundExact |
| AcceptQueue, Tcp, TcpStack | include/UProtocols4.tcc, include/UQueue.tcc | Stream, FinEndsStream, HandshakeAndAccept, ConnectionOpens |
| Regex | the matcher of user/grep.c | Match, PlainMatches |
| Checksum | the checksum of kernel/UProtocols.cc | StoredVerifies, ValidExactly |
| Pipe | kernel/pipe.c | Ring.Write, Ring.Read |
| AddressSpace | kernel/vm.c over kernel/kalloc.c | Machine.CopyUvm, SwitchedTranslates, Machine.Freevm, BothIsolated |

How the pieces fit:

- **Disk.** A disk is a map from sectors to 512-byte blocks and a sector write is atomic.
  RedoLog states what every prefix of a commit's writes means after a crash; Log proves
  that the code over the buffer cache issues exactly such prefixes. The cache presents a
  plain map from sector to block (its view), of which bread, a store, log_write and brelse
  are one update (Log.Log.Update). FileLayer works on that map and keeps the list of its
  updates; Volume passes the list through the log and proves that a crash anywhere leaves
  the files of before or the files of after, and that the operation returns with the files
  of after whenever the log has room for a number of sectors known beforehand. FileWrite
  runs such operations in filewrite's loop: a crash leaves whole pieces.
- **Objects.** What the source updates in place is a class: the cache with its arrays of
  links, the log, the collector's two spaces, the allocator's headers, an in-memory inode,
  the process list, the table of control blocks with its linked queues, the pipe ring, and
  physical memory. Each method is proved against a function of the old state or states its
  effect outright.
- **Concurrency.** Sleep and wakeup, log admission, and the TCP stack are state machines
  whose steps interleave freely; the theorems are over every run. The class methods are
  steps of those machines.

## Where the code does less than its comments say

- The scheduler's comment (kernel/proc.c:377-379) promises that no process above the
  no-boost priority starves. It holds exactly while the highest priority plus the number
  of eligible processes is at most 256 (Scheduler.BoundExact). An example is one runnable
  process of priority 255 listed after another.
- Priority plus skips is a 32-bit sum. A process whose sum wraps around loses to one of the
  lowest priority; without that, one of priority at most 0x0A never runs before a higher one
  (Scheduler.LowWaits, Scheduler.WrappedLoses).
- NBUF and LOGSIZE are both 30 (include/param.h). A transaction of 30 blocks pins every
  buffer and write_log panics with "bget: no buffers"; any smaller one commits
  (Log.Log.Commit). Admitted operations can fill the log, so no size of the log is safe: a
  smaller one panics in log_write, a larger one in bget (Log.NoSizeIsSafe).
- log_write is safe exactly when log.size - 1 is at least LOGSIZE. mkfs makes the log one
  block smaller (tools/mkfs.c:69), and kernel/file.c:141 sizes a write from LOGSIZE rather
  than MAXOPBLOCKS, so both bounds are hypotheses of NeverPanics.
- Reading back a printed list aborts when its length or nesting needs more than the 50
  frames of the root stack, for a flat list 49 elements from the main loop, or when its
  cells and the reachable ones are more than the 16384 of the heap, as for a complete tree
  of 14 levels (SExpr.RoundTrip, SExpr.LongListAborts, SExpr.CompleteTreeAborts). The atom "." after the first element of a list
  never survives (SExpr.RoundTrip; an example is SExpr.DotIsNotAnElement).
- TCP acknowledgement bounds are compared as plain 32-bit numbers, so a connection whose
  initial send number is 0xFFFFFFFF cannot be established (Tcp.EstablishedBy). A FIN in
  FIN_WAIT_1 leads to FIN_WAIT_2 where section 3.3.2 of RFC 9293 has CLOSING; the model
  follows the code.
- fs1_writei calls iupdate only when the file grows. A write that fills a hole below the
  size changes the inode in memory and not on disk; no sequence of writes makes such a hole
  (FileLayer.File.Writei, Volume.WriteFile).
- mkfs marks no log block in use, so fs1_balloc hands one out exactly when every lower block
  is in use (Volume.LowestIsSame). Volume.WriteFile therefore is about a volume whose log
  blocks are marked, or that is taken to end where the log begins.
- A filewrite that returns -1 has written something exactly when its first piece fits the
  largest file and all of it does not (FileWrite.ErrorAfterPieces).
- A pipe write that returns an error may have placed part of its bytes (Pipe.Ring.Write).
- freevm unmaps user pages below 0x3fa00000 only, 509 * 2 MB, although 510 * 2 MB can be
  mapped. Frames mapped above it are never freed (AddressSpace.Machine.Freevm).
- A failed copyuvm gives back neither the two upper-level tables nor the page it had just
  taken, at most three frames, and beyond 0x3fa00000 all the pages copied there. The exact
  number is AddressSpace.Lost, the exact bound LosesAtMostThree.
- setupkvm does not look at what kalloc returns. With fewer than three free pages it stores
  through null pointers, into the page at address 0 of the process that called fork. That
  page exists and is writable (Makefile:189 links programs at 0), so fork returns -1 and the
  parent goes on with its first page overwritten and every free page lost
  (AddressSpace.Machine.SetupKvm, AddressSpace.PageZeroChanged). This happens exactly
  when fewer than three pages are free and page 0 is writable; otherwise the copy leaves its
  parent alone.
- deallocuvm from inside a missing table steps over the first pages of the next one
  (AddressSpace.UnalignedMisses). It frees all it should exactly when none is mapped before
  the first page it visits (AddressSpace.Machine.Deallocuvm).

## Model

| member | source | states |
|---|---|---|
| Blocks.PutGet | kernel/log.c:106-116 | A 32-bit word stored in a block is read back, and every other word of the block keeps its value; the overlay that write_head, fs1_bmap and fs1_iupdate use. |
| Blocks.LittleEndian | kernel/log.c:106-116 | Words are stored least significant byte first, as the overlaid C structures have them. |
| BufferCache.Cache.constructor | kernel/bio.c:40-56 | After binit the cache agrees with the disk, holds no valid buffer, and its list is a permutation of all buffers. |
| BufferCache.Binit | kernel/bio.c:46-55 | The loop that links the buffers leaves next and prev describing one ring through the head, in the stated order. |
| BufferCache.MoveToFront | kernel/bio.c:152-157 | The six pointer updates of brelse take the buffer out of the ring and put it first; the order of the others is kept. |
| BufferCache.Unlink | kernel/bio.c:152-153 | Two pointer updates remove one node of a well-linked ring and leave the rest well linked. |
| BufferCache.PushFront | kernel/bio.c:154-157 | Four pointer updates insert a node at the front of a well-linked ring. |
| BufferCache.StampsFollow | kernel/bio.c:144-163 | The list order is the order of last release: moving the released buffer to the front keeps release times decreasing along the list. |
| BufferCache.Cache.FindCached | kernel/bio.c:67-78 | The forward scan finds a buffer of the sector if there is one, and reports none only if no buffer has it. |
| BufferCache.Cache.FindVictim | kernel/bio.c:80-91 | The backward scan finds the buffer released longest ago among those neither busy nor dirty, and none exactly when all are busy or dirty. |
| BufferCache.Cache.Bget | kernel/bio.c:61-93 | At most one buffer per sector; a busy one makes the caller wait; the panic is reached exactly when the sector is not cached and every buffer is busy or dirty; the sector-to-block view does not change. |
| BufferCache.Cache.Bread | kernel/bio.c:96-120 | Returns a busy buffer with the latest value written for the sector, whether that value is on disk or only in the cache; a dirty buffer is never recycled. |
| BufferCache.Cache.Store | kernel/bio.c:122-142 | Changing the bytes of a held buffer changes the view at that sector only; the buffer must be pinned or written before release. |
| BufferCache.Cache.Pin | kernel/log.c:219-219 | Setting B_DIRTY changes neither the disk nor the view. |
| BufferCache.Cache.Bwrite | kernel/bio.c:123-142 | One sector write of the buffer, the buffer clean afterwards, the view unchanged. |
| BufferCache.Cache.Brelse | kernel/bio.c:146-163 | The buffer is free and first in the list; the view is unchanged, provided what was changed has been pinned or written. |
| BufferCache.RecycleKeepsView | kernel/bio.c:80-91 | Giving a clean, idle buffer to a sector that has none keeps one buffer per sector and the view. |
| BufferCache.WriteKeepsView | kernel/bio.c:123-142 | Writing a buffer to its sector makes disk and buffer agree there and leaves the view as it was. |
| RedoLog.HeaderRoundTrip | kernel/log.c:92-116 | The header that read_head decodes is the list that write_head encoded, whatever the block held before. |
| RedoLog.LogFormat | kernel/log.c:78-116 | The header is the first block of the log and starts with the count; the sectors follow it, and block i of a transaction lies in block i + 1. |
| RedoLog.RecoverCommitted | kernel/log.c:118-123 | If the disk holds a committed transaction, recovery leaves its values at home and an empty header. |
| RedoLog.AttemptKeeps | kernel/log.c:78-89 | Recovery cut short after any number of sector writes leaves a disk from which recovery still reaches the same home contents. |
| RedoLog.RecoverIdempotent | kernel/log.c:118-123 | Recovering twice is recovering once. |
| RedoLog.HeaderCommits | kernel/log.c:185-193 | The header write is the commit point: just after it, recovery yields the post-transaction contents. |
| RedoLog.CrashBeforeHeader | kernel/log.c:172-183 | Before the header write, every prefix of the writes leaves the home sectors and the empty header as they were. |
| RedoLog.CrashAfterHeader | kernel/log.c:78-116 | From the header write on, every prefix of the writes is one from which recovery yields the post-transaction contents. |
| RedoLog.CrashAtomic | kernel/log.c:172-193 | Crash atomicity: stop commit after any prefix of its writes, crash during recovery any number of times, recover: the home sectors are exactly the old ones or exactly the new ones, by whether the header was written. |
| RedoLog.CommitCompletes | kernel/log.c:185-193 | A commit that is not interrupted installs the transaction and clears the header. |
| RedoLog.RunAtomic | kernel/log.c:144-193 | Over any run of committed transactions followed by one that crashes, recovery yields all of the run with or without the last transaction. |
| LogAdmission.StepReserves | kernel/log.c:126-169 | Every begin_op, log_write, end_op and commit keeps: room for all that open operations may still log, distinct logged sectors, no operation open during a commit. |
| LogAdmission.RunReserves | kernel/log.c:126-220 | The same over every run of any number of concurrent operations. |
| LogAdmission.NeverPanics | kernel/log.c:204-220 | With log.size - 1 at least LOGSIZE and operations of at most MAXOPBLOCKS calls, no reachable state panics in log_write or end_op. |
| LogAdmission.SafeExactlyWhenBigEnough | tools/mkfs.c:69-69 | The condition is exact: with a smaller log some run of admitted operations does panic; the log that mkfs makes is one block short. |
| LogAdmission.FillRuns | kernel/log.c:126-140 | Three admitted operations can fill the log to any size up to 30 sectors. |
| LogAdmission.DrainRuns | kernel/log.c:144-169 | Three admitted operations can leave any number of sectors up to 30 to commit. |
| LogAdmission.AdmitsExactly | kernel/log.c:131-137 | begin_op admits exactly when no commit is under way and no ten writes each by the open operations and one more, to whatever sectors, can bring the log beyond 30. |
| LogAdmission.OperationsJoin | kernel/log.c:126-140 | Operations do run together: for every number of open operations and of logged sectors that leave room for one more, a run reaches them and another operation may begin there. |
| Log.LogOne | kernel/log.c:175-182 | One turn of write_log writes the current value of the home sector to its log block and changes nothing else; it is refused exactly when every buffer is pinned. |
| Log.InstallOne | kernel/log.c:81-88 | One turn of install_trans writes the log block to its home sector and unpins it. |
| Log.WriteHeader | kernel/log.c:106-116 | One sector write, of the header with the logged sectors encoded in it. |
| Log.EncodeHeader | kernel/log.c:110-113 | The loop over the sectors builds the encoded header. |
| Log.Log.WriteLog | kernel/log.c:172-183 | Issues a prefix of the log writes of the transaction, all of them unless 30 blocks are pinned, in which case none. |
| Log.Log.InstallTrans | kernel/log.c:78-89 | Issues a prefix of the home writes, values taken from the log blocks, and unpins what it wrote. |
| Log.Log.Seal | kernel/log.c:187-188 | Log blocks, then the header: a prefix of the commit sequence that ends at the commit point. |
| Log.Log.Install | kernel/log.c:189-191 | The rest of the commit sequence: home blocks, then the cleared header. |
| Log.Log.Commit | kernel/log.c:185-193 | The writes issued to the disk are a prefix of the commit sequence of the transaction the cache holds, whatever happens, so crash atomicity applies: wherever it stops, the disk recovers to the old home sectors or to exactly what readers saw; a finished commit leaves a cleared header and the readers view at home; it completes exactly when fewer than NBUF blocks are logged. |
| Log.CommitStops | kernel/log.c:185-193 | Links the code to the crash model: any prefix of writes that the cache has issued for a transaction leaves a disk that recovers to all or nothing of it. |
| Log.NoSizeIsSafe | include/param.h:9-11 | Since the log and the cache have the same size, for every log size there is a run of admitted operations that panics: in log_write for a small log, in bget during the commit for a large one. |
| Log.Log.ReadHead | kernel/log.c:92-101 | The in-memory header becomes the one on disk; nothing is written. |
| Log.Log.RecoverFromLog | kernel/log.c:118-123 | The disk afterwards is the recovered disk of the crash model, with a cleared header, and the writes are its writes. |
| Log.Log.BeginOp | kernel/log.c:126-140 | Admits exactly when the admission machine does. |
| Log.Log.EndOp | kernel/log.c:144-169 | Panics exactly when a commit is running; starts a commit exactly when the last operation ends. |
| Log.Log.EndLast | kernel/log.c:144-169 | end_op of the only open operation, in full: the writes of the commit model or a prefix of them, completion exactly below NBUF blocks, and then a log in its initial state. |
| Log.Log.LogWrite | kernel/log.c:204-220 | Panics exactly when the admission machine does; otherwise the sector is in the header once, the buffer is pinned, and the disk is untouched, so no logged block reaches its home before commit. |
| Log.Log.Update | kernel/fs/fs1.c:40-47 | bread, a store into the buffer, log_write and brelse are one update of the map that readers see; the device and the trace of writes are unchanged, the logged sectors stay exactly the pinned ones; with idle buffers it fails exactly when the sector does not exist or log_write panics. |
| Collector.Heap.constructor | user/lisp/lisp.c:430-434 | gc_init: two disjoint spaces, nothing allocated, no roots. |
| Collector.Heap.GcCopy | user/lisp/lisp.c:400-412 | A pointer into the old space is replaced by the forwarding address of its object, which is copied exactly if it had not been; a pointer into the new space is kept. |
| Collector.CopyOne | user/lisp/lisp.c:405-411 | Copying one object and leaving the marker keeps the collection invariant: copies are in order of first visit, each object copied once. |
| Collector.RoomLeft | user/lisp/lisp.c:406-406 | allocptr never passes the end of the new space: there are never more copies than live cells. |
| Collector.Heap.CopyRoots | user/lisp/lisp.c:420-421 | After the root loop every root holds its forwarded value. |
| Collector.Heap.ScanOne | user/lisp/lisp.c:423-427 | Scanning one cell forwards its two fields if it is a cons or lambda and leaves other cells alone. |
| Collector.Heap.ScanAll | user/lisp/lisp.c:423-427 | The scan loop ends with every copied cell forwarded and everything copied reachable. |
| Collector.ReachedExactly | user/lisp/lisp.c:414-428 | The objects copied are exactly the objects reachable from the roots. |
| Collector.Heap.GcCollect | user/lisp/lisp.c:414-428 | There is a bijection between the objects reachable before and the cells of the new space; tag, car and cdr are preserved up to it, and roots are forwarded by it. |
| Collector.FollowsCopy | user/lisp/lisp.c:414-428 | Every chain of car and cdr accesses ends in the copy of the object it ended in before. |
| Collector.CollectionInvisible | user/lisp/lisp.c:414-428 | A program cannot tell: same tags and payloads along every chain of accesses, and two chains meet in one object after exactly when they did before, so sharing and cycles survive. |
| Collector.FieldsFollowed | user/lisp/lisp.c:424-427 | Both fields of conses and lambdas are pointers that accesses follow. |
| Collector.Heap.MakeRoom | user/lisp/lisp.c:437-443 | Collects exactly when the space is full, with the arguments of a cons as extra roots. |
| Collector.Heap.GcAlloc | user/lisp/lisp.c:436-452 | Returns a new cell with the given fields, forwarded if a collection happened; runs out of memory exactly when every cell of the space is still reachable. |
| SExpr.Print | user/lisp/lisp.c:289-316 | The loop and recursion of lisp_print write the specified text. |
| SExpr.Reader.Skip | user/lisp/lisp.c:109-110 | Drops exactly the leading spaces. |
| SExpr.Reader.TakeAtom | user/lisp/lisp.c:114-119 | Takes the longest run of atom characters, or aborts at the token limit. |
| SExpr.Reader.ReadToken | user/lisp/lisp.c:107-124 | The next token and the rest of the input, the process exit at end of file, or the abort. |
| SExpr.Reader.Alloc | user/lisp/lisp.c:436-452 | allocptr moves as the collector says: to the next cell, or after a collection to the cell behind the reachable ones, or not at all. |
| SExpr.Reader.MakeCons | user/lisp/lisp.c:100-105 | new_cons: a cons, or the overflow of the root stack, which has one frame for the arguments and a second one only when a collection is due, or the end of the heap. |
| SExpr.Reader.ReadObj | user/lisp/lisp.c:126-129 | An atom, or the list that an opening parenthesis starts, as the grammar says; a full heap is an outcome. |
| SExpr.Reader.ReadList | user/lisp/lisp.c:131-153 | The recursive descent over a list computes the grammar function, with the frames of the root stack, the reachable cells and allocptr accounted for. |
| SExpr.Reader.ReadDotted | user/lisp/lisp.c:138-148 | A dotted tail gives a pair if a closing parenthesis follows and nil otherwise; the cells of a dropped pair stay taken. |
| SExpr.Reader.Read | user/lisp/lisp.c:155-163 | An unexpected closing parenthesis reads as nil; otherwise one object is read and exactly its text consumed, unless the root stack or the heap runs out. |
| SExpr.ReadBack | user/lisp/lisp.c:126-153 | Reading a printed tree followed by a delimiter makes its cells one by one, gives the tree back and consumes exactly its text, or stops exactly where the cells or frames run out. |
| SExpr.ReadElements | user/lisp/lisp.c:131-153 | The same for the inside of a list, dotted tails and nested nil included. |
| SExpr.BuildExact | user/lisp/lisp.c:100-153 | The cells of a tree can be made if and only if they fit beside the reachable ones and the root stack is deep enough for the tree and for the one collection there may be, at the cell where it falls; and where allocptr is then. |
| SExpr.BuildFails | user/lisp/lisp.c:436-457 | With cells enough it is the root stack that fails, with a frame to spare it is the heap. |
| SExpr.ObjCost | user/lisp/lisp.c:126-153 | Whatever is read is paid for by its text: no object has more atoms and parentheses than the tokens consumed, so a list with "." after its first element is never read back. |
| SExpr.RoundTrip | user/lisp/lisp.c:155-163 | For every tree of well-formed atoms and every state of heap and root stack: print then read is the identity if and only if no list has "." after its first element, the reachable cells and those of the tree are at most HEAPSIZE, and the frames suffice for the tree and for a collection at the cell where the space is full; without such dots the outcome is known in every case. |
| SExpr.RoundTripCodes | user/lisp/lisp.c:28-28 | The round trip by character codes: atoms of codes 33 to 39 and 42 to 126, blanks of codes 9 to 13 and 32. |
| SExpr.SumIsRead | user/lisp/lisp.c:126-153 | (+ 1 2) reads as the list of its three atoms. |
| SExpr.SpaceDecides | user/lisp/lisp.c:436-457 | With one frame more than the height of the tree the cells alone decide between the tree and "Out of memory"; with cells enough but fewer frames than the height the root stack overflows. |
| SExpr.TextInjective | user/lisp/lisp.c:289-316 | Different readable trees print differently, of any depth and size. |
| SExpr.LongListAborts | user/lisp/lisp.c:454-456 | No flat list of 49 atoms or more can be read back from the main loop: it exhausts the 50 frames of the root stack, or the heap if there are not even 49 cells. |
| SExpr.CompleteTreeAborts | user/lisp/lisp.c:444-447 | A complete tree of 14 levels is shallow enough for the root stack and ends in "Out of memory", whatever the state of the heap. |
| SExpr.DotIsNotAnElement | user/lisp/lisp.c:138-140 | A list whose second element is "." and whose third is the last prints like the dotted pair of the other two, and is read as that pair. |
| SExpr.MalformedDot | user/lisp/lisp.c:138-148 | More than one object after a dot reads as nil, and reading goes on behind the second. |
| SExpr.StrayParenthesis | user/lisp/lisp.c:155-163 | A closing parenthesis that closes nothing reads as nil. |
| SExpr.LongTokens | user/lisp/lisp.c:107-124 | An atom of 255 characters is read, one of 256 is written past its buffer, a longer one aborts, and the end of the input exits. |
| SExpr.Interner.Intern | user/lisp/lisp.c:61-74 | Two calls return the same address exactly when the names are equal, over any run of calls and hash collisions. |
| SExpr.LispEqualExact | user/lisp/lisp.c:165-173 | Comparing interned addresses decides equality of trees, both ways. |
| Allocator.Heap.FindPlace | ulib/umalloc.c:30-32 | The search of free ends at the free block that the freed one belongs after, from any start of the ring. |
| Allocator.Heap.Join | ulib/umalloc.c:33-43 | The two coalescing tests and their header updates. |
| Allocator.InsertSpaced | ulib/umalloc.c:25-44 | Inserting a block and joining what touches keeps the free blocks in address order, disjoint and nowhere adjacent. |
| Allocator.InsertLinked | ulib/umalloc.c:33-42 | The updated headers form the ring of exactly those blocks. |
| Allocator.InsertUnits | ulib/umalloc.c:33-42 | Coalescing neither gains nor loses units. |
| Allocator.Heap.Free | ulib/umalloc.c:25-44 | The freed block leaves the live blocks and joins the free ones; free plus live units stay what sbrk has given. |
| Allocator.Heap.Morecore | ulib/umalloc.c:47-61 | Asks for at least 4096 units; what is granted becomes free and some free block is then large enough. |
| Allocator.Heap.TakeWhole | ulib/umalloc.c:76-77 | A block of exactly the size is unlinked from the ring and becomes live. |
| Allocator.Heap.TakeTail | ulib/umalloc.c:78-82 | A larger block loses its tail, which becomes live; the rest stays free. |
| Allocator.Heap.Take | ulib/umalloc.c:75-86 | The last n units of the block that was found; the rest of it, if any, stays free. |
| Allocator.Heap.Malloc | ulib/umalloc.c:64-90 | Both loops end, and sbrk is asked at most once, exactly when no free block is big enough. A block of exactly the units that hold the header and the bytes is handed out: the end of the first block that is big enough in the order of the ring from freep on, where the next search then starts. NULL exactly when sbrk refuses and nothing fits. |
| Allocator.Heap.Begin | ulib/umalloc.c:70-73 | The first call makes the empty static header the whole ring. |
| Allocator.Heap.Scribble | ulib/umalloc.c:84-84 | Writing anything into the payload of a live block disturbs neither the ring nor any size. |
| Allocator.FreeUndoesCut | ulib/umalloc.c:78-82 | Freeing the tail that malloc cut off restores the free blocks exactly. |
| Allocator.FreeUndoesTake | ulib/umalloc.c:76-77 | Freeing a block that malloc took whole restores the free blocks exactly. |
| Allocator.UnitsExact | ulib/umalloc.c:69-69 | The units computed are the fewest that hold the header and the bytes. |
| Allocator.RequestFitsInt | ulib/umalloc.c:54-54 | The byte count given to sbrk survives its int parameter exactly for requests up to 0x7FFFFFE0 bytes. |
| Bitmap.SetBitGet | kernel/fs/fs1.c:62-64 | Setting or clearing one bit of a bitmap block changes that bit and no other. |
| Bitmap.BitCounts | kernel/fs/fs1.c:62-64 | Bit k of a byte is the one that counts 2^k. |
| Inodes.PutInodeGet | kernel/fs/fs1.c:194-208 | An inode stored in its slot is read back, and the other inodes of the block are unchanged. |
| Inodes.DiskFormat | kernel/fs/fs1.c:194-208 | Where the inodes and the bitmap are: four inodes of 32 words in each sector from 2 on, size and addresses in their words, and one bit for each block in the sectors after them. |
| Inodes.MarkGet | kernel/fs/fs1.c:83-89 | Marking a block changes the in-use bit of that block and of no other. |
| Inodes.TakenKeeps | kernel/fs/fs1.c:63-68 | Taking a free block and zeroing it changes no reference and no data of any inode. |
| Inodes.AttachKeeps | kernel/fs/fs1.c:263-289 | Referring to a freshly taken block from one empty slot keeps every referenced block marked and referred to once. |
| Inodes.DetachKeeps | kernel/fs/fs1.c:302-305 | Clearing the only reference to a block keeps the volume consistent and leaves the block without referrer. |
| Inodes.UnmarkKeeps | kernel/fs/fs1.c:77-91 | Clearing the bit of a block nobody refers to keeps the volume consistent. |
| FileLayer.File.Put | kernel/fs/fs1.c:40-47 | One update of the logical disk, entered in the list of updates that the transaction consists of. |
| FileLayer.File.Balloc | kernel/fs/fs1.c:52-74 | Takes the lowest free block and zeroes it; panics exactly when every block is in use. |
| FileLayer.File.Bfree | kernel/fs/fs1.c:77-91 | Clears the bit; the panic is reached exactly when it was clear already. |
| FileLayer.BytesAt | kernel/fs/fs1.c:263-289 | Byte k of a file below 28 blocks is in the block that address k / 512 names, beyond that in the one that word k / 512 - 28 of the indirect block names, and zero where none is named. |
| FileLayer.File.Bmap | kernel/fs/fs1.c:263-289 | The block that holds block bn of the file through direct slots, the indirect pointer or an indirect slot; a missing one is allocated and zeroed, a block that exists is returned without any change. Ends well exactly when bn is in range and as many blocks are free as have to be added, none, one or two; exactly those are taken. The address returned is the one in place bn of the inode or bn - 28 of the indirect block, the old one if it was not zero, and no other place changes. |
| FileLayer.File.Iupdate | kernel/fs/fs1.c:194-208 | The on-disk inode equals the in-memory one; no other inode and no block reference changes. |
| FileLayer.File.ReadChunk | kernel/fs/fs1.c:344-349 | One turn of the read loop yields the next piece of the file and changes the contents of no file. |
| FileLayer.File.ReadChunks | kernel/fs/fs1.c:344-349 | The loop of fs1_readi: the requested bytes, exactly when enough blocks are free to fill the holes in the range; a range without holes changes nothing. |
| FileLayer.File.Readi | kernel/fs/fs1.c:335-351 | For every file, holes included: the slice from off, clipped to the size, a hole reading as zeros; -1 exactly when off is past the end or off + n wraps; completes exactly when the missing blocks of the range can be allocated, taking exactly those; no file changes its bytes. |
| FileLayer.File.WriteChunk | kernel/fs/fs1.c:364-368 | One turn of the write loop puts the next piece of src in its block and leaves all other bytes of all files alone; completes exactly when the blocks it has to add are free. |
| FileLayer.File.WriteChunks | kernel/fs/fs1.c:363-369 | After the loop the file holds its old bytes with src written over them from off; completes exactly when all the missing blocks of the range can be had, counted exactly, indirect block included. |
| FileLayer.File.Writei | kernel/fs/fs1.c:354-376 | The contents become c[..off] + src + c[off + n..]; every block is marked and has one referrer; every other file keeps its bytes. Refusal exactly for off past the end or too large a file, and then nothing changes; otherwise it completes if and only if there are as many free blocks as the range lacks, and takes exactly those. A file without holes stays so. The inode on disk equals the one in memory if the file grew, and else exactly when the inode already had an address for every block of the range, or for the indirect block that lists it. All its updates are to the bitmap, the blocks of the range, the indirect block and the inode block. |
| FileLayer.NeededInRange | kernel/fs/fs1.c:335-376 | Reading or overwriting below the size of a file without holes needs no free block at all. |
| FileLayer.NothingNeeded | kernel/fs/fs1.c:263-289 | The count of blocks needed is zero exactly when every block of the range is allocated. |
| FileLayer.NeededMore | kernel/fs/fs1.c:263-289 | The free blocks needed for a range are those for its first part and those for the rest once the first part is there, the indirect block counted once; so the rest can be mapped exactly when the whole can. |
| FileLayer.ReachSize | kernel/fs/fs1.c:354-376 | A write updates at most as many sectors as the volume has bitmap blocks, plus the blocks of the range, the indirect block and the inode block; a truncation the bitmap and inode blocks only. |
| FileLayer.File.FreeDirect | kernel/fs/fs1.c:301-306 | Frees exactly the blocks of the direct slots. |
| FileLayer.File.FreeEntries | kernel/fs/fs1.c:311-314 | Frees exactly the blocks listed in the indirect block. |
| FileLayer.File.FreeIndirect | kernel/fs/fs1.c:308-318 | Frees what the indirect block lists and the indirect block itself. |
| FileLayer.File.Itrunc | kernel/fs/fs1.c:296-322 | The file is empty, exactly the blocks it referred to become free, "freeing free block" is not reached, other files keep their bytes, and the inode is stored. All its updates are to bitmap blocks and the inode block. |
| FileLayer.OtherFilesSame | kernel/fs/fs1.c:354-376 | What the write and truncate contracts keep of the other inodes implies that the bytes of every other file, and its having no holes, are unchanged. |
| FileLayer.WrittenBytes | kernel/fs/fs1.c:363-374 | A file whose blocks hold src over its old bytes, with its size updated, has the spliced contents. |
| FileLayer.GrownBytes | kernel/fs/fs1.c:263-289 | Allocating blocks for a file changes none of its bytes, since new blocks are zero and holes read as zero. |
| Volume.LogUpdates | kernel/fs/fs1.c:40-47 | The updates of a file operation, each through its buffer and log_write: readers then see the disk that the file layer computed, and the device has not changed. It gets through exactly when every update finds an open operation and room for a sector in the log. |
| Volume.FewFit | kernel/log.c:204-220 | Updates that name few enough sectors, however many updates there are, are taken by the log and can be committed. |
| Volume.FilesOutside | kernel/log.c:66-73 | Whatever happens to the sectors of the log, a volume with no file block among them keeps every file and every inode. |
| Volume.LowestIsSame | kernel/fs/fs1.c:52-74 | fs1_balloc goes beyond the first n blocks exactly when all of them are in use, and otherwise takes the same block as on a volume that ends there. |
| Volume.CommitFile | kernel/log.c:144-193 | The pending updates of an operation through log_write and end_op, as one transaction: stop after any number of sector writes, crash during recovery any number of times, recover: every file and the free blocks are as before if the header was not written and as after otherwise. It returns exactly when log_write takes the updates and they name fewer sectors than there are buffers; then the files of after are on the device and operations may begin again. |
| Volume.WriteFile | kernel/fs/fs1.c:354-376 | fs1_writei between begin_op and end_op, end to end: after a crash at any moment and any number of crashes during recovery the file holds its old bytes or c[..off] + src + c[off + n..], every other file its old bytes, exactly the missing blocks are taken, and the inodes on disk are those of these files, except exactly for a write below the size to a block for which the inode had no address. When it returns, the written file is in memory and on the device and the log is free; it returns whenever blocks are free for the range and the log has room for the sectors counted beforehand. |
| Volume.FileWriteFits | kernel/file.c:141-141 | The size that filewrite cuts its writes to always leaves room in the log, on volumes of up to 12 bitmap blocks. |
| Volume.TruncateFile | kernel/fs/fs1.c:296-322 | fs1_itrunc between begin_op and end_op: after any crash and any recovery the file is whole or empty, its blocks taken or free with it, and every other file is as it was; it returns when the log has room for the bitmap and the inode block. |
| FileWrite.Write | kernel/file.c:126-160 | filewrite as a whole: after a crash at any sector write of any of its operations, and any number of crashes during recovery, the file is its old bytes with a number of whole pieces of src written, every other file is as it was, and the inodes on disk agree if the file had no holes. When it returns, exactly the pieces that end within the largest file are written, in memory and on the device, the offset has moved by as much, and the result is n if that is all and -1 otherwise. On volumes of up to 12 bitmap blocks it returns if and only if blocks are free for what it writes. |
| FileWrite.WritePiece | kernel/file.c:144-153 | One turn of the loop: a write between begin_op and end_op that leaves the file ready for the next one, or a refusal that changes nothing. |
| FileWrite.PieceHeld | kernel/file.c:143-158 | A piece written, or not, on top of a prefix of src leaves a prefix of src; a file without holes keeps its inode on disk up to date. |
| FileWrite.ErrorAfterPieces | kernel/file.c:154-159 | The result -1 comes after bytes have been written exactly when the first piece fits the largest file and the whole of src does not. |
| FileWrite.PieceSize | kernel/file.c:141-147 | A piece is 13 blocks long: 6656 bytes are one operation. |
| SleepWakeup.StepKeepsLocks | kernel/spinlock.c:20-78 | Every step of every process and of the scheduler keeps the lock fields in agreement with who stands where. |
| SleepWakeup.MutualExclusion | kernel/spinlock.c:32-78 | In every reachable state at most one process holds a given lock. |
| SleepWakeup.StillOnItsWay | kernel/proc.c:484-501 | A setter that has not passed a sleeper stays on its way to it until it wakes it, whatever else runs. |
| SleepWakeup.CondStep | kernel/proc.c:448-479 | Only a setter that holds the lock makes a condition true, and it is then on its way to every sleeper. |
| SleepWakeup.DozeStep | kernel/proc.c:448-479 | A process comes to sleep only through its own test of the condition under the lock, with the lock dropped after ptable.lock is held. |
| SleepWakeup.StepKeeps | kernel/proc.c:448-501 | Every step, waiters that take the condition and go on included, keeps: whoever is between its test and its sleep, or asleep, has a false condition or a setter coming. |
| SleepWakeup.NoLostWakeup | tools/sleep1.p:61-133 | No lost wakeup, for any number of processes and conditions and every interleaving: a true condition with a sleeper on its channel means that some setter has yet to look at that sleeper. A waiter may take the condition and go on, or give up at a test. Setters may call wakeup before or after releasing the lock; a condition may be protected by ptable.lock itself; sleepers may be killed. |
| SleepWakeup.WakeupDelivered | kernel/proc.c:484-501 | The setter that is coming arrives: in no continuation of the run does it take its remaining steps, at most p + 2, while process p sleeps on. |
| SleepWakeup.TestsBeforeLeaving | kernel/proc.c:467-479 | How sleep returns: in every run a process in its wait for a condition, asleep or not, is idle again only after it has stood at its test of the condition holding the lock. |
| SleepWakeup.WokenTestsAgain | kernel/proc.c:467-479 | A woken process can get there: the scheduler resumes it and it takes the lock again and tests. |
| SleepWakeup.FalseSleeps | kernel/proc.c:448-466 | A waiter that finds its condition false is asleep after its own steps, with the lock released. |
| SleepWakeup.SetterWakes | kernel/proc.c:484-501 | A setter under the lock of the condition wakes the sleeper and ends. |
| SleepWakeup.TableSetterWakes | kernel/proc.c:484-501 | So does one whose condition is protected by ptable.lock. |
| SleepWakeup.OtherSteps | kernel/proc.c:506-523 | kill makes any sleeping process runnable, a setter may release the lock before it wakes anyone, and the scheduler may take and release ptable.lock. |
| SleepWakeup.ConsumerGoesOn | tools/sleep1.p:97-114 | There is a run in which a consumer finds the condition true, makes it false, releases the lock and goes on. |
| SleepWakeup.UnlockedSetterLosesWakeup | tools/sleep1.p:96-133 | The lock is needed: a setter that ignores it can leave a waiter asleep on a true condition with nobody coming. |
| Scheduler.Table.Pass | kernel/proc.c:349-392 | A pass picks the last process of the highest effective priority among the runnable ones, on a reserved CPU the blessed ones; it runs with its skips cleared, every other one of them has one skip more, and nothing else changes. None is picked exactly when there are none. |
| Scheduler.Pick | kernel/proc.c:353-383 | The choice of a pass as a function of the list. |
| Scheduler.EffectiveExact | kernel/proc.c:362-368 | Skips raise a priority above 0x0A, up to 0xFF, exactly as long as their sum is below 2^32; they raise no other. |
| Scheduler.LowWaits | kernel/proc.c:362-383 | A process of priority at most 0x0A is not picked while one of higher priority waits whose sum does not wrap. |
| Scheduler.WrappedLoses | kernel/proc.c:362-364 | The condition is needed: a counter near 2^32 makes priority 100 lose to priority 5. |
| Scheduler.CapRuns | kernel/proc.c:362-383 | Once a process is at the priority cap, whoever runs falls too far behind to run again first, so it runs within one turn each. |
| Scheduler.BoundedWait | kernel/proc.c:335-400 | With n eligible, always runnable processes of priority at most P and P + n <= 256, each of priority p > 0x0A runs within (255 - p) + n passes. |
| Scheduler.CrowdStarves | kernel/proc.c:362-383 | Whenever P + n > 256, of n runnable processes of priority P that start without skips the first never runs. |
| Scheduler.WarmRotates | kernel/proc.c:362-383 | How it happens: after 256 - P passes the last 256 - P of them take turns for ever. |
| Scheduler.BoundExact | kernel/proc.c:335-400 | The bound holds for all crowds of n processes up to priority P if and only if P + n <= 256. |
| AcceptQueue.LinkedQueue.Empty | include/UQueue.tcc:45-48 | True exactly when the queue holds nothing. |
| AcceptQueue.LinkedQueue.Front | include/UQueue.tcc:62-65 | The oldest element. |
| AcceptQueue.LinkedQueue.Push | include/UQueue.tcc:82-96 | The element goes to the end of the chain; the ends stay consistent, also from empty. |
| AcceptQueue.LinkedQueue.Pop | include/UQueue.tcc:98-104 | The oldest element leaves; the last pointer is cleared when none is left. |
| AcceptQueue.QueueTable.Push | include/UQueue.tcc:82-96 | Pushing on the queue of one block leaves the queues of all others alone. |
| AcceptQueue.QueueTable.Pop | include/UQueue.tcc:98-104 | Popping from the queue of one block returns its oldest element and leaves the other queues alone. |
| Tcp.Demultiplex | include/UProtocols4.tcc:1061-1083 | The search loop finds the first exact match, else for a SYN the first free block and the first listener on the port. |
| Tcp.TargetUnique | include/UProtocols4.tcc:1061-1100 | That choice is determined by the table and the segment. |
| Tcp.TargetConnects | include/UProtocols4.tcc:1061-1100 | A segment reaches the first block with its ports, address and interface if there is one; a new block, the first free one, is only for a SYN to the first listener on its port. |
| Tcp.SynTaken | include/UProtocols4.tcc:780-806 | A SYN without ACK and RST is answered and both initial numbers are remembered; any other segment leaves a listening block as it is. |
| Tcp.PayloadTaken | include/UProtocols4.tcc:1010-1025 | The payload of an expected segment is appended to the buffer in the states that take data, and Next moves on by its length and one more for a FIN. |
| Tcp.FinEdges | include/UProtocols4.tcc:930-951 | An expected FIN leads to CLOSE_WAIT from SYN_RECEIVED and ESTABLISHED, from FIN_WAIT_1 to FIN_WAIT_2, or to TIME_WAIT if all is acknowledged, and from FIN_WAIT_2 to TIME_WAIT. |
| Tcp.OtherEdges | include/UProtocols4.tcc:857-907 | Where an expected segment without a FIN leads. |
| Tcp.LastEdges | include/UProtocols4.tcc:898-914 | The last acknowledgement ends CLOSING in TIME_WAIT and LAST_ACK in a cleared block. |
| Tcp.OthersIgnored | include/UProtocols4.tcc:971-985 | A segment out of sequence, without ACK, with RST or with SYN changes nothing. |
| Tcp.BeyondIgnored | include/UProtocols4.tcc:890-894 | Nor does one that acknowledges what was never sent. |
| Tcp.HandledKeeps | include/UProtocols4.tcc:954-1026 | Handling a segment keeps what is known of a forked block; it never leads back from ESTABLISHED, and to it only by completing the handshake. |
| Tcp.HandledShape | include/UProtocols4.tcc:954-1026 | What a segment does to the buffer, the window and Next, when payload is stored and when it is not. |
| Tcp.StepKeeps | include/UProtocols4.tcc:1041-1106 | Every arriving segment, Accept and Receive keeps: queue history is what was accepted plus what waits, each child queued as often as it was established, at most once. |
| Tcp.HandshakeAndAccept | include/UProtocols4.tcc:662-702 | Over every run without Close: a block is established at most once, the blocks queued on a parent are its established children, each once, and Accept has returned them first-in first-out with none lost or repeated. |
| Tcp.ConnectionOpens | include/UProtocols4.tcc:1041-1106 | In every state of a run: a SYN to a listening port with a block free, and then the acknowledgement of the answer, give an established block at the end of the queue of the listener, ready to be accepted. |
| Tcp.EstablishedBy | include/UProtocols4.tcc:857-871 | In every reachable state the handshake completes exactly on a segment at IRS + 1 with ACK and without SYN or RST whose acknowledgement is ISS or ISS + 1, and never when ISS is the last number before the wrap. |
| Tcp.StatesReached | include/UProtocols4.tcc:359-372 | Without Close no block is ever in SYN_SENT, CLOSING, FIN_WAIT_1, FIN_WAIT_2, LAST_ACK or TIME_WAIT. |
| Tcp.CompletesExactly | include/UProtocols4.tcc:857-871 | Of a block that has answered a SYN: the segments that complete the handshake, both ways. |
| Tcp.AckAdvances | include/UProtocols4.tcc:882-907 | The acknowledged number moves exactly on an in-sequence segment that acknowledges more than before and no more than was sent, and then to its acknowledgement. |
| Tcp.AckBounded | include/UProtocols4.tcc:882-907 | In every reachable state, with any data sent in between, the next number to send is ISS + 1 plus what was sent, and what is acknowledged lies between ISS and that, not counted modulo 2^32. |
| Tcp.HandledStream | include/UProtocols4.tcc:916-928 | One segment extends the received stream by its payload if it is the next in sequence and by nothing otherwise; only payload that is stored has to come from the peer. |
| Tcp.TakenStream | include/UProtocols4.tcc:704-728 | Receive moves bytes from the buffer to the program and changes neither their order nor their sum. |
| Tcp.TakenExactly | include/UProtocols4.tcc:721-724 | Receive takes exactly the first bytes of the buffer, as many as asked for or all. |
| Tcp.WindowExact | include/UProtocols4.tcc:916-928 | Window plus buffered bytes stays 2000 exactly when the payload fits the window, which the code does not test. |
| Tcp.Stream | include/UProtocols4.tcc:704-728 | Whatever segments are lost, repeated, reordered or forged without being stored: the bytes returned by Receive followed by those buffered are the start of the peer stream, Next is the number of the byte after them until the FIN, and window plus buffered bytes is 2000. |
| Tcp.FinEndsStream | include/UProtocols4.tcc:704-717 | After an expected FIN the block is in CLOSE_WAIT in every later state, so that Receive returns 0 once the buffer is empty, and the bytes received are for ever those before the FIN. |
| Tcp.StaleSegmentStored | include/UProtocols4.tcc:971-975 | Why segments must be less than 2^32 bytes old: an older one carries the same number as the next and is stored in its place. |
| TcpStack.Stack.constructor | include/UProtocols4.tcc:1029-1039 | An initial table satisfies the invariant with empty queues. |
| TcpStack.Stack.DoListen | include/UProtocols4.tcc:780-806 | A SYN without RST and ACK sets both sequence spaces and moves to SYN_RECEIVED; anything else changes nothing. |
| TcpStack.Stack.DoSynReceived | include/UProtocols4.tcc:857-871 | An acknowledgement within the bounds establishes the block and puts it at the end of the queue of its parent. |
| TcpStack.Stack.DoClosing | include/UProtocols4.tcc:882-907 | Advances the acknowledged number, and ends the handling of a segment that acknowledges too much. |
| TcpStack.Stack.StoreData | include/UProtocols4.tcc:916-928 | Payload goes after the buffered bytes; Next and the window move by its length. |
| TcpStack.Stack.Terminate | include/UProtocols4.tcc:930-951 | A FIN takes one sequence number and moves the state along; what that means is FinEdges. |
| TcpStack.Stack.Progress | include/UProtocols4.tcc:987-1025 | The second half of TCB::Main, with its fall-through from the handshake into acknowledgement, data and FIN. |
| TcpStack.Stack.Handle | include/UProtocols4.tcc:954-1026 | Updating the fields in the order of the code is a step of the run machine. |
| TcpStack.Stack.Arrive | include/UProtocols4.tcc:1041-1106 | Finding or forking the block and handling the segment is a step of the run machine. |
| TcpStack.Stack.Accept | include/UProtocols4.tcc:662-702 | Refuses exactly when the block is not listening, sleeps exactly when its queue is empty, else returns the block queued longest. |
| TcpStack.Stack.Receive | include/UProtocols4.tcc:704-728 | Returns exactly the first bytes buffered, up to the size asked for, which leave the buffer; with nothing buffered sleeps in ESTABLISHED, FIN_WAIT_1 and FIN_WAIT_2 and returns nothing in every other state. |
| TcpStack.Stack.Transmit | include/UProtocols4.tcc:730-747 | Refuses exactly when the block is not started or may not send; otherwise is a step of the run machine that moves the next number on by the size. |
| Regex.MatchHere | user/grep.c:83-94 | True exactly when some prefix of the text, all of it under a final $, is in the language of the pattern. |
| Regex.MatchStar | user/grep.c:97-104 | True exactly when some run of characters that the starred one matches leaves a text the rest of the pattern matches. |
| Regex.Match | user/grep.c:70-81 | True exactly when some slice of the text is in the language of the pattern, tied to the start by ^ and to the end by $; the mutual recursion ends. |
| Regex.PlainMatches | user/grep.c:70-94 | A pattern without *, ^ and $ matches exactly where the text agrees with it, any character for each dot; after ^ at the start, before $ at the end, and between both the whole text. |
| Regex.StarMatches | user/grep.c:97-104 | c* takes any number of c, or of anything for a dot, before the rest. |
| Regex.HereOne | user/grep.c:91-92 | Prefix matching of a single character, in the denotational semantics. |
| Regex.HereMany | user/grep.c:97-104 | Prefix matching of a starred character, in the denotational semantics. |
| Checksum.Fold | kernel/UProtocols.cc:604-607 | Folding ends and gives the one 16-bit value congruent to the sum modulo 65535 that is zero only for a zero sum. |
| Checksum.Packet.VerifyChecksum | kernel/UProtocols.cc:879-895 | Returns the complement of the folded sum of the words, the checksum field left out when only computing; with a starting sum it is the TCP form. |
| Checksum.StoredVerifies | kernel/UProtocols.cc:571-574 | The value computed with the field left out, stored in the field, makes verification return 0. |
| Checksum.ValidExactly | kernel/UProtocols.cc:596-609 | The values of the field that verify are exactly those congruent to the computed one modulo 65535, unless everything is zero. |
| Checksum.Packet.SetWord | kernel/UProtocols.cc:571-574 | Storing a word in network order changes that word of the packet and no other byte. |
| Checksum.Packet.Seal | kernel/UProtocols.cc:879-895 | Compute, store: the packet verifies to 0 and no byte outside the field has changed. |
| Checksum.Packet.SealHeader | kernel/UProtocols.cc:596-609 | The instance of the 20-byte IPv4 header. |
| Pipe.Ring.constructor | kernel/pipe.c:26-49 | A new pipe is an empty queue, open at both ends. |
| Pipe.Ring.Put | kernel/pipe.c:98-98 | One byte goes to the end of the queue, also across the wrap of the 32-bit counter. |
| Pipe.Ring.Get | kernel/pipe.c:128-128 | One byte leaves the front of the queue. |
| Pipe.Counters | kernel/pipe.c:85-85 | The tests on the wrapped counters decide full and empty exactly. |
| Pipe.Ring.WaitForRoom | kernel/pipe.c:84-97 | Passes exactly when there is room; otherwise ends with F_ERROR if the reader is gone or the process is seen killed, else with FNOT_READY. |
| Pipe.Ring.Write | kernel/pipe.c:76-103 | The queue grows by the whole of the bytes if they fit and then n is returned; otherwise by as many as fit, and an error code is returned all the same. |
| Pipe.Ring.WaitForData | kernel/pipe.c:112-124 | Passes exactly when there is a byte or the writer is gone. |
| Pipe.Ring.Read | kernel/pipe.c:105-133 | Returns and removes the first bytes of the queue, at most n; all bytes ever read are a prefix of all bytes ever placed. |
| AddressSpace.Machine.Kalloc | kernel/kalloc.c:84-95 | The head of the free list, which is then no longer free. |
| AddressSpace.Machine.Kfree | kernel/kalloc.c:63-81 | The page is filled with junk and becomes the head of the free list. |
| AddressSpace.Machine.SetupKvm | kernel/vm64.c:126-143 | With three free pages, a directory that maps no user page, under two new tables that lead to it: slots 511 and 510 name them, and entry 511 of the upper one is the table of the kernel. With fewer, a trap if address 0 is not writable in the loaded space, and otherwise a null result with the page at address 0 overwritten, word by word, and all free pages lost. |
| AddressSpace.SwitchedTranslates | kernel/vm64.c:176-188 | With the table that slot 511 names in CR3, as switchuvm loads it, the four-level walk of the processor ends for every user address in the entry of its page. |
| AddressSpace.ChildTranslates | kernel/vm.c:179-205 | So for every address of a finished copy the processor finds the bytes of the parent, with its flags. |
| AddressSpace.Machine.StoreNull | kernel/vm64.c:131-140 | The stores through null pointers in the order of the code leave exactly the stated page at address 0 and touch no other page of the space. |
| AddressSpace.PageZeroChanged | kernel/vm64.c:131-140 | A program with a byte other than zero anywhere in its first page but the first 8 and the last 16 bytes has lost it. |
| AddressSpace.Machine.Walk | kernel/vm.c:19-37 | The page has a page table, a new zeroed one if there was none; no mapping changes. |
| AddressSpace.WithTableKeeps | kernel/vm.c:26-33 | A new empty page table changes no mapping and shares its frame with no other. |
| AddressSpace.WithLeafMaps | kernel/vm.c:53-53 | Storing an entry changes the mapping of that page only. |
| AddressSpace.Machine.MapPage | kernel/vm.c:41-60 | Maps one page and no other; "remap" exactly when the page is mapped already; fails exactly when there is no table and no free frame, and then without effect. |
| AddressSpace.Machine.CopyPage | kernel/vm.c:187-199 | One page more is copied; the panic exactly for a page missing in the parent; out of memory exactly when fewer frames are free than the page and its table need. |
| AddressSpace.Machine.FreePage | kernel/vm.c:138-145 | One turn of the loop: the frame of a mapped page becomes free and the page unmapped. |
| AddressSpace.Machine.Deallocuvm | kernel/vm.c:126-148 | Exactly the mapped pages from the first page the loop visits up to oldsz are unmapped and their frames freed, each once. That is every mapped page from newsz on if and only if none is mapped before the first one visited, as when it starts at the start of a table. |
| AddressSpace.FreesAllExactly | kernel/vm.c:133-147 | That if-and-only-if. |
| AddressSpace.AlignedMissesNothing | kernel/vm.c:133-137 | Stepping over a missing table from the start of one skips no mapped page. |
| AddressSpace.UnalignedMisses | kernel/vm.c:133-137 | From inside a missing table the step of a whole table passes over every page from the start of the next table up to the same offset in it, mapped or not. |
| AddressSpace.Machine.CopyUvm | kernel/vm.c:179-205 | With three frames free and every page of [0, sz) present, copies exactly when the frames suffice: each page to a fresh, pairwise distinct frame with the bytes and flags of the parent, nothing else mapped, the parent unchanged. Panics exactly when a missing page is reached before memory runs out. A failed copy gives back all but an exact number of frames. With fewer than three frames it fails with page 0 of the parent overwritten, or traps if that is not writable. A finished copy has the upper tables of setupkvm in place. |
| AddressSpace.PagesExactly | kernel/vm.c:187-187 | The pages copied are those that begin below sz. |
| AddressSpace.OutcomeExact | kernel/vm.c:187-204 | Which of success, panic and failure it is depends only on the pages present and the number of free frames, and exactly how. |
| AddressSpace.LosesAtMostThree | kernel/vm.c:152-205 | A failed copy loses at most three frames if and only if there were too few frames to copy two pages beyond 0x3fa00000. |
| AddressSpace.LosesMany | kernel/vm.c:152-205 | Copying the largest space with one frame too few loses 513 frames. |
| AddressSpace.Machine.Freevm | kernel/vm.c:152-164 | Exactly the page tables, the directory and the frames mapped below 0x3fa00000 become free; nothing else changes. |
| AddressSpace.CopyIsApart | kernel/vm.c:179-205 | A finished copy shares no frame with its parent and reads the same bytes. |
| AddressSpace.WriteIsolated | kernel/vm.c:179-205 | A store through one of two separate spaces changes nothing the other reads. |
| AddressSpace.Isolation | kernel/vm.c:179-205 | Over every interleaving of stores through two separate spaces, the second reads what it would read if it ran alone. |
| AddressSpace.BothIsolated | kernel/vm.c:179-205 | The same for both spaces, parent and child, at once. |

## Left out

- BufferCache.Cache.Bread: one call at a time; a busy buffer is the outcome MustSleep and waking up is the subject of SleepWakeup. The two device drivers are one atomic, faultless sector transfer.
- BufferCache.Cache.Brelse: takes for granted that the holder has pinned or written what it changed, as the callers of the cache promise; that bwrite and brelse panic on an idle buffer is a precondition.
- Log.Log.Commit: runs alone, as end_op ensures; the admission of concurrent operations around it is LogAdmission. log_write is one atomic step although the code takes no lock there.
- Log.Log.LogWrite: for buffers of the log's own device, which is the only one with a log; the code does not compare devices.
- LogAdmission.NeverPanics: each operation makes at most MAXOPBLOCKS calls of log_write, which the callers promise and kernel/file.c:141 does not keep.
- Collector.Heap.GcAlloc: not for T_LAMBDA cells, whose arguments the code does not protect; gc_protect and gc_pop in the evaluator are not modelled.
- SExpr.RoundTrip: trees of conses, nil and atoms; the printed forms of functions cannot be read. What is reachable when reading starts is a number of cells and of frames; that a collection keeps exactly the reachable cells is Collector.Heap.GcAlloc, whose rule for allocptr is used here. A token of exactly 256 characters, whose terminator the code writes past its buffer, is an outcome of its own.
- Allocator.Heap.Malloc: sbrk is a parameter that grants memory nobody has or refuses; requests beyond RequestFitsInt and pointers that did not come from malloc are outside the contract. A header is one unit with a link and a size, not 16 bytes.
- FileLayer.File.Writei: one call at a time; the superblock is constant; type, major, minor and nlink are carried as two words.
- Volume.CommitFile: of the only operation open; while others are, end_op leaves the updates to the last of them (LogAdmission).
- Volume.WriteFile: one file operation per transaction and its updates one after the other, none of them pending when it starts; fs1_bmap keeps the buffer of the indirect block while fs1_balloc runs.
- FileWrite.Write: alone, with the inode locked; on an inode and for n of 0 or more, a negative n being an immediate -1.
- FileLayer.File.Balloc: takes a log block when all lower ones are in use and mkfs has not marked it; what the log and such a file then do to each other is not modelled.
- SleepWakeup.NoLostWakeup: acquire and release are single steps (the exchange instruction); interrupt masking, the timeout of sacquire and yielding by a process without locks do not appear.
- Scheduler.BoundedWait: one CPU, whose chosen process is runnable again at the next pass; the skip counter of the waiting process is below 2^31.
- Scheduler.Table.Pass: the list is the nodes the loop visits; the loop never visits the last allocated node, and neither does the allocation of processes.
- Tcp.Stream: payload that is stored fits the window offered, without which the window no longer counts (WindowExact), and is less than 2^32 bytes old, without which the claim is false (StaleSegmentStored).
- Tcp.HandshakeAndAccept: segments have a source port other than 0, which would match a listener as if it were its connection and has no parent to queue on, and payload that is stored fits the window, as for Stream.
- TcpStack.Stack.Receive: on a block that has been forked; the code also reads the uninitialised window of others. What is put on the wire (SendControl, SendData), routes, Open, Bind and Close are not modelled; the initial send number is a parameter.
- Tcp.HandledKeeps: Close is the only way into FIN_WAIT_1 and LAST_ACK; the handling of segments in those states is in the model, the races of Close are not.
- Checksum.Packet.VerifyChecksum: for packets whose sum fits 32 bits, up to 65537 words; of an odd last byte the code reads the byte after it, which here is part of the packet. The field setters of the protocol headers are not modelled.
- Pipe.Ring.Write: the outcome of the timed lock and the sightings of proc->killed are parameters; nobody else can touch the ring while the lock is held, so a full pipe stays full.
- AddressSpace.Machine.CopyUvm: sizes up to 510 * 2 MB, the slots below the backpointers; entries are a frame and twelve flag bits, of which the walk of the processor looks at PTE_P; Fault is a store to an address 0 that is not writable. memmove and memset act on whole pages.
- AddressSpace.Machine.Kalloc: the free list is a sequence of frames rather than links inside the pages; its lock and kmalloc are left out.
- Device drivers, boot, traps, assembly, ext2, VFS, directories, path names, ARP, ICMP and UDP handling, sockets, console, the Lisp evaluator and the remaining user programs: hardware access, unfinished code or plumbing that would add only easy members.
- RouteTableMatch and the sort behind it: the comparator is not an order, so there is no law to state.
- TcpStack.Stack.StoreData: requires a payload within the window; what a larger one does to the window is WindowExact, what it does to memory beyond the buffer is not modelled.
- TcpStack.Stack.Handle: as StoreData.
- TcpStack.Stack.Arrive: as StoreData, and for a source port other than 0.
